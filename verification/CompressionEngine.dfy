/** The dispatcher over the coders, with the parameters it fixes for each. */
module Compression {
  import opened Types
  import RunLength
  import Dictionary
  import Lz77

  datatype Algorithm = Verbatim | RunLengthCoding | DictionaryCoding | Lz77Coding

  datatype CompressedData = CompressedData(
    algorithm: Algorithm,
    originalSize: nat,
    compressed: Bytes,
    dict: Option<seq<Bytes>>)

  /** What a payload stands for; None where the decoder would panic. */
  ghost function Meaning(c: CompressedData): Option<Bytes> {
    match c.algorithm
    case Verbatim => Some(c.compressed)
    case RunLengthCoding => Some(RunLength.Expanded(c.compressed))
    case DictionaryCoding => Some(Dictionary.Decoded(c.compressed, c.dict.GetOr([])))
    case Lz77Coding => Lz77.Decoded(c.compressed)
  }

  /** The payload is the one that the format and the fixed parameters of its coder allow. */
  ghost predicate IsPayload(data: Bytes, c: CompressedData) {
    match c.algorithm
    case Verbatim => c.compressed == data
    case RunLengthCoding => RunLength.Canonical(c.compressed) && RunLength.Expanded(c.compressed) == data
    case DictionaryCoding =>
      && c.dict.Some? && Dictionary.IsTopDictionary(data, 128, c.dict.value)
      && Dictionary.NoRepeats(c.dict.value) && Dictionary.IsGreedyCode(data, c.dict.value, c.compressed)
    case Lz77Coding => Lz77.IsGreedyCode(data, 255, 16, c.compressed)
  }

  /** Only the ties in the ranking of dictionary entries leave a choice. */
  lemma PayloadIsUnique(data: Bytes, c: CompressedData, d: CompressedData)
    requires IsPayload(data, c) && IsPayload(data, d) && c.algorithm == d.algorithm && c.dict == d.dict
    ensures c.compressed == d.compressed
  {
    match c.algorithm {
      case Verbatim =>
      case RunLengthCoding =>
        RunLength.CanonicalIsUnique(c.compressed, d.compressed);
      case DictionaryCoding =>
        Dictionary.GreedyCodeIsUnique(data, c.dict.value, c.compressed, d.compressed);
      case Lz77Coding =>
        Lz77.GreedyCodeIsUnique(data, 255, 16, c.compressed, d.compressed);
    }
  }

  /** Whatever algorithm is selected, the payload stands for the input. */
  method Compress(data: Bytes, algorithm: Algorithm) returns (c: CompressedData)
    ensures Meaning(c) == Some(data) && IsPayload(data, c)
    ensures c.algorithm == algorithm && c.originalSize == |data|
    ensures c.dict.Some? <==> algorithm.DictionaryCoding?
  {
    match algorithm {
      case Verbatim =>
        c := CompressedData(Verbatim, |data|, data, None);
      case RunLengthCoding =>
        var compressed := RunLength.RunLengthEncode(data);
        c := CompressedData(RunLengthCoding, |data|, compressed, None);
      case DictionaryCoding =>
        var compressed, dict := Dictionary.DictionaryCompress(data, 128);
        c := CompressedData(DictionaryCoding, |data|, compressed, Some(dict));
      case Lz77Coding =>
        var compressed := Lz77.Lz77Compress(data, 255, 16);
        Lz77.RoundTrip(data, 255, 16);
        c := CompressedData(Lz77Coding, |data|, compressed, None);
    }
  }

  method Decompress(c: CompressedData) returns (r: Option<Bytes>)
    ensures r == Meaning(c)
  {
    match c.algorithm {
      case Verbatim =>
        r := Some(c.compressed);
      case RunLengthCoding =>
        var out := RunLength.RunLengthDecode(c.compressed);
        r := Some(out);
      case DictionaryCoding =>
        var out := Dictionary.DictionaryDecompress(c.compressed, c.dict.GetOr([]));
        r := Some(out);
      case Lz77Coding =>
        r := Lz77.Lz77Decompress(c.compressed);
    }
  }

  method RoundTrip(data: Bytes, algorithm: Algorithm) returns (r: Option<Bytes>)
    ensures r == Some(data)
  {
    var c := Compress(data, algorithm);
    r := Decompress(c);
  }
}
