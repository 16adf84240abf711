/**
  Dictionary coding: the most frequent sequences of two to four bytes become two-byte
  references; raw bytes that look like a marker are escaped.
 */
module Dictionary {
  import opened Types

  const REFERENCE: u8 := 0xFE
  const ESCAPE: u8 := 0xFF
  const MAX_ENTRIES: nat := 253

  // ---------- counting sequences ----------

  predicate OccursAt(data: Bytes, w: Bytes, s: nat) {
    s + |w| <= |data| && data[s..s + |w|] == w
  }

  /** How often w occurs in data with a start below n. */
  ghost function OccursBefore(data: Bytes, w: Bytes, n: nat): nat
  {
    if n == 0 then 0 else OccursBefore(data, w, n - 1) + if OccursAt(data, w, n - 1) then 1 else 0
  }

  ghost function Occurrences(data: Bytes, w: Bytes): nat {
    OccursBefore(data, w, |data|)
  }

  lemma {:induction false} NoLateStart(data: Bytes, w: Bytes, n: nat)
    requires n <= |data| && n + |w| > |data|
    ensures OccursBefore(data, w, n) == Occurrences(data, w)
    decreases |data| - n
  {
    if n < |data| {
      NoLateStart(data, w, n + 1);
    }
  }

  /** The tally after all sequences shorter than `len` and the starts below `start` of length `len`. */
  ghost function TallyOf(data: Bytes, w: Bytes, len: nat, start: nat): nat {
    if 2 <= |w| < len then Occurrences(data, w) else if |w| == len then OccursBefore(data, w, start) else 0
  }

  ghost predicate Tallied(data: Bytes, freq: map<Bytes, nat>, len: nat, start: nat) {
    forall w: Bytes :: if w in freq then freq[w] == TallyOf(data, w, len, start) > 0
                       else TallyOf(data, w, len, start) == 0
  }

  method CountSequences(data: Bytes) returns (freq: map<Bytes, nat>)
    ensures Tallied(data, freq, 5, 0)
  {
    freq := map[];
    for len := 2 to 5
      invariant Tallied(data, freq, len, 0)
    {
      var stop := SaturatingSub(|data|, len - 1);
      for start := 0 to stop
        invariant Tallied(data, freq, len, start)
      {
        var w := data[start..start + len];
        TallyStep(data, freq, len, start, w);
        freq := freq[w := (if w in freq then freq[w] else 0) + 1];
      }
      TallyNextLength(data, freq, len, stop);
    }
  }

  lemma TallyStep(data: Bytes, freq: map<Bytes, nat>, len: nat, start: nat, w: Bytes)
    requires len >= 2 && Tallied(data, freq, len, start)
    requires start + len <= |data| && w == data[start..start + len]
    ensures Tallied(data, freq[w := (if w in freq then freq[w] else 0) + 1], len, start + 1)
  {
  }

  lemma TallyNextLength(data: Bytes, freq: map<Bytes, nat>, len: nat, stop: nat)
    requires len >= 2 && Tallied(data, freq, len, stop) && stop == SaturatingSub(|data|, len - 1)
    ensures Tallied(data, freq, len + 1, 0)
  {
    forall w: Bytes
      ensures TallyOf(data, w, len + 1, 0) == TallyOf(data, w, len, stop)
    {
      if |w| == len {
        NoLateStart(data, w, stop);
      }
    }
  }

  // ---------- choosing the entries ----------

  ghost predicate Repeated(data: Bytes, w: Bytes) {
    2 <= |w| <= 4 && Occurrences(data, w) > 1
  }

  /** a may stand before b: it is more frequent, or as frequent and not shorter. */
  ghost predicate Ranks(data: Bytes, a: Bytes, b: Bytes) {
    var m, n := Occurrences(data, a), Occurrences(data, b);
    m > n || (m == n && |a| >= |b|)
  }

  ghost predicate Ranked(data: Bytes, words: seq<Bytes>) {
    forall i, j | 0 <= i < j < |words| :: words[i] != words[j] && Ranks(data, words[i], words[j])
  }

  /** The best-ranked repeated sequences, as many as fit; ties are broken arbitrarily. */
  ghost predicate IsTopDictionary(data: Bytes, dictSize: nat, dict: seq<Bytes>) {
    && |dict| <= Min(dictSize, MAX_ENTRIES)
    && Ranked(data, dict)
    && (forall e | e in dict :: Repeated(data, e))
    && forall w: Bytes | Repeated(data, w) && w !in dict ::
         |dict| == Min(dictSize, MAX_ENTRIES) && forall e | e in dict :: Ranks(data, e, w)
  }

  /** Stable insertion of w: the library sort as an insertion into a ranked list. */
  method InsertRanked(words: seq<Bytes>, w: Bytes, freq: map<Bytes, nat>, ghost data: Bytes)
    returns (result: seq<Bytes>)
    requires Ranked(data, words) && w !in words && w in freq
    requires forall v | v in freq :: freq[v] == Occurrences(data, v)
    requires forall v | v in words :: v in freq
    ensures Ranked(data, result)
    ensures forall v :: v in result <==> v in words || v == w
  {
    var n := 0;
    while n < |words| && (freq[words[n]] > freq[w] || (freq[words[n]] == freq[w] && |words[n]| >= |w|))
      invariant n <= |words|
      invariant forall i | 0 <= i < n :: Ranks(data, words[i], w)
    {
      n := n + 1;
    }
    result := words[..n] + [w] + words[n..];
    RankedInsert(data, words, n, w);
  }

  lemma RankedInsert(data: Bytes, words: seq<Bytes>, n: nat, w: Bytes)
    requires Ranked(data, words) && w !in words && n <= |words|
    requires forall i | 0 <= i < n :: Ranks(data, words[i], w)
    requires n < |words| ==> Ranks(data, w, words[n])
    ensures Ranked(data, words[..n] + [w] + words[n..])
    ensures forall v :: v in words[..n] + [w] + words[n..] <==> v in words || v == w
  {
  }

  method BuildDictionary(data: Bytes, dictSize: nat) returns (dict: seq<Bytes>)
    ensures IsTopDictionary(data, dictSize, dict)
  {
    var freq := CountSequences(data);
    var cap := Min(dictSize, MAX_ENTRIES);
    var todo := freq.Keys;
    var entries: seq<Bytes> := [];
    assert forall v | v in freq :: freq[v] == Occurrences(data, v);
    while todo != {}
      invariant todo <= freq.Keys && Ranked(data, entries)
      invariant forall v :: v in entries <==> v in freq.Keys - todo && freq[v] > 1
      decreases todo
    {
      var w :| w in todo;
      todo := todo - {w};
      if freq[w] > 1 {
        entries := InsertRanked(entries, w, freq, data);
      }
    }
    dict := if |entries| <= cap then entries else entries[..cap];
    forall w: Bytes
      ensures w in entries <==> Repeated(data, w)
    {
      assert w in freq <==> TallyOf(data, w, 5, 0) > 0;
    }
    forall w | w in entries && w !in dict
      ensures forall e | e in dict :: Ranks(data, e, w)
    {
      var j :| 0 <= j < |entries| && entries[j] == w;
      assert j >= cap;
    }
  }

  // ---------- coding ----------

  /** The longest length from 4 down to 2 at which data starts with an entry; 0 if none. */
  ghost function EntryLength(data: Bytes, dict: seq<Bytes>): (l: nat)
    ensures l == 0 || (2 <= l <= 4 && l <= |data| && data[..l] in dict)
    ensures forall m | l < m <= |data| && 2 <= m <= 4 :: data[..m] !in dict
  {
    if |data| >= 4 && data[..4] in dict then 4
    else if |data| >= 3 && data[..3] in dict then 3
    else if |data| >= 2 && data[..2] in dict then 2
    else 0
  }

  ghost function IndexOf(dict: seq<Bytes>, w: Bytes): (k: nat)
    requires w in dict
    ensures k < |dict| && dict[k] == w
  {
    var k :| 0 <= k < |dict| && dict[k] == w;
    k
  }

  /** One step of the greedy code: the bytes it consumes and the bytes it emits. */
  ghost function FirstCode(data: Bytes, dict: seq<Bytes>): (step: (nat, Bytes))
    requires data != [] && |dict| <= 256
    ensures 1 <= step.0 <= |data|
  {
    var l := EntryLength(data, dict);
    if l > 0 then (l, [REFERENCE, IndexOf(dict, data[..l]) as u8])
    else (1, if data[0] == REFERENCE || data[0] == ESCAPE then [ESCAPE, data[0]] else [data[0]])
  }

  ghost function Coded(data: Bytes, dict: seq<Bytes>): Bytes
    requires |dict| <= 256
  {
    if data == [] then [] else
      var (n, code) := FirstCode(data, dict);
      code + Coded(data[n..], dict)
  }

  ghost function Decoded(code: Bytes, dict: seq<Bytes>): Bytes
  {
    if code == [] then []
    else if code[0] == REFERENCE && |code| > 1 then
      (if code[1] as int < |dict| then dict[code[1] as int] else []) + Decoded(code[2..], dict)
    else if code[0] == ESCAPE && |code| > 1 then [code[1]] + Decoded(code[2..], dict)
    else [code[0]] + Decoded(code[1..], dict)
  }

  /** Whatever entries the dictionary holds, decoding undoes coding and the code at most doubles. */
  lemma {:induction false} RoundTrip(data: Bytes, dict: seq<Bytes>)
    requires |dict| <= 256
    ensures Decoded(Coded(data, dict), dict) == data
    ensures |Coded(data, dict)| <= 2 * |data|
    decreases |data|
  {
    if data != [] {
      hide Coded, Decoded, FirstCode;
      var (n, code) := FirstCode(data, dict);
      CodedSplit(data, dict);
      RoundTrip(data[n..], dict);
      FirstCodeDecodes(data, dict, Coded(data[n..], dict));
      assert data == data[..n] + data[n..];
    } else {
      assert Coded(data, dict) == [];
    }
  }

  lemma CodedSplit(data: Bytes, dict: seq<Bytes>)
    requires |dict| <= 256 && data != []
    ensures var (n, code) := FirstCode(data, dict); Coded(data, dict) == code + Coded(data[n..], dict)
  {
  }

  lemma FirstCodeDecodes(data: Bytes, dict: seq<Bytes>, rest: Bytes)
    requires |dict| <= 256 && data != []
    ensures var (n, code) := FirstCode(data, dict);
            && 1 <= |code| <= 2 * n
            && Decoded(code + rest, dict) == data[..n] + Decoded(rest, dict)
  {
  }

  // ---------- the greedy law ----------

  /** The bytes begin with entry k, which has the length of an entry. */
  predicate Starts(data: Bytes, dict: seq<Bytes>, k: nat)
    requires k < |dict|
  {
    2 <= |dict[k]| <= 4 && dict[k] <= data
  }

  ghost predicate StartsLongest(data: Bytes, dict: seq<Bytes>, k: nat) {
    k < |dict| && Starts(data, dict, k) && forall j: nat | j < |dict| && Starts(data, dict, j) :: |dict[j]| <= |dict[k]|
  }

  ghost predicate NoneStarts(data: Bytes, dict: seq<Bytes>) {
    forall j: nat | j < |dict| :: !Starts(data, dict, j)
  }

  /**
    The code takes a longest entry wherever one starts, and writes every other byte as it is,
    after an escape if it looks like a marker.
   */
  ghost predicate IsGreedyCode(data: Bytes, dict: seq<Bytes>, code: Bytes)
    decreases |data|
  {
    if data == [] then code == []
    else if NoneStarts(data, dict) then
      if data[0] == 0xFE || data[0] == 0xFF then
        [0xFF, data[0]] <= code && IsGreedyCode(data[1..], dict, code[2..])
      else [data[0]] <= code && IsGreedyCode(data[1..], dict, code[1..])
    else
      |code| >= 2 && code[0] == 0xFE && StartsLongest(data, dict, code[1] as nat) &&
      IsGreedyCode(data[|dict[code[1] as nat]|..], dict, code[2..])
  }

  lemma EntryStarts(data: Bytes, dict: seq<Bytes>)
    ensures EntryLength(data, dict) == 0 <==> NoneStarts(data, dict)
    ensures var l := EntryLength(data, dict);
            l > 0 ==> StartsLongest(data, dict, IndexOf(dict, data[..l])) && |dict[IndexOf(dict, data[..l])]| == l
  {
    var l := EntryLength(data, dict);
    forall j: nat | j < |dict| && Starts(data, dict, j)
      ensures |dict[j]| <= l
    {
      assert dict[j] == data[..|dict[j]|] && dict[j] in dict;
    }
    if l > 0 {
      assert Starts(data, dict, IndexOf(dict, data[..l]));
    }
  }

  lemma {:induction false} CodedIsGreedy(data: Bytes, dict: seq<Bytes>)
    requires |dict| <= 256
    ensures IsGreedyCode(data, dict, Coded(data, dict))
    decreases |data|
  {
    if data != [] {
      EntryStarts(data, dict);
      var (n, first) := FirstCode(data, dict);
      var rest := Coded(data[n..], dict);
      CodedIsGreedy(data[n..], dict);
      CodedSplit(data, dict);
      hide Coded, EntryLength, IndexOf, StartsLongest, NoneStarts;
      assert (first + rest)[|first|..] == rest;
    }
  }

  /** With a dictionary that lists nothing twice, the greedy law leaves one code. */
  lemma {:induction false} GreedyCodeIsUnique(data: Bytes, dict: seq<Bytes>, a: Bytes, b: Bytes)
    requires NoRepeats(dict) && IsGreedyCode(data, dict, a) && IsGreedyCode(data, dict, b)
    ensures a == b
    decreases |data|
  {
    if data != [] {
      if NoneStarts(data, dict) {
        var n := if data[0] == 0xFE || data[0] == 0xFF then 2 else 1;
        GreedyCodeIsUnique(data[1..], dict, a[n..], b[n..]);
        assert a == a[..n] + a[n..] && b == b[..n] + b[n..];
      } else {
        SameEntry(data, dict, a[1] as nat, b[1] as nat);
        GreedyCodeIsUnique(data[|dict[a[1] as nat]|..], dict, a[2..], b[2..]);
        assert a == [a[0], a[1]] + a[2..] && b == [b[0], b[1]] + b[2..];
      }
    }
  }

  lemma SameEntry(data: Bytes, dict: seq<Bytes>, j: nat, k: nat)
    requires NoRepeats(dict) && StartsLongest(data, dict, j) && StartsLongest(data, dict, k)
    ensures j == k
  {
    assert dict[j] == data[..|dict[j]|] == data[..|dict[k]|] == dict[k];
  }

  method DictionaryCompress(data: Bytes, dictSize: nat) returns (out: Bytes, dict: seq<Bytes>)
    ensures IsTopDictionary(data, dictSize, dict)
    ensures |dict| <= 253 && NoRepeats(dict) && out == Coded(data, dict) && IsGreedyCode(data, dict, out)
    ensures Decoded(out, dict) == data && |out| <= 2 * |data|
  {
    dict := BuildDictionary(data, dictSize);
    out := CompressWith(data, dict);
    RoundTrip(data, dict);
    CodedIsGreedy(data, dict);
  }

  ghost predicate NoRepeats(dict: seq<Bytes>) {
    forall i, j | 0 <= i < j < |dict| :: dict[i] != dict[j]
  }

  ghost predicate IsLookup(lookup: map<Bytes, u8>, dict: seq<Bytes>) {
    && (forall w :: w in lookup <==> w in dict)
    && forall w | w in lookup :: (lookup[w] as int) < |dict| && dict[lookup[w] as int] == w
  }

  method BuildLookup(dict: seq<Bytes>) returns (lookup: map<Bytes, u8>)
    requires |dict| <= 256
    ensures IsLookup(lookup, dict)
  {
    lookup := map[];
    for i := 0 to |dict|
      invariant IsLookup(lookup, dict[..i])
    {
      assert dict[..i + 1] == dict[..i] + [dict[i]];
      lookup := lookup[dict[i] := i as u8];
    }
    assert dict[..|dict|] == dict;
  }

  /** Until a length matches, none of the longer ones is an entry. */
  ghost predicate NoneLonger(data: Bytes, dict: seq<Bytes>, len: nat) {
    forall m | len < m <= 4 && m <= |data| :: data[..m] !in dict
  }

  lemma CodeReference(data: Bytes, dict: seq<Bytes>, lookup: map<Bytes, u8>, len: nat)
    requires NoRepeats(dict) && |dict| <= 256 && IsLookup(lookup, dict)
    requires 2 <= len <= 4 && len <= |data| && data[..len] in lookup && NoneLonger(data, dict, len)
    ensures FirstCode(data, dict) == (len, [REFERENCE, lookup[data[..len]]])
  {
  }

  lemma CodeRaw(data: Bytes, dict: seq<Bytes>)
    requires |dict| <= 256 && data != [] && NoneLonger(data, dict, 1)
    ensures FirstCode(data, dict) ==
            (1, if data[0] == REFERENCE || data[0] == ESCAPE then [ESCAPE, data[0]] else [data[0]])
  {
  }

  lemma CodeNext(data: Bytes, i: nat, dict: seq<Bytes>, out: Bytes)
    requires i < |data| && |dict| <= 256 && out + Coded(data[i..], dict) == Coded(data, dict)
    ensures var (n, code) := FirstCode(data[i..], dict);
            i + n <= |data| && out + code + Coded(data[i + n..], dict) == Coded(data, dict)
  {
    hide FirstCode;
    var (n, code) := FirstCode(data[i..], dict);
    assert data[i..][n..] == data[i + n..];
    assert out + (code + Coded(data[i + n..], dict)) == out + code + Coded(data[i + n..], dict);
  }

  /** Tries the longest match first; 0 when no entry starts at i. */
  method MatchEntry(data: Bytes, i: nat, dict: seq<Bytes>, lookup: map<Bytes, u8>) returns (len: nat)
    requires i <= |data| && IsLookup(lookup, dict)
    ensures len == 0 ==> NoneLonger(data[i..], dict, 1)
    ensures len != 0 ==> 2 <= len <= 4 && i + len <= |data| && data[i..i + len] in lookup
    ensures len != 0 ==> NoneLonger(data[i..], dict, len)
  {
    ghost var from := data[i..];
    len := 4;
    while len >= 2
      invariant 1 <= len <= 4 && NoneLonger(from, dict, len)
    {
      if i + len <= |data| {
        var slice := data[i..i + len];
        assert slice == from[..len];
        if slice in lookup {
          return;
        }
      }
      len := len - 1;
    }
    len := 0;
  }

  /** What the coder emits at i, and how many bytes that stands for. */
  method CodeAt(data: Bytes, i: nat, dict: seq<Bytes>, lookup: map<Bytes, u8>) returns (n: nat, code: Bytes)
    requires i < |data| && NoRepeats(dict) && |dict| <= 256 && IsLookup(lookup, dict)
    ensures (n, code) == FirstCode(data[i..], dict)
  {
    hide NoneLonger, IsLookup, NoRepeats, FirstCode;
    ghost var from := data[i..];
    var len := MatchEntry(data, i, dict, lookup);
    if len != 0 {
      var slice := data[i..i + len];
      assert slice == from[..len];
      CodeReference(from, dict, lookup, len);
      return len, [REFERENCE, lookup[slice]];
    }
    var b := data[i];
    CodeRaw(from, dict);
    n, code := 1, [b];
    if b == REFERENCE || b == ESCAPE {
      code := [ESCAPE, b];
    }
  }

  method CompressWith(data: Bytes, dict: seq<Bytes>) returns (out: Bytes)
    requires NoRepeats(dict) && |dict| <= 256
    ensures out == Coded(data, dict)
  {
    hide Coded, IsLookup, NoRepeats, FirstCode;
    var lookup := BuildLookup(dict);
    out := [];
    var i := 0;
    assert data[0..] == data;
    while i < |data|
      invariant i <= |data| && out + Coded(data[i..], dict) == Coded(data, dict)
    {
      CodeNext(data, i, dict, out);
      var n, code := CodeAt(data, i, dict, lookup);
      out := out + code;
      i := i + n;
    }
    CodedAll(data, dict, out);
  }

  lemma CodedAll(data: Bytes, dict: seq<Bytes>, out: Bytes)
    requires |dict| <= 256 && out + Coded(data[|data|..], dict) == Coded(data, dict)
    ensures out == Coded(data, dict)
  {
  }

  /** The bytes one step of the decoder consumes and what it emits. */
  ghost function FirstDecoded(code: Bytes, dict: seq<Bytes>): (step: (nat, Bytes))
    requires code != []
    ensures 1 <= step.0 <= |code|
  {
    if code[0] == REFERENCE && |code| > 1 then (2, if code[1] as int < |dict| then dict[code[1] as int] else [])
    else if code[0] == ESCAPE && |code| > 1 then (2, [code[1]])
    else (1, [code[0]])
  }

  lemma DecodeNext(code: Bytes, i: nat, dict: seq<Bytes>, out: Bytes, n: nat, bytes: Bytes)
    requires i < |code| && out + Decoded(code[i..], dict) == Decoded(code, dict)
    requires (n, bytes) == FirstDecoded(code[i..], dict)
    ensures i + n <= |code| && out + bytes + Decoded(code[i + n..], dict) == Decoded(code, dict)
  {
  }

  /** What the decoder pushes at i, and how far it moves. */
  method DecodeAt(code: Bytes, i: nat, dict: seq<Bytes>) returns (n: nat, bytes: Bytes)
    requires i < |code|
    ensures (n, bytes) == FirstDecoded(code[i..], dict)
  {
    if code[i] == REFERENCE && i + 1 < |code| {
      var idx := code[i + 1] as int;
      n, bytes := 2, if idx < |dict| then dict[idx] else [];
    } else if code[i] == ESCAPE && i + 1 < |code| {
      n, bytes := 2, [code[i + 1]];
    } else {
      n, bytes := 1, [code[i]];
    }
  }

  method DictionaryDecompress(code: Bytes, dict: seq<Bytes>) returns (out: Bytes)
    ensures out == Decoded(code, dict)
  {
    hide Decoded, FirstDecoded;
    out := [];
    var i := 0;
    assert code[0..] == code;
    while i < |code|
      invariant i <= |code| && out + Decoded(code[i..], dict) == Decoded(code, dict)
    {
      var n, bytes := DecodeAt(code, i, dict);
      DecodeNext(code, i, dict, out, n, bytes);
      out := out + bytes;
      i := i + n;
    }
    DecodedAll(code, dict, out);
  }

  lemma DecodedAll(code: Bytes, dict: seq<Bytes>, out: Bytes)
    requires out + Decoded(code[|code|..], dict) == Decoded(code, dict)
    ensures out == Decoded(code, dict)
  {
  }
}
