/** Values shared by the components: words of fixed width, optional values, jobs and outputs. */
module Types {

  newtype u8 = x: int | 0 <= x < 0x100
  newtype u16 = x: int | 0 <= x < 0x1_0000
  newtype u32 = x: int | 0 <= x < 0x1_0000_0000

  /** 64-bit words are integers, so that wrapping arithmetic and bit operations are both written out. */
  const TWO_64: nat := 0x1_0000_0000_0000_0000
  type u64 = x: int | 0 <= x < TWO_64

  type Bytes = seq<u8>

  datatype Option<+T> = None | Some(value: T) {
    function GetOr(default: T): T {
      match this
      case Some(v) => v
      case None => default
    }
  }

  function Min(a: int, b: int): int {
    if a <= b then a else b
  }

  function Max(a: int, b: int): int {
    if a >= b then a else b
  }

  /** Subtraction of unsigned values that stops at zero. */
  function SaturatingSub(a: nat, b: nat): nat {
    if a >= b then a - b else 0
  }

  datatype JobKind = HashMix | PrimeCount | MonteCarloRisk

  /** A unit of work; the advisory fields that no modelled code reads are dropped. */
  datatype Job = Job(id: u64, kind: JobKind, inputs: seq<u64>, computeCost: u64)

  datatype Output = U64(word: u64) | F64(number: real)
}
