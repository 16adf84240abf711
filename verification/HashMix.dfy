/** The hash-mix kernel: every step is invertible on 64-bit words, so inputs stay separate. */
module HashMix {
  import opened Types

  // ---------- words ----------

  /** Exclusive or, bit by bit from the lowest. */
  function Xor(a: nat, b: nat): nat
  {
    if a == 0 && b == 0 then 0 else 2 * Xor(a / 2, b / 2) + (a + b) % 2
  }

  function ShiftRight(x: nat, n: nat): nat
    decreases n
  {
    if n == 0 then x else ShiftRight(x / 2, n - 1)
  }

  function WrappingMul(x: u64, c: u64): u64 {
    (x * c) % TWO_64
  }

  /** The top seven bits move to the bottom. */
  function RotateLeft7(x: u64): u64 {
    (x % 0x200_0000_0000_0000) * 0x80 + x / 0x200_0000_0000_0000
  }

  function RotateRight7(x: u64): u64 {
    (x % 0x80) * 0x200_0000_0000_0000 + x / 0x80
  }

  lemma XorStep(a: nat, b: nat)
    ensures Xor(a, b) == 2 * Xor(a / 2, b / 2) + (a + b) % 2
  {
  }

  lemma BitTwice(h: nat, a: nat, b: nat)
    ensures var z := 2 * h + (a + b) % 2; z / 2 == h && (z + b) % 2 == a % 2
  {
  }

  lemma {:induction false} XorTwice(a: nat, b: nat)
    ensures Xor(Xor(a, b), b) == a
  {
    if a != 0 || b != 0 {
      hide Xor;
      XorTwice(a / 2, b / 2);
      XorStep(a, b);
      XorStep(Xor(a, b), b);
      BitTwice(Xor(a / 2, b / 2), a, b);
    } else {
      assert Xor(0, 0) == 0;
    }
  }

  lemma {:induction false} XorZero(a: nat)
    ensures Xor(a, 0) == a
  {
    if a != 0 {
      XorZero(a / 2);
    }
  }

  ghost function Pow2(n: nat): nat
  {
    if n == 0 then 1 else 2 * Pow2(n - 1)
  }

  lemma {:induction false} XorBelow(a: nat, b: nat, n: nat)
    requires a < Pow2(n) && b < Pow2(n)
    ensures Xor(a, b) < Pow2(n)
  {
    if n > 0 && (a != 0 || b != 0) {
      XorBelow(a / 2, b / 2, n - 1);
    }
  }

  lemma {:induction false} Pow2Adds(m: nat, n: nat)
    ensures Pow2(m + n) == Pow2(m) * Pow2(n)
    decreases n
  {
    if n > 0 {
      Pow2Adds(m, n - 1);
    }
  }

  lemma Pow2Of64()
    ensures Pow2(64) == TWO_64
  {
    assert Pow2(4) == 16;
    Pow2Adds(4, 4);
    Pow2Adds(8, 8);
    Pow2Adds(16, 16);
    Pow2Adds(32, 32);
  }

  lemma XorWord(a: u64, b: u64)
    ensures Xor(a, b) < TWO_64
  {
    Pow2Of64();
    XorBelow(a, b, 64);
  }

  lemma {:induction false} ShiftOfXor(a: nat, b: nat, n: nat)
    ensures ShiftRight(Xor(a, b), n) == Xor(ShiftRight(a, n), ShiftRight(b, n))
    decreases n
  {
    if n > 0 {
      ShiftOfXor(a / 2, b / 2, n - 1);
      XorStep(a, b);
      assert Xor(a, b) / 2 == Xor(a / 2, b / 2);
    }
  }

  lemma {:induction false} ShiftBelow(x: nat, m: nat, n: nat)
    requires x < Pow2(m)
    ensures ShiftRight(x, n) < Pow2(if m >= n then m - n else 0)
    decreases n
  {
    if n > 0 {
      ShiftBelow(x / 2, if m > 0 then m - 1 else 0, n - 1);
    }
  }

  lemma ShiftTwice(x: u64)
    ensures ShiftRight(x, 33) < TWO_64
    ensures ShiftRight(ShiftRight(x, 33), 33) == 0
  {
    Pow2Of64();
    ShiftBelow(x, 64, 33);
    ShiftBelow(ShiftRight(x, 33), 31, 33);
    Pow2Adds(31, 33);
    assert Pow2(33) >= 1 && Pow2(31) >= 1;
    assert Pow2(31) <= Pow2(31) * Pow2(33);
  }

  // ---------- the kernel ----------

  const SEED: u64 := 0xcbf29ce484222325
  const FNV_PRIME: u64 := 0x100000001b3
  const MIX_A: u64 := 0xff51afd7ed558ccd
  const MIX_B: u64 := 0xc4ceb9fe1a85ec53
  const GOLDEN: u64 := 0x9e3779b97f4a7c15
  const ROUND: u64 := 0xbf58476d1ce4e5b9

  function XorWords(a: u64, b: u64): u64 {
    XorWord(a, b);
    Xor(a, b)
  }

  function XorShift33(x: u64): u64 {
    ShiftTwice(x);
    XorWords(x, ShiftRight(x, 33))
  }

  function Mix(x: u64): u64 {
    XorShift33(WrappingMul(XorShift33(WrappingMul(XorShift33(WrappingMul(x, FNV_PRIME)), MIX_A)), MIX_B))
  }

  /** Takes one input word into the state. */
  function Absorb(x: u64, v: u64): u64 {
    Mix(XorWords(x, v))
  }

  function Round(t: u64): u64 {
    WrappingMul(XorWords(RotateLeft7(t), GOLDEN), ROUND)
  }

  function AbsorbAll(x: u64, inputs: seq<u64>): u64
    decreases |inputs|
  {
    if inputs == [] then x else AbsorbAll(Absorb(x, inputs[0]), inputs[1..])
  }

  function Rounds(t: u64, n: nat): u64
    decreases n
  {
    if n == 0 then t else Rounds(Round(t), n - 1)
  }

  function RoundCount(computeCost: u64): nat {
    Max(computeCost / 64, 1)
  }

  function Hash(inputs: seq<u64>, computeCost: u64): u64 {
    Rounds(AbsorbAll(SEED, inputs), RoundCount(computeCost))
  }

  method HashMixJob(job: Job) returns (output: Output)
    ensures output == U64(Hash(job.inputs, job.computeCost))
  {
    hide Absorb, Round;
    var x := SEED;
    for i := 0 to |job.inputs|
      invariant AbsorbAll(x, job.inputs[i..]) == AbsorbAll(SEED, job.inputs)
    {
      x := Absorb(x, job.inputs[i]);
      assert job.inputs[i..][1..] == job.inputs[i + 1..];
    }
    var t := x;
    var n := RoundCount(job.computeCost);
    for i := 0 to n
      invariant Rounds(t, n - i) == Rounds(x, n)
    {
      t := Round(t);
    }
    output := U64(t);
  }

  // ---------- inverses ----------

  // The multipliers are odd, so each has an inverse modulo 2^64.
  const FNV_PRIME_INVERSE: u64 := 0xce965057aff6957b
  const MIX_A_INVERSE: u64 := 0x4f74430c22a54005
  const MIX_B_INVERSE: u64 := 0x9cb4b2f8129337db
  const ROUND_INVERSE: u64 := 0x96de1b173f119089

  ghost predicate Inverses(c: u64, d: u64) {
    (c * d) % TWO_64 == 1
  }

  lemma ConstantInverses()
    ensures Inverses(FNV_PRIME, FNV_PRIME_INVERSE) && Inverses(FNV_PRIME_INVERSE, FNV_PRIME)
    ensures Inverses(MIX_A, MIX_A_INVERSE) && Inverses(MIX_A_INVERSE, MIX_A)
    ensures Inverses(MIX_B, MIX_B_INVERSE) && Inverses(MIX_B_INVERSE, MIX_B)
    ensures Inverses(ROUND, ROUND_INVERSE) && Inverses(ROUND_INVERSE, ROUND)
  {
  }

  lemma MulUndone(x: u64, c: u64, d: u64)
    requires Inverses(c, d)
    ensures WrappingMul(WrappingMul(x, c), d) == x
  {
    var q, r := (x * c) / TWO_64, (x * c) % TWO_64;
    var k := (c * d) / TWO_64;
    assert r * d == x * (c * d) - q * TWO_64 * d;
    assert c * d == k * TWO_64 + 1;
    assert x * (c * d) == x * k * TWO_64 + x;
    assert r * d == (x * k - q * d) * TWO_64 + x;
    SmallRemainder(x * k - q * d, x);
  }

  lemma SmallRemainder(k: int, x: u64)
    ensures (k * TWO_64 + x) % TWO_64 == x
  {
  }

  lemma XorShiftUndone(x: u64)
    ensures XorShift33(XorShift33(x)) == x
  {
    ShiftTwice(x);
    var s := ShiftRight(x, 33);
    ShiftOfXor(x, s, 33);
    XorZero(s);
    XorTwice(x, s);
  }

  lemma LowDigits(high: nat, low: nat)
    requires low < 0x80
    ensures (high * 0x80 + low) / 0x80 == high && (high * 0x80 + low) % 0x80 == low
  {
  }

  lemma HighDigits(high: nat, low: nat)
    requires low < 0x200_0000_0000_0000
    ensures (high * 0x200_0000_0000_0000 + low) / 0x200_0000_0000_0000 == high
    ensures (high * 0x200_0000_0000_0000 + low) % 0x200_0000_0000_0000 == low
  {
  }

  lemma RotateUndone(x: u64)
    ensures RotateRight7(RotateLeft7(x)) == x
    ensures RotateLeft7(RotateRight7(x)) == x
  {
    LowDigits(x % 0x200_0000_0000_0000, x / 0x200_0000_0000_0000);
    HighDigits(x % 0x80, x / 0x80);
  }

  function Unmix(y: u64): u64 {
    WrappingMul(XorShift33(WrappingMul(XorShift33(WrappingMul(XorShift33(y), MIX_B_INVERSE)), MIX_A_INVERSE)),
                FNV_PRIME_INVERSE)
  }

  lemma MixUndone(x: u64)
    ensures Unmix(Mix(x)) == x && Mix(Unmix(x)) == x
  {
    hide XorShift33, WrappingMul, Inverses;
    ConstantInverses();
    var a := WrappingMul(x, FNV_PRIME);
    var b := WrappingMul(XorShift33(a), MIX_A);
    var c := WrappingMul(XorShift33(b), MIX_B);
    XorShiftUndone(a);
    XorShiftUndone(b);
    XorShiftUndone(c);
    MulUndone(XorShift33(b), MIX_B, MIX_B_INVERSE);
    MulUndone(XorShift33(a), MIX_A, MIX_A_INVERSE);
    MulUndone(x, FNV_PRIME, FNV_PRIME_INVERSE);
    var u := XorShift33(x);
    var v := XorShift33(WrappingMul(u, MIX_B_INVERSE));
    var w := XorShift33(WrappingMul(v, MIX_A_INVERSE));
    XorShiftUndone(x);
    XorShiftUndone(WrappingMul(u, MIX_B_INVERSE));
    XorShiftUndone(WrappingMul(v, MIX_A_INVERSE));
    MulUndone(w, FNV_PRIME_INVERSE, FNV_PRIME);
    MulUndone(v, MIX_A_INVERSE, MIX_A);
    MulUndone(u, MIX_B_INVERSE, MIX_B);
  }

  lemma {:induction false} XorCommutes(a: nat, b: nat)
    ensures Xor(a, b) == Xor(b, a)
  {
    if a != 0 || b != 0 {
      XorCommutes(a / 2, b / 2);
    }
  }

  /** The state before word v was absorbed into y. */
  function Unabsorb(y: u64, v: u64): u64 {
    XorWords(Unmix(y), v)
  }

  lemma AbsorbUndone(x: u64, v: u64)
    ensures Unabsorb(Absorb(x, v), v) == x && Absorb(Unabsorb(x, v), v) == x
  {
    MixUndone(XorWords(x, v));
    MixUndone(x);
    XorTwice(x, v);
    XorTwice(Unmix(x), v);
  }

  function Unround(t: u64): u64 {
    RotateRight7(XorWords(WrappingMul(t, ROUND_INVERSE), GOLDEN))
  }

  lemma RoundUndone(t: u64)
    ensures Unround(Round(t)) == t && Round(Unround(t)) == t
  {
    hide RotateLeft7, RotateRight7, WrappingMul, Inverses;
    ConstantInverses();
    MulUndone(XorWords(RotateLeft7(t), GOLDEN), ROUND, ROUND_INVERSE);
    XorTwice(RotateLeft7(t), GOLDEN);
    RotateUndone(t);
    XorTwice(WrappingMul(t, ROUND_INVERSE), GOLDEN);
    RotateUndone(XorWords(WrappingMul(t, ROUND_INVERSE), GOLDEN));
    MulUndone(t, ROUND_INVERSE, ROUND);
  }

  function UnabsorbAll(y: u64, inputs: seq<u64>): u64
  {
    if inputs == [] then y else Unabsorb(UnabsorbAll(y, inputs[1..]), inputs[0])
  }

  function Unrounds(t: u64, n: nat): u64
    decreases n
  {
    if n == 0 then t else Unround(Unrounds(t, n - 1))
  }

  lemma {:induction false} AbsorbAllUndone(x: u64, inputs: seq<u64>)
    ensures UnabsorbAll(AbsorbAll(x, inputs), inputs) == x
    ensures AbsorbAll(UnabsorbAll(x, inputs), inputs) == x
    decreases |inputs|
  {
    hide Absorb, Unabsorb;
    if inputs != [] {
      AbsorbAllUndone(Absorb(x, inputs[0]), inputs[1..]);
      AbsorbUndone(x, inputs[0]);
      AbsorbAllUndone(x, inputs[1..]);
      AbsorbUndone(UnabsorbAll(x, inputs[1..]), inputs[0]);
    }
  }

  lemma {:induction false} RoundsUndone(t: u64, n: nat)
    ensures Unrounds(Rounds(t, n), n) == t
    ensures Rounds(Unrounds(t, n), n) == t
    decreases n
  {
    hide Round, Unround;
    if n > 0 {
      RoundsUndone(Round(t), n - 1);
      RoundUndone(t);
      RoundsUndone(t, n - 1);
      RoundUndone(Unrounds(t, n - 1));
    }
  }

  lemma {:induction false} AbsorbConcat(x: u64, a: seq<u64>, b: seq<u64>)
    ensures AbsorbAll(x, a + b) == AbsorbAll(AbsorbAll(x, a), b)
    decreases |a|
  {
    hide Absorb;
    if a == [] {
      assert a + b == b;
    } else {
      assert (a + b)[1..] == a[1..] + b;
      AbsorbConcat(Absorb(x, a[0]), a[1..], b);
    }
  }

  // ---------- separation ----------

  /** The word that, placed between `before` and `after`, makes the hash equal to h. */
  function Preimage(before: seq<u64>, after: seq<u64>, computeCost: u64, h: u64): u64 {
    XorWords(Unmix(UnabsorbAll(Unrounds(h, RoundCount(computeCost)), after)), AbsorbAll(SEED, before))
  }

  lemma AbsorbBetween(before: seq<u64>, v: u64, after: seq<u64>)
    ensures AbsorbAll(SEED, before + [v] + after) == AbsorbAll(Mix(XorWords(AbsorbAll(SEED, before), v)), after)
  {
    hide Mix;
    AbsorbConcat(SEED, before + [v], after);
    AbsorbConcat(SEED, before, [v]);
    assert [v][1..] == [];
  }

  /**
    With all other words and the cost fixed, the hash is a bijection of any one input word:
    each hash value comes from exactly one word.
   */
  lemma HashIsBijectiveInEachWord(before: seq<u64>, after: seq<u64>, computeCost: u64, h: u64)
    ensures Hash(before + [Preimage(before, after, computeCost, h)] + after, computeCost) == h
    ensures forall v | Hash(before + [v] + after, computeCost) == h :: v == Preimage(before, after, computeCost, h)
  {
    hide Mix, Unmix, AbsorbAll, UnabsorbAll, Rounds, Unrounds, Xor;
    var n, x := RoundCount(computeCost), AbsorbAll(SEED, before);
    var p := Preimage(before, after, computeCost, h);
    var y := UnabsorbAll(Unrounds(h, n), after);
    AbsorbBetween(before, p, after);
    XorTwice(Unmix(y), x);
    XorCommutes(x, p);
    MixUndone(y);
    AbsorbAllUndone(Unrounds(h, n), after);
    RoundsUndone(h, n);
    forall v | Hash(before + [v] + after, computeCost) == h
      ensures v == p
    {
      AbsorbBetween(before, v, after);
      var z := Mix(XorWords(x, v));
      RoundsUndone(AbsorbAll(z, after), n);
      AbsorbAllUndone(z, after);
      MixUndone(XorWords(x, v));
      XorCommutes(x, v);
      XorTwice(v, x);
    }
  }

  /** Equally long inputs that differ in exactly one position never hash alike. */
  lemma OneDifferenceSeparates(a: seq<u64>, b: seq<u64>, i: nat, computeCost: u64)
    requires i < |a| == |b| && a[i] != b[i]
    requires forall j | 0 <= j < |a| && j != i :: a[j] == b[j]
    ensures Hash(a, computeCost) != Hash(b, computeCost)
  {
    hide Hash, Preimage;
    assert a == a[..i] + [a[i]] + a[i + 1..];
    assert b == a[..i] + [b[i]] + a[i + 1..];
    HashIsBijectiveInEachWord(a[..i], a[i + 1..], computeCost, Hash(a, computeCost));
  }
}
