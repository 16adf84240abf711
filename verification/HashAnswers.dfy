/**
  Known answers of the hash kernel, and what its shifts and rotations mean as numbers. Words
  are taken apart into bytes, whose exclusive or is that of bit vectors.
 */
module HashAnswers {
  import opened Types
  import opened HashMix

  function Bit(c: bv8, mask: bv8): nat {
    if c & mask == 0 then 0 else 1
  }

  lemma Bits(c: bv8)
    ensures c as nat == 128 * Bit(c, 128) + 64 * Bit(c, 64) + 32 * Bit(c, 32) + 16 * Bit(c, 16) +
                        8 * Bit(c, 8) + 4 * Bit(c, 4) + 2 * Bit(c, 2) + Bit(c, 1)
  {
  }

  lemma BitOfXor(c: bv8, d: bv8, mask: bv8)
    requires mask & (mask - 1) == 0
    ensures Bit(c ^ d, mask) == (Bit(c, mask) + Bit(d, mask)) % 2
  {
    assert (c ^ d) & mask == 0 <==> c & mask == d & mask;
    assert c & mask == 0 || c & mask == mask;
    assert d & mask == 0 || d & mask == mask;
  }

  lemma NextBit(x: nat, y: nat, z: nat, c: nat, d: nat) returns (x': nat, y': nat, z': nat)
    requires Xor(x, y) == z && c < 2 && d < 2
    ensures x' == 2 * x + c && y' == 2 * y + d && z' == 2 * z + (c + d) % 2
    ensures Xor(x', y') == z'
  {
    x', y', z' := 2 * x + c, 2 * y + d, 2 * z + (c + d) % 2;
    XorStep(x', y');
    hide Xor;
    assert x' / 2 == x && y' / 2 == y;
    assert (x' + y') % 2 == (c + d) % 2 by {
      assert x' + y' == 2 * (x + y) + (c + d);
    }
  }

  lemma NextBitOf(x: nat, y: nat, z: nat, c: bv8, d: bv8, mask: bv8) returns (x': nat, y': nat, z': nat)
    requires Xor(x, y) == z && mask & (mask - 1) == 0
    ensures x' == 2 * x + Bit(c, mask) && y' == 2 * y + Bit(d, mask) && z' == 2 * z + Bit(c ^ d, mask)
    ensures Xor(x', y') == z'
  {
    hide Xor;
    BitOfXor(c, d, mask);
    x', y', z' := NextBit(x, y, z, Bit(c, mask), Bit(d, mask));
  }

  lemma NextFour(x: nat, y: nat, z: nat, c: bv8, d: bv8, m3: bv8, m2: bv8, m1: bv8, m0: bv8)
    returns (x': nat, y': nat, z': nat)
    requires Xor(x, y) == z
    requires m3 & (m3 - 1) == 0 && m2 & (m2 - 1) == 0 && m1 & (m1 - 1) == 0 && m0 & (m0 - 1) == 0
    ensures x' == 16 * x + 8 * Bit(c, m3) + 4 * Bit(c, m2) + 2 * Bit(c, m1) + Bit(c, m0)
    ensures y' == 16 * y + 8 * Bit(d, m3) + 4 * Bit(d, m2) + 2 * Bit(d, m1) + Bit(d, m0)
    ensures z' == 16 * z + 8 * Bit(c ^ d, m3) + 4 * Bit(c ^ d, m2) + 2 * Bit(c ^ d, m1) + Bit(c ^ d, m0)
    ensures Xor(x', y') == z'
  {
    hide Xor, Bit;
    x', y', z' := NextBitOf(x, y, z, c, d, m3);
    x', y', z' := NextBitOf(x', y', z', c, d, m2);
    x', y', z' := NextBitOf(x', y', z', c, d, m1);
    x', y', z' := NextBitOf(x', y', z', c, d, m0);
  }

  /** Both operands and their exclusive or, one byte longer. */
  lemma NextByte(x: nat, y: nat, z: nat, c: bv8, d: bv8) returns (x': nat, y': nat, z': nat)
    requires Xor(x, y) == z
    ensures x' == 0x100 * x + c as nat && y' == 0x100 * y + d as nat && z' == 0x100 * z + (c ^ d) as nat
    ensures Xor(x', y') == z'
  {
    hide Xor, Bit;
    x', y', z' := NextFour(x, y, z, c, d, 128, 64, 32, 16);
    x', y', z' := NextFour(x', y', z', c, d, 8, 4, 2, 1);
    Bits(c);
    Bits(d);
    Bits(c ^ d);
  }

  /** The number with four more bytes. */
  function Extend(x: nat, b3: bv8, b2: bv8, b1: bv8, b0: bv8): nat {
    0x100 * (0x100 * (0x100 * (0x100 * x + b3 as nat) + b2 as nat) + b1 as nat) + b0 as nat
  }

  /** The word with these bytes, the highest first. */
  function Word(b7: bv8, b6: bv8, b5: bv8, b4: bv8, b3: bv8, b2: bv8, b1: bv8, b0: bv8): nat {
    Extend(Extend(0, b7, b6, b5, b4), b3, b2, b1, b0)
  }

  lemma XorOfWords(a7: bv8, a6: bv8, a5: bv8, a4: bv8, a3: bv8, a2: bv8, a1: bv8, a0: bv8,
                   b7: bv8, b6: bv8, b5: bv8, b4: bv8, b3: bv8, b2: bv8, b1: bv8, b0: bv8)
    ensures Xor(Word(a7, a6, a5, a4, a3, a2, a1, a0), Word(b7, b6, b5, b4, b3, b2, b1, b0)) ==
            Word(a7 ^ b7, a6 ^ b6, a5 ^ b5, a4 ^ b4, a3 ^ b3, a2 ^ b2, a1 ^ b1, a0 ^ b0)
  {
    XorZero(0);
    hide Xor, Extend;
    var x, y, z := NextBytes(0, 0, 0, a7, a6, a5, a4, b7, b6, b5, b4);
    x, y, z := NextBytes(x, y, z, a3, a2, a1, a0, b3, b2, b1, b0);
  }

  lemma NextBytes(x: nat, y: nat, z: nat, c3: bv8, c2: bv8, c1: bv8, c0: bv8, d3: bv8, d2: bv8, d1: bv8, d0: bv8)
    returns (x': nat, y': nat, z': nat)
    requires Xor(x, y) == z
    ensures x' == Extend(x, c3, c2, c1, c0) && y' == Extend(y, d3, d2, d1, d0)
    ensures z' == Extend(z, c3 ^ d3, c2 ^ d2, c1 ^ d1, c0 ^ d0)
    ensures Xor(x', y') == z'
  {
    hide Xor;
    x', y', z' := NextByte(x, y, z, c3, d3);
    x', y', z' := NextByte(x', y', z', c2, d2);
    x', y', z' := NextByte(x', y', z', c1, d1);
    x', y', z' := NextByte(x', y', z', c0, d0);
  }

  lemma {:induction false} ShiftIsDivision(x: nat, n: nat)
    ensures Pow2(n) > 0 && ShiftRight(x, n) == x / Pow2(n)
    decreases n
  {
    if n > 0 {
      ShiftIsDivision(x / 2, n - 1);
      DivideTwice(x, Pow2(n - 1));
    }
  }

  lemma DivideTwice(x: nat, m: nat)
    requires m > 0
    ensures x / 2 / m == x / (2 * m)
  {
    var q, r := x / 2 / m, x / 2 % m;
    assert x == 2 * (q * m + r) + x % 2;
    Quotient(x, 2 * m, q, 2 * r + x % 2);
  }

  lemma Quotient(x: nat, m: nat, q: nat, r: nat)
    requires r < m && x == q * m + r
    ensures x / m == q
  {
    var e := x / m - q;
    assert e * m == r - x % m;
    FarMultiple(e, m);
  }

  lemma FarMultiple(e: int, m: int)
    requires m > 0
    ensures (e >= 1 ==> e * m >= m) && (e <= -1 ==> e * m <= -m)
  {
  }

  lemma Pow2Of33()
    ensures Pow2(33) == 0x2_0000_0000
  {
    assert Pow2(1) == 2 && Pow2(4) == 16;
    Pow2Adds(4, 4);
    Pow2Adds(8, 8);
    Pow2Adds(16, 16);
    Pow2Adds(32, 1);
  }

  lemma RotationIsMultiplication(x: u64)
    ensures RotateLeft7(x) % (TWO_64 - 1) == (x * 0x80) % (TWO_64 - 1)
  {
    var hi, lo := x / 0x200_0000_0000_0000, x % 0x200_0000_0000_0000;
    assert x * 0x80 == RotateLeft7(x) + hi * (TWO_64 - 1);
    SameRemainder(RotateLeft7(x), hi);
  }

  lemma SameRemainder(x: nat, k: nat)
    ensures (x + k * (TWO_64 - 1)) % (TWO_64 - 1) == x % (TWO_64 - 1)
  {
  }

  // ---------- known answers ----------

  lemma XorShiftOf(x: u64, s: u64, r: nat)
    requires x / 0x2_0000_0000 == s && Xor(x, s) == r
    ensures XorShift33(x) == r
  {
    ShiftIsDivision(x, 33);
    Pow2Of33();
  }

  lemma AbsorbOne()
    ensures Absorb(SEED, 1) == 0x0d7cea42b5057e4c
  {
    hide Xor, XorShift33;
    XorOfWords(0xcb, 0xf2, 0x9c, 0xe4, 0x84, 0x22, 0x23, 0x25,
               0x00, 0x00, 0x00, 0x00, 0x00, 0x00, 0x00, 0x01);
    assert XorWords(0xcbf29ce484222325, 0x0000000000000001) == 0xcbf29ce484222324;
    assert WrappingMul(0xcbf29ce484222324, FNV_PRIME) == 0xaf63bc4c8601b62c;
    XorOfWords(0xaf, 0x63, 0xbc, 0x4c, 0x86, 0x01, 0xb6, 0x2c,
               0x00, 0x00, 0x00, 0x00, 0x57, 0xb1, 0xde, 0x26);
    XorShiftOf(0xaf63bc4c8601b62c, 0x0000000057b1de26, 0xaf63bc4cd1b0680a);
    assert WrappingMul(0xaf63bc4cd1b0680a, MIX_A) == 0x34e9f27a307ac802;
    XorOfWords(0x34, 0xe9, 0xf2, 0x7a, 0x30, 0x7a, 0xc8, 0x02,
               0x00, 0x00, 0x00, 0x00, 0x1a, 0x74, 0xf9, 0x3d);
    XorShiftOf(0x34e9f27a307ac802, 0x000000001a74f93d, 0x34e9f27a2a0e313f);
    assert WrappingMul(0x34e9f27a2a0e313f, MIX_B) == 0x0d7cea42b3bb0b6d;
    XorOfWords(0x0d, 0x7c, 0xea, 0x42, 0xb3, 0xbb, 0x0b, 0x6d,
               0x00, 0x00, 0x00, 0x00, 0x06, 0xbe, 0x75, 0x21);
    XorShiftOf(0x0d7cea42b3bb0b6d, 0x0000000006be7521, 0x0d7cea42b5057e4c);
  }

  lemma AbsorbTwo()
    ensures Absorb(0x0d7cea42b5057e4c, 2) == 0xc305fca86ef264f3
  {
    hide Xor, XorShift33;
    XorOfWords(0x0d, 0x7c, 0xea, 0x42, 0xb5, 0x05, 0x7e, 0x4c,
               0x00, 0x00, 0x00, 0x00, 0x00, 0x00, 0x00, 0x02);
    assert XorWords(0x0d7cea42b5057e4c, 0x0000000000000002) == 0x0d7cea42b5057e4e;
    assert WrappingMul(0x0d7cea42b5057e4e, FNV_PRIME) == 0xf0c05d5998559e8a;
    XorOfWords(0xf0, 0xc0, 0x5d, 0x59, 0x98, 0x55, 0x9e, 0x8a,
               0x00, 0x00, 0x00, 0x00, 0x78, 0x60, 0x2e, 0xac);
    XorShiftOf(0xf0c05d5998559e8a, 0x0000000078602eac, 0xf0c05d59e035b026);
    assert WrappingMul(0xf0c05d59e035b026, MIX_A) == 0xc707f76691f0d66e;
    XorOfWords(0xc7, 0x07, 0xf7, 0x66, 0x91, 0xf0, 0xd6, 0x6e,
               0x00, 0x00, 0x00, 0x00, 0x63, 0x83, 0xfb, 0xb3);
    XorShiftOf(0xc707f76691f0d66e, 0x000000006383fbb3, 0xc707f766f2732ddd);
    assert WrappingMul(0xc707f766f2732ddd, MIX_B) == 0xc305fca80f709aa7;
    XorOfWords(0xc3, 0x05, 0xfc, 0xa8, 0x0f, 0x70, 0x9a, 0xa7,
               0x00, 0x00, 0x00, 0x00, 0x61, 0x82, 0xfe, 0x54);
    XorShiftOf(0xc305fca80f709aa7, 0x000000006182fe54, 0xc305fca86ef264f3);
  }

  lemma RoundOfOne()
    ensures Round(0x0d7cea42b5057e4c) == 0x1545d2644ccd16bb
  {
    hide Xor;
    assert RotateLeft7(0x0d7cea42b5057e4c) == 0xbe75215a82bf2606;
    XorOfWords(0xbe, 0x75, 0x21, 0x5a, 0x82, 0xbf, 0x26, 0x06,
               0x9e, 0x37, 0x79, 0xb9, 0x7f, 0x4a, 0x7c, 0x15);
    assert WrappingMul(0x204258e3fdf55a13, ROUND) == 0x1545d2644ccd16bb;
  }

  lemma RoundsOfSeed()
    ensures Round(SEED) == 0xe91b369e0aec5b70 && Round(0xe91b369e0aec5b70) == 0x3de7007f210baf19
  {
    hide Xor;
    assert RotateLeft7(0xcbf29ce484222325) == 0xf94e7242111192e5;
    XorOfWords(0xf9, 0x4e, 0x72, 0x42, 0x11, 0x11, 0x92, 0xe5,
               0x9e, 0x37, 0x79, 0xb9, 0x7f, 0x4a, 0x7c, 0x15);
    assert WrappingMul(0x67790bfb6e5beef0, ROUND) == 0xe91b369e0aec5b70;
    assert RotateLeft7(0xe91b369e0aec5b70) == 0x8d9b4f05762db874;
    XorOfWords(0x8d, 0x9b, 0x4f, 0x05, 0x76, 0x2d, 0xb8, 0x74,
               0x9e, 0x37, 0x79, 0xb9, 0x7f, 0x4a, 0x7c, 0x15);
    assert WrappingMul(0x13ac36bc0967c461, ROUND) == 0x3de7007f210baf19;
  }

  lemma RoundsOfTwo()
    ensures Round(0xc305fca86ef264f3) == 0x00f60fdc075f9154 && Round(0x00f60fdc075f9154) == 0xfc54c067aec17e2d
  {
    hide Xor;
    assert RotateLeft7(0xc305fca86ef264f3) == 0x82fe5437793279e1;
    XorOfWords(0x82, 0xfe, 0x54, 0x37, 0x79, 0x32, 0x79, 0xe1,
               0x9e, 0x37, 0x79, 0xb9, 0x7f, 0x4a, 0x7c, 0x15);
    assert WrappingMul(0x1cc92d8e067805f4, ROUND) == 0x00f60fdc075f9154;
    assert RotateLeft7(0x00f60fdc075f9154) == 0x7b07ee03afc8aa00;
    XorOfWords(0x7b, 0x07, 0xee, 0x03, 0xaf, 0xc8, 0xaa, 0x00,
               0x9e, 0x37, 0x79, 0xb9, 0x7f, 0x4a, 0x7c, 0x15);
    assert WrappingMul(0xe53097bad082d615, ROUND) == 0xfc54c067aec17e2d;
  }

  /** One word and one round, no words and two rounds, two words and a cost that is rounded down. */
  lemma KnownAnswers()
    ensures Hash([1], 0) == 0x1545d2644ccd16bb
    ensures Hash([], 128) == 0x3de7007f210baf19
    ensures Hash([1, 2], 191) == 0xfc54c067aec17e2d
  {
    AbsorbOne();
    AbsorbTwo();
    RoundOfOne();
    RoundsOfSeed();
    RoundsOfTwo();
    hide Absorb, Round;
    assert AbsorbAll(SEED, [1]) == AbsorbAll(Absorb(SEED, 1), []);
    assert [1, 2][1..] == [2] && [2][1..] == [];
    assert AbsorbAll(SEED, [1, 2]) == AbsorbAll(Absorb(SEED, 1), [2]) == AbsorbAll(0xc305fca86ef264f3, []);
    assert Rounds(0x0d7cea42b5057e4c, 1) == Rounds(Round(0x0d7cea42b5057e4c), 0);
    assert Rounds(SEED, 2) == Rounds(Round(SEED), 1) == Rounds(Round(Round(SEED)), 0);
    assert Rounds(0xc305fca86ef264f3, 2) == Rounds(0x00f60fdc075f9154, 1) == Rounds(0xfc54c067aec17e2d, 0);
  }

  /** The kernel returns these answers. */
  method AnswersOfJobs(id: u64) returns (one: Output, none: Output, two: Output)
    ensures one == U64(0x1545d2644ccd16bb) && none == U64(0x3de7007f210baf19) && two == U64(0xfc54c067aec17e2d)
  {
    KnownAnswers();
    one := HashMixJob(Job(id, JobKind.HashMix, [1], 0));
    none := HashMixJob(Job(id, JobKind.HashMix, [], 128));
    two := HashMixJob(Job(id, JobKind.HashMix, [1, 2], 191));
  }
}
