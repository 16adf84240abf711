/** The formats of the coders on concrete bytes. */
module Formats {
  import opened Types
  import RunLength
  import Dictionary
  import Lz77

  // ---------- run lengths ----------

  /** The count comes before the byte; a trailing odd byte and a count of zero stand for nothing. */
  lemma PairFormat()
    ensures RunLength.Expanded([3, 7, 1, 9, 0, 8, 5]) == [7, 7, 7, 9]
  {
    assert RunLength.Expanded([5]) == [];
    assert [0, 8, 5][2..] == [5];
    assert RunLength.Expanded([0, 8, 5]) == RunLength.Repeat(8, 0) + RunLength.Expanded([5]) == [];
    assert [1, 9, 0, 8, 5][2..] == [0, 8, 5];
    assert RunLength.Expanded([1, 9, 0, 8, 5]) == RunLength.Repeat(9, 1) + [] == [9];
    assert [3, 7, 1, 9, 0, 8, 5][2..] == [1, 9, 0, 8, 5];
    assert RunLength.Expanded([3, 7, 1, 9, 0, 8, 5]) == RunLength.Repeat(7, 3) + [9];
  }

  // ---------- dictionary codes ----------

  /**
    0xFE and an index stand for an entry, or for nothing past the last one; 0xFF stands for
    the byte after it; a marker at the very end stands for itself.
   */
  lemma ReferenceFormat()
    ensures Dictionary.Decoded([0xFE, 1, 0xFF, 0xFE, 7, 0xFE, 2, 0xFF], [[1, 2], [3, 4, 5]]) ==
            [3, 4, 5, 0xFE, 7, 0xFF]
  {
    var dict: seq<Bytes> := [[1, 2], [3, 4, 5]];
    var c0: Bytes := [0xFE, 1, 0xFF, 0xFE, 7, 0xFE, 2, 0xFF];
    var c1: Bytes := [0xFF, 0xFE, 7, 0xFE, 2, 0xFF];
    var c2: Bytes := [7, 0xFE, 2, 0xFF];
    var c3: Bytes := [0xFE, 2, 0xFF];
    var c4: Bytes := [0xFF];
    assert c0[2..] == c1 && c1[2..] == c2 && c2[1..] == c3 && c3[2..] == c4 && c4[1..] == [];
    assert Dictionary.Decoded(c4, dict) == [0xFF];
    assert Dictionary.Decoded(c3, dict) == [] + [0xFF];
    assert Dictionary.Decoded(c2, dict) == [7] + [0xFF];
    assert Dictionary.Decoded(c1, dict) == [0xFE] + [7, 0xFF];
    assert Dictionary.Decoded(c0, dict) == [3, 4, 5] + [0xFE, 7, 0xFF];
  }

  // ---------- sliding-window tokens ----------

  /** The offset takes two bytes, the high one first; then the length, the next byte and the flag. */
  lemma TokenFormat()
    ensures Lz77.Emit(Lz77.Token(0x1234, 5, 6, true)) == [0x12, 0x34, 5, 6, 1]
    ensures Lz77.Emit(Lz77.Token(0, 0, 7, false)) == [0, 0, 0, 7, 0]
  {
  }

  /** A copy may read its own output. */
  lemma OverlapFormat()
    ensures Lz77.Decoded([0, 0, 0, 7, 0, 0, 1, 3, 8, 1, 99]) == Some([7, 7, 7, 7, 8])
  {
    var rest: Bytes := [0, 1, 3, 8, 1, 99];
    var all: Bytes := [0, 0, 0, 7, 0, 0, 1, 3, 8, 1, 99];
    assert all[5..] == rest && [] + [7] == [7];
    assert Lz77.Play(Lz77.TokenFrom(all), []) == Some([7]);
    assert rest[5..] == [99];
    assert Lz77.Copy([7, 7, 7, 7], 3, 0) == [7, 7, 7, 7];
    assert Lz77.Copy([7, 7, 7], 2, 1) == [7, 7, 7, 7];
    assert Lz77.Copy([7, 7], 1, 2) == [7, 7, 7, 7];
    assert Lz77.Copy([7], 0, 3) == [7, 7, 7, 7];
    assert [7, 7, 7, 7] + [8] == [7, 7, 7, 7, 8];
    assert Lz77.Play(Lz77.TokenFrom(rest), [7]) == Some([7, 7, 7, 7, 8]);
    assert Lz77.DecodedAfter([99], [7, 7, 7, 7, 8]) == Some([7, 7, 7, 7, 8]);
    assert Lz77.DecodedAfter(rest, [7]) == Some([7, 7, 7, 7, 8]);
  }

  /** An offset past the start of the output means its start. */
  lemma FarOffsetFormat()
    ensures Lz77.Decoded([0, 0, 0, 7, 0, 0, 9, 1, 8, 1]) == Some([7, 7, 8])
  {
    var rest: Bytes := [0, 9, 1, 8, 1];
    var all: Bytes := [0, 0, 0, 7, 0, 0, 9, 1, 8, 1];
    assert all[5..] == rest && [] + [7] == [7];
    assert Lz77.Play(Lz77.TokenFrom(all), []) == Some([7]);
    assert Lz77.Copy([7, 7], 1, 0) == [7, 7];
    assert Lz77.Copy([7], 0, 1) == [7, 7];
    assert [7, 7] + [8] == [7, 7, 8] && rest[5..] == [];
    assert Lz77.Play(Lz77.TokenFrom(rest), [7]) == Some([7, 7, 8]);
    assert Lz77.DecodedAfter([], [7, 7, 8]) == Some([7, 7, 8]);
    assert Lz77.DecodedAfter(rest, [7]) == Some([7, 7, 8]);
  }

  /** Without an offset, a length, or the flag 1 there is nothing to copy: only the next byte is written. */
  lemma NoCopyFormat()
    ensures Lz77.Decoded([0, 0, 3, 7, 1]) == Lz77.Decoded([0, 1, 0, 7, 1]) == Lz77.Decoded([0, 1, 3, 7, 2]) == Some([7])
  {
    assert [0, 0, 3, 7, 1][5..] == [] && [0, 1, 0, 7, 1][5..] == [] && [0, 1, 3, 7, 2][5..] == [];
    assert [] + [7] == [7];
    assert Lz77.DecodedAfter([], [7]) == Some([7]);
  }

  /** "abcabcd": three literals, then three bytes from three back. */
  lemma CodeOfAbcabcd(data: Bytes, tokens: seq<Lz77.Token>)
    requires data == [97, 98, 99, 97, 98, 99, 100]
    requires tokens == [Lz77.Token(0, 0, 97, false), Lz77.Token(0, 0, 98, false), Lz77.Token(0, 0, 99, false),
                        Lz77.Token(3, 3, 100, true)]
    ensures Lz77.Compressed(data, 255, 16) == Lz77.Render(tokens)
  {
    hide Lz77.IsGreedy, Lz77.Render, Lz77.Compressed, Lz77.Position;
    var choices := [Lz77.Literal, Lz77.Literal, Lz77.Literal, Lz77.Reference(0, 3)];
    AbcabcdIsGreedy(data, choices, tokens);
    Lz77.CompressedIsGreedy(data, 255, 16);
    assert Lz77.IsGreedyCode(data, 255, 16, Lz77.Render(tokens));
    hide Lz77.IsGreedyCode;
    Lz77.GreedyCodeIsUnique(data, 255, 16, Lz77.Compressed(data, 255, 16), Lz77.Render(tokens));
  }

  lemma AbcabcdIsGreedy(data: Bytes, choices: seq<Lz77.Choice>, tokens: seq<Lz77.Token>)
    requires data == [97, 98, 99, 97, 98, 99, 100]
    requires choices == [Lz77.Literal, Lz77.Literal, Lz77.Literal, Lz77.Reference(0, 3)]
    requires tokens == [Lz77.Token(0, 0, 97, false), Lz77.Token(0, 0, 98, false), Lz77.Token(0, 0, 99, false),
                        Lz77.Token(3, 3, 100, true)]
    ensures Lz77.IsGreedy(data, 255, 16, choices, tokens) && Lz77.Position(choices) == 7
  {
    assert choices[..0] == [];
    assert choices[..1][..0] == [] && choices[..2][..1] == choices[..1] && choices[..3][..2] == choices[..2];
    assert choices[..3] == choices[..|choices| - 1];
    assert Lz77.Position(choices[..1]) == 1;
    assert Lz77.Position(choices[..2]) == 2;
    assert Lz77.Position(choices[..3]) == 3;
    FirstThreeAreLiterals(data);
    CopyOfAbc(data);
  }

  lemma FirstThreeAreLiterals(data: Bytes)
    requires data == [97, 98, 99, 97, 98, 99, 100]
    ensures forall pos: nat | pos < 3 :: Lz77.IsChoice(data, pos, 255, 16, Lz77.Literal)
  {
    forall pos: nat, s: nat, l: nat | pos < 3 && Lz77.Candidate(data, pos, 255, 16, s, l)
      ensures l < 2
    {
      assert data[0..2] == [97, 98] && data[2..4] == [99, 97];
    }
  }

  lemma CopyOfAbc(data: Bytes)
    requires data == [97, 98, 99, 97, 98, 99, 100]
    ensures Lz77.IsChoice(data, 3, 255, 16, Lz77.Reference(0, 3))
  {
    assert data[0..3] == [97, 98, 99] && data[3..6] == [97, 98, 99];
    assert Lz77.Occurrence(data, 3, 255, 16, 0, 3);
  }
}
