/** Run-length coding: (count, byte) pairs with counts capped at 255. */
module RunLength {
  import opened Types

  function Repeat(b: u8, n: nat): (r: Bytes)
    ensures |r| == n && forall k | 0 <= k < n :: r[k] == b
  {
    seq(n, _ => b)
  }

  /** What a list of pairs stands for; a trailing odd byte stands for nothing. */
  ghost function Expanded(pairs: Bytes): Bytes
  {
    if |pairs| < 2 then [] else Repeat(pairs[1], pairs[0] as int) + Expanded(pairs[2..])
  }

  /** Counts are positive, and a run only continues in the next pair when its count is full. */
  ghost predicate Canonical(pairs: Bytes)
  {
    pairs == [] ||
    (&& |pairs| >= 2 && pairs[0] > 0
     && (|pairs| >= 4 && pairs[3] == pairs[1] ==> pairs[0] == 255)
     && Canonical(pairs[2..]))
  }

  lemma {:induction false} ExpandedAppend(pairs: Bytes, count: u8, b: u8)
    requires |pairs| % 2 == 0
    ensures Expanded(pairs + [count, b]) == Expanded(pairs) + Repeat(b, count as int)
  {
    if pairs == [] {
      assert Expanded([count, b][2..]) == [];
    } else {
      assert (pairs + [count, b])[2..] == pairs[2..] + [count, b];
      ExpandedAppend(pairs[2..], count, b);
    }
  }

  lemma {:induction false} CanonicalAppend(pairs: Bytes, count: u8, b: u8)
    requires Canonical(pairs) && |pairs| % 2 == 0 && count > 0
    requires pairs != [] && pairs[|pairs| - 1] == b ==> pairs[|pairs| - 2] == 255
    ensures Canonical(pairs + [count, b])
  {
    if pairs == [] {
      assert [count, b][2..] == [];
    } else {
      assert (pairs + [count, b])[2..] == pairs[2..] + [count, b];
      CanonicalAppend(pairs[2..], count, b);
    }
  }

  /** The first count of a canonical list is the length of the longest initial run, capped. */
  lemma FirstRun(pairs: Bytes)
    requires Canonical(pairs) && pairs != []
    ensures var d, n := Expanded(pairs), pairs[0] as int;
            && n <= |d| && (forall k | 0 <= k < n :: d[k] == pairs[1])
            && (n < 255 && n < |d| ==> d[n] != pairs[1])
  {
  }

  /** No two canonical lists stand for the same bytes. */
  lemma {:induction false} CanonicalIsUnique(a: Bytes, b: Bytes)
    requires Canonical(a) && Canonical(b) && Expanded(a) == Expanded(b)
    ensures a == b
  {
    if a != [] && b != [] {
      FirstRun(a);
      FirstRun(b);
      var d := Expanded(a);
      assert a[1] == d[0] == b[1];
      assert a[0] == b[0];
      assert Expanded(a[2..]) == d[a[0] as int..] == Expanded(b[2..]);
      CanonicalIsUnique(a[2..], b[2..]);
      assert a == a[..2] + a[2..] && b == b[..2] + b[2..];
    } else {
      assert a != [] ==> |Expanded(a)| > 0;
      assert b != [] ==> |Expanded(b)| > 0;
    }
  }

  lemma AppendRun(data: Bytes, out: Bytes, i: nat, count: nat, b: u8)
    requires |out| % 2 == 0 && Canonical(out) && i + count <= |data| && 1 <= count <= 255
    requires Expanded(out) == data[..i] && forall k | i <= k < i + count :: data[k] == b
    requires out != [] && out[|out| - 1] == b ==> out[|out| - 2] == 255
    ensures Canonical(out + [count as u8, b]) && Expanded(out + [count as u8, b]) == data[..i + count]
  {
    ExpandedAppend(out, count as u8, b);
    CanonicalAppend(out, count as u8, b);
    hide Expanded, Canonical;
    assert data[..i + count] == data[..i] + Repeat(b, count);
  }

  /** The output is the one canonical list that stands for the input. */
  method RunLengthEncode(data: Bytes) returns (out: Bytes)
    ensures Canonical(out) && Expanded(out) == data
    ensures forall other | Canonical(other) && Expanded(other) == data :: other == out
  {
    out := [];
    var i := 0;
    assert Expanded(out) == data[..i];
    hide Expanded;
    while i < |data|
      invariant i <= |data| && |out| % 2 == 0
      invariant Canonical(out) && Expanded(out) == data[..i]
      invariant out != [] && i < |data| && out[|out| - 1] == data[i] ==> out[|out| - 2] == 255
    {
      var byte := data[i];
      var count := 1;
      while i + count < |data| && data[i + count] == byte && count < 255
        invariant 1 <= count <= 255 && i + count <= |data|
        invariant forall k | i <= k < i + count :: data[k] == byte
      {
        count := count + 1;
      }
      AppendRun(data, out, i, count, byte);
      out := out + [count as u8, byte];
      i := i + count;
    }
    assert data[..i] == data;
    forall other | Canonical(other) && Expanded(other) == data
      ensures other == out
    {
      CanonicalIsUnique(other, out);
    }
  }

  lemma ExpandNext(data: Bytes, i: nat, out: Bytes)
    requires i + 1 < |data| && out + Expanded(data[i..]) == Expanded(data)
    ensures out + Repeat(data[i + 1], data[i] as int) + Expanded(data[i + 2..]) == Expanded(data)
  {
  }

  method RunLengthDecode(data: Bytes) returns (out: Bytes)
    ensures out == Expanded(data)
  {
    out := [];
    var i := 0;
    assert data[0..] == data;
    while i + 1 < |data|
      invariant i <= |data| && out + Expanded(data[i..]) == Expanded(data)
    {
      hide Expanded;
      ExpandNext(data, i, out);
      var count := data[i] as int;
      var byte := data[i + 1];
      ghost var before := out;
      for n := 0 to count
        invariant out == before + Repeat(byte, n)
      {
        out := out + [byte];
      }
      i := i + 2;
    }
  }

  /** Encoding after decoding is the identity on canonical lists. */
  method EncodeDecoded(pairs: Bytes) returns (again: Bytes)
    requires Canonical(pairs)
    ensures again == pairs
  {
    var data := RunLengthDecode(pairs);
    again := RunLengthEncode(data);
  }
}
