/**
  The sliding-window coder: five-byte tokens, a longest-match search over the window, and the
  narrowing casts of the offset to 16 bits and of the length to 8 bits.
 */
module Lz77 {
  import opened Types

  datatype Token = Token(offset: u16, length: u8, next: u8, isRef: bool)

  datatype Match = Match(start: nat, len: nat)

  /** `as u16` and `as u8` keep the low bits. */
  function TruncateU16(n: nat): u16 {
    (n % 0x1_0000) as u16
  }

  function TruncateU8(n: nat): u8 {
    (n % 0x100) as u8
  }

  function Emit(t: Token): (r: Bytes)
    ensures |r| == 5
  {
    [(t.offset as int / 0x100) as u8, (t.offset as int % 0x100) as u8, t.length, t.next, if t.isRef then 1 else 0]
  }

  function Render(tokens: seq<Token>): (r: Bytes)
    ensures |r| == 5 * |tokens|
  {
    if tokens == [] then [] else Emit(tokens[0]) + Render(tokens[1..])
  }

  // ---------- the match search ----------

  ghost predicate Agree(data: Bytes, start: nat, pos: nat, k: nat)
    requires start + k < |data| && pos + k < |data|
  {
    data[start + k] == data[pos + k]
  }

  /** `len` bytes from `start` agree with those from `pos`, without overlapping them or passing `end`. */
  ghost predicate Fits(data: Bytes, start: nat, pos: nat, end: nat, len: nat)
    requires end <= |data|
  {
    start + len <= pos && pos + len <= end && forall k: nat | k < len :: Agree(data, start, pos, k)
  }

  lemma AgreesAt(data: Bytes, start: nat, pos: nat, end: nat, len: nat, k: nat)
    requires end <= |data| && Fits(data, start, pos, end, len) && k < len
    ensures data[start + k] == data[pos + k]
  {
    assert Agree(data, start, pos, k);
  }

  lemma SameSlices(data: Bytes, start: nat, pos: nat, end: nat, len: nat)
    requires end <= |data| && Fits(data, start, pos, end, len)
    ensures data[start..start + len] == data[pos..pos + len]
  {
    var a, b := data[start..start + len], data[pos..pos + len];
    forall k: nat | k < len
      ensures a[k] == b[k]
    {
      AgreesAt(data, start, pos, end, len, k);
    }
  }

  /** The first longest match with a start in lo..hi; (pos, 0) when nothing matches. */
  ghost predicate IsBest(data: Bytes, pos: nat, lo: nat, hi: nat, end: nat, start: nat, len: nat)
    requires end <= |data|
  {
    && (forall s: nat, l: nat | lo <= s < hi && Fits(data, s, pos, end, l) :: l <= len)
    && (if len == 0 then start == pos else
        lo <= start < hi && Fits(data, start, pos, end, len) &&
        forall s: nat | lo <= s < start :: !Fits(data, s, pos, end, len))
  }

  lemma BestIsUnique(data: Bytes, pos: nat, lo: nat, hi: nat, end: nat, s1: nat, l1: nat, s2: nat, l2: nat)
    requires end <= |data|
    requires IsBest(data, pos, lo, hi, end, s1, l1) && IsBest(data, pos, lo, hi, end, s2, l2)
    ensures s1 == s2 && l1 == l2
  {
  }

  /** Extending the searched range by one start whose longest match is `l`. */
  lemma BestStep(data: Bytes, pos: nat, lo: nat, hi: nat, end: nat, start: nat, len: nat, l: nat)
    requires end <= |data| && lo <= hi < pos && IsBest(data, pos, lo, hi, end, start, len)
    requires Fits(data, hi, pos, end, l) && forall m: nat | Fits(data, hi, pos, end, m) :: m <= l
    ensures if l > len then IsBest(data, pos, lo, hi + 1, end, hi, l)
            else IsBest(data, pos, lo, hi + 1, end, start, len)
  {
  }

  lemma {:induction false} BestExists(data: Bytes, pos: nat, lo: nat, hi: nat, end: nat)
    requires lo <= hi <= pos <= end <= |data|
    ensures exists m: Match :: IsBest(data, pos, lo, hi, end, m.start, m.len)
  {
    if lo == hi {
      assert IsBest(data, pos, lo, hi, end, Match(pos, 0).start, Match(pos, 0).len);
    } else {
      BestExists(data, pos, lo, hi - 1, end);
      var m: Match :| IsBest(data, pos, lo, hi - 1, end, m.start, m.len);
      var l := LongestFrom(data, hi - 1, pos, end);
      BestStep(data, pos, lo, hi - 1, end, m.start, m.len, l);
      var m' := if l > m.len then Match(hi - 1, l) else m;
      assert IsBest(data, pos, lo, hi, end, m'.start, m'.len);
    }
  }

  lemma LongestFrom(data: Bytes, start: nat, pos: nat, end: nat) returns (len: nat)
    requires start < pos <= end <= |data|
    ensures Fits(data, start, pos, end, len) && forall m: nat | Fits(data, start, pos, end, m) :: m <= len
  {
    len := 0;
    while start + len < pos && pos + len < end && data[start + len] == data[pos + len]
      invariant Fits(data, start, pos, end, len)
    {
      len := len + 1;
    }
    forall m: nat | Fits(data, start, pos, end, m)
      ensures m <= len
    {
      if m > len {
        AgreesAt(data, start, pos, end, m, len);
      }
    }
  }

  ghost function LookaheadEnd(data: Bytes, pos: nat, lookahead: nat): nat {
    Min(pos + lookahead, |data|)
  }

  ghost function Best(data: Bytes, pos: nat, window: nat, lookahead: nat): (m: Match)
    requires pos < |data|
    ensures IsBest(data, pos, SaturatingSub(pos, window), pos, LookaheadEnd(data, pos, lookahead), m.start, m.len)
  {
    var lo, end := SaturatingSub(pos, window), LookaheadEnd(data, pos, lookahead);
    BestExists(data, pos, lo, pos, end);
    var m: Match :| IsBest(data, pos, lo, pos, end, m.start, m.len);
    m
  }

  method FindLongestMatch(data: Bytes, pos: nat, window: nat, lookahead: nat)
    returns (bestOffset: u16, bestLen: nat)
    requires pos < |data|
    ensures bestOffset == TruncateU16(pos - Best(data, pos, window, lookahead).start)
    ensures bestLen == Best(data, pos, window, lookahead).len
  {
    var winStart := SaturatingSub(pos, window);
    var laEnd := Min(pos + lookahead, |data|);
    bestOffset, bestLen := 0, 0;
    ghost var bestStart: nat := pos;
    for start := winStart to pos
      invariant IsBest(data, pos, winStart, start, laEnd, bestStart, bestLen)
      invariant bestStart <= pos && bestOffset == TruncateU16(pos - bestStart)
    {
      var len := 0;
      while pos + len < laEnd && data[start + len] == data[pos + len]
        invariant Fits(data, start, pos, laEnd, len) && start + len < pos
        decreases laEnd - len
      {
        len := len + 1;
        if start + len >= pos {
          break;
        }
      }
      forall m: nat | Fits(data, start, pos, laEnd, m)
        ensures m <= len
      {
        if m > len {
          AgreesAt(data, start, pos, laEnd, m, len);
        }
      }
      BestStep(data, pos, winStart, start, laEnd, bestStart, bestLen, len);
      if len > bestLen {
        bestLen := len;
        bestOffset := TruncateU16(pos - start);
        bestStart := start;
      }
    }
    var best := Best(data, pos, window, lookahead);
    BestIsUnique(data, pos, winStart, pos, laEnd, bestStart, bestLen, best.start, best.len);
  }

  // ---------- the parse ----------

  /** A match that would run to the end of the input gives up its last byte. */
  ghost function Chosen(data: Bytes, pos: nat, window: nat, lookahead: nat): Match
    requires pos < |data|
  {
    var m := Best(data, pos, window, lookahead);
    if pos + m.len >= |data| then Match(m.start, SaturatingSub(m.len, 1)) else m
  }

  ghost function TokenAt(data: Bytes, pos: nat, window: nat, lookahead: nat): Token
    requires pos < |data|
  {
    var m := Chosen(data, pos, window, lookahead);
    if m.len >= 2 then Token(TruncateU16(pos - m.start), TruncateU8(m.len), data[pos + m.len], true)
    else Token(0, 0, data[pos], false)
  }

  ghost function Advance(data: Bytes, pos: nat, window: nat, lookahead: nat): (n: nat)
    requires pos < |data|
    ensures 1 <= n <= |data| - pos
  {
    var m := Chosen(data, pos, window, lookahead);
    if m.len >= 2 then m.len + 1 else 1
  }

  ghost function Parse(data: Bytes, pos: nat, window: nat, lookahead: nat): (tokens: seq<Token>)
    requires pos <= |data|
    ensures |tokens| <= |data| - pos
    decreases |data| - pos
  {
    if pos == |data| then []
    else [TokenAt(data, pos, window, lookahead)] +
         Parse(data, pos + Advance(data, pos, window, lookahead), window, lookahead)
  }

  lemma RenderNext(data: Bytes, pos: nat, window: nat, lookahead: nat)
    requires pos < |data|
    ensures Render(Parse(data, pos, window, lookahead)) ==
            Emit(TokenAt(data, pos, window, lookahead)) +
            Render(Parse(data, pos + Advance(data, pos, window, lookahead), window, lookahead))
  {
  }

  ghost function Compressed(data: Bytes, window: nat, lookahead: nat): (r: Bytes)
    ensures |r| % 5 == 0 && |r| <= 5 * |data|
  {
    Render(Parse(data, 0, window, lookahead))
  }

  method Lz77Compress(data: Bytes, window: nat, lookahead: nat) returns (out: Bytes)
    ensures out == Compressed(data, window, lookahead)
    ensures IsGreedyCode(data, window, lookahead, out)
  {
    CompressedIsGreedy(data, window, lookahead);
    hide IsGreedyCode;
    hide Parse, Render, Best, Emit;
    out := [];
    var pos := 0;
    while pos < |data|
      invariant pos <= |data|
      invariant out + Render(Parse(data, pos, window, lookahead)) == Compressed(data, window, lookahead)
    {
      ghost var before := out;
      var bestOffset, bestLen := FindLongestMatch(data, pos, window, lookahead);
      if pos + bestLen >= |data| {
        bestLen := SaturatingSub(bestLen, 1);
      }
      RenderNext(data, pos, window, lookahead);
      ghost var token := TokenAt(data, pos, window, lookahead);
      if bestLen >= 2 {
        var next := data[pos + bestLen];
        out := out + Emit(Token(bestOffset, TruncateU8(bestLen), next, true));
        pos := pos + bestLen + 1;
      } else {
        out := out + Emit(Token(0, 0, data[pos], false));
        pos := pos + 1;
      }
      assert out == before + Emit(token);
    }
  }

  /** An earlier occurrence, inside the window and lookahead, that leaves a byte to follow. */
  ghost predicate Candidate(data: Bytes, pos: nat, window: nat, lookahead: nat, s: nat, l: nat)
    requires pos < |data|
  {
    && pos - window <= s < pos && s + l <= pos && l <= lookahead && pos + l < |data|
    && data[s..s + l] == data[pos..pos + l]
  }

  lemma CandidateFits(data: Bytes, pos: nat, window: nat, lookahead: nat, s: nat, l: nat)
    requires pos < |data| && Candidate(data, pos, window, lookahead, s, l)
    ensures Fits(data, s, pos, LookaheadEnd(data, pos, lookahead), l)
  {
  }

  /**
    Greedy optimality: the chosen length is that of a longest candidate, and a literal is
    emitted exactly when no candidate has two bytes.
   */
  lemma ChoiceIsLongest(data: Bytes, pos: nat, window: nat, lookahead: nat)
    requires pos < |data|
    ensures var m := Chosen(data, pos, window, lookahead);
            && (m.len > 0 ==> Candidate(data, pos, window, lookahead, m.start, m.len))
            && forall s: nat, l: nat | Candidate(data, pos, window, lookahead, s, l) :: l <= m.len
    ensures TokenAt(data, pos, window, lookahead).isRef <==>
            exists s: nat, l: nat :: l >= 2 && Candidate(data, pos, window, lookahead, s, l)
  {
    var m := Chosen(data, pos, window, lookahead);
    if m.len > 0 {
      SameSlices(data, m.start, pos, LookaheadEnd(data, pos, lookahead), m.len);
      assert Candidate(data, pos, window, lookahead, m.start, m.len);
    }
    forall s: nat, l: nat | Candidate(data, pos, window, lookahead, s, l)
      ensures l <= m.len
    {
      CandidateFits(data, pos, window, lookahead, s, l);
    }
  }

  // ---------- the greedy law ----------

  /** An earlier occurrence of the next l bytes, inside the window and lookahead and without overlap. */
  ghost predicate Occurrence(data: Bytes, pos: nat, window: nat, lookahead: nat, s: nat, l: nat)
    requires pos < |data|
  {
    && pos - window <= s < pos && s + l <= pos && l <= lookahead && pos + l <= |data|
    && data[s..s + l] == data[pos..pos + l]
  }

  ghost predicate FirstLongest(data: Bytes, pos: nat, window: nat, lookahead: nat, s: nat, l: nat)
    requires pos < |data|
  {
    && Occurrence(data, pos, window, lookahead, s, l)
    && forall s': nat, l': nat | Occurrence(data, pos, window, lookahead, s', l') :: l' < l || (l' == l && s <= s')
  }

  datatype Choice = Literal | Reference(start: nat, len: nat) {
    /** The number of bytes it stands for, the byte after a reference included. */
    function Span(): nat {
      if Literal? then 1 else len + 1
    }
  }

  /**
    A reference to the first of the longest occurrences, shortened by one byte when that would
    reach the end of the input; a literal when no candidate has two bytes.
   */
  ghost predicate IsChoice(data: Bytes, pos: nat, window: nat, lookahead: nat, c: Choice)
    requires pos < |data|
  {
    match c
    case Literal => forall s: nat, l: nat | Candidate(data, pos, window, lookahead, s, l) :: l < 2
    case Reference(s, l) =>
      && l >= 2 && Candidate(data, pos, window, lookahead, s, l)
      && (FirstLongest(data, pos, window, lookahead, s, l) ||
          (pos + l + 1 == |data| && FirstLongest(data, pos, window, lookahead, s, l + 1)))
  }

  /** Where the choice after the given ones stands. */
  ghost function Position(choices: seq<Choice>): nat {
    if choices == [] then 0 else Position(choices[..|choices| - 1]) + choices[|choices| - 1].Span()
  }

  function TokenFor(data: Bytes, pos: nat, c: Choice): Token
    requires pos + c.Span() <= |data| && (c.Reference? ==> c.start <= pos)
  {
    match c
    case Literal => Token(0, 0, data[pos], false)
    case Reference(s, l) => Token(TruncateU16(pos - s), TruncateU8(l), data[pos + l], true)
  }

  ghost predicate GreedyAt(data: Bytes, window: nat, lookahead: nat, choices: seq<Choice>, tokens: seq<Token>, k: nat)
    requires k < |choices| == |tokens|
  {
    var pos := Position(choices[..k]);
    && pos + choices[k].Span() <= |data|
    && IsChoice(data, pos, window, lookahead, choices[k])
    && tokens[k] == TokenFor(data, pos, choices[k])
  }

  /** The tokens encode, up to the two casts, greedy choices that cover the input. */
  ghost predicate IsGreedy(data: Bytes, window: nat, lookahead: nat, choices: seq<Choice>, tokens: seq<Token>) {
    && |choices| == |tokens|
    && forall k | 0 <= k < |choices| :: GreedyAt(data, window, lookahead, choices, tokens, k)
  }

  ghost predicate IsGreedyCode(data: Bytes, window: nat, lookahead: nat, code: Bytes) {
    exists choices, tokens ::
      IsGreedy(data, window, lookahead, choices, tokens) && Position(choices) == |data| && code == Render(tokens)
  }

  ghost function ChoiceAt(data: Bytes, pos: nat, window: nat, lookahead: nat): Choice
    requires pos < |data|
  {
    var m := Chosen(data, pos, window, lookahead);
    if m.len >= 2 then Reference(m.start, m.len) else Literal
  }

  lemma FitsOccurs(data: Bytes, pos: nat, window: nat, lookahead: nat, s: nat, l: nat)
    requires pos < |data| && pos - window <= s < pos
    ensures Fits(data, s, pos, LookaheadEnd(data, pos, lookahead), l) <==>
            Occurrence(data, pos, window, lookahead, s, l)
  {
    if Fits(data, s, pos, LookaheadEnd(data, pos, lookahead), l) {
      SameSlices(data, s, pos, LookaheadEnd(data, pos, lookahead), l);
    }
    if Occurrence(data, pos, window, lookahead, s, l) {
      forall k: nat | k < l
        ensures Agree(data, s, pos, k)
      {
        assert data[s..s + l][k] == data[pos..pos + l][k];
      }
    }
  }

  lemma BestIsFirstLongest(data: Bytes, pos: nat, window: nat, lookahead: nat)
    requires pos < |data|
    ensures var m := Best(data, pos, window, lookahead);
            if m.len > 0 then FirstLongest(data, pos, window, lookahead, m.start, m.len)
            else forall s: nat, l: nat | Occurrence(data, pos, window, lookahead, s, l) :: l == 0
  {
    var m, end := Best(data, pos, window, lookahead), LookaheadEnd(data, pos, lookahead);
    if m.len > 0 {
      FitsOccurs(data, pos, window, lookahead, m.start, m.len);
    }
    forall s: nat, l: nat | Occurrence(data, pos, window, lookahead, s, l)
      ensures l < m.len || (l == m.len && (l > 0 ==> m.start <= s))
    {
      FitsOccurs(data, pos, window, lookahead, s, l);
    }
  }

  lemma ShorterOccurs(data: Bytes, pos: nat, window: nat, lookahead: nat, s: nat, l: nat, l': nat)
    requires pos < |data| && Occurrence(data, pos, window, lookahead, s, l) && l' <= l
    ensures Occurrence(data, pos, window, lookahead, s, l')
  {
    assert data[s..s + l'] == data[s..s + l][..l'] && data[pos..pos + l'] == data[pos..pos + l][..l'];
  }

  lemma ChoiceIsRight(data: Bytes, pos: nat, window: nat, lookahead: nat)
    requires pos < |data|
    ensures var c := ChoiceAt(data, pos, window, lookahead);
            && IsChoice(data, pos, window, lookahead, c)
            && c.Span() == Advance(data, pos, window, lookahead)
            && (c.Reference? ==> c.start <= pos)
            && TokenAt(data, pos, window, lookahead) == TokenFor(data, pos, c)
  {
    var b := Best(data, pos, window, lookahead);
    BestIsFirstLongest(data, pos, window, lookahead);
    ChoiceIsLongest(data, pos, window, lookahead);
    if b.len > 0 && pos + b.len >= |data| {
      ShorterOccurs(data, pos, window, lookahead, b.start, b.len, b.len - 1);
    }
  }

  /** Continues the choices and tokens made so far to the end of the input. */
  lemma {:induction false} ParseIsGreedy(data: Bytes, pos: nat, window: nat, lookahead: nat,
                                         choices: seq<Choice>, tokens: seq<Token>)
    returns (choices': seq<Choice>, tokens': seq<Token>)
    requires IsGreedy(data, window, lookahead, choices, tokens) && Position(choices) == pos <= |data|
    ensures IsGreedy(data, window, lookahead, choices', tokens') && Position(choices') == |data|
    ensures tokens' == tokens + Parse(data, pos, window, lookahead)
    decreases |data| - pos
  {
    hide IsGreedy, TokenAt, ChoiceAt, Advance, Position, IsChoice, TokenFor;
    if pos == |data| {
      choices', tokens' := choices, tokens;
    } else {
      var c, t := ChoiceAt(data, pos, window, lookahead), TokenAt(data, pos, window, lookahead);
      ChoiceIsRight(data, pos, window, lookahead);
      GreedyNext(data, window, lookahead, choices, tokens, c, t);
      ParseNext(data, pos, window, lookahead);
      hide Parse;
      var next := pos + Advance(data, pos, window, lookahead);
      choices', tokens' := ParseIsGreedy(data, next, window, lookahead, choices + [c], tokens + [t]);
      assert tokens + [t] + Parse(data, next, window, lookahead) ==
             tokens + ([t] + Parse(data, next, window, lookahead));
    }
  }

  lemma ParseNext(data: Bytes, pos: nat, window: nat, lookahead: nat)
    requires pos < |data|
    ensures Parse(data, pos, window, lookahead) ==
            [TokenAt(data, pos, window, lookahead)] +
            Parse(data, pos + Advance(data, pos, window, lookahead), window, lookahead)
  {
  }

  lemma GreedyNext(data: Bytes, window: nat, lookahead: nat, choices: seq<Choice>, tokens: seq<Token>,
                   c: Choice, t: Token)
    requires IsGreedy(data, window, lookahead, choices, tokens)
    requires Position(choices) + c.Span() <= |data| && (c.Reference? ==> c.start <= Position(choices))
    requires IsChoice(data, Position(choices), window, lookahead, c) && t == TokenFor(data, Position(choices), c)
    ensures IsGreedy(data, window, lookahead, choices + [c], tokens + [t])
    ensures Position(choices + [c]) == Position(choices) + c.Span()
  {
    hide IsChoice;
    var choices', tokens' := choices + [c], tokens + [t];
    assert choices'[..|choices|] == choices;
    forall k | 0 <= k < |choices'|
      ensures GreedyAt(data, window, lookahead, choices', tokens', k)
    {
      assert choices'[..k] == choices[..k];
      assert k < |choices| ==> GreedyAt(data, window, lookahead, choices, tokens, k);
      assert choices[..|choices|] == choices;
    }
  }

  lemma CompressedIsGreedy(data: Bytes, window: nat, lookahead: nat)
    ensures IsGreedyCode(data, window, lookahead, Compressed(data, window, lookahead))
  {
    hide Render;
    var choices, tokens := ParseIsGreedy(data, 0, window, lookahead, [], []);
    assert tokens == Parse(data, 0, window, lookahead);
  }

  lemma ChoiceIsUnique(data: Bytes, pos: nat, window: nat, lookahead: nat, c: Choice, d: Choice)
    requires pos < |data| && IsChoice(data, pos, window, lookahead, c) && IsChoice(data, pos, window, lookahead, d)
    ensures c == d
  {
  }

  lemma {:induction false} GreedyIsUnique(data: Bytes, window: nat, lookahead: nat, c: seq<Choice>, t: seq<Token>,
                                          d: seq<Choice>, u: seq<Token>, n: nat)
    requires IsGreedy(data, window, lookahead, c, t) && IsGreedy(data, window, lookahead, d, u)
    requires n <= |c| && n <= |d|
    ensures c[..n] == d[..n] && t[..n] == u[..n]
  {
    if n > 0 {
      GreedyIsUnique(data, window, lookahead, c, t, d, u, n - 1);
      assert GreedyAt(data, window, lookahead, c, t, n - 1) && GreedyAt(data, window, lookahead, d, u, n - 1);
      hide IsGreedy, IsChoice;
      ChoiceIsUnique(data, Position(c[..n - 1]), window, lookahead, c[n - 1], d[n - 1]);
      assert c[..n] == c[..n - 1] + [c[n - 1]] && d[..n] == d[..n - 1] + [d[n - 1]];
      assert t[..n] == t[..n - 1] + [t[n - 1]] && u[..n] == u[..n - 1] + [u[n - 1]];
    }
  }

  lemma {:induction false} PositionGrows(choices: seq<Choice>, n: nat)
    requires n <= |choices|
    ensures Position(choices[..n]) <= Position(choices)
    ensures n < |choices| ==> Position(choices[..n]) < Position(choices)
    decreases |choices| - n
  {
    if n < |choices| {
      PositionGrows(choices, n + 1);
      assert choices[..n + 1][..n] == choices[..n];
    } else {
      assert choices[..n] == choices;
    }
  }

  /** The greedy law leaves one output. */
  lemma GreedyCodeIsUnique(data: Bytes, window: nat, lookahead: nat, a: Bytes, b: Bytes)
    requires IsGreedyCode(data, window, lookahead, a) && IsGreedyCode(data, window, lookahead, b)
    ensures a == b
  {
    var c, t :| IsGreedy(data, window, lookahead, c, t) && Position(c) == |data| && a == Render(t);
    var d, u :| IsGreedy(data, window, lookahead, d, u) && Position(d) == |data| && b == Render(u);
    hide Render, GreedyAt;
    var n := Min(|c|, |d|);
    GreedyIsUnique(data, window, lookahead, c, t, d, u, n);
    PositionGrows(c, n);
    PositionGrows(d, n);
    assert n == |c| ==> c[..n] == c;
    assert n == |d| ==> d[..n] == d;
    assert n == |c| == |d|;
    assert t[..n] == t && u[..n] == u;
  }

  /** Where the token after the given ones stands, read off the tokens themselves. */
  ghost function TokenPosition(tokens: seq<Token>): nat {
    if tokens == [] then 0
    else
      var t := tokens[|tokens| - 1];
      TokenPosition(tokens[..|tokens| - 1]) + if t.isRef then t.length as int + 1 else 1
  }

  /** The greedy law of one token, without any cast. */
  ghost predicate TokenLaw(data: Bytes, pos: nat, window: nat, lookahead: nat, t: Token)
    requires pos < |data|
  {
    if t.isRef then
      var s, l := pos - t.offset as int, t.length as int;
      && s >= 0 && Candidate(data, pos, window, lookahead, s, l) && t.next == data[pos + l]
      && (forall s': nat, l': nat | Candidate(data, pos, window, lookahead, s', l') :: l' <= l)
      && (FirstLongest(data, pos, window, lookahead, s, l) ||
          (pos + l + 1 == |data| && FirstLongest(data, pos, window, lookahead, s, l + 1)))
    else
      && t == Token(0, 0, data[pos], false)
      && forall s: nat, l: nat | Candidate(data, pos, window, lookahead, s, l) :: l < 2
  }

  lemma NoLongerCandidate(data: Bytes, pos: nat, window: nat, lookahead: nat, s: nat, l: nat)
    requires pos < |data| && IsChoice(data, pos, window, lookahead, Reference(s, l))
    ensures forall s': nat, l': nat | Candidate(data, pos, window, lookahead, s', l') :: l' <= l
  {
    forall s': nat, l': nat | Candidate(data, pos, window, lookahead, s', l')
      ensures l' <= l
    {
      assert Occurrence(data, pos, window, lookahead, s', l');
    }
  }

  lemma SafeToken(data: Bytes, pos: nat, window: nat, lookahead: nat, c: Choice)
    requires Safe(window, lookahead) && pos + c.Span() <= |data| && IsChoice(data, pos, window, lookahead, c)
    ensures TokenLaw(data, pos, window, lookahead, TokenFor(data, pos, c))
    ensures var t := TokenFor(data, pos, c); c.Span() == if t.isRef then t.length as int + 1 else 1
  {
    if c.Reference? {
      NoLongerCandidate(data, pos, window, lookahead, c.start, c.len);
    }
  }

  lemma {:induction false} SamePositions(data: Bytes, window: nat, lookahead: nat, choices: seq<Choice>,
                                         tokens: seq<Token>, n: nat)
    requires Safe(window, lookahead) && IsGreedy(data, window, lookahead, choices, tokens) && n <= |choices|
    ensures TokenPosition(tokens[..n]) == Position(choices[..n])
  {
    if n > 0 {
      SamePositions(data, window, lookahead, choices, tokens, n - 1);
      assert GreedyAt(data, window, lookahead, choices, tokens, n - 1);
      SafeToken(data, Position(choices[..n - 1]), window, lookahead, choices[n - 1]);
      assert tokens[..n][..n - 1] == tokens[..n - 1] && choices[..n][..n - 1] == choices[..n - 1];
    }
  }

  /**
    For parameters without truncation the tokens alone say what they stand for: each
    back-reference is a longest candidate at its position, and each literal has none of two
    bytes.
   */
  lemma SafeTokensAreGreedy(data: Bytes, window: nat, lookahead: nat) returns (tokens: seq<Token>)
    requires Safe(window, lookahead)
    ensures Compressed(data, window, lookahead) == Render(tokens) && TokenPosition(tokens) == |data|
    ensures forall k | 0 <= k < |tokens| ::
              var pos := TokenPosition(tokens[..k]);
              pos < |data| && TokenLaw(data, pos, window, lookahead, tokens[k])
  {
    hide Render, TokenLaw, IsGreedy, TokenPosition;
    NothingIsGreedy(data, window, lookahead);
    var choices;
    choices, tokens := ParseIsGreedy(data, 0, window, lookahead, [], []);
    assert tokens == Parse(data, 0, window, lookahead);
    forall k | 0 <= k < |tokens|
      ensures var pos := TokenPosition(tokens[..k]);
              pos < |data| && TokenLaw(data, pos, window, lookahead, tokens[k])
    {
      SafeTokenAt(data, window, lookahead, choices, tokens, k);
    }
    SameLengths(data, window, lookahead, choices, tokens);
    SamePositions(data, window, lookahead, choices, tokens, |tokens|);
    assert tokens[..|tokens|] == tokens && choices[..|tokens|] == choices;
  }

  lemma NothingIsGreedy(data: Bytes, window: nat, lookahead: nat)
    ensures IsGreedy(data, window, lookahead, [], []) && Position([]) == 0
  {
  }

  lemma SameLengths(data: Bytes, window: nat, lookahead: nat, choices: seq<Choice>, tokens: seq<Token>)
    requires IsGreedy(data, window, lookahead, choices, tokens)
    ensures |choices| == |tokens|
  {
  }

  lemma SafeTokenAt(data: Bytes, window: nat, lookahead: nat, choices: seq<Choice>, tokens: seq<Token>, k: nat)
    requires Safe(window, lookahead) && IsGreedy(data, window, lookahead, choices, tokens) && k < |tokens|
    ensures var pos := TokenPosition(tokens[..k]);
            pos < |data| && TokenLaw(data, pos, window, lookahead, tokens[k])
  {
    SamePositions(data, window, lookahead, choices, tokens, k);
    assert GreedyAt(data, window, lookahead, choices, tokens, k);
    hide IsGreedy, IsChoice, TokenLaw, TokenPosition, Position, TokenFor;
    SafeToken(data, Position(choices[..k]), window, lookahead, choices[k]);
  }

  /**
    A shortened reference need not start at the first candidate of its length: at position 7
    of "abXabcYabc" it starts at 3, where all of "abc" occurs, although "ab" occurs at 0.
   */
  lemma ShortenedStartsLater()
    ensures var data: Bytes := [97, 98, 88, 97, 98, 99, 89, 97, 98, 99];
            && TokenAt(data, 7, 255, 16) == Token(4, 2, 99, true)
            && Candidate(data, 7, 255, 16, 0, 2)
  {
    var data: Bytes := [97, 98, 88, 97, 98, 99, 89, 97, 98, 99];
    assert data[0..2] == [97, 98] && data[7..9] == [97, 98] && data[3..5] == [97, 98];
    assert data[3..6] == [97, 98, 99] && data[7..10] == [97, 98, 99];
    assert Occurrence(data, 7, 255, 16, 3, 3);
    assert data[0..3][2] == 88 && data[1..4][2] == 97 && data[2..5][2] == 98;
    forall s: nat, l: nat | Occurrence(data, 7, 255, 16, s, l)
      ensures l < 3 || (l == 3 && 3 <= s)
    {
    }
    ChoiceIsRight(data, 7, 255, 16);
    assert IsChoice(data, 7, 255, 16, Reference(3, 2));
    ChoiceIsUnique(data, 7, 255, 16, Reference(3, 2), ChoiceAt(data, 7, 255, 16));
  }

  // ---------- the decoder ----------

  ghost function TokenFrom(data: Bytes): Token
    requires |data| >= 5
  {
    Token((data[0] as int * 0x100 + data[1] as int) as u16, data[2], data[3], data[4] == 1)
  }

  predicate IsCopy(t: Token) {
    t.isRef && t.offset > 0 && t.length > 0
  }

  /** Appends n bytes one by one, the first read at `start`; the source may run into the copy. */
  ghost function Copy(out: Bytes, start: nat, n: nat): (r: Bytes)
    requires start < |out|
    ensures |r| == |out| + n
    decreases n
  {
    if n == 0 then out else Copy(out + [out[start]], start + 1, n - 1)
  }

  /** Each copied byte equals the one as far before it as the copy starts before the end. */
  lemma {:induction false} CopyLaw(out: Bytes, start: nat, n: nat)
    requires start < |out|
    ensures Copy(out, start, n)[..|out|] == out
    ensures forall i | |out| <= i < |out| + n :: Copy(out, start, n)[i] == Copy(out, start, n)[i - (|out| - start)]
    decreases n
  {
    if n > 0 {
      var out' := out + [out[start]];
      var r := Copy(out', start + 1, n - 1);
      CopyLaw(out', start + 1, n - 1);
      assert r[..|out|] == r[..|out'|][..|out|];
      assert r[|out|] == r[..|out'|][|out|] && r[start] == r[..|out'|][start];
    }
  }

  /** None models the panic of an index past the end of the output. */
  ghost function Play(t: Token, out: Bytes): Option<Bytes> {
    if !IsCopy(t) then Some(out + [t.next])
    else if out == [] then None
    else Some(Copy(out, SaturatingSub(|out|, t.offset as int), t.length as int) + [t.next])
  }

  ghost function DecodedAfter(data: Bytes, out: Bytes): Option<Bytes> {
    if |data| < 5 then Some(out)
    else match Play(TokenFrom(data), out)
      case None => None
      case Some(out') => DecodedAfter(data[5..], out')
  }

  ghost function Decoded(data: Bytes): Option<Bytes> {
    DecodedAfter(data, [])
  }

  method Lz77Decompress(data: Bytes) returns (r: Option<Bytes>)
    ensures r == Decoded(data)
  {
    var out: Bytes := [];
    var i := 0;
    while i + 4 < |data|
      invariant i <= |data| && Decoded(data) == DecodedAfter(data[i..], out)
    {
      var offset: u16 := (data[i] as int * 0x100 + data[i + 1] as int) as u16;
      var length := data[i + 2];
      var nextChar := data[i + 3];
      var isRef := data[i + 4] == 1;
      ghost var token := TokenFrom(data[i..]);
      assert data[i..][5..] == data[i + 5..];
      ghost var before := out;
      i := i + 5;
      if isRef && offset > 0 && length > 0 {
        var start := SaturatingSub(|out|, offset as int);
        if start >= |out| {
          return None;
        }
        for j := 0 to length as int
          invariant |out| == |before| + j
          invariant Copy(before, start, length as int) == Copy(out, start + j, length as int - j)
        {
          out := out + [out[start + j]];
        }
        if i <= |data| {
          out := out + [nextChar];
        }
      } else {
        out := out + [nextChar];
      }
      assert Play(token, before) == Some(out);
    }
    r := Some(out);
  }

  /** The decoder reads out of range on no input but those whose first token is a copy. */
  lemma {:induction false} DecoderPanics(data: Bytes)
    ensures Decoded(data).None? <==> |data| >= 5 && IsCopy(TokenFrom(data))
  {
    if |data| >= 5 && !IsCopy(TokenFrom(data)) {
      NoPanicOnceStarted(data[5..], Play(TokenFrom(data), []).value);
    }
  }

  lemma {:induction false} NoPanicOnceStarted(data: Bytes, out: Bytes)
    requires out != []
    ensures DecodedAfter(data, out).Some?
    decreases |data|
  {
    if |data| >= 5 {
      NoPanicOnceStarted(data[5..], Play(TokenFrom(data), out).value);
    }
  }

  ghost function PlayAll(tokens: seq<Token>, out: Bytes): Option<Bytes> {
    if tokens == [] then Some(out)
    else match Play(tokens[0], out)
      case None => None
      case Some(out') => PlayAll(tokens[1..], out')
  }

  lemma {:induction false} DecodeRendered(tokens: seq<Token>, out: Bytes)
    ensures DecodedAfter(Render(tokens), out) == PlayAll(tokens, out)
    decreases |tokens|
  {
    if tokens != [] {
      var r := Render(tokens);
      assert TokenFrom(r) == tokens[0];
      assert r[5..] == Render(tokens[1..]);
      if Play(tokens[0], out).Some? {
        DecodeRendered(tokens[1..], Play(tokens[0], out).value);
      }
    }
  }

  // ---------- the round trip ----------

  ghost predicate Restores(data: Bytes, window: nat, lookahead: nat) {
    Decoded(Compressed(data, window, lookahead)) == Some(data)
  }

  /** No offset outgrows 16 bits and no length outgrows 8 bits. */
  predicate Safe(window: nat, lookahead: nat) {
    (window <= 0xFFFF || lookahead < 2) && Min(window, lookahead) <= 0xFF
  }

  lemma {:induction false} CopyWithin(data: Bytes, pos: nat, start: nat, n: nat)
    requires start < pos && pos + n <= |data|
    requires forall k: nat | k < n :: Agree(data, start, pos, k)
    ensures Copy(data[..pos], start, n) == data[..pos + n]
    decreases n
  {
    if n > 0 {
      assert data[..pos] + [data[..pos][start]] == data[..pos + 1] by {
        assert Agree(data, start, pos, 0);
      }
      var start', pos' := start + 1, pos + 1;
      forall k: nat | k < n - 1
        ensures Agree(data, start', pos', k)
      {
        assert Agree(data, start, pos, k + 1);
      }
      CopyWithin(data, pos + 1, start + 1, n - 1);
    }
  }

  /** The chosen match lies in the window, is short enough, and agrees byte by byte. */
  lemma ChosenFits(data: Bytes, pos: nat, window: nat, lookahead: nat)
    requires pos < |data|
    ensures var m := Chosen(data, pos, window, lookahead);
            && m.len <= window && m.len <= lookahead && pos + m.len < |data|
            && (m.len > 0 ==> m.start < pos <= m.start + window)
            && forall k: nat | k < m.len :: Agree(data, m.start, pos, k)
  {
  }

  lemma PlayToken(data: Bytes, pos: nat, window: nat, lookahead: nat)
    requires Safe(window, lookahead) && pos < |data|
    ensures Play(TokenAt(data, pos, window, lookahead), data[..pos]) ==
            Some(data[..pos + Advance(data, pos, window, lookahead)])
  {
    hide Chosen, Copy, Agree;
    ChosenFits(data, pos, window, lookahead);
    var m := Chosen(data, pos, window, lookahead);
    if m.len >= 2 {
      CopyWithin(data, pos, m.start, m.len);
      assert data[..pos + m.len] + [data[pos + m.len]] == data[..pos + m.len + 1];
    } else {
      assert data[..pos] + [data[pos]] == data[..pos + 1];
    }
  }

  lemma {:induction false} PlayParse(data: Bytes, pos: nat, window: nat, lookahead: nat)
    requires Safe(window, lookahead) && pos <= |data|
    ensures PlayAll(Parse(data, pos, window, lookahead), data[..pos]) == Some(data)
    decreases |data| - pos
  {
    if pos == |data| {
      assert data[..pos] == data;
    } else {
      PlayToken(data, pos, window, lookahead);
      PlayParse(data, pos + Advance(data, pos, window, lookahead), window, lookahead);
    }
  }

  lemma RoundTrip(data: Bytes, window: nat, lookahead: nat)
    requires Safe(window, lookahead)
    ensures Restores(data, window, lookahead)
  {
    DecodeRendered(Parse(data, 0, window, lookahead), []);
    assert data[..0] == [];
    PlayParse(data, 0, window, lookahead);
  }

  /** Whatever the parameters, the coder starts with a literal, so its output never makes the decoder panic. */
  lemma NeverPanicsOnCoded(data: Bytes, window: nat, lookahead: nat)
    ensures Decoded(Compressed(data, window, lookahead)).Some?
  {
    var coded := Compressed(data, window, lookahead);
    DecoderPanics(coded);
    if data != [] {
      var t := TokenAt(data, 0, window, lookahead);
      ChosenFits(data, 0, window, lookahead);
      assert !t.isRef;
      assert coded == Emit(t) + Render(Parse(data, Advance(data, 0, window, lookahead), window, lookahead));
      assert TokenFrom(coded) == t;
    }
  }

  // ---------- truncation loses bytes ----------

  /** From `pos` on, decoding yields fewer bytes than the input still has. */
  ghost predicate Loses(data: Bytes, pos: nat, window: nat, lookahead: nat)
    requires pos <= |data|
  {
    forall out :: var r := PlayAll(Parse(data, pos, window, lookahead), out);
      r.Some? ==> |r.value| < |out| + |data| - pos
  }

  ghost function Produced(t: Token): nat {
    if IsCopy(t) then t.length as int + 1 else 1
  }

  /** Decoding from `pos` plays one token, which yields at most the bytes it was emitted for. */
  lemma PlayNext(data: Bytes, pos: nat, window: nat, lookahead: nat, out: Bytes)
    requires pos < |data|
    ensures var t, next := TokenAt(data, pos, window, lookahead), pos + Advance(data, pos, window, lookahead);
            && PlayAll(Parse(data, pos, window, lookahead), out) ==
               (if Play(t, out).None? then None
                else PlayAll(Parse(data, next, window, lookahead), Play(t, out).value))
            && (Play(t, out).Some? ==> |Play(t, out).value| == |out| + Produced(t))
            && Produced(t) <= next - pos
  {
  }

  lemma {:induction false} NeverGains(data: Bytes, pos: nat, window: nat, lookahead: nat, out: Bytes)
    requires pos <= |data|
    ensures var r := PlayAll(Parse(data, pos, window, lookahead), out);
            r.Some? ==> |r.value| <= |out| + |data| - pos
    decreases |data| - pos
  {
    if pos < |data| {
      PlayNext(data, pos, window, lookahead, out);
      hide PlayAll, Parse, TokenAt, Advance, Play, Produced;
      var t := TokenAt(data, pos, window, lookahead);
      if Play(t, out).Some? {
        NeverGains(data, pos + Advance(data, pos, window, lookahead), window, lookahead, Play(t, out).value);
      }
    }
  }

  lemma LosesNow(data: Bytes, pos: nat, window: nat, lookahead: nat)
    requires pos < |data|
    requires Produced(TokenAt(data, pos, window, lookahead)) < Advance(data, pos, window, lookahead)
    ensures Loses(data, pos, window, lookahead)
  {
    hide PlayAll, Parse, TokenAt, Advance, Play, Produced;
    forall out | PlayAll(Parse(data, pos, window, lookahead), out).Some?
      ensures |PlayAll(Parse(data, pos, window, lookahead), out).value| < |out| + |data| - pos
    {
      PlayNext(data, pos, window, lookahead, out);
      var t := TokenAt(data, pos, window, lookahead);
      NeverGains(data, pos + Advance(data, pos, window, lookahead), window, lookahead, Play(t, out).value);
    }
  }

  lemma LosesLater(data: Bytes, pos: nat, window: nat, lookahead: nat)
    requires pos < |data|
    requires Loses(data, pos + Advance(data, pos, window, lookahead), window, lookahead)
    ensures Loses(data, pos, window, lookahead)
  {
  }

  ghost function Zeros(n: nat): (r: Bytes)
    ensures |r| == n && forall k | 0 <= k < n :: r[k] == 0
  {
    seq(n, _ => 0)
  }

  /** A run of zeros has matches of more than 255 bytes once 256 bytes precede them. */
  lemma {:induction false} LongRunLoses(pos: nat, window: nat, lookahead: nat)
    requires window >= 0x100 && lookahead >= 0x100 && pos < 0x200
    ensures Loses(Zeros(0x400), pos, window, lookahead)
    decreases 0x400 - pos
  {
    var data := Zeros(0x400);
    var m := Chosen(data, pos, window, lookahead);
    assert m.len <= pos;
    if pos < 0x100 {
      LongRunLoses(pos + Advance(data, pos, window, lookahead), window, lookahead);
      LosesLater(data, pos, window, lookahead);
    } else {
      assert Fits(data, pos - 0x100, pos, LookaheadEnd(data, pos, lookahead), 0x100);
      LosesNow(data, pos, window, lookahead);
    }
  }

  /** The pair 1, 2 occurs at 0 and again 65536 bytes later, right after the only 3. */
  ghost function FarPair(): (r: Bytes)
    ensures |r| == 0x1_0003
    ensures r[0] == 1 && r[1] == 2 && r[0xFFFF] == 3
    ensures r[0x1_0000] == 1 && r[0x1_0001] == 2 && r[0x1_0002] == 4
    ensures forall k | 2 <= k < 0xFFFF :: r[k] == 0
  {
    [1, 2] + Zeros(0xFFFD) + [3, 1, 2, 4]
  }

  lemma {:induction false} FarPairLoses(pos: nat, window: nat, lookahead: nat)
    requires window >= 0x1_0000 && lookahead >= 2 && pos <= 0x1_0000
    ensures Loses(FarPair(), pos, window, lookahead)
    decreases 0x1_0000 - pos
  {
    var data := FarPair();
    var b := Best(data, pos, window, lookahead);
    var end := LookaheadEnd(data, pos, lookahead);
    if pos < 0x1_0000 {
      // No match contains the byte 3, so a token starts right after it.
      if pos + b.len > 0xFFFF {
        AgreesAt(data, b.start, pos, end, b.len, 0xFFFF - pos);
      }
      FarPairLoses(pos + Advance(data, pos, window, lookahead), window, lookahead);
      LosesLater(data, pos, window, lookahead);
    } else {
      FarPairMatch(b, end, window, lookahead);
      LosesNow(data, pos, window, lookahead);
    }
  }

  lemma FarPairMatch(b: Match, end: nat, window: nat, lookahead: nat)
    requires window >= 0x1_0000 && lookahead >= 2
    requires b == Best(FarPair(), 0x1_0000, window, lookahead)
    requires end == LookaheadEnd(FarPair(), 0x1_0000, lookahead)
    ensures b == Match(0, 2)
  {
    var data := FarPair();
    assert Fits(data, 0, 0x1_0000, end, 2);
    AgreesAt(data, b.start, 0x1_0000, end, b.len, 0);
    if b.len > 2 {
      AgreesAt(data, b.start, 0x1_0000, end, b.len, 2);
    }
  }

  /**
    The coder is lossless on every input exactly for the parameters that cannot overflow the
    token fields; every other choice of parameters loses bytes of one of two inputs.
   */
  lemma RoundTripExactly(window: nat, lookahead: nat)
    ensures (forall data :: Restores(data, window, lookahead)) <==> Safe(window, lookahead)
    ensures !Safe(window, lookahead) ==>
              !Restores(Zeros(0x400), window, lookahead) || !Restores(FarPair(), window, lookahead)
  {
    if Safe(window, lookahead) {
      forall data
        ensures Restores(data, window, lookahead)
      {
        RoundTrip(data, window, lookahead);
      }
    } else {
      var data: Bytes;
      if Min(window, lookahead) > 0xFF {
        data := Zeros(0x400);
        LongRunLoses(0, window, lookahead);
      } else {
        data := FarPair();
        FarPairLoses(0, window, lookahead);
      }
      DecodeRendered(Parse(data, 0, window, lookahead), []);
      assert !Restores(data, window, lookahead);
    }
  }
}
