/** The parts of Python's string semantics the scripts rely on:
    `str.isspace` / the regex class `\s`, `str.strip()` and `re.split(r'\s+', s)`. */
module PyText {
  import opened Seqs

  /** The characters Python treats as whitespace in `str.isspace`, in `str.strip()`
      and in the `\s` class of a `str` regular expression. */
  predicate IsSpace(c: char)
  {
    || ('\t' <= c <= '\r')
    || ('\U{1C}' <= c <= '\U{1F}')
    || c == ' '
    || c == '\U{85}'
    || c == '\U{A0}'
    || c == '\U{1680}'
    || ('\U{2000}' <= c <= '\U{200A}')
    || c == '\U{2028}'
    || c == '\U{2029}'
    || c == '\U{202F}'
    || c == '\U{205F}'
    || c == '\U{3000}'
  }

  /** The whitespace class listed code point by code point: the 25 characters of
      Unicode's White_Space property and the four separators U+001C to U+001F that
      Python adds, 29 in all. The tsheg U+0F0B, the zero-width space U+200B and the byte order
      mark U+FEFF are not whitespace. */
  lemma WhitespaceCodePoints(c: char)
    ensures IsSpace(c) <==> c in {
      '\t', '\n', '\U{0B}', '\U{0C}', '\r', '\U{1C}', '\U{1D}', '\U{1E}', '\U{1F}', ' ',
      '\U{85}', '\U{A0}', '\U{1680}',
      '\U{2000}', '\U{2001}', '\U{2002}', '\U{2003}', '\U{2004}', '\U{2005}',
      '\U{2006}', '\U{2007}', '\U{2008}', '\U{2009}', '\U{200A}',
      '\U{2028}', '\U{2029}', '\U{202F}', '\U{205F}', '\U{3000}'}
    ensures !IsSpace('\U{0F0B}') && !IsSpace('\U{200B}') && !IsSpace('\U{FEFF}')
  {
  }

  predicate AllSpace(s: string)
  {
    forall i :: 0 <= i < |s| ==> IsSpace(s[i])
  }

  predicate NoSpace(s: string)
  {
    forall i :: 0 <= i < |s| ==> !IsSpace(s[i])
  }

  /** Length of the run of whitespace at the start of `s`. */
  function SpaceRun(s: string): (n: nat)
    ensures n <= |s| && AllSpace(s[..n])
    ensures n == |s| || !IsSpace(s[n])
    decreases |s|
  {
    if s != [] && IsSpace(s[0]) then 1 + SpaceRun(s[1..]) else 0
  }

  /** `s` without its trailing whitespace. */
  function TrimEnd(s: string): (r: string)
    ensures |r| <= |s|
    ensures r == s[..|r|]
    ensures AllSpace(s[|r|..])
    ensures r == [] || !IsSpace(Last(r))
    decreases |s|
  {
    if s != [] && IsSpace(Last(s)) then TrimEnd(DropLast(s)) else s
  }

  /** `s.strip()`: the infix of `s` that starts after its leading whitespace and is
      followed by whitespace only; it neither starts nor ends with whitespace. */
  function Strip(s: string): (r: string)
    ensures SpaceRun(s) + |r| <= |s|
    ensures r == s[SpaceRun(s)..SpaceRun(s) + |r|]
    ensures AllSpace(s[SpaceRun(s) + |r|..])
    ensures r == [] || (!IsSpace(r[0]) && !IsSpace(Last(r)))
  {
    var n := SpaceRun(s);
    var t := s[n..];
    var r := TrimEnd(t);
    assert r == t[..|r|] == s[n..n + |r|];
    assert s[n + |r|..] == t[|r|..];
    assert r != [] ==> r[0] == t[0];
    r
  }

  /** The `if text:` test after `strip()`: the stripped text is empty exactly
      when the text consists of whitespace only (the empty text included). */
  lemma StripEmptyIffBlank(s: string)
    ensures Strip(s) == [] <==> AllSpace(s)
  {
    var n := SpaceRun(s);
    if Strip(s) == [] {
      assert s == s[..n] + s[n..];
      AllSpaceAppend(s[..n], s[n..]);
    } else if n < |s| {
      assert !IsSpace(s[n]);
    }
  }

  lemma AllSpaceAppend(a: string, b: string)
    requires AllSpace(a) && AllSpace(b)
    ensures AllSpace(a + b)
  {
    assert forall i :: 0 <= i < |a + b| ==> (a + b)[i] == if i < |a| then a[i] else b[i - |a|];
  }

  /** Stripping removes only whitespace. */
  lemma StripKeepsAllButSpace(s: string)
    ensures Filter(NotSpace, Strip(s)) == Filter(NotSpace, s)
  {
    LeadingSpaceKeepsAllButSpace(s);
    TrimEndKeepsAllButSpace(s[SpaceRun(s)..]);
  }

  /** Dropping the leading whitespace run keeps every other character, in order. */
  lemma LeadingSpaceKeepsAllButSpace(s: string)
    ensures Filter(NotSpace, s[SpaceRun(s)..]) == Filter(NotSpace, s)
  {
    var k := SpaceRun(s);
    assert s == s[..k] + s[k..] + [];
    FilterIgnoresSpaceAround(s[..k], s[k..], []);
  }

  lemma TrimEndKeepsAllButSpace(t: string)
    ensures Filter(NotSpace, TrimEnd(t)) == Filter(NotSpace, t)
  {
    var r := TrimEnd(t);
    assert t == [] + r + t[|r|..];
    FilterIgnoresSpaceAround([], r, t[|r|..]);
  }

  lemma FilterIgnoresSpaceAround(front: string, mid: string, back: string)
    requires AllSpace(front) && AllSpace(back)
    ensures Filter(NotSpace, front + mid + back) == Filter(NotSpace, mid)
  {
    FilterDropsAll(NotSpace, front);
    FilterDropsAll(NotSpace, back);
    FilterAppend(NotSpace, front + mid, back);
    FilterAppend(NotSpace, front, mid);
    assert [] + Filter(NotSpace, mid) + [] == Filter(NotSpace, mid);
  }

  /** Length of the run of non-whitespace at the start of `s`. */
  function WordRun(s: string): (n: nat)
    ensures n <= |s| && NoSpace(s[..n])
    ensures n == |s| || IsSpace(s[n])
    decreases |s|
  {
    if s != [] && !IsSpace(s[0]) then 1 + WordRun(s[1..]) else 0
  }

  /** `re.split(r'\s+', s)`: the pieces between the maximal whitespace runs of `s`,
      in order; a leading or trailing run yields an empty first or last piece. */
  function SplitWs(s: string): (r: seq<string>)
    ensures |r| >= 1
    ensures forall i :: 0 <= i < |r| ==> NoSpace(r[i])
    decreases |s|
  {
    var w := WordRun(s);
    if w == |s| then [s]
    else
      var rest := s[w..];
      [s[..w]] + SplitWs(rest[SpaceRun(rest)..])
  }

  function Concat(ls: seq<string>): string
  {
    if ls == [] then [] else ls[0] + Concat(ls[1..])
  }

  function NotSpace(c: char): bool
  {
    !IsSpace(c)
  }

  /** Splitting loses exactly the whitespace: gluing the pieces back together
      gives the non-whitespace characters of `s`, in order. */
  lemma {:induction false} SplitWsLosesOnlySpace(s: string)
    ensures Concat(SplitWs(s)) == Filter(NotSpace, s)
    decreases |s|
  {
    var w := WordRun(s);
    var word := s[..w];
    FilterKeepsAll(NotSpace, word);
    if w == |s| {
      assert word == s;
    } else {
      var rest := s[w..];
      var n := SpaceRun(rest);
      var gap, tail := rest[..n], rest[n..];
      ThreeParts(s, w, n);
      SplitStep(s);
      SplitWsLosesOnlySpace(tail);
      ConcatCons(word, SplitWs(tail));
      FilterSkipsGap(word, gap, tail);
    }
  }

  lemma ConcatCons(w: string, ls: seq<string>)
    ensures Concat([w] + ls) == w + Concat(ls)
  {
    assert ([w] + ls)[1..] == ls;
  }

  /** Filtering a word, then a whitespace gap, then a tail keeps the word and the filtered tail. */
  lemma FilterSkipsGap(word: string, gap: string, tail: string)
    requires NoSpace(word) && AllSpace(gap)
    ensures Filter(NotSpace, word + gap + tail) == word + Filter(NotSpace, tail)
  {
    FilterKeepsAll(NotSpace, word);
    FilterDropsAll(NotSpace, gap);
    FilterAppend(NotSpace, word + gap, tail);
    FilterAppend(NotSpace, word, gap);
    assert word + [] == word;
  }

  /** When `s` neither starts nor ends with whitespace (as after `strip()`) and is
      not empty, no piece of the split is empty. */
  lemma {:induction false} SplitWsPiecesNonEmpty(s: string)
    requires s != [] && !IsSpace(s[0]) && !IsSpace(Last(s))
    ensures forall i :: 0 <= i < |SplitWs(s)| ==> SplitWs(s)[i] != []
    decreases |s|
  {
    var w := WordRun(s);
    if w < |s| {
      var rest := s[w..];
      var tail := rest[SpaceRun(rest)..];
      assert Last(tail) == Last(s);
      SplitWsPiecesNonEmpty(tail);
      assert SplitWs(s) == [s[..w]] + SplitWs(tail);
    }
  }

  /** `pieces[0] + gaps[0] + pieces[1] + ... + gaps[k-1] + pieces[k]`. */
  function Join(pieces: seq<string>, gaps: seq<string>): string
    requires |pieces| == |gaps| + 1
    decreases |gaps|
  {
    if gaps == [] then pieces[0] else pieces[0] + gaps[0] + Join(pieces[1..], gaps[1..])
  }

  lemma ThreeParts<T>(s: seq<T>, w: nat, n: nat)
    requires w + n <= |s|
    ensures s == s[..w] + s[w..][..n] + s[w..][n..]
  {
  }

  lemma JoinCons(piece: string, gap: string, pieces: seq<string>, gaps: seq<string>)
    requires |pieces| == |gaps| + 1
    ensures Join([piece] + pieces, [gap] + gaps) == piece + gap + Join(pieces, gaps)
  {
    assert ([piece] + pieces)[1..] == pieces && ([gap] + gaps)[1..] == gaps;
  }

  /** Every gap is a non-empty run of whitespace. */
  predicate WhitespaceGaps(gaps: seq<string>)
  {
    forall i :: 0 <= i < |gaps| ==> gaps[i] != [] && AllSpace(gaps[i])
  }

  /** The whitespace runs `re.split(r'\s+', s)` removes, in order. */
  function SplitGaps(s: string): (gaps: seq<string>)
    ensures |gaps| == |SplitWs(s)| - 1
    ensures WhitespaceGaps(gaps)
    decreases |s|
  {
    var w := WordRun(s);
    if w == |s| then []
    else
      var rest := s[w..];
      var n := SpaceRun(rest);
      assert IsSpace(rest[0]);
      [rest[..n]] + SplitGaps(rest[n..])
  }

  /** Splitting is undone by putting back the whitespace runs it removed: `s` is its
      pieces interleaved with the non-empty whitespace gaps. */
  lemma {:induction false} SplitWsRoundTrip(s: string)
    ensures s == Join(SplitWs(s), SplitGaps(s))
    decreases |s|
  {
    var w := WordRun(s);
    if w < |s| {
      var word, rest := s[..w], s[w..];
      var n := SpaceRun(rest);
      var gap, tail := rest[..n], rest[n..];
      SplitWsRoundTrip(tail);
      SplitStep(s);
      JoinCons(word, gap, SplitWs(tail), SplitGaps(tail));
      ThreeParts(s, w, n);
    }
  }

  lemma SplitStep(s: string)
    requires WordRun(s) < |s|
    ensures SplitWs(s) == [s[..WordRun(s)]] + SplitWs(s[WordRun(s)..][SpaceRun(s[WordRun(s)..])..])
    ensures SplitGaps(s) == [s[WordRun(s)..][..SpaceRun(s[WordRun(s)..])]] + SplitGaps(s[WordRun(s)..][SpaceRun(s[WordRun(s)..])..])
  {
  }

  /** The split is the only way to cut `s` into whitespace-free pieces separated by
      non-empty whitespace runs, given that only the first and last piece may be empty. */
  lemma {:induction false} SplitWsUnique(s: string, pieces: seq<string>, gaps: seq<string>)
    requires |pieces| == |gaps| + 1
    requires forall i :: 0 <= i < |pieces| ==> NoSpace(pieces[i])
    requires forall i :: 0 < i < |pieces| - 1 ==> pieces[i] != []
    requires WhitespaceGaps(gaps)
    requires s == Join(pieces, gaps)
    ensures SplitWs(s) == pieces
    decreases |gaps|
  {
    if gaps == [] {
      WordRunOfWord(s, []);
      assert s + [] == s;
      assert pieces == [pieces[0]];
    } else {
      var word, gap := pieces[0], gaps[0];
      var tail := Join(pieces[1..], gaps[1..]);
      JoinStartsWithPiece(pieces[1..], gaps[1..]);
      assert IsSpace(gap[0]);
      ConcatParts(word, gap, tail);
      WordRunOfWord(word, gap + tail);
      SpaceRunOfGap(gap, tail);
      SplitWsUnique(tail, pieces[1..], gaps[1..]);
      SplitStep(s);
      FirstAndRest(pieces);
    }
  }

  /** A join starts with its first piece, so it starts without whitespace when that piece
      is non-empty (or is all there is). */
  lemma JoinStartsWithPiece(pieces: seq<string>, gaps: seq<string>)
    requires |pieces| == |gaps| + 1
    requires NoSpace(pieces[0]) && (gaps != [] ==> pieces[0] != [])
    ensures Join(pieces, gaps) == [] || !IsSpace(Join(pieces, gaps)[0])
  {
    if gaps != [] {
      assert Join(pieces, gaps)[0] == pieces[0][0];
    }
  }

  lemma FirstAndRest<T>(s: seq<T>)
    requires s != []
    ensures s == [s[0]] + s[1..]
  {
  }

  lemma ConcatParts<T>(a: seq<T>, b: seq<T>, c: seq<T>)
    ensures a + b + c == a + (b + c)
    ensures (a + (b + c))[..|a|] == a && (a + (b + c))[|a|..] == b + c && (b + c)[|b|..] == c
  {
  }

  lemma WordRunOfWord(word: string, t: string)
    requires NoSpace(word) && (t == [] || IsSpace(t[0]))
    ensures WordRun(word + t) == |word|
  {
    assert forall i :: 0 <= i < |word| ==> (word + t)[i] == word[i];
    assert t != [] ==> (word + t)[|word|] == t[0];
  }

  lemma SpaceRunOfGap(gap: string, t: string)
    requires AllSpace(gap) && (t == [] || !IsSpace(t[0]))
    ensures SpaceRun(gap + t) == |gap|
  {
    assert forall i :: 0 <= i < |gap| ==> (gap + t)[i] == gap[i];
    assert t != [] ==> (gap + t)[|gap|] == t[0];
  }
}
