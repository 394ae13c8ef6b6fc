/** The verse analysis of src/creative-writing-dataset/poems_data.py: per-line
    syllable counts of a text and whether one count dominates. */
module Verse {
  import opened Seqs
  import opened PyText
  import opened Corpus

  /** A code point of the regex class `[ཀ-ཿ]`, U+0F40 to U+0F7F (the Tibetan
      letters, the vowel signs and the two marks U+0F7E and U+0F7F). The tsheg U+0F0B, the shad U+0F0D and spaces lie outside. */
  predicate IsSyllableChar(c: char)
  {
    '\U{0F40}' <= c <= '\U{0F7F}'
  }

  /** Length of the run of syllable characters at the start of `s`. */
  function SyllableRun(s: string): (n: nat)
    ensures 0 < n <= |s| <==> s != [] && IsSyllableChar(s[0])
    ensures n <= |s| && forall i :: 0 <= i < n ==> IsSyllableChar(s[i])
    ensures n == |s| || !IsSyllableChar(s[n])
    decreases |s|
  {
    if s != [] && IsSyllableChar(s[0]) then 1 + SyllableRun(s[1..]) else 0
  }

  /** `len(re.findall(r'[ཀ-ཿ]+', s))`: the regex scanner matches the longest run at
      the first syllable character, counts it and resumes after it. The count is
      the number of maximal runs of syllable characters. */
  function CountSyllables(s: string): (n: nat)
    ensures n == RunStarts(s, false)
    decreases |s|
  {
    if s == [] then 0
    else if IsSyllableChar(s[0]) then
      RunStartsAfterRun(s[1..]);
      assert s[SyllableRun(s)..] == s[1..][SyllableRun(s[1..])..];
      1 + CountSyllables(s[SyllableRun(s)..])
    else CountSyllables(s[1..])
  }

  /** Reference count, one character at a time: the positions of `s` holding a
      syllable character that is not preceded by one (`afterSyllable` says whether
      the character before `s` was a syllable character). */
  function RunStarts(s: string, afterSyllable: bool): nat
    decreases |s|
  {
    if s == [] then 0
    else (if IsSyllableChar(s[0]) && !afterSyllable then 1 else 0) + RunStarts(s[1..], IsSyllableChar(s[0]))
  }

  /** Number of syllable characters in `s`. */
  function SyllableChars(s: string): nat
    decreases |s|
  {
    if s == [] then 0 else (if IsSyllableChar(s[0]) then 1 else 0) + SyllableChars(s[1..])
  }

  lemma {:induction false} RunStartsAfterRun(s: string)
    ensures RunStarts(s, true) == RunStarts(s[SyllableRun(s)..], false)
    decreases |s|
  {
    if s != [] {
      if IsSyllableChar(s[0]) {
        RunStartsAfterRun(s[1..]);
        assert s[SyllableRun(s)..] == s[1..][SyllableRun(s[1..])..];
      }
    }
  }

  /** At most one syllable per syllable character, and none exactly when the text
      has no syllable character. */
  lemma {:induction false} CountSyllablesBounds(s: string)
    ensures CountSyllables(s) <= SyllableChars(s)
    ensures CountSyllables(s) == 0 <==> forall i :: 0 <= i < |s| ==> !IsSyllableChar(s[i])
    decreases |s|
  {
    if s != [] {
      if IsSyllableChar(s[0]) {
        var n := SyllableRun(s);
        CountSyllablesBounds(s[n..]);
        RunCharsCounted(s, n);
      } else {
        CountSyllablesBounds(s[1..]);
        assert forall i :: 1 <= i < |s| ==> s[i] == s[1..][i - 1];
      }
    }
  }

  /** A run of `n` syllable characters at the front contributes `n` to the character count. */
  lemma {:induction false} RunCharsCounted(s: string, n: nat)
    requires n <= |s| && forall i :: 0 <= i < n ==> IsSyllableChar(s[i])
    ensures SyllableChars(s) == n + SyllableChars(s[n..])
    decreases n
  {
    if n > 0 {
      RunCharsCounted(s[1..], n - 1);
      assert s[1..][n - 1..] == s[n..];
    }
  }

  /** Reference count of a concatenation: runs of `a`, then runs of `b` given what `a` ended with. */
  lemma {:induction false} RunStartsAppend(a: string, b: string, afterSyllable: bool)
    ensures RunStarts(a + b, afterSyllable)
         == RunStarts(a, afterSyllable) + RunStarts(b, if a == [] then afterSyllable else IsSyllableChar(Last(a)))
    decreases |a|
  {
    if a == [] {
      assert a + b == b;
    } else {
      RunStartsAppend(a[1..], b, IsSyllableChar(a[0]));
      assert (a + b)[1..] == a[1..] + b;
      if a[1..] != [] { assert Last(a[1..]) == Last(a); }
    }
  }

  /** A line of tsheg-separated syllables counts one per syllable: "ཀ་ཁ་ག" has three. */
  lemma TshegSeparatedSyllables()
    ensures CountSyllables("ཀ་ཁ་ག") == 3
  {
    SeparatorSplitsCount("ཀ", '་', "ཁ་ག");
    SeparatorSplitsCount("ཁ", '་', "ག");
    assert "ཀ" + ['་'] + "ཁ་ག" == "ཀ་ཁ་ག";
    assert "ཁ" + ['་'] + "ག" == "ཁ་ག";
  }

  /** Subjoined letters (U+0F90 onwards) lie outside the class, so a stacked syllable
      is cut in two: "བསྒྲགས" (ba-sa-subjoined ga-subjoined ra-ga-sa) counts 2. */
  lemma StackedSyllableCountsTwice()
    ensures CountSyllables("བསྒྲགས") == 2
  {
    SeparatorSplitsCount("བས", '\U{0F92}', "ྲགས");
    SeparatorSplitsCount("", '\U{0FB2}', "གས");
    assert "བས" + ['\U{0F92}'] + "ྲགས" == "བསྒྲགས";
    assert "" + ['\U{0FB2}'] + "གས" == "ྲགས";
  }

  /** Any character outside the syllable class (tsheg, shad, space, ...) separates
      syllables: the count of `a + [c] + b` is the count of `a` plus the count of `b`. */
  lemma SeparatorSplitsCount(a: string, c: char, b: string)
    requires !IsSyllableChar(c)
    ensures CountSyllables(a + [c] + b) == CountSyllables(a) + CountSyllables(b)
  {
    RunStartsAppend(a + [c], b, false);
    RunStartsAppend(a, [c], false);
    assert Last(a + [c]) == c;
    assert ([c] + b)[1..] == b;
    RunStartsAppend([c], b, false);
  }

  /** `re.split(r'\s+', text.strip())`: the whitespace-separated "lines" of a text. */
  function Lines(text: string): (lines: seq<string>)
    ensures |lines| >= 1
    ensures forall i :: 0 <= i < |lines| ==> NoSpace(lines[i])
    ensures AllSpace(text) ==> lines == [""]
    ensures !AllSpace(text) ==> forall i :: 0 <= i < |lines| ==> lines[i] != []
  {
    var stripped := Strip(text);
    StripEmptyIffBlank(text);
    if stripped != [] then SplitWsPiecesNonEmpty(stripped); SplitWs(stripped)
    else SplitWs(stripped)
  }

  /** The lines together hold every non-whitespace character of the text, in order. */
  lemma LinesKeepAllButSpace(text: string)
    ensures Concat(Lines(text)) == Filter(NotSpace, text)
  {
    SplitWsLosesOnlySpace(Strip(text));
    StripKeepsAllButSpace(text);
  }

  /** Splitting is undone by joining: the stripped text is the lines put back
      together with the non-empty whitespace gaps that separated them. */
  lemma LinesRoundTrip(text: string)
    ensures |SplitGaps(Strip(text))| == |Lines(text)| - 1
    ensures WhitespaceGaps(SplitGaps(Strip(text)))
    ensures Strip(text) == Join(Lines(text), SplitGaps(Strip(text)))
  {
    SplitWsRoundTrip(Strip(text));
  }

  /** The lines are the only such decomposition: whitespace-free pieces, all but the
      outer ones non-empty, joined by non-empty whitespace gaps into the stripped text
      are exactly `Lines(text)`. */
  lemma LinesUnique(text: string, pieces: seq<string>, gaps: seq<string>)
    requires |pieces| == |gaps| + 1
    requires forall i :: 0 <= i < |pieces| ==> NoSpace(pieces[i])
    requires forall i :: 0 < i < |pieces| - 1 ==> pieces[i] != []
    requires WhitespaceGaps(gaps)
    requires Strip(text) == Join(pieces, gaps)
    ensures Lines(text) == pieces
  {
    SplitWsUnique(Strip(text), pieces, gaps);
  }

  /** Stripping "ཀ་ཁ ག\n" removes only the final newline. */
  lemma StripExample()
    ensures Strip("ཀ་ཁ ག\n") == "ཀ་ཁ ག"
  {
    var text := "ཀ་ཁ ག\n";
    assert SpaceRun(text) == 0;
    assert text[4] == 'ག';
  }

  /** "ཀ་ཁ ག\n" is two lines, "ཀ་ཁ" and "ག". */
  lemma TwoLines()
    ensures Lines("ཀ་ཁ ག\n") == ["ཀ་ཁ", "ག"]
  {
    StripExample();
    var pieces, gaps := ["ཀ་ཁ", "ག"], [" "];
    assert Join(pieces, gaps) == "ཀ་ཁ" + " " + "ག";
    LinesUnique("ཀ་ཁ ག\n", pieces, gaps);
  }

  /** ... with two syllables on the first line and one on the second. */
  lemma TwoLinesCounts()
    ensures ProcessText("ཀ་ཁ ག\n").syllableCount == [2, 1]
  {
    TwoLines();
    CountAt("ཀ་ཁ ག\n", 0);
    CountAt("ཀ་ཁ ག\n", 1);
    TshegPairSyllables();
    OneSyllable('ག');
    assert "ག" == ['ག'];
  }

  /** Entry `i` of the analysis is the syllable count of line `i`. */
  lemma CountAt(text: string, i: nat)
    requires i < |Lines(text)|
    ensures ProcessText(text).syllableCount[i] == CountSyllables(Lines(text)[i])
  {
  }

  /** Two syllables joined by a tsheg. */
  lemma TshegPairSyllables()
    ensures CountSyllables("ཀ་ཁ") == 2
  {
    OneSyllable('ཀ');
    OneSyllable('ཁ');
    SeparatorSplitsCount("ཀ", '་', "ཁ");
    assert "ཀ" + ['་'] + "ཁ" == "ཀ་ཁ";
    assert "ཀ" == ['ཀ'] && "ཁ" == ['ཁ'];
  }

  /** A single syllable character is one syllable. */
  lemma OneSyllable(c: char)
    requires IsSyllableChar(c)
    ensures CountSyllables([c]) == 1
  {
    assert [c][SyllableRun([c])..] == [];
  }

  /** A value of maximal frequency in `xs` (`xs.count(v)` is `multiset(xs)[v]`). */
  predicate IsMostCommon(xs: seq<nat>, v: nat)
  {
    v in xs && forall w :: w in xs ==> multiset(xs)[w] <= multiset(xs)[v]
  }

  /** `max(candidates, key=xs.count)`: the first candidate of highest frequency in `xs`. */
  function MostCommonAmong(xs: seq<nat>, candidates: seq<nat>): (v: nat)
    requires candidates != []
    ensures v in candidates
    ensures forall w :: w in candidates ==> multiset(xs)[w] <= multiset(xs)[v]
    decreases |candidates|
  {
    if |candidates| == 1 then candidates[0]
    else
      var best := MostCommonAmong(xs, candidates[1..]);
      if multiset(xs)[candidates[0]] >= multiset(xs)[best] then candidates[0] else best
  }

  /** `most_common_count`: some count of maximal frequency. Python draws the candidates
      from `set(xs)`, whose order is the interpreter's; this model tries them in line order. */
  function MostCommon(xs: seq<nat>): (v: nat)
    requires xs != []
    ensures IsMostCommon(xs, v)
  {
    MostCommonAmong(xs, xs)
  }

  /** The test of `process_text` on the counts: with at least one line, the most common
      count must cover 80% of the lines (`consistency >= 0.8` with `consistency = m / n`,
      i.e. `5m >= 4n`); with no line the consistency is 0. The verdict is the same
      whichever most common count is picked: it holds exactly when some count covers
      80% of the lines. */
  function IsConsistent(counts: seq<nat>): (r: bool)
    ensures r <==> |counts| > 0 && exists v :: 5 * multiset(counts)[v] >= 4 * |counts|
  {
    if |counts| > 0 then
      var mode := MostCommon(counts);
      assert forall v :: multiset(counts)[v] <= multiset(counts)[mode] by {
        forall v ensures multiset(counts)[v] <= multiset(counts)[mode] {
          if v !in counts { assert multiset(counts)[v] == 0; }
        }
      }
      5 * multiset(counts)[mode] >= 4 * |counts|
    else
      false
  }

  /** What `process_text` returns: the per-line counts, the number of lines and the verdict. */
  datatype TextInfo = TextInfo(syllableCount: seq<nat>, lineCount: nat, structured: bool)

  /** `process_text`: the syllable count of every line, in order, the number of lines and
      whether one count dominates. */
  function ProcessText(text: string): (info: TextInfo)
    ensures info.lineCount == |Lines(text)| >= 1
    ensures |info.syllableCount| == info.lineCount
    ensures forall i :: 0 <= i < info.lineCount ==> info.syllableCount[i] == CountSyllables(Lines(text)[i])
    ensures info.structured <==> exists v :: 5 * multiset(info.syllableCount)[v] >= 4 * info.lineCount
  {
    var lines := Lines(text);
    var counts := seq(|lines|, i requires 0 <= i < |lines| => CountSyllables(lines[i]));
    TextInfo(counts, |lines|, IsConsistent(counts))
  }

  /** A value repeated at every position is counted once per position. */
  lemma {:induction false} UniformCount(xs: seq<nat>, v: nat)
    requires forall i :: 0 <= i < |xs| ==> xs[i] == v
    ensures multiset(xs)[v] == |xs|
    decreases |xs|
  {
    if xs != [] {
      UniformCount(DropLast(xs), v);
      assert xs == DropLast(xs) + [Last(xs)];
    }
  }

  /** When every line has the same count, the text is structured. */
  lemma UniformLinesAreStructured(text: string)
    requires forall i, j :: 0 <= i < j < |Lines(text)| ==> CountSyllables(Lines(text)[i]) == CountSyllables(Lines(text)[j])
    ensures ProcessText(text).structured
  {
    var info := ProcessText(text);
    var v := info.syllableCount[0];
    forall i | 0 <= i < |info.syllableCount| ensures info.syllableCount[i] == v {
      if i > 0 {
        assert CountSyllables(Lines(text)[0]) == CountSyllables(Lines(text)[i]);
      }
    }
    UniformCount(info.syllableCount, v);
    assert 5 * multiset(info.syllableCount)[v] >= 4 * info.lineCount;
  }

  /** A blank or whitespace-only text is one empty line with no syllables, and structured:
      the `else` branch of `process_text` is never taken. */
  lemma BlankTextIsOneEmptyLine(text: string)
    requires AllSpace(text)
    ensures ProcessText(text) == TextInfo([0], 1, true)
  {
    var info := ProcessText(text);
    assert Lines(text) == [""];
    assert info.syllableCount == [0];
    assert multiset(info.syllableCount)[0] == 1;
  }

  /** One record of the output of `process_json`. */
  datatype PoemRecord = PoemRecord(tags: seq<string>, text: string, syllable: seq<nat>, line: nat, structured: bool)

  /** The output record `process_json` builds for one entry: `tags` and `text` copied
      (defaulting to `[]` and `""`) and the analysis of the text. */
  function RecordOf(e: Entry): (r: PoemRecord)
    ensures r.tags == TagsOr(e) && r.text == TextOr(e)
    ensures r.line == |Lines(r.text)| == |r.syllable| >= 1
    ensures forall i :: 0 <= i < r.line ==> r.syllable[i] == CountSyllables(Lines(r.text)[i])
    ensures r.structured <==> exists v :: 5 * multiset(r.syllable)[v] >= 4 * r.line
  {
    var info := ProcessText(TextOr(e));
    PoemRecord(TagsOr(e), TextOr(e), info.syllableCount, info.lineCount, info.structured)
  }

  /** The records of a list of entries, one per entry, in order. */
  function Records(data: seq<Entry>): (output: seq<PoemRecord>)
    ensures |output| == |data|
    decreases |data|
  {
    if data == [] then [] else Records(DropLast(data)) + [RecordOf(Last(data))]
  }

  /** Record `i` is the record of entry `i`: tags and text copied, with defaults for
      missing fields, and one syllable count per line. */
  lemma {:induction false} RecordsAt(data: seq<Entry>, i: nat)
    requires i < |data|
    ensures Records(data)[i] == RecordOf(data[i])
    ensures Records(data)[i].tags == TagsOr(data[i]) && Records(data)[i].text == TextOr(data[i])
    ensures Records(data)[i].line == |Records(data)[i].syllable| >= 1
    decreases |data|
  {
    if i < |data| - 1 {
      RecordsAt(DropLast(data), i);
    }
  }

  /** `process_json` without the file reading and writing: the `for` loop appending one
      record per entry. */
  method ProcessJson(data: seq<Entry>) returns (output: seq<PoemRecord>)
    ensures output == Records(data)
  {
    output := [];
    for i := 0 to |data|
      invariant output == Records(data[..i])
    {
      assert DropLast(data[..i + 1]) == data[..i] && Last(data[..i + 1]) == data[i];
      var tags := TagsOr(data[i]);
      var text := TextOr(data[i]);
      var info := ProcessText(text);
      var outputEntry := PoemRecord(tags, text, info.syllableCount, info.lineCount, info.structured);
      assert outputEntry == RecordOf(data[i]);
      output := output + [outputEntry];
    }
    assert data[..|data|] == data;
  }
}
