/** The sampling of src/creative-writing-dataset/sample_dataset.py: the first entries of
    every `.json` file, saved under a name with `.json` rewritten to `_sample.json`. */
module Sampling {
  import opened Seqs
  import opened Corpus

  /** `data[:n]`, with Python's slice rules: a bound past the end stops at the end, and a
      negative bound counts from the end. */
  function Sample(data: seq<Entry>, n: int): (sample: seq<Entry>)
    ensures |sample| <= |data|
    ensures sample == data[..|sample|]
    ensures n >= 0 ==> |sample| == if n < |data| then n else |data|
    ensures n < 0 ==> |sample| == if |data| + n > 0 then |data| + n else 0
  {
    if n >= 0 then
      if n < |data| then data[..n] else data
    else
      if |data| + n > 0 then data[..|data| + n] else []
  }

  /** Sampling a sample of at most `n` entries again with the same size changes nothing. */
  lemma SampleIdempotent(data: seq<Entry>, n: int)
    requires n >= 0
    ensures Sample(Sample(data, n), n) == Sample(data, n)
  {
  }

  /** `s.endswith(suffix)` */
  function EndsWith(s: string, suffix: string): (b: bool)
    ensures b <==> exists stem :: s == stem + suffix
  {
    if |suffix| <= |s| && s[|s| - |suffix|..] == suffix then
      assert s == s[..|s| - |suffix|] + suffix;
      true
    else
      assert forall stem :: s != stem + suffix by {
        forall stem | |stem + suffix| == |s| ensures (stem + suffix)[|stem|..] == suffix { }
      }
      false
  }

  /** `pattern` occurs in `s` starting at position `i`. */
  predicate OccursAt(s: string, pattern: string, i: nat)
  {
    i + |pattern| <= |s| && s[i..i + |pattern|] == pattern
  }

  /** `pattern in s` */
  predicate Contains(s: string, pattern: string)
  {
    exists i: nat :: i <= |s| && OccursAt(s, pattern, i)
  }

  /** An occurrence in `s[1..]` is an occurrence in `s` one position later. */
  lemma OccursInTail(s: string, pattern: string)
    requires s != [] && !Contains(s, pattern)
    ensures !Contains(s[1..], pattern)
  {
    forall i: nat ensures !OccursAt(s[1..], pattern, i) {
      if i + |pattern| <= |s| - 1 {
        assert s[1..][i..i + |pattern|] == s[i + 1..i + 1 + |pattern|];
        assert !OccursAt(s, pattern, i + 1);
      }
    }
  }

  /** `s.replace(pattern, replacement)`: scanning from the left, every occurrence of
      `pattern` that does not overlap an earlier replaced one is replaced. */
  function Replace(s: string, pattern: string, replacement: string): (r: string)
    requires pattern != []
    ensures |replacement| >= |pattern| ==> |r| >= |s|
    ensures |replacement| <= |pattern| ==> |r| <= |s|
    decreases |s|
  {
    if |s| < |pattern| then s
    else if s[..|pattern|] == pattern then replacement + Replace(s[|pattern|..], pattern, replacement)
    else [s[0]] + Replace(s[1..], pattern, replacement)
  }

  /** A string without an occurrence of the pattern is left as it is. */
  lemma {:induction false} ReplaceWithoutOccurrence(s: string, pattern: string, replacement: string)
    requires pattern != [] && !Contains(s, pattern)
    ensures Replace(s, pattern, replacement) == s
    decreases |s|
  {
    if |s| >= |pattern| {
      assert !OccursAt(s, pattern, 0);
      assert s[0..0 + |pattern|] == s[..|pattern|];
      OccursInTail(s, pattern);
      ReplaceWithoutOccurrence(s[1..], pattern, replacement);
      assert [s[0]] + s[1..] == s;
    }
  }

  /** The output name of a sampled file: `file_name.replace('.json', '_sample.json')`. */
  function SampleName(fileName: string): (name: string)
    ensures |name| >= |fileName|
    ensures !Contains(fileName, ".json") ==> name == fileName
  {
    if !Contains(fileName, ".json") then
      ReplaceWithoutOccurrence(fileName, ".json", "_sample.json");
      Replace(fileName, ".json", "_sample.json")
    else
      Replace(fileName, ".json", "_sample.json")
  }

  /** For a name `stem + ".json"` whose stem holds no `.json`, only the extension is
      rewritten: `.json` cannot start inside the stem and run into the extension, because
      its only `.` is its first character. */
  lemma SampleNameOfJsonFile(stem: string)
    requires !Contains(stem, ".json")
    ensures SampleName(stem + ".json") == stem + "_sample.json"
  {
    ReplaceExtension(stem);
  }

  /** Every `.json` of a name is rewritten, from the left: a name `a + ".json" + b` with no
      `.json` in `a` becomes `a + "_sample.json"` followed by the sample name of `b`. */
  lemma SampleNameStep(a: string, b: string)
    requires !Contains(a, ".json")
    ensures SampleName(a + ".json" + b) == a + "_sample.json" + SampleName(b)
  {
    NoJsonBeforeExtension(a, b);
    ReplaceFirstOccurrence(a, ".json", "_sample.json", b);
  }

  /** A name with `.json` twice has both occurrences rewritten: `"a.json.json"` becomes
      `"a_sample.json_sample.json"`. */
  lemma SampleNameTwice(stem: string)
    requires !Contains(stem, ".json")
    ensures SampleName(stem + ".json" + ".json") == stem + "_sample.json" + "_sample.json"
  {
    SampleNameStep(stem, ".json");
    SampleNameOfJsonFile([]);
    assert [] + ".json" == ".json" && [] + "_sample.json" == "_sample.json";
  }

  /** Replacing `.json` in `stem + ".json"`, where the stem holds no `.json`, rewrites
      the extension only. */
  lemma ReplaceExtension(stem: string)
    requires !Contains(stem, ".json")
    ensures Replace(stem + ".json", ".json", "_sample.json") == stem + "_sample.json"
  {
    NoJsonBeforeExtension(stem, []);
    ReplaceFirstOccurrence(stem, ".json", "_sample.json", []);
    assert stem + ".json" + [] == stem + ".json";
    assert stem + "_sample.json" + [] == stem + "_sample.json";
  }

  /** The left-to-right scan of `replace`: when the first occurrence of the pattern in
      `a + pattern + b` starts right after `a`, the result is `a`, the replacement, and
      the replacement of the rest. With `ReplaceWithoutOccurrence` this fixes the result
      of `replace` on every string. */
  lemma {:induction false} ReplaceFirstOccurrence(a: string, pattern: string, replacement: string, b: string)
    requires pattern != []
    requires forall i :: 0 <= i < |a| ==> !OccursAt(a + pattern + b, pattern, i)
    ensures Replace(a + pattern + b, pattern, replacement) == a + replacement + Replace(b, pattern, replacement)
    decreases |a|
  {
    var s := a + pattern + b;
    if a == [] {
      assert s[..|pattern|] == pattern && s[|pattern|..] == b;
    } else {
      assert !OccursAt(s, pattern, 0);
      assert s[0..0 + |pattern|] == s[..|pattern|];
      assert s[1..] == a[1..] + pattern + b;
      NoOccurrenceShifts(s, pattern, |a|);
      ReplaceFirstOccurrence(a[1..], pattern, replacement, b);
      assert s[0] == a[0];
      ConsOntoConcat(a, replacement, Replace(b, pattern, replacement));
    }
  }

  /** Occurrences in `s[1..]` are occurrences in `s` one position later, so none before
      `n - 1` in the tail when none before `n` in `s`. */
  lemma NoOccurrenceShifts(s: string, pattern: string, n: nat)
    requires s != [] && n <= |s|
    requires forall i :: 0 <= i < n ==> !OccursAt(s, pattern, i)
    ensures forall i :: 0 <= i < n - 1 ==> !OccursAt(s[1..], pattern, i)
  {
    forall i | 0 <= i < n - 1 ensures !OccursAt(s[1..], pattern, i) {
      assert !OccursAt(s, pattern, i + 1);
      if i + |pattern| <= |s| - 1 {
        assert s[1..][i..i + |pattern|] == s[i + 1..i + 1 + |pattern|];
      }
    }
  }

  /** Putting the first character back in front of the rest of `a`. */
  lemma ConsOntoConcat(a: string, q: string, r: string)
    requires a != []
    ensures [a[0]] + (a[1..] + q + r) == a + q + r
  {
  }

  /** `.json` cannot overlap itself, since its only `.` is its first character: in
      `a + ".json" + b` with no `.json` in `a`, the first occurrence starts right after `a`. */
  lemma NoJsonBeforeExtension(a: string, b: string)
    requires !Contains(a, ".json")
    ensures forall i :: 0 <= i < |a| ==> !OccursAt(a + ".json" + b, ".json", i)
  {
    var s := a + ".json" + b;
    forall i | 0 <= i < |a| ensures !OccursAt(s, ".json", i) {
      if i + 5 <= |a| {
        assert !OccursAt(a, ".json", i);
        assert s[i..i + 5] == a[i..i + 5];
      } else {
        assert s[|a|] == '.';
        assert s[i..i + 5][|a| - i] == '.';
        assert forall k :: 1 <= k < 5 ==> ".json"[k] != '.';
      }
    }
  }

  function IsJsonFile(f: JsonFile): bool
  {
    EndsWith(f.name, ".json")
  }

  /** The file written for one listed `.json` file. */
  function SampleOf(f: JsonFile, sampleSize: int): JsonFile
  {
    JsonFile(SampleName(f.name), Sample(f.entries, sampleSize))
  }

  /** The files the loop of `sample_json_files` writes, in listing order. */
  function SampledFiles(listing: seq<JsonFile>, sampleSize: int): seq<JsonFile>
    decreases |listing|
  {
    if listing == [] then []
    else
      SampledFiles(DropLast(listing), sampleSize)
        + (if IsJsonFile(Last(listing)) then [SampleOf(Last(listing), sampleSize)] else [])
  }

  /** Only the `.json` files are sampled, each once, in listing order: the `i`-th file
      written is the sample of the `i`-th `.json` file listed. */
  lemma {:induction false} SampledFilesAreJsonFiles(listing: seq<JsonFile>, sampleSize: int)
    ensures |SampledFiles(listing, sampleSize)| == |Filter(IsJsonFile, listing)|
    ensures forall i :: 0 <= i < |Filter(IsJsonFile, listing)| ==>
      SampledFiles(listing, sampleSize)[i] == SampleOf(Filter(IsJsonFile, listing)[i], sampleSize)
    decreases |listing|
  {
    if listing != [] {
      SampledFilesAreJsonFiles(DropLast(listing), sampleSize);
    }
  }

  /** `sample_json_files` without the directory listing and the file reading and writing:
      the listed files come in as (name, contents) pairs in listing order, and the files
      written come out in order. */
  method SampleJsonFiles(listing: seq<JsonFile>, sampleSize: int) returns (written: seq<JsonFile>)
    ensures written == SampledFiles(listing, sampleSize)
  {
    written := [];
    for i := 0 to |listing|
      invariant written == SampledFiles(listing[..i], sampleSize)
    {
      assert DropLast(listing[..i + 1]) == listing[..i] && Last(listing[..i + 1]) == listing[i];
      var fileName := listing[i].name;
      if EndsWith(fileName, ".json") {
        var sampleData := Sample(listing[i].entries, sampleSize);
        var sampleFileName := SampleName(fileName);
        written := written + [JsonFile(sampleFileName, sampleData)];
      }
    }
    assert listing[..|listing|] == listing;
  }
}
