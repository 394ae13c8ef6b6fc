/** Keyword bucketing of src/creative-writing-dataset/create_dataset.py: one output file
    per keyword holding the entries tagged with it, and one for the entries tagged with
    none of the keywords. */
module Bucketing {
  import opened Seqs
  import opened Corpus

  /** The keyword list `main` passes to `process_json`, in its order. */
  const MainKeywords: seq<string> := [
    "ཡིག་སྒྲེལ་", "ངོས་སྦྱོར་", "གསལ་བསྒྲགས་", "རྩོམ་ཡིག",
    "གློག་དེབ།", "མགུར་གླུ།", "གསར་འགྱུར།", "སྙན་ངག"
  ]

  /** `keyword in entry['tags']` for an entry that has tags: exact list membership. */
  predicate HasTag(e: Entry, k: string)
  {
    e.tags.Some? && k in e.tags.value
  }

  /** Every entry has a `tags` field, so `entry['tags']` raises no KeyError. */
  predicate AllTagged(data: seq<Entry>)
  {
    forall e :: e in data ==> e.tags.Some?
  }

  /** `any(keyword in entry['tags'] for keyword in keywords)` */
  predicate MatchesAny(e: Entry, keywords: seq<string>)
  {
    exists k :: k in keywords && HasTag(e, k)
  }

  function TaggedWith(k: string): Entry -> bool
  {
    e => HasTag(e, k)
  }

  function TaggedWithNone(keywords: seq<string>): Entry -> bool
  {
    e => !MatchesAny(e, keywords)
  }

  /** The bucket of keyword `k`: the entries tagged with `k`, in corpus order. */
  function Bucket(data: seq<Entry>, k: string): seq<Entry>
  {
    Filter(TaggedWith(k), data)
  }

  /** The entries tagged with none of the keywords, in corpus order. */
  function Unclassified(data: seq<Entry>, keywords: seq<string>): seq<Entry>
  {
    Filter(TaggedWithNone(keywords), data)
  }

  /** `filter_data_by_keyword`: the entries whose tags list contains `k`, in their order
      and with every copy; KeyError when some entry has no `tags`. */
  function FilterDataByKeyword(data: seq<Entry>, k: string): (r: Result<seq<Entry>>)
    ensures r.KeyError? <==> !AllTagged(data)
    ensures r.Ok? ==> IsSubsequence(r.value, data)
    ensures r.Ok? ==> forall e :: e in r.value <==> e in data && k in e.tags.value
    ensures r.Ok? ==> forall e :: multiset(r.value)[e] == if HasTag(e, k) then multiset(data)[e] else 0
  {
    if AllTagged(data) then
      FilterMembers(TaggedWith(k), data);
      FilterIsSubsequence(TaggedWith(k), data);
      FilterCounts(TaggedWith(k), data);
      Ok(Bucket(data, k))
    else
      KeyError("tags")
  }

  /** `filter_unclassified_data`: the entries tagged with none of the keywords, in their
      order. With no keyword `any` never looks at `entry['tags']`, so the result is the
      whole corpus and no KeyError is possible. */
  function FilterUnclassifiedData(data: seq<Entry>, keywords: seq<string>): (r: Result<seq<Entry>>)
    ensures r.KeyError? <==> keywords != [] && !AllTagged(data)
    ensures keywords == [] ==> r == Ok(data)
    ensures r.Ok? ==> IsSubsequence(r.value, data)
    ensures r.Ok? ==> forall e :: e in r.value <==> e in data && forall k :: k in keywords ==> !HasTag(e, k)
    ensures r.Ok? ==> forall e :: multiset(r.value)[e] == if MatchesAny(e, keywords) then 0 else multiset(data)[e]
  {
    if keywords == [] || AllTagged(data) then
      FilterMembers(TaggedWithNone(keywords), data);
      FilterIsSubsequence(TaggedWithNone(keywords), data);
      FilterCounts(TaggedWithNone(keywords), data);
      if keywords == [] then
        FilterKeepsAll(TaggedWithNone(keywords), data);
        Ok(Unclassified(data, keywords))
      else
        Ok(Unclassified(data, keywords))
    else
      KeyError("tags")
  }

  /** The files the keyword loop writes, in order: `k + ".json"` for every keyword with a
      non-empty bucket (a repeated keyword is written again). */
  function BucketFiles(data: seq<Entry>, keywords: seq<string>): seq<JsonFile>
    decreases |keywords|
  {
    if keywords == [] then []
    else
      var k := Last(keywords);
      BucketFiles(data, DropLast(keywords))
        + (if Bucket(data, k) != [] then [JsonFile(k + ".json", Bucket(data, k))] else [])
  }

  /** The `unclassified.json` file, written only when some entry matches no keyword. */
  function UnclassifiedFiles(data: seq<Entry>, keywords: seq<string>): seq<JsonFile>
  {
    var u := Unclassified(data, keywords);
    if u != [] then [JsonFile("unclassified.json", u)] else []
  }

  /** `classified_entries` after the loop: the buckets one after the other. */
  function Classified(data: seq<Entry>, keywords: seq<string>): seq<Entry>
    decreases |keywords|
  {
    if keywords == [] then [] else Classified(data, DropLast(keywords)) + Bucket(data, Last(keywords))
  }

  /** What one run of `process_json` produces: the files in the order written and the
      accumulated `classified_entries`. */
  datatype Run = Run(files: seq<JsonFile>, classified: seq<Entry>)

  /** `process_json` with the corpus given as a value and the writes collected in order.
      The first `filter_data_by_keyword` call raises KeyError before anything is written
      when some entry lacks `tags`; with no keyword nothing reads `tags` at all. */
  method ProcessJson(data: seq<Entry>, keywords: seq<string>) returns (r: Result<Run>)
    ensures r.KeyError? <==> keywords != [] && !AllTagged(data)
    ensures r.Ok? ==> r.value.files == BucketFiles(data, keywords) + UnclassifiedFiles(data, keywords)
    ensures r.Ok? ==> r.value.classified == Classified(data, keywords)
  {
    var files: seq<JsonFile> := [];
    var classifiedEntries: seq<Entry> := [];
    for i := 0 to |keywords|
      invariant files == BucketFiles(data, keywords[..i])
      invariant classifiedEntries == Classified(data, keywords[..i])
      invariant i > 0 ==> AllTagged(data)
    {
      assert DropLast(keywords[..i + 1]) == keywords[..i] && Last(keywords[..i + 1]) == keywords[i];
      var filteredData := FilterDataByKeyword(data, keywords[i]);
      if filteredData.KeyError? {
        return KeyError(filteredData.key);
      }
      if filteredData.value != [] {
        files := files + [JsonFile(keywords[i] + ".json", filteredData.value)];
        classifiedEntries := classifiedEntries + filteredData.value;
      }
    }
    assert keywords[..|keywords|] == keywords;
    var unclassifiedData := FilterUnclassifiedData(data, keywords);
    assert unclassifiedData.Ok?;
    if unclassifiedData.value != [] {
      files := files + [JsonFile("unclassified.json", unclassifiedData.value)];
    }
    return Ok(Run(files, classifiedEntries));
  }

  /** Every entry lands in the bucket of some keyword it carries or in the unclassified
      list, and never in both. */
  lemma BucketsOrUnclassified(data: seq<Entry>, keywords: seq<string>, e: Entry)
    requires e in data
    ensures e in Unclassified(data, keywords) <==> forall k :: k in keywords ==> e !in Bucket(data, k)
  {
    FilterMembers(TaggedWithNone(keywords), data);
    forall k | k in keywords {
      FilterMembers(TaggedWith(k), data);
    }
  }

  /** A file is written for keyword `k` exactly when its bucket is non-empty, and it holds that bucket. */
  lemma {:induction false} BucketFilesAreNonEmptyBuckets(data: seq<Entry>, keywords: seq<string>)
    ensures forall f :: f in BucketFiles(data, keywords) <==>
      exists k :: k in keywords && Bucket(data, k) != [] && f == JsonFile(k + ".json", Bucket(data, k))
    decreases |keywords|
  {
    if keywords != [] {
      var init := DropLast(keywords);
      BucketFilesAreNonEmptyBuckets(data, init);
      assert keywords == init + [Last(keywords)];
      assert forall k :: k in keywords <==> k in init || k == Last(keywords);
    }
  }

  /** `classified_entries` holds every bucket in full, so its length is the sum of the bucket sizes. */
  function BucketSizes(data: seq<Entry>, keywords: seq<string>): nat
    decreases |keywords|
  {
    if keywords == [] then 0 else BucketSizes(data, DropLast(keywords)) + |Bucket(data, Last(keywords))|
  }

  lemma {:induction false} ClassifiedSize(data: seq<Entry>, keywords: seq<string>)
    ensures |Classified(data, keywords)| == BucketSizes(data, keywords)
    decreases |keywords|
  {
    if keywords != [] {
      ClassifiedSize(data, DropLast(keywords));
    }
  }

  function KeywordMatches(e: Entry): string -> bool
  {
    k => HasTag(e, k)
  }

  /** An entry appears in `classified_entries` once per keyword it carries (and per copy of
      it in the corpus): an entry with several matching keywords is in each of their buckets. */
  lemma {:induction false} ClassifiedMultiplicity(data: seq<Entry>, keywords: seq<string>, e: Entry)
    ensures multiset(Classified(data, keywords))[e] == multiset(data)[e] * |Filter(KeywordMatches(e), keywords)|
    decreases |keywords|
  {
    if keywords != [] {
      var init, k := DropLast(keywords), Last(keywords);
      ClassifiedMultiplicity(data, init, e);
      FilterCounts(TaggedWith(k), data);
      var m, n := multiset(data)[e], |Filter(KeywordMatches(e), init)|;
      assert Classified(data, keywords) == Classified(data, init) + Bucket(data, k);
      assert multiset(Classified(data, keywords))[e] == m * n + (if HasTag(e, k) then m else 0);
      assert |Filter(KeywordMatches(e), keywords)| == n + (if HasTag(e, k) then 1 else 0);
      MulSucc(m, n);
    }
  }

  /** The one non-linear step of `ClassifiedMultiplicity`, proved apart from its context. */
  lemma MulSucc(m: nat, n: nat)
    ensures m * (n + 1) == m * n + m
  {
  }
}
