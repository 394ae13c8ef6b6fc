/** Exact-text deduplication of src/depuplicate_data/deduplicate_data.py: every entry
    whose text occurs more than once is dropped, all copies of it. */
module Dedup {
  import opened Seqs
  import opened Corpus

  /** `{text for text, count in text_counts.items() if count == 1}` with
      `text_counts = Counter(texts)`. */
  function UniqueTexts(texts: seq<string>): (unique: set<string>)
    ensures forall t :: t in unique <==> multiset(texts)[t] == 1
  {
    var counts := multiset(texts);
    set t | t in counts && counts[t] == 1
  }

  /** `entry['text'] in unique_texts` */
  function TextIn(unique: set<string>): Entry -> bool
  {
    (e: Entry) => e.text.Some? && e.text.value in unique
  }

  /** `deduplicate_texts` without the file reading and writing: the entries whose text
      occurs exactly once, in corpus order; KeyError when some entry has no `text`. */
  function DeduplicateTexts(data: seq<Entry>): (r: Result<seq<Entry>>)
    ensures r.KeyError? <==> !AllHaveText(data)
    ensures data == [] ==> r == Ok([])
    ensures r.Ok? ==> IsSubsequence(r.value, data)
    ensures r.Ok? ==> forall e :: e in r.value <==> e in data && TextOccurrences(data, e.text) == 1
  {
    match TextColumn(data)
    case KeyError(key) => KeyError(key)
    case Ok(texts) =>
      TextColumnCounts(data);
      FilterMembers(TextIn(UniqueTexts(texts)), data);
      FilterIsSubsequence(TextIn(UniqueTexts(texts)), data);
      Ok(Filter(TextIn(UniqueTexts(texts)), data))
  }

  /** The filter on texts keeps all occurrences of a kept text and none of a dropped one. */
  lemma {:induction false} FilteredOccurrences(unique: set<string>, data: seq<Entry>, t: Option<string>)
    ensures TextOccurrences(Filter(TextIn(unique), data), t)
         == if t.Some? && t.value in unique then TextOccurrences(data, t) else 0
    decreases |data|
  {
    if data != [] {
      var init, e := DropLast(data), Last(data);
      var r := Filter(TextIn(unique), init);
      FilteredOccurrences(unique, init, t);
      if TextIn(unique)(e) {
        assert DropLast(r + [e]) == r && Last(r + [e]) == e;
      }
    }
  }

  /** Each text occurs in the output once if it occurred once in the input, and not at all otherwise. */
  lemma OutputOccurrences(data: seq<Entry>, t: Option<string>)
    requires AllHaveText(data)
    ensures TextOccurrences(DeduplicateTexts(data).value, t) == if TextOccurrences(data, t) == 1 then 1 else 0
  {
    var texts := TextColumn(data).value;
    TextColumnCounts(data);
    FilteredOccurrences(UniqueTexts(texts), data, t);
    if t.Some? {
      assert t.value in UniqueTexts(texts) <==> multiset(texts)[t.value] == 1;
    } else {
      assert TextOccurrences(data, t) == 0 by { NoneNeverOccurs(data); }
    }
  }

  lemma {:induction false} NoneNeverOccurs(data: seq<Entry>)
    requires AllHaveText(data)
    ensures TextOccurrences(data, None) == 0
    decreases |data|
  {
    if data != [] {
      NoneNeverOccurs(DropLast(data));
    }
  }

  /** No two output entries share a text. */
  lemma OutputTextsDistinct(data: seq<Entry>)
    requires AllHaveText(data)
    ensures forall i, j :: 0 <= i < j < |DeduplicateTexts(data).value| ==>
      DeduplicateTexts(data).value[i].text != DeduplicateTexts(data).value[j].text
  {
    var r := DeduplicateTexts(data).value;
    forall i, j | 0 <= i < j < |r| ensures r[i].text != r[j].text {
      assert r[i].text == r[j].text ==> TextOccurrences(r, r[i].text) >= 2 by {
        if r[i].text == r[j].text { RepeatedTextOccurrences(r, i, j); }
      }
      OutputOccurrences(data, r[i].text);
    }
  }

  /** Deduplicating the output again changes nothing. */
  lemma Idempotent(data: seq<Entry>)
    requires AllHaveText(data)
    ensures DeduplicateTexts(DeduplicateTexts(data).value) == DeduplicateTexts(data)
  {
    var r := DeduplicateTexts(data).value;
    assert AllHaveText(r);
    var texts := TextColumn(r).value;
    TextColumnCounts(r);
    forall e | e in r ensures TextIn(UniqueTexts(texts))(e) {
      OutputOccurrences(data, e.text);
    }
    FilterKeepsAll(TextIn(UniqueTexts(texts)), r);
  }

  /** The output has one entry per text that occurs exactly once. */
  lemma OutputSize(data: seq<Entry>)
    requires AllHaveText(data)
    ensures |DeduplicateTexts(data).value| == |UniqueTexts(TextColumn(data).value)|
  {
    var r := DeduplicateTexts(data).value;
    assert AllHaveText(r);
    var outTexts := TextColumn(r).value;
    OutputTextColumn(data);
    ElementsCard(outTexts);
    assert Elements(outTexts) == UniqueTexts(TextColumn(data).value);
  }

  /** The texts of the output are distinct and are exactly the texts occurring once in the input. */
  lemma OutputTextColumn(data: seq<Entry>)
    requires AllHaveText(data)
    ensures AllHaveText(DeduplicateTexts(data).value)
    ensures Distinct(TextColumn(DeduplicateTexts(data).value).value)
    ensures forall t :: t in TextColumn(DeduplicateTexts(data).value).value <==> t in UniqueTexts(TextColumn(data).value)
  {
    var r := DeduplicateTexts(data).value;
    assert AllHaveText(r);
    var outTexts := TextColumn(r).value;
    TextColumnCounts(r);
    TextColumnCounts(data);
    forall t ensures multiset(outTexts)[t] <= 1 && (t in outTexts <==> t in UniqueTexts(TextColumn(data).value)) {
      OutputOccurrences(data, Some(t));
    }
    DistinctIffCountsAtMostOne(outTexts);
  }
}
