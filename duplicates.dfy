/** The duplicate report of src/depuplicate_data/check_for_duplicate.py: how often each
    text occurs, restricted to the texts that occur more than once. */
module DuplicateReport {
  import opened Seqs
  import opened Corpus
  import Dedup

  /** `Counter(text_entries)`: every text of the corpus with its number of occurrences. */
  function TextCounts(data: seq<Entry>): (r: Result<map<string, nat>>)
    ensures r.KeyError? <==> !AllHaveText(data)
    ensures r.Ok? ==> forall t :: t in r.value <==> TextOccurrences(data, Some(t)) > 0
    ensures r.Ok? ==> forall t :: t in r.value ==> r.value[t] == TextOccurrences(data, Some(t))
  {
    match TextColumn(data)
    case KeyError(key) => KeyError(key)
    case Ok(texts) =>
      TextColumnCounts(data);
      var counts := multiset(texts);
      Ok(map t | t in counts :: counts[t])
  }

  /** `duplicates = {text: count for text, count in text_counts.items() if count > 1}` */
  function Duplicates(data: seq<Entry>): (r: Result<map<string, nat>>)
    ensures r.KeyError? <==> !AllHaveText(data)
    ensures r.Ok? ==> forall t :: t in r.value <==> TextOccurrences(data, Some(t)) > 1
    ensures r.Ok? ==> forall t :: t in r.value ==> r.value[t] == TextOccurrences(data, Some(t)) >= 2
  {
    match TextCounts(data)
    case KeyError(key) => KeyError(key)
    case Ok(counts) => Ok(map t | t in counts && counts[t] > 1 :: counts[t])
  }

  /** No text occurs twice exactly when no two entries share a text. */
  lemma {:induction false} AtMostOnceIffDistinct(data: seq<Entry>)
    requires AllHaveText(data)
    ensures (forall t :: TextOccurrences(data, Some(t)) <= 1)
        <==> forall i, j :: 0 <= i < j < |data| ==> data[i].text != data[j].text
  {
    var texts := TextColumn(data).value;
    TextColumnCounts(data);
    DistinctIffCountsAtMostOne(texts);
    assert Distinct(texts) <==> forall i, j :: 0 <= i < j < |data| ==> data[i].text != data[j].text by {
      assert forall i :: 0 <= i < |data| ==> data[i].text == Some(texts[i]);
    }
  }

  /** "No duplicate texts found." is printed exactly when no two entries share a text. */
  lemma NoDuplicatesIffDistinctTexts(data: seq<Entry>)
    requires AllHaveText(data)
    ensures Duplicates(data).value == map[] <==> forall i, j :: 0 <= i < j < |data| ==> data[i].text != data[j].text
  {
    var dups := Duplicates(data).value;
    AtMostOnceIffDistinct(data);
    assert dups == map[] <==> forall t :: TextOccurrences(data, Some(t)) <= 1 by {
      if forall t :: TextOccurrences(data, Some(t)) <= 1 {
        assert dups.Keys == {};
      }
    }
  }

  /** Deduplication leaves the corpus unchanged exactly when the report finds no duplicate. */
  lemma DeduplicateIsIdentityIffNoDuplicates(data: seq<Entry>)
    requires AllHaveText(data)
    ensures Dedup.DeduplicateTexts(data) == Ok(data) <==> Duplicates(data).value == map[]
  {
    var dups := Duplicates(data).value;
    var r := Dedup.DeduplicateTexts(data).value;
    if r == data {
      forall t ensures TextOccurrences(data, Some(t)) <= 1 {
        Dedup.OutputOccurrences(data, Some(t));
      }
      assert dups.Keys == {};
    }
    if dups == map[] {
      var texts := TextColumn(data).value;
      TextColumnCounts(data);
      forall e | e in data ensures Dedup.TextIn(Dedup.UniqueTexts(texts))(e) {
        var i :| 0 <= i < |data| && data[i] == e;
        OccurrencesOfPresent(data, e.text, i);
        assert e.text.value !in dups;
      }
      FilterKeepsAll(Dedup.TextIn(Dedup.UniqueTexts(texts)), data);
    }
  }
}
