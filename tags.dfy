/** The tag vocabulary of src/creative-writing-dataset/get_tags.py: every tag string used
    by an entry whose text is not blank. */
module TagVocabulary {
  import opened Seqs
  import opened Corpus
  import opened PyText

  /** What `json.load` yields: the decoded list, or the JSONDecodeError the script catches. */
  datatype Decoded = Decoded(entries: seq<Entry>) | DecodeError

  /** `entry.get("text", "").strip()` is non-empty. */
  predicate HasText(e: Entry)
  {
    Strip(TextOr(e)) != []
  }

  /** The tags one entry adds to the set: `entry.get("tags", [])` when its text is not blank. */
  function Contribution(e: Entry): set<string>
  {
    if HasText(e) then Elements(TagsOr(e)) else {}
  }

  /** The set the loop has built after the entries of `data`. */
  function Vocabulary(data: seq<Entry>): set<string>
    decreases |data|
  {
    if data == [] then {} else Vocabulary(DropLast(data)) + Contribution(Last(data))
  }

  /** Number of tag occurrences over the entries with non-blank text. */
  function TagOccurrences(data: seq<Entry>): nat
    decreases |data|
  {
    if data == [] then 0
    else TagOccurrences(DropLast(data)) + (if HasText(Last(data)) then |TagsOr(Last(data))| else 0)
  }

  /** Some entry whose text is not whitespace only lists `t` among its tags. */
  predicate ListedByTextEntry(data: seq<Entry>, t: string)
  {
    exists e :: e in data && !AllSpace(TextOr(e)) && t in TagsOr(e)
  }

  /** A string is collected exactly when some entry whose text is not whitespace only lists
      it among its tags; an entry with a blank or missing text, or without tags, adds nothing. */
  lemma {:induction false} VocabularyMembers(data: seq<Entry>)
    ensures forall t :: t in Vocabulary(data) <==> ListedByTextEntry(data, t)
    decreases |data|
  {
    if data != [] {
      var init, e := DropLast(data), Last(data);
      VocabularyMembers(init);
      StripEmptyIffBlank(TextOr(e));
      assert data == init + [e];
      assert forall x :: x in data <==> x in init || x == e;
    }
  }

  /** The set holds at most as many strings as there are tag occurrences. */
  lemma {:induction false} VocabularySize(data: seq<Entry>)
    ensures |Vocabulary(data)| <= TagOccurrences(data)
    decreases |data|
  {
    if data != [] {
      var init, e := DropLast(data), Last(data);
      VocabularySize(init);
      ElementsCard(TagsOr(e));
      assert |Vocabulary(init) + Contribution(e)| <= |Vocabulary(init)| + |Contribution(e)|;
    }
  }

  /** `list(s)`: the strings of the set, each once, in an order the model leaves open
      (Python's depends on string hashing). */
  method ListOfSet(s: set<string>) returns (list: seq<string>)
    ensures Distinct(list) && Elements(list) == s
  {
    list := [];
    var rest := s;
    while rest != {}
      invariant Distinct(list)
      invariant Elements(list) !! rest && Elements(list) + rest == s
      decreases |rest|
    {
      var t :| t in rest;
      list := list + [t];
      rest := rest - {t};
    }
  }

  /** `extract_unique_strings_in_tags` without the file reading and writing. A decoding
      error leaves the set empty, so the output list is empty. */
  method ExtractUniqueStringsInTags(input: Decoded) returns (outputData: seq<string>)
    ensures Distinct(outputData)
    ensures input.DecodeError? ==> outputData == []
    ensures input.Decoded? ==> Elements(outputData) == Vocabulary(input.entries)
    ensures input.Decoded? ==> forall t :: t in outputData <==> ListedByTextEntry(input.entries, t)
    ensures input.Decoded? ==> |outputData| <= TagOccurrences(input.entries)
  {
    var uniqueStrings: set<string> := {};
    if input.Decoded? {
      var data := input.entries;
      for i := 0 to |data|
        invariant uniqueStrings == Vocabulary(data[..i])
      {
        assert DropLast(data[..i + 1]) == data[..i] && Last(data[..i + 1]) == data[i];
        var text := Strip(TextOr(data[i]));
        if text != [] {
          var tags := TagsOr(data[i]);
          uniqueStrings := uniqueStrings + Elements(tags);
        }
      }
      assert data[..|data|] == data;
      VocabularyMembers(data);
      VocabularySize(data);
    }
    outputData := ListOfSet(uniqueStrings);
    ElementsCard(outputData);
    assert forall t :: t in outputData <==> t in uniqueStrings;
    if input.DecodeError? {
      assert |outputData| == 0;
    }
  }
}
