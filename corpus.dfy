/** The corpus every script reads: a JSON list of objects, each with a
    `text` string and a `tags` list of strings. */
module Corpus {
  import opened Seqs

  datatype Option<T> = None | Some(value: T)

  /** The outcome of an operation that indexes a JSON object with `entry[key]`:
      Python raises KeyError when some object lacks the key. */
  datatype Result<T> = Ok(value: T) | KeyError(key: string)

  /** One corpus object; a field the object does not have is `None`. */
  datatype Entry = Entry(text: Option<string>, tags: Option<seq<string>>)

  /** `entry.get("text", "")` */
  function TextOr(e: Entry): (t: string)
    ensures e.text.Some? ==> t == e.text.value
    ensures e.text.None? ==> t == ""
  {
    if e.text.Some? then e.text.value else ""
  }

  /** `entry.get("tags", [])` */
  function TagsOr(e: Entry): (tags: seq<string>)
    ensures e.tags.Some? ==> tags == e.tags.value
    ensures e.tags.None? ==> tags == []
  {
    if e.tags.Some? then e.tags.value else []
  }

  /** A JSON file a script reads or writes: its name and the list it holds. */
  datatype JsonFile = JsonFile(name: string, entries: seq<Entry>)

  predicate AllHaveText(data: seq<Entry>)
  {
    forall e :: e in data ==> e.text.Some?
  }

  /** `[entry['text'] for entry in data]`: the texts in entry order, or KeyError when
      some entry has no `text`. */
  function TextColumn(data: seq<Entry>): (r: Result<seq<string>>)
    ensures r.KeyError? <==> !AllHaveText(data)
    ensures r.Ok? ==> |r.value| == |data| && forall i :: 0 <= i < |data| ==> data[i].text == Some(r.value[i])
  {
    if AllHaveText(data) then Ok(seq(|data|, i requires 0 <= i < |data| => data[i].text.value))
    else KeyError("text")
  }

  /** Number of entries whose `text` field is `t`. */
  function TextOccurrences(data: seq<Entry>, t: Option<string>): nat
    decreases |data|
  {
    if data == [] then 0
    else TextOccurrences(DropLast(data), t) + (if Last(data).text == t then 1 else 0)
  }

  /** `Counter(text_entries)[t]` counts the entries whose text is `t`. */
  lemma {:induction false} TextColumnCounts(data: seq<Entry>)
    requires AllHaveText(data)
    ensures forall t :: multiset(TextColumn(data).value)[t] == TextOccurrences(data, Some(t))
    decreases |data|
  {
    if data != [] {
      var init := DropLast(data);
      TextColumnCounts(init);
      assert TextColumn(data).value == TextColumn(init).value + [Last(data).text.value];
    }
  }

  /** Two entries at different positions with the same text make it occur at least twice. */
  lemma {:induction false} RepeatedTextOccurrences(data: seq<Entry>, i: nat, j: nat)
    requires i < j < |data| && data[i].text == data[j].text
    ensures TextOccurrences(data, data[i].text) >= 2
    decreases |data|
  {
    var init := DropLast(data);
    if j < |data| - 1 {
      RepeatedTextOccurrences(init, i, j);
      OccurrencesOfPresent(init, data[i].text, i);
    } else {
      OccurrencesOfPresent(init, data[i].text, i);
    }
  }

  /** A text present at position `i` occurs at least once. */
  lemma {:induction false} OccurrencesOfPresent(data: seq<Entry>, t: Option<string>, i: nat)
    requires i < |data| && data[i].text == t
    ensures TextOccurrences(data, t) >= 1
    decreases |data|
  {
    if i < |data| - 1 {
      OccurrencesOfPresent(DropLast(data), t, i);
    }
  }
}
