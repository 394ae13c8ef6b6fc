# Creative-writing dataset scripts, modelled in Dafny

This project models the Python scripts of OpenPecha/creative-writing-dataset that prepare
a Tibetan creative-writing corpus. The corpus is a JSON list of objects, each with a
`text` string and a `tags` list. The scripts do six things:

- **Keyword bucketing** (`create_dataset.py`). There is one output file per keyword
  (`<keyword>.json`), holding every entry whose tags list contains that keyword. A final
  `unclassified.json` holds the entries tagged with none of the keywords. A file is written
  only when it would be non-empty.
- **Verse analysis** (`poems_data.py`):
  - The text is stripped and split at whitespace runs into "lines".
  - Each line gets a syllable count: the number of maximal runs of characters in
    U+0F40..U+0F7F.
  - A text is "structured" when the most common count covers at least 80% of the lines.
  - One output record is built per entry.
- **Deduplication** (`deduplicate_data.py`). It keeps the entries whose text occurs exactly
  once in the corpus. All copies of a repeated text are dropped.
- **Duplicate report** (`check_for_duplicate.py`). It counts each text, and the texts counted
  more than once are the duplicates.
- **Tag vocabulary** (`get_tags.py`). It collects the set of all tags of the entries whose
  text is not blank. A file that is not valid JSON gives an empty list.
- **Sampling** (`sample_dataset.py`). For each `.json` file of a directory it keeps the first
  `sample_size` entries, and writes them to a file whose name has `.json` replaced by
  `_sample.json`.

## How the model is built

- **Modules.** There is one module per script: `Bucketing`, `Verse`, `Dedup`,
  `DuplicateReport`, `TagVocabulary` and `Sampling`. They share these modules:
  - `Seqs`: order-preserving filtering (every list comprehension with an `if`), distinctness
    and element sets.
  - `Corpus`: the entry type, and the `Result` type for `entry['key']` lookups that raise
    KeyError.
  - `PyText`: Python's `str.strip()` and `re.split(r'\s+', ...)` over the character class
    of `str.isspace`.
- **Missing fields.** An entry is `Entry(text: Option<string>, tags: Option<seq<string>>)`,
  so a missing field can be represented:
  - `entry.get(k, default)` is modelled with the default.
  - `entry[k]` on a missing field is the `KeyError(k)` outcome.
- **Loops.** The loops that build a list step by step (`process_json` in both scripts, the
  tag-set loop, the sampling loop) are methods with loops. Each is proved equal to a
  recursive specification function, and that function's properties are proved as lemmas.
- **Comprehensions.** Pure comprehensions are functions.

## Model

| member | source | states |
|---|---|---|
| Seqs.Filter | src/creative-writing-dataset/create_dataset.py:11 | a comprehension `[x for x in s if p(x)]` is no longer than its input; what it keeps is stated by the three lemmas below |
| Seqs.FilterMembers | src/creative-writing-dataset/create_dataset.py:11 | a comprehension keeps an element exactly when it is in the input and satisfies the test |
| Seqs.FilterIsSubsequence | src/creative-writing-dataset/create_dataset.py:11 | the kept elements keep their relative order (a subsequence of the input) |
| Seqs.FilterCounts | src/creative-writing-dataset/create_dataset.py:11 | a comprehension keeps every copy of a passing element and no copy of a failing one |
| Seqs.FilterAppend | src/creative-writing-dataset/create_dataset.py:15 | filtering distributes over concatenation |
| Seqs.FilterKeepsAll | src/depuplicate_data/deduplicate_data.py:14 | when every element passes, the comprehension returns its input |
| Seqs.FilterDropsAll | src/creative-writing-dataset/create_dataset.py:31 | when no element passes, the comprehension is empty |
| Seqs.DistinctIffCountsAtMostOne | src/depuplicate_data/check_for_duplicate.py:14 | a list has no repeated element exactly when every element is counted at most once |
| Seqs.ElementsCard | src/creative-writing-dataset/get_tags.py:18 | `set(xs)` has at most `len(xs)` elements, and exactly that many when `xs` has no repeats |
| Corpus.TextOr | src/creative-writing-dataset/poems_data.py:39 | `entry.get("text", "")` is the stored text when there is one, and `""` otherwise |
| Corpus.TagsOr | src/creative-writing-dataset/poems_data.py:38 | `entry.get("tags", [])` is the stored list when there is one, and `[]` otherwise |
| Corpus.TextColumn | src/depuplicate_data/deduplicate_data.py:9 | `[entry['text'] for entry in data]` raises KeyError exactly when some entry lacks `text`; otherwise it lists the texts in entry order |
| Corpus.TextColumnCounts | src/depuplicate_data/deduplicate_data.py:11 | `Counter(text_entries)[t]` is the number of entries whose text is `t` |
| Corpus.RepeatedTextOccurrences | src/depuplicate_data/check_for_duplicate.py:10 | two entries at different positions with the same text make its count at least 2 |
| Corpus.OccurrencesOfPresent | src/depuplicate_data/check_for_duplicate.py:10 | a text present in some entry has count at least 1 |
| Bucketing.FilterDataByKeyword | src/creative-writing-dataset/create_dataset.py:9-11 | KeyError exactly when some entry has no `tags`; otherwise the entries whose tags list contains the keyword (exact list membership), in order, with every copy |
| Bucketing.FilterUnclassifiedData | src/creative-writing-dataset/create_dataset.py:13-15 | with no keywords every entry is returned, even untagged ones; otherwise KeyError exactly when some entry has no `tags`, else the entries carrying none of the keywords, in order, each with as many copies as in the input, and no copy of an entry carrying a keyword |
| Bucketing.ProcessJson | src/creative-writing-dataset/create_dataset.py:22-39 | KeyError exactly when there are keywords and some entry has no `tags`; otherwise the files written are the non-empty buckets in keyword order, then `unclassified.json` if non-empty, and `classified_entries` is the concatenation of the buckets |
| Bucketing.BucketsOrUnclassified | src/creative-writing-dataset/create_dataset.py:29-36 | an entry is unclassified exactly when it is in no keyword's bucket |
| Bucketing.BucketFilesAreNonEmptyBuckets | src/creative-writing-dataset/create_dataset.py:29-34 | a file is written for keyword `k` exactly when its bucket is non-empty, named `k + ".json"` and holding that bucket |
| Bucketing.ClassifiedSize | src/creative-writing-dataset/create_dataset.py:34 | `classified_entries` is as long as the bucket sizes added up |
| Bucketing.ClassifiedMultiplicity | src/creative-writing-dataset/create_dataset.py:29-34 | an entry appears in `classified_entries` once per copy in the corpus times the number of keywords it carries, so entries with several keywords are duplicated |
| PyText.WhitespaceCodePoints | src/creative-writing-dataset/poems_data.py:13 | the whitespace of `strip()` and `\s` (`IsSpace`) is exactly the 29 listed code points; the tsheg, the zero-width space and the byte order mark are not whitespace |
| PyText.SpaceRun | src/creative-writing-dataset/poems_data.py:13 | the leading whitespace run: all whitespace, and followed by a non-whitespace character or the end |
| PyText.TrimEnd | src/creative-writing-dataset/poems_data.py:13 | the result is a prefix of the input, with only whitespace removed, and ends with non-whitespace or is empty |
| PyText.Strip | src/creative-writing-dataset/poems_data.py:13 | `strip()` returns the infix that starts right after the leading whitespace run and is followed by whitespace only, and the infix neither starts nor ends with whitespace |
| PyText.LeadingSpaceKeepsAllButSpace | src/creative-writing-dataset/poems_data.py:13 | removing the leading whitespace run keeps every other character, in order |
| PyText.TrimEndKeepsAllButSpace | src/creative-writing-dataset/poems_data.py:13 | removing trailing whitespace keeps every other character, in order |
| PyText.StripEmptyIffBlank | src/creative-writing-dataset/get_tags.py:11-12 | the stripped text is empty exactly when the text is whitespace only |
| PyText.StripKeepsAllButSpace | src/creative-writing-dataset/poems_data.py:13 | stripping removes whitespace only |
| PyText.SplitWs | src/creative-writing-dataset/poems_data.py:13 | `re.split(r'\s+', s)` yields at least one piece, and no piece contains whitespace; `SplitWsRoundTrip` and `SplitWsUnique` pin down which pieces |
| PyText.SplitWsLosesOnlySpace | src/creative-writing-dataset/poems_data.py:13 | concatenating the pieces gives the input with its whitespace removed |
| PyText.SplitWsPiecesNonEmpty | src/creative-writing-dataset/poems_data.py:13 | a string that neither starts nor ends with whitespace splits into non-empty pieces |
| PyText.SplitGaps | src/creative-writing-dataset/poems_data.py:13 | the whitespace runs `re.split` removes: one fewer than the pieces, each non-empty and all whitespace |
| PyText.SplitWsRoundTrip | src/creative-writing-dataset/poems_data.py:13 | joining the pieces with the removed runs gives back the input: the pieces are exactly the stretches between maximal whitespace runs |
| PyText.SplitWsUnique | src/creative-writing-dataset/poems_data.py:13 | any whitespace-free pieces (inner ones non-empty) joined by non-empty whitespace gaps into `s` are `re.split(r'\s+', s)`: the split is the only such decomposition |
| Verse.CountSyllables | src/creative-writing-dataset/poems_data.py:5-8 | `len(findall('[ཀ-ཿ]+'))` equals the number of positions where a run of characters in U+0F40..U+0F7F starts (a character-by-character reference count) |
| Verse.CountSyllablesBounds | src/creative-writing-dataset/poems_data.py:5-8 | the count is at most the number of characters in U+0F40..U+0F7F (Tibetan letters, vowel signs and the marks U+0F7E, U+0F7F), and is zero exactly when there are none |
| Verse.SeparatorSplitsCount | src/creative-writing-dataset/poems_data.py:6-8 | any character outside U+0F40..U+0F7F (tsheg, shad, space) separates: the count of `a + c + b` is the count of `a` plus the count of `b` |
| Verse.TshegSeparatedSyllables | src/creative-writing-dataset/poems_data.py:6-8 | "ཀ་ཁ་ག" counts three syllables |
| Verse.StackedSyllableCountsTwice | src/creative-writing-dataset/poems_data.py:6 | subjoined letters (U+0F90 onwards) fall outside the class, so "བསྒྲགས" counts two |
| Verse.Lines | src/creative-writing-dataset/poems_data.py:13 | there is at least one line and no line contains whitespace; a blank text gives the single line `""`, and any other text gives only non-empty lines |
| Verse.LinesKeepAllButSpace | src/creative-writing-dataset/poems_data.py:13 | the lines together hold every non-whitespace character of the text, in order |
| Verse.LinesRoundTrip | src/creative-writing-dataset/poems_data.py:13 | the stripped text is the lines joined back with the non-empty whitespace runs between them |
| Verse.LinesUnique | src/creative-writing-dataset/poems_data.py:13 | any decomposition of the stripped text into whitespace-free pieces (inner ones non-empty) and non-empty whitespace gaps is the list of lines |
| Verse.StripExample | src/creative-writing-dataset/poems_data.py:13 | `"ཀ་ཁ ག\n".strip()` is `"ཀ་ཁ ག"` |
| Verse.TwoLines | src/creative-writing-dataset/poems_data.py:13 | `"ཀ་ཁ ག\n"` splits into the lines `"ཀ་ཁ"` and `"ག"` |
| Verse.TwoLinesCounts | src/creative-writing-dataset/poems_data.py:13-15 | the syllable counts of `"ཀ་ཁ ག\n"` are `[2, 1]` |
| Verse.MostCommonAmong | src/creative-writing-dataset/poems_data.py:18 | `max(candidates, key=xs.count)` is a candidate whose frequency no other candidate exceeds |
| Verse.MostCommon | src/creative-writing-dataset/poems_data.py:18 | `most_common_count` is a value of maximal frequency among the counts |
| Verse.IsConsistent | src/creative-writing-dataset/poems_data.py:17-24 | the verdict holds exactly when there is a line and some count covers at least 80% of the lines (`5 * m >= 4 * n`), whichever mode the tie-break picks |
| Verse.ProcessText | src/creative-writing-dataset/poems_data.py:11-29 | `line_count` is the number of lines (at least 1); `syllable_count` is the syllable count of each line, in order; `structured` holds exactly when some count covers at least 80% of the lines |
| Verse.UniformCount | src/creative-writing-dataset/poems_data.py:19 | a value at every position is counted once per position |
| Verse.UniformLinesAreStructured | src/creative-writing-dataset/poems_data.py:17-24 | a text whose lines all have the same count is structured |
| Verse.BlankTextIsOneEmptyLine | src/creative-writing-dataset/poems_data.py:13-29 | a blank text gives `{"syllable_count": [0], "line_count": 1, "structured": True}` |
| Verse.Records | src/creative-writing-dataset/poems_data.py:36-50 | one output record per entry |
| Verse.RecordOf | src/creative-writing-dataset/poems_data.py:38-49 | the record of an entry copies its tags and text (defaults `[]` and `""`), has one syllable count per line of the text, `line` the number of lines (at least 1), and `structured` exactly when some count covers 80% of the lines |
| Verse.RecordsAt | src/creative-writing-dataset/poems_data.py:37-50 | record `i` is built from entry `i`: tags and text copied, with `[]` and `""` as defaults, and `line` is the length of `syllable` and at least 1 |
| Verse.ProcessJson | src/creative-writing-dataset/poems_data.py:36-50 | the loop's output list is the records of the entries, in order |
| Dedup.UniqueTexts | src/depuplicate_data/deduplicate_data.py:11-13 | `unique_texts` holds exactly the texts counted once |
| Dedup.DeduplicateTexts | src/depuplicate_data/deduplicate_data.py:5-14 | KeyError exactly when some entry has no `text`; otherwise the entries, in order, whose text occurs exactly once |
| Dedup.FilteredOccurrences | src/depuplicate_data/deduplicate_data.py:14 | the filter on `unique_texts` keeps all entries with a kept text and none with a dropped one |
| Dedup.OutputOccurrences | src/depuplicate_data/deduplicate_data.py:13-14 | a text occurs once in the output if it occurred once in the input, and not at all otherwise |
| Dedup.NoneNeverOccurs | src/depuplicate_data/deduplicate_data.py:9 | when every entry has a text, no entry lacks one |
| Dedup.OutputTextsDistinct | src/depuplicate_data/deduplicate_data.py:13-14 | no two output entries share a text |
| Dedup.Idempotent | src/depuplicate_data/deduplicate_data.py:9-14 | deduplicating the output again changes nothing |
| Dedup.OutputTextColumn | src/depuplicate_data/deduplicate_data.py:13-14 | the output's texts are distinct and are exactly the texts occurring once in the input |
| Dedup.OutputSize | src/depuplicate_data/deduplicate_data.py:13-14 | the output has one entry per text that occurs exactly once |
| DuplicateReport.TextCounts | src/depuplicate_data/check_for_duplicate.py:9-10 | KeyError exactly when some entry has no `text`; otherwise the counter's keys are the texts present, each mapped to its number of entries |
| DuplicateReport.Duplicates | src/depuplicate_data/check_for_duplicate.py:14 | the duplicates are exactly the texts occurring more than once, each with its count (at least 2) |
| DuplicateReport.AtMostOnceIffDistinct | src/depuplicate_data/check_for_duplicate.py:14-16 | no text occurs twice exactly when no two entries share a text |
| DuplicateReport.NoDuplicatesIffDistinctTexts | src/depuplicate_data/check_for_duplicate.py:16-17 | "No duplicate texts found." is printed exactly when no two entries share a text |
| DuplicateReport.DeduplicateIsIdentityIffNoDuplicates | src/depuplicate_data/check_for_duplicate.py:14-16 | deduplication returns the corpus unchanged exactly when the report finds no duplicate |
| TagVocabulary.VocabularyMembers | src/creative-writing-dataset/get_tags.py:10-14 | a string is collected exactly when some entry with non-blank text lists it among its tags |
| TagVocabulary.VocabularySize | src/creative-writing-dataset/get_tags.py:10-14 | the set holds at most as many strings as there are tag occurrences in those entries |
| TagVocabulary.ListOfSet | src/creative-writing-dataset/get_tags.py:18 | `list(s)` holds every string of the set exactly once |
| TagVocabulary.ExtractUniqueStringsInTags | src/creative-writing-dataset/get_tags.py:4-18 | the output has no repeats; it is empty on a decoding error; otherwise its strings are exactly the tags of entries with non-blank text, and there are at most as many as tag occurrences |
| Sampling.Sample | src/creative-writing-dataset/sample_dataset.py:27 | `data[:n]` is a prefix of `data`, of length `min(n, len)` for `n >= 0` and `max(len + n, 0)` for negative `n` |
| Sampling.SampleIdempotent | src/creative-writing-dataset/sample_dataset.py:27 | sampling a sample with the same non-negative size changes nothing |
| Sampling.EndsWith | src/creative-writing-dataset/sample_dataset.py:23 | `s.endswith(suffix)` holds exactly when `s` is some string followed by `suffix` |
| Sampling.Replace | src/creative-writing-dataset/sample_dataset.py:29 | `replace` with a replacement at least as long as the pattern never shortens the string, and one at most as long never lengthens it; `ReplaceWithoutOccurrence` and `ReplaceFirstOccurrence` fix its result on every string |
| Sampling.OccursInTail | src/creative-writing-dataset/sample_dataset.py:29 | a string without the pattern has no occurrence in its tail either |
| Sampling.ReplaceWithoutOccurrence | src/creative-writing-dataset/sample_dataset.py:29 | `replace` leaves a string without the pattern unchanged |
| Sampling.ReplaceFirstOccurrence | src/creative-writing-dataset/sample_dataset.py:29 | `replace` scans from the left: when the first occurrence of the pattern starts right after `a`, `(a + p + b).replace(p, q)` is `a + q + b.replace(p, q)` |
| Sampling.NoJsonBeforeExtension | src/creative-writing-dataset/sample_dataset.py:29 | `.json` cannot overlap itself: in `a + ".json" + b` with no `.json` in `a`, the first occurrence starts right after `a` |
| Sampling.SampleName | src/creative-writing-dataset/sample_dataset.py:29 | the sample name is at least as long as the file name, and equals it when the name holds no `.json` |
| Sampling.SampleNameStep | src/creative-writing-dataset/sample_dataset.py:29 | every `.json` of a name is rewritten, from the left: `a + ".json" + b` with no `.json` in `a` becomes `a + "_sample.json"` followed by the sample name of `b` |
| Sampling.SampleNameTwice | src/creative-writing-dataset/sample_dataset.py:29 | a name `stem + ".json.json"` becomes `stem + "_sample.json_sample.json"`: both occurrences are rewritten |
| Sampling.ReplaceExtension | src/creative-writing-dataset/sample_dataset.py:29 | replacing `.json` in `stem + ".json"` with no `.json` in the stem rewrites the extension only |
| Sampling.SampleNameOfJsonFile | src/creative-writing-dataset/sample_dataset.py:23-29 | for `stem + ".json"` with no `.json` in the stem, the sample is named `stem + "_sample.json"` |
| Sampling.SampledFilesAreJsonFiles | src/creative-writing-dataset/sample_dataset.py:22-32 | exactly one file is written per listed `.json` file, in listing order, and the `i`-th is the renamed sample of the `i`-th `.json` file |
| Sampling.SampleJsonFiles | src/creative-writing-dataset/sample_dataset.py:22-32 | the loop writes the sampled files of the listing |

## Left out

- **File handling.**
  - File reading and writing, `json.load` / `json.dump` formatting, `os.makedirs` and
    `os.path.join` are not modelled. The corpus comes in as a list of entries, and the
    files written come out as (name, entries) pairs.
  - The output directory is not part of a file name.
  - `print` output is not modelled. The duplicate report's two messages are represented by
    whether the duplicates map is empty.
- **Script entry points.** The calls at module level and the `__main__` block are not
  modelled. The keyword list of `main` in `create_dataset.py` is the constant
  `Bucketing.MainKeywords`.
- **Other code.** `src/hugging-face-dataset/hf_dataset.py`, the upload to the dataset hub,
  is not part of this model.
- **JSON shapes.** JSON values of other types are not modelled: a non-list file, a `text`
  that is not a string, `tags` that are not a list of strings, or a `tags` value that is a
  string (where `in` would test for a substring). Fields other than `text` and `tags` are
  not modelled either.
- **Decode errors.** `json.load` raising `JSONDecodeError` is an input value (`Decoded` or
  `DecodeError`). It is caught only in `get_tags.py`. In the other scripts a bad file
  stops the script and is not modelled.
- **Regexes.** The regex engine is not modelled. `[ཀ-ཿ]+` with `findall`, and `\s+` with
  `split`, are written out as scans over the character classes.
- **Whitespace.** The whitespace class is the fixed list of code points that Python's
  `str.isspace` accepts.
- **Modal tie-break.**
  - Verse.MostCommon: Python draws the candidates from a `set`, whose iteration order is
    an implementation detail. So the contract states only that the chosen value has
    maximal frequency, not which of several tied values is chosen.
  - `structured` is proved independent of that choice (`Verse.IsConsistent`).
- **Float division.** The test `count / n >= 0.8` is modelled as `5 * count >= 4 * n` on
  integers, which is exact. Floating-point rounding of the quotient is not modelled.
- **Set order.**
  - TagVocabulary.ListOfSet: the order of `list(set)` is left open, and the contract does
    not fix it.
  - TagVocabulary.ExtractUniqueStringsInTags inherits that open order.
- **Directory listing.** Sampling.SampleJsonFiles: the order of `os.listdir` is an input
  (the listing), not a property of the file system.
- **Integers.** Integers are unbounded, like Python's. Nothing in the scripts depends on a
  fixed width.
- **Behaviour the scripts do not have.** The model follows the code and does not add:
  - priority between keywords: an entry with several keywords goes into every matching
    bucket;
  - substring matching of tags: tags match by exact list membership;
  - treating a missing `tags` field as an empty list: `create_dataset.py` raises KeyError
    when there are keywords, and so does the model;
  - dropping entries with blank text before classification: no such filter runs, so
    blank-text entries are bucketed like any other;
  - syllable totals per text: each line gets its own count;
  - dropping zero-syllable lines: zero counts are kept.
