# Book-advertisement annotation tools, modelled in Dafny

This project models the pure string and collection logic of a small toolkit.
The toolkit converts historical book advertisements, annotated inline with
`<BIBL>` blocks and inner tags such as `<AUTHOR>`, into a standoff format and
scores model output against a ground truth. It also checks annotation quality
and consolidates corrected records. Four pieces are modelled, one Dafny module
each:

- `Standoff` (`standoff.dfy`) models convert_inline_to_standoff.py:
  - `clean_inner_tags` deletes every `<[^>]+>` span;
  - `extract_bibl_tags` finds the `<BIBL>…</BIBL>` blocks and emits a `BIBL` entry with the cleaned, stripped content, followed by the block's inner tags;
  - `extract_inner_tags` finds the `<(\w+)>(.*?)</\1>` pairs;
  - the `tag: content` line format.

  Both regular expressions are written as explicit leftmost, non-overlapping scanners.
- `TagScoring` (`tag_scoring.dfy`) models compare_llms.py:
  - `read_tags` runs over the lines of a file;
  - `compare_tags` computes `correct`, `total` and the predicted count as sums over the dictionary keys, then precision, recall and F1 as exact reals.

  The loops are methods whose results are proved equal to those sums.
- `Overlap` (`overlap.dfy`) and `Quality` (`quality.dfy`) model evaluate_tsv.py:
  - `check_overlapping_tags` is a stack scanner;
  - `escape_xml_text`;
  - `analyze_annotations`, with the XML parser as a parameter;
  - the summary column.
- `Consolidation` (`consolidation.dfy`) models results/format_output.py:
  - `normalize_xml`;
  - `_element_to_dict_lowercase` over an element tree, with Python dictionaries as ordered field lists;
  - the numbering that sends the Nth faulty record to `line_N.json`.

Three helper modules hold what the Python code takes from the language:
- `Wrappers` holds `Option` and `Result`.
- `Text` holds whitespace and word characters, substring search, `strip()`, `split()`, `' '.join`, `upper()`/`lower()` and string order.
- `Sums` holds sums over finite key sets and `set(xs)`.

Where the Python code raises, the model returns `Failure` with Python's message. Three cases do this:
- `check_overlapping_tags` raises `IndexError` on a blank tag such as `<>` or `< >`, and `analyze_annotations` passes it on because it only catches parse errors.
- `compare_tags` raises `ZeroDivisionError` when the predictions have keys but no values.
- `create_consolidated_dataset` raises `ValueError` when it cannot find the XML column: the data is empty, or the first record has fewer than two columns, or the second column name is empty.

## Inner text of a block

`clean_inner_tags` removes only the tags and keeps the text between them. So `<BIBL><AUTHOR>Smith</AUTHOR> 1990</BIBL>` gives `("BIBL", "Smith 1990")` and then `("AUTHOR", "Smith")`; `Standoff.ExampleBlock` proves this.

## Python functions and their definitions

Each Python function of the core is one Dafny definition. The rows of "## Model" below state what is proved about these definitions.

| definition | source | models |
|---|---|---|
| Standoff.CleanInnerTags | convert_inline_to_standoff.py:4-6 | `clean_inner_tags` |
| Standoff.BlockContents | convert_inline_to_standoff.py:10-13 | the `<BIBL>(.*?)</BIBL>` scan of `extract_bibl_tags` |
| Standoff.ExtractBibl | convert_inline_to_standoff.py:8-25 | `extract_bibl_tags` |
| Standoff.MatchTag | convert_inline_to_standoff.py:29 | one match of `<(\w+)>(.*?)</\1>` |
| Standoff.InnerTags | convert_inline_to_standoff.py:27-37 | `extract_inner_tags` |
| Standoff.FormatLine | convert_inline_to_standoff.py:49 | one `f"{entry[0]}: {entry[1]}\n"` line |
| Standoff.Serialise | convert_inline_to_standoff.py:48-49 | the `writelines` over all entries |
| TagScoring.SplitLines | compare_llms.py:7-8 | `for line in file` |
| TagScoring.SplitPair | compare_llms.py:9-10 | `line.split(": ", 1)` guarded by `": " in line` |
| TagScoring.ReadTags | compare_llms.py:3-15 | `read_tags` |
| TagScoring.Ratios | compare_llms.py:39-42 | precision, recall and F1 from the counts |
| TagScoring.Score | compare_llms.py:20-42 | `compare_tags`, as sums over the keys |
| TagScoring.CompareTags | compare_llms.py:20-42 | `compare_tags`, as its loops |
| Overlap.Scan | evaluate_tsv.py:22-39 | the stack scan from one position on |
| Overlap.Overlaps | evaluate_tsv.py:19-39 | `check_overlapping_tags` |
| Overlap.CheckOverlappingTags | evaluate_tsv.py:19-39 | `check_overlapping_tags`, as its index loop |
| Quality.Escape | evaluate_tsv.py:8-16 | `escape_xml_text` |
| Quality.SortedTags | evaluate_tsv.py:69 | `sorted(set(all_tags))` |
| Quality.CountTags | evaluate_tsv.py:70 | `Counter(all_tags)` |
| Quality.AnalyzeAnnotations | evaluate_tsv.py:41-75 | `analyze_annotations` |
| Quality.Summary | evaluate_tsv.py:115-119 | the `quality_summary` column |
| Consolidation.NormalizeXml | results/format_output.py:35-46 | `normalize_xml` |
| Consolidation.ElementToDict | results/format_output.py:107-139 | `_element_to_dict_lowercase` |
| Consolidation.Group | results/format_output.py:120-134 | its loop over the children |
| Consolidation.IsFaulty | results/format_output.py:172 | `record.get("quality_xml_well_formed", "").upper() == "FALSE"` |
| Consolidation.Faulty | results/format_output.py:168-173 | `faulty_ground_records` |
| Consolidation.LineMap | results/format_output.py:178-182 | `faulty_record_to_line` |
| Consolidation.CorrectionFor | results/format_output.py:205-210 | the correction file looked up for a record |
| Consolidation.CorrectionFiles | results/format_output.py:162-210 | the correction file of every record, after the XML-column check |

## Model

| member | source | states |
|---|---|---|
| Standoff.TagSpanByFind | convert_inline_to_standoff.py:6 | `<[^>]+>` matches at a position exactly when there is a `<` there and the first `>` after it is not the very next character |
| Standoff.CleanDeletes | convert_inline_to_standoff.py:4-6 | the cleaned text is a subsequence of the input, so every character of it occurs in the input |
| Standoff.CleanNoSpans | convert_inline_to_standoff.py:6 | no `<[^>]+>` span is left anywhere in the cleaned text |
| Standoff.CleanFixpoint | convert_inline_to_standoff.py:6 | a text with no `<[^>]+>` span is left unchanged |
| Standoff.CleanPlain | convert_inline_to_standoff.py:6 | a text without `<` is left unchanged |
| Standoff.CleanIdempotent | convert_inline_to_standoff.py:6 | cleaning twice gives the same as cleaning once |
| Standoff.CleanText | convert_inline_to_standoff.py:6 | a prefix without `<` passes through unchanged, whatever follows it |
| Standoff.CleanSpan | convert_inline_to_standoff.py:6 | a tag span at the front is deleted and cleaning goes on behind it |
| Standoff.BlocksUnclosed | convert_inline_to_standoff.py:10-13 | no block content contains `</BIBL>`: the lazy match ends at the first one |
| Standoff.BlocksNone | convert_inline_to_standoff.py:10-13 | no blocks are found exactly when no `<BIBL>` is followed later by `</BIBL>` |
| Standoff.BlocksCons | convert_inline_to_standoff.py:10-13 | the first `<BIBL>` opens the next block, which closes at the first `</BIBL>` after it; scanning resumes behind that |
| Standoff.BlocksOfRender | convert_inline_to_standoff.py:10-13 | for text built from `<BIBL>`-free gaps and `</BIBL>`-free blocks, the scanner returns exactly the block contents, in order |
| Standoff.MatchTagShape | convert_inline_to_standoff.py:29 | an inner match reads `<name>`, then the shortest content with no `</name>`, then `</name>` |
| Standoff.InnerTagsClosed | convert_inline_to_standoff.py:29-35 | every reported inner tag is closed by `</name>` somewhere in the scanned text |
| Standoff.InnerSkipsText | convert_inline_to_standoff.py:29-32 | text without `<` contributes no inner tags |
| Standoff.InnerCons | convert_inline_to_standoff.py:29-35 | a pair whose content holds no `</name>` is matched whole; its content, nested markup included, is kept verbatim and then stripped |
| Standoff.InnerSkipsUnclosed | convert_inline_to_standoff.py:29-32 | an opening tag that is never closed does not hide later pairs: the scan moves past it |
| Standoff.InnerTagsOfRender | convert_inline_to_standoff.py:27-37 | scanning rendered tag pairs gives back every pair, left to right, with stripped contents |
| Standoff.InnerTagsShape | convert_inline_to_standoff.py:33-35 | every inner entry has a `\w+` name and a stripped content |
| Standoff.BlockBiblCount | convert_inline_to_standoff.py:17-23 | a block yields exactly one `BIBL` entry, because no inner pair can be named `BIBL` |
| Standoff.ExtractBiblShape | convert_inline_to_standoff.py:8-25 | the `BIBL` entries are as many as the blocks; every tag is `\w+` and every content is stripped; the result is empty exactly when the text has no complete block |
| Standoff.ExtractCons | convert_inline_to_standoff.py:13-23 | a block's `BIBL` entry comes first, then its inner tags, then the entries of later blocks; `<BIBL>`-free text before it adds nothing |
| Standoff.ExtractOfRender | convert_inline_to_standoff.py:8-25 | text outside the blocks never changes the entries |
| Standoff.BlockOfOnePair | convert_inline_to_standoff.py:13-23 | a block with one pair and trailing text gives the `BIBL` entry of both texts with the tags removed, then the pair |
| Standoff.ExampleBlock | convert_inline_to_standoff.py:13-23 | `<BIBL><AUTHOR>Smith</AUTHOR> 1990</BIBL>` gives `("BIBL", "Smith 1990")`, then `("AUTHOR", "Smith")` |
| TagScoring.SplitLinesSpec | compare_llms.py:8 | cutting a file into lines loses nothing; every line is non-empty, and only the last may lack its newline |
| TagScoring.SplitPairSpec | compare_llms.py:9-10 | a line without `": "` is skipped; otherwise it splits at the first `": "`, and key, separator and value give the line back |
| TagScoring.ReadTagsValues | compare_llms.py:8-14 | the stored keys are exactly those some line carries, each mapped to the stripped values of its lines, in file order |
| TagScoring.ReadTagsWellFormed | compare_llms.py:11-14 | every stored list is non-empty |
| TagScoring.SplitFormatLine | compare_llms.py:9-12 | a written `tag: content` line splits back into the tag and the content |
| TagScoring.SplitSerialised | convert_inline_to_standoff.py:49 | the written file holds one line per entry, in entry order |
| TagScoring.ReadBack | compare_llms.py:8-14 | reading back the converter's output gives, per tag, exactly the extracted contents in order, when no content contains a newline |
| TagScoring.GroundPass | compare_llms.py:24-32 | the first loop adds shared distinct values to `correct`; to `total` it adds distinct values for a predicted key and all values for an unpredicted one |
| TagScoring.ExtraPass | compare_llms.py:35-37 | the second loop adds the values of predicted keys the ground truth lacks |
| TagScoring.PredictedCount | compare_llms.py:39 | the precision denominator counts every predicted value, duplicates included |
| TagScoring.CompareTags | compare_llms.py:20-42 | the method computes the ratios defined from the three key sums, or fails on the division by zero |
| TagScoring.CountBounds | compare_llms.py:24-39 | `correct` is at most `total` and at most the number of predicted values |
| TagScoring.PrecisionBounds | compare_llms.py:39 | precision lies in [0, 1] and is positive exactly when there are predictions and something is correct |
| TagScoring.RecallBounds | compare_llms.py:40 | recall lies in [0, 1] and is positive exactly when something is correct |
| TagScoring.F1Bounds | compare_llms.py:41 | F1 of two ratios lies in [0, 1] and is positive exactly when both are |
| TagScoring.RatiosBounds | compare_llms.py:39-41 | the ratios fail only on the division by zero; otherwise each lies in [0, 1] |
| TagScoring.ScoreBounds | compare_llms.py:20-42 | `compare_tags` raises exactly when the predictions have keys but no values; otherwise all three results lie in [0, 1], and recall is positive exactly when `correct` is |
| TagScoring.ReadPredictionsScore | compare_llms.py:39 | predictions as `read_tags` builds them never make `compare_tags` raise |
| TagScoring.EmptyPredictions | compare_llms.py:39-41 | empty predictions give precision, recall and F1 all zero |
| TagScoring.EmptyGroundTruth | compare_llms.py:24-40 | against an empty ground truth `correct` is 0, `total` is the number of predicted values, and precision and recall are 0 |
| TagScoring.ExtraKey | compare_llms.py:35-37 | a predicted key the ground truth lacks adds its list length to `total` and to the predicted count, and nothing to `correct` |
| TagScoring.TotalCountsDistinctWhenPredicted | compare_llms.py:25-32 | a ground-truth list `[x, x]` counts 2 in `total` when its key is unpredicted but 1 when it is predicted |
| TagScoring.SelfScore | compare_llms.py:24-40 | a non-empty map scored against itself has recall 1, and precision 1 exactly when no key repeats a value |
| TagScoring.PermutationInvariant | compare_llms.py:27-39 | reordering the values within any key of either map leaves the scores unchanged |
| TagScoring.ScoringExample | compare_llms.py:20-42 | ground truth `AUTHOR: Smith, DATE: 1990` against prediction `AUTHOR: Smith, TITLE: X` scores precision 1/2, recall 1/3, F1 2/5 |
| Overlap.CheckOverlappingTags | evaluate_tsv.py:19-39 | the index loop gives the same answer as the recursive scan definition, including the error on a blank tag |
| Overlap.ScanText | evaluate_tsv.py:25-26 | characters other than `<` leave the scan unchanged |
| Overlap.ScanOpen | evaluate_tsv.py:27-31 | a non-blank opening tag pushes its first whitespace-separated word |
| Overlap.ScanClose | evaluate_tsv.py:32-38 | a closing tag answers "overlapping" when the stack is empty or its name differs from the top; otherwise it pops |
| Overlap.ScanBlank | evaluate_tsv.py:30 | a blank opening tag raises `IndexError` |
| Overlap.ScanNoClose | evaluate_tsv.py:27-39 | once no `>` follows, every `<` is skipped and the answer is whether tags are still open |
| Overlap.WellNestedNoOverlap | evaluate_tsv.py:19-39 | properly nested markup, such as `<a><b></b></a>`, is not overlapping |
| Overlap.NoMarkup | evaluate_tsv.py:39 | a text without `<` is not overlapping |
| Overlap.Crossing | evaluate_tsv.py:36-37 | crossing tags, such as `<a><b></a>…`, are overlapping |
| Overlap.StrayClose | evaluate_tsv.py:36-37 | a closing tag with nothing open is overlapping |
| Overlap.Unclosed | evaluate_tsv.py:39 | a tag still open at the end is overlapping |
| Overlap.OpenWithAttributes | evaluate_tsv.py:30 | attributes after the tag name do not change what is pushed |
| Overlap.SelfClosing | evaluate_tsv.py:27-39 | `<x/>` pushes `x/`, which nothing closes, so it is overlapping |
| Overlap.SpaceInClose | evaluate_tsv.py:35-37 | the closing name is compared verbatim, so `</a >` does not close `<a>` |
| Overlap.BlankTag | evaluate_tsv.py:30 | a blank tag after well-nested markup raises `IndexError` |
| Quality.EscapeRoundTrip | evaluate_tsv.py:14 | replacing `&amp;` back by `&` recovers the input |
| Quality.EscapeIdentity | evaluate_tsv.py:14 | a text without `&` is left unchanged |
| Quality.EscapeLength | evaluate_tsv.py:14 | the output is four characters longer per `&` |
| Quality.EscapeEscapesAll | evaluate_tsv.py:14 | every `&` in the output starts `&amp;` |
| Quality.SortedTagsSpec | evaluate_tsv.py:69 | `tags_used` is strictly increasing, so free of duplicates, and holds exactly the tags seen |
| Quality.SortedUnique | evaluate_tsv.py:69 | two strictly sorted lists with the same tags are equal, so `tags_used` does not depend on the order of the tags |
| Quality.CountTagsSpec | evaluate_tsv.py:70 | the counter has exactly the tags seen as keys, each with its number of occurrences |
| Quality.CountTagsTotal | evaluate_tsv.py:70 | the counts add up to the number of tags counted |
| Quality.NonRootSpec | evaluate_tsv.py:68 | dropping `root` removes all its occurrences and keeps every other tag as often as it occurs |
| Quality.ParserInput | evaluate_tsv.py:59-63 | the parser sees only the escaped text inside a `root` element |
| Quality.AnalyzeParseError | evaluate_tsv.py:51-75 | after a parse error the record is not well-formed and overlapping, with no tags, no counts and the parser's message |
| Quality.AnalyzeParsed | evaluate_tsv.py:62-70 | after a successful parse the record is well-formed and carries the overlap answer for the unescaped text, whose error it passes on; `tags_used` is sorted and equals the count keys, and the counts add up to the elements not named `root` |
| Quality.SummaryCases | evaluate_tsv.py:115-119 | the summary is `OK`, `Overlapping tags detected` or `XML_ERROR: …`, each exactly in its case, and the XML error wins over an overlap |
| Quality.ParseErrorSummary | evaluate_tsv.py:115-117 | a text the parser rejects is summarised as `XML_ERROR: ` plus the parser's message |
| Quality.WellNestedSummary | evaluate_tsv.py:115-119 | properly nested markup that parses is summarised as `OK` |
| Consolidation.NormalizeSpec | results/format_output.py:46 | the output has no whitespace at either end, single spaces between words, and the same words in order; it is empty exactly for whitespace-only input |
| Consolidation.NormalizeIdempotent | results/format_output.py:46 | normalizing twice gives the same as normalizing once |
| Consolidation.ValueOf | results/format_output.py:119-138 | an element's value is a string or a dictionary, never a list, and a string value has no whitespace at either end |
| Consolidation.AddChildSpec | results/format_output.py:126-132 | adding a child changes only its key's entry: a new key gets the value, a repeated key is promoted to a list and extended; keys stay distinct |
| Consolidation.AddChildKeys | results/format_output.py:127-134 | a child with a new tag adds its key at the end of the dictionary; a repeated tag keeps its key where it was |
| Consolidation.GroupHasKey | results/format_output.py:120-134 | a lower-cased tag is a key of the children's dictionary exactly when some child carries it |
| Consolidation.GroupKeys | results/format_output.py:120-134 | the keys of the children's dictionary are the lower-cased child tags in order of first occurrence, as dictionary insertion order keeps them |
| Consolidation.GroupSpec | results/format_output.py:120-134 | the children's dictionary has one key per distinct lower-cased child tag, holding the one value or, for a repeated tag, all values in document order; tags differing only in case are merged |
| Consolidation.ValuesWithCount | results/format_output.py:122-132 | a key collects as many values as there are children with that lower-cased tag |
| Consolidation.LeafDict | results/format_output.py:135-138 | a leaf maps its lower-cased tag to its stripped text, or to `""` when it has none |
| Consolidation.ParentDict | results/format_output.py:117-134 | an element with children maps its lower-cased tag to the children's dictionary; its own text has no effect |
| Consolidation.FaultyCaseInsensitive | results/format_output.py:172 | a record is faulty exactly when its well-formed flag, lower-cased, is `false` |
| Consolidation.FaultySpec | results/format_output.py:168-173 | the faulty records are exactly the records that are faulty, in file order: a faulty record preceded by k faulty records is the faulty record at index k |
| Consolidation.LineMapKeys | results/format_output.py:179-182 | exactly the ids of faulty records are numbered |
| Consolidation.LineMapValues | results/format_output.py:179-182 | each id maps to one plus the position of the last faulty record with that id |
| Consolidation.LineOfNth | results/format_output.py:179-182 | with distinct ids, the Nth faulty record, counting from 1, maps to N |
| Consolidation.DecimalRoundTrip | results/format_output.py:210 | the decimal digits of a line number read back as that number |
| Consolidation.CorrectionFileInjective | results/format_output.py:210 | different line numbers give different `line_N.json` names |
| Consolidation.CorrectionForFaulty | results/format_output.py:206-210 | a record of the data is given a correction file exactly when it is faulty; CorrectionFilesSpec adds the XML-column check that runs before |
| Consolidation.CorrectionFilesSpec | results/format_output.py:162-210 | the run raises `ValueError` exactly when the data is empty, has fewer than two columns or an empty second column name; otherwise every record is kept in order and exactly the faulty ones get a correction file |
| Consolidation.NthFaultyFile | results/format_output.py:178-210 | with distinct ids, the Nth faulty record reads `line_N.json` |
| Consolidation.FaultyRecordFile | results/format_output.py:168-210 | with distinct ids, a faulty record of the data reads `line_N.json`, where N counts the faulty records in file order up to and including it |

## Left out

- Reading and writing files, directories, CSV/TSV and JSON, and printing are left out. This covers `process_file` except its line format, `process_directory`, `main`, `process_tsv` except the summary rule, and the `load_*` and `save_*` functions. They are I/O plumbing around the modelled logic.
- results/correction_of_results/correction_of_malformed_xml_with_LLM.py is not part of this model. It is a network client for a language model.
- `xml.etree.ElementTree.fromstring` is a foreign parser.
  - `analyze_annotations` receives it as a parameter that returns a parse error or the tags of all elements in document order.
  - `_element_to_dict_lowercase` receives an already parsed `Element` tree.
  - The error wrapping in `xml_to_json_lowercase` is not modelled.
- Python's universal-newline translation is not modelled: `read_tags` cuts lines at `\n` only.
- Floats and the 4-decimal formatting of the scores are left out. Ratios are exact `real` values.
- Character classes are the ASCII subset of Python's Unicode ones.
  - `\w` is letters, digits and `_`.
  - `split()` and `strip()` use space, `\t` to `\r`, and 0x1C to 0x1F.
  - `lower()` and `upper()` change ASCII letters only.
- Consolidation.NthFaultyFile: the file name is stated for distinct ids only. With repeated ids, every faulty record with a given id reads the file of the last one. Consolidation.LineMapValues states that general case.
- Consolidation.IsFaulty: every cell of a record is a string. `csv.DictReader` (results/format_output.py:28-30) fills the missing cells of a short row with `None`, and `.upper()` on that `None` (results/format_output.py:172 and :190) raises `AttributeError`. The model treats such a record as having an empty flag, so it is not faulty; the crash is not modelled, because reading the TSV file is I/O that is left out.
- Consolidation.CorrectionFiles: records are maps without key order, so the key order of the first record is passed in as the TSV header. The contents of the XML column are copied into the output and are not modelled.
- The metadata and the other copied fields of a consolidated entry (results/format_output.py:193-203) are left out. They copy the input, and the file contents they depend on come from I/O.
