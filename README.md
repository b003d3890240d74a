# hf_utils README synthesiser — a verified model

`HFUploader` in `hf_utils/hf_utils.py` pushes JSON-lines files to the Hugging
Face hub as a `DatasetDict`. It then regenerates the dataset's README.md: a card
with a statistics table and one sample table per split, placed under the
original YAML front matter. This project models the pure part of that work in
Dafny and proves what it promises:

- the skip guard on the `---` delimiter;
- the `split_stats` dictionary built from `dataset_info.splits`;
- the nested `generate_table` renderer;
- the statistics rows, with `str.capitalize()` and the `,` format specifier;
- the re-wrap of the front matter around the card;
- which split names `dataset_upload` puts into the bundle.

Modules:

- `Results`: the two exceptions the code raises on its own data, `IndexError` and `KeyError(key)`. Also `Result` and `Option`.
- `Text`: Python's `str.split('---')` and `'---' in s` (`Segments`, `Contains`), splitting text into newline-terminated lines, `.replace('\n', '</br>')` (`Escape`) and `" | ".join`.
- `Format`: `str.capitalize()` over ASCII letters, and `f"{n:,}"` (`Grouped`).
- `OrderedDict`: a Python `dict` with string keys and insertion order; `d[k] = v` is `Put`.
- `SplitStats`: the loop that fills `split_stats`.
- `Table`: `generate_table`.
- `Readme`: `update_dataset_readme` on a README that has already been downloaded. Its `Outcome` is one of: skipped for missing metadata, skipped as already populated, an exception, or the README text that gets written.
- `Bundle`: the split names and sources in `dataset_upload`'s `dataset_dict`.

The state-changing loops of the source are methods with loop invariants:

- `GenerateTable` builds `table` with `+=`.
- `BuildSplitStats` assigns into the dict.
- `SampleSplits`, `RenderStatistics` and `RenderSections` are the other three loops.
- `UpdateDatasetReadme` is the whole call.
- `AssembleBundle` (with `TrainAndValidation`) builds the bundle.

Each method is proved equal to a specification function (`RenderTable`, `SplitStatsOf`, `Sampling`, `StatsRows`, `Sections`, `Synthesis`). The properties are proved as lemmas about those functions.

Inputs the source obtains by I/O are parameters:

- the README text;
- the parsed `dataset_info.splits`, as `SplitInfo(name, numExamples, numBytes)` records;
- the sampled records of each split, as a `Sample` value: column names, plus the rows as maps from column name to the `str()` of the value;
- the repository id;
- whether the optional file arguments were given, and the split ratio.

The model follows the code where the code and its description differ:

- With exactly one `---`, the code raises `IndexError` at line 68. The model returns `Failed(IndexError)` in that case; it does not skip.
- A split listed in the metadata but missing from the loaded dataset raises `KeyError` (line 91).
- A sampled record lacking a column raises `KeyError` (line 99).
- A split name listed twice keeps its first position and the counts of its last entry.

## Model

| member | source | states |
|---|---|---|
| Readme.SkipGuard | hf_utils/hf_utils.py:64-71 | The call skips for missing metadata exactly when the README has no `---`. It raises IndexError exactly when there is one `---`. It skips as already populated exactly when there are at least two and the third piece is longer than 10 characters. |
| Readme.UpdateDatasetReadme | hf_utils/hf_utils.py:64-126 | The method's outcome is `Synthesis`: the guard in source order, then the card built from `split_stats`, the samples and the tables, wrapped around segment 1. |
| Readme.WrittenReadme | hf_utils/hf_utils.py:103-126 | A written README means at least two delimiters and a short third piece. The text is exactly `"---\n" + segment[1] + "\n---\n" + card`, with the old segment unchanged. The card starts with the `# Dataset Card for` heading, the statistics header, the statistics rows and the structure heading. |
| Readme.Idempotent | hf_utils/hf_utils.py:64-71 | A README this call wrote is skipped as already populated by any later call, whatever its repository, metadata and data. Re-splitting it gives back the old front matter, padded by one newline on each side. |
| Readme.WrapSegments | hf_utils/hf_utils.py:126 | Wrapping front matter that has no delimiter around a card gives text that has a delimiter and at least 3 pieces. Piece 1 is the front matter between newlines, and piece 2 is longer than 10 characters. |
| Readme.CardStartsWith | hf_utils/hf_utils.py:103-116 | A successful card begins with the heading for the repository id, the statistics table of the splits and the structure heading. |
| Readme.CardErrors | hf_utils/hf_utils.py:88-121 | The only exception that building the card can raise is a KeyError. |
| Readme.SamplingCorrect | hf_utils/hf_utils.py:89-91 | Sampling succeeds exactly when the dataset has every split name. Each split's sample is then stored under `name + "_sample"`. On failure, the KeyError names a listed split the dataset lacks. |
| Readme.SampleSplits | hf_utils/hf_utils.py:89-91 | The `sample_data` loop, including its early KeyError, equals `Sampling`. |
| Readme.SampleKeyInjective | hf_utils/hf_utils.py:91 | Distinct split names get distinct `_sample` keys, so no sample overwrites another. |
| Readme.StatisticsTable | hf_utils/hf_utils.py:79-112 | When no split name holds a newline, the statistics rows are one line per distinct split name, in first-appearance order. Each line shows the counts of the name's last entry. |
| Readme.StatsRowsLines | hf_utils/hf_utils.py:111-112 | The statistics rows written for a list of names split into exactly one line per name, in order. |
| Readme.StatsRowLine | hf_utils/hf_utils.py:112 | A statistics row for a name without a newline is a single newline-terminated line. |
| Readme.RenderStatistics | hf_utils/hf_utils.py:111-112 | The loop appending statistics rows produces `StatsRows`, one row per key of `split_stats`. |
| Readme.RenderSections | hf_utils/hf_utils.py:117-121 | The loop appending sample sections produces `Sections`, or the first table's KeyError. |
| Readme.SectionsErrors | hf_utils/hf_utils.py:117-121 | Rendering the sample sections can only fail with a KeyError. |
| Readme.RenderBody | hf_utils/hf_utils.py:103-121 | `model_card_content` is the header, the statistics rows, the structure heading and the sections, or the sections' error. |
| SplitStats.BuildSplitStats | hf_utils/hf_utils.py:79-85 | `split_stats` is a well-formed dict. Its keys are the split names in first-appearance order, and a key is present exactly when some entry has that name. Each value holds the example and byte counts of the last entry with that name. |
| SplitStats.FirstAppearanceCorrect | hf_utils/hf_utils.py:79-85 | The key order has no duplicates, holds exactly the names that occur, and is sorted by each name's first position. |
| SplitStats.SummarisesSnoc | hf_utils/hf_utils.py:80-85 | Storing one more entry's counts under its name keeps the dict summarising the entries seen: first-appearance keys, each holding the counts of its last entry. |
| SplitStats.SummarisesAll | hf_utils/hf_utils.py:79-85 | A dict that summarises all the entries is exactly `SplitStatsOf` of them. |
| SplitStats.FirstIndex | hf_utils/hf_utils.py:80-82 | The position found holds the name, and no earlier entry does. |
| SplitStats.LastIndex | hf_utils/hf_utils.py:80-82 | The position found holds the name, and no later entry does. |
| OrderedDict.Dict.Put | hf_utils/hf_utils.py:82 | `d[k] = v` keeps the dict well-formed and maps `k` to `v`. An existing key keeps its place; a new key goes to the end. |
| Table.GenerateTable | hf_utils/hf_utils.py:94-100 | The `+=` loop of `generate_table` equals `RenderTable`, raising the first record's KeyError. |
| Table.TableLines | hf_utils/hf_utils.py:94-100 | When every record has every column and no column name holds a newline, the table has `len(rows) + 2` lines. They are the header with the column names, the separator with one `---` per column, then one line per record holding its cells. |
| Table.TableFramed | hf_utils/hf_utils.py:96-99 | Every line of the table, header and separator included, starts with a bar and a space and ends with a space, a bar and a newline. |
| Table.RowFramed | hf_utils/hf_utils.py:96-99 | A row starts with a bar and a space and ends with a space, a bar and a newline. |
| Table.RowCellsCorrect | hf_utils/hf_utils.py:99 | A record gives cells exactly when it has every column. There is then one cell per column, in column order, holding the escaped value. On failure, the KeyError names a column the record lacks. |
| Table.DataRowsOk | hf_utils/hf_utils.py:98-99 | The data rows render exactly when every record has every column. On failure, the KeyError names a column some record lacks. |
| Table.DataRowsLines | hf_utils/hf_utils.py:98-99 | The data rows are one newline-terminated line per record, in record order. |
| Table.DataRowsConcat | hf_utils/hf_utils.py:98-99 | When every record gives cells, the data rows are each record's row, in order, written one after the other. |
| Table.DataRowsFail | hf_utils/hf_utils.py:98-99 | The first record that misses a column decides the KeyError of the whole table. |
| Table.RowIsLine | hf_utils/hf_utils.py:99 | A row of cells without newlines is a single newline-terminated line. |
| Table.RecordLine | hf_utils/hf_utils.py:99 | A complete record's line has the row frame and no newline except the last character. |
| Table.Repeat | hf_utils/hf_utils.py:97 | `["---"] * n` has n cells, each `---`. |
| Text.Escape | hf_utils/hf_utils.py:99 | The escaped value contains no newline. |
| Text.EscapeNoNewline | hf_utils/hf_utils.py:99 | A value without a newline is left unchanged. |
| Text.EscapeLength | hf_utils/hf_utils.py:99 | Escaping adds four characters per newline, since each `\n` becomes the five-character `</br>`. |
| Text.JoinCellsNoNewline | hf_utils/hf_utils.py:99 | Joining cells that have no newline with a bar between spaces gives text without a newline. |
| Text.SegmentsCount | hf_utils/hf_utils.py:68 | `split('---')` gives one more piece than the number of non-overlapping occurrences of `---`. |
| Text.ContainsOccurrences | hf_utils/hf_utils.py:64 | `'---' in s` holds exactly when `---` occurs at least once. |
| Text.JoinSegments | hf_utils/hf_utils.py:68 | Joining the pieces with `---` gives back the original text. |
| Text.SegmentsFree | hf_utils/hf_utils.py:68 | No piece contains `---`. |
| Text.SegmentsAt | hf_utils/hf_utils.py:68 | Splitting `p + "---" + q` gives `p` followed by the pieces of `q`, when `p` has no delimiter and does not end in `-`. |
| Text.LinesConcat | hf_utils/hf_utils.py:96-112 | Text built by appending newline-terminated lines splits back into exactly those lines. |
| Format.GroupedDropCommas | hf_utils/hf_utils.py:112 | Deleting the commas of `f"{n:,}"` gives the decimal form of `n`. |
| Format.GroupedNatCommas | hf_utils/hf_utils.py:112 | Counting from the end, every fourth character of the grouped form is a comma, and only those are. |
| Format.CommaSpacedGroup | hf_utils/hf_utils.py:112 | Appending a comma and a group of three non-comma characters keeps every fourth character from the end a comma, and only those. |
| Format.DigitsCorrect | hf_utils/hf_utils.py:112 | The decimal form of a natural number is all digits, has no leading zero, and reads back as the number. |
| Format.GroupedExample | hf_utils/hf_utils.py:112 | 1234567 is rendered `1,234,567`. |
| Format.CapitalizeChars | hf_utils/hf_utils.py:112 | `capitalize()` keeps the length, upper-cases the first character and lower-cases the others. |
| Format.CapitalizeIdempotent | hf_utils/hf_utils.py:119 | Capitalizing twice equals capitalizing once, and the case of the input does not matter. |
| Bundle.AssembleBundle | hf_utils/hf_utils.py:27-43 | The bundle's keys are `train`, then `validation` when a validation file is given or the ratio is positive, then `test` exactly when a test file is given. A validation file makes both splits come from files, and wins over the ratio. Otherwise a positive ratio gives train and validation as the two parts of a partition with test size `1 - ratio`. |
| Bundle.TrainAndValidation | hf_utils/hf_utils.py:27-38 | Lines 27-38 on their own: the train and validation entries, decided as above. |

## Left out

- Hub and network calls (`create_repo`, `push_to_hub`, `hf_hub_download`, `upload_file`, `load_dataset`, `list_datasets`): foreign library calls. Their inputs and outputs are parameters or the `Outcome` value.
- File I/O and the temporary directory (lines 24-25, 30-31, 41-42, 58-62, 124-126): plumbing. The README text comes in as a string, and the written text is the `Written` outcome.
- `yaml.safe_load` (line 75) and `json.loads` (lines 25, 31, 42): foreign parsers. Their results are inputs. A front matter without `dataset_info.splits`, or without a split's `name`/`num_examples`/`num_bytes` key, would raise there; that is not modelled.
- The `int()` conversions at lines 83-84: the counts come in as integers. A string that does not parse is not modelled.
- `str()` of cell values (line 99): each value comes in already as its string form.
- `shuffle(seed=42).select(range(5))` (line 91): library sampling. The sampled rows come in as the `Sample` value. A split with fewer than five rows, which raises inside `select`, is not modelled.
- The sklearn `train_test_split` partition (line 34): randomised, with floating-point sizes. Only the decision to use it and its `test_size` of `1 - ratio` are modelled. A ratio of 1 or more, for which sklearn raises, is not modelled.
- The record lists of each split: `Bundle` names each split's source and not its records.
- `update_all_datasets_readme` (lines 135-143): a network loop over the hub listing. Each iteration calls `self.update_readme()`, which the class does not define.
- The `fire` command line and the `structlog` log messages: the log messages of the skip paths are the `NoMetadata` and `AlreadyPopulated` outcomes.
- Format.Capitalize: case mapping covers ASCII letters only, not Python's full Unicode mapping.
- Format.Grouped: models `f"{n:,}"` for int values only.
- Readme.StatsHeader: a `repo_id` of `None` would render as the text `None`; the model takes the id as a string.
