# Indicator evidence classifier and result loader — a Dafny model

This project models two parts of a literature-mining pipeline for gene–drug pairs.

**The document-evidence classifier (`indicator.py`).** A reference table lists (gene, drug) pairs. The drug field may be the text of a Python `(brand, generic)` tuple; `parse_drug_terms` decodes it into a list of names.

For every reference row, `generate_indicators` scores each abstract of a slice `abstracts[start:stop]` with `analyze_relation`, which works in two steps:

- **Mention gate.** The lowercased abstract must contain both the lowercased drug and the lowercased gene. If it does not, the result is `not_evaluated` with the `0.0` sentinel.
- **Scoring.** Otherwise the function counts, for each of six lexicons, how many of the lexicon's terms occur in the lowercased abstract. The counts are summed into an unweighted total. The label is `indicator_evidence` when the total is positive and `no_indicator_evidence` when it is zero.

After every scored abstract, the pair's whole log so far is rewritten to the file `<gene>_<drug>.csv`, with `/` replaced by `-`.

**The result loader (`score.py`).** `load_pmid_assessments` reads every per-pair CSV file in sorted order:

- **Empty files** are recorded as failures.
- **Other files** are read with up to four encodings, falling back on a decode, empty-data or parse error. A parse with zero columns counts as an empty-data error. A file none of the encodings can read is recorded as a failure, with the last error.
- **Loaded files** are tagged with the gene and drug parsed back out of the file name, and with the search method.
- **The result** is the loaded tables, in order. When nothing loaded, it is an error that lists up to five failures.

Modules:

- **`Text`** (`text.dfy`): ASCII lowercasing, the substring test with its reference definition, single-character replacement, and first/last index of a character.
- **`Py`** (`py.dfy`): the literal values `ast.literal_eval` can return, as far as the parser tells them apart, and Python slicing with CPython's bound clamping.
- **`Indicator`** (`indicator.dfy`):
  - `parse_drug_terms`;
  - the lexicons;
  - `analyze_relation`;
  - the run of `generate_indicators` as a function (`Run`/`RunRows`), and as the methods `GenerateIndicators` and `ScorePair`. `ScorePair` is the loop over abstracts, and the method is proved to compute the function.
- **`Score`** (`score.dfy`):
  - the file-name split;
  - the sorted file order;
  - the per-file read with encoding fallback (`ReadCsv`/`ReadFrom`, and the method `ReadWithFallback`);
  - the whole load (`LoadAll`/`LoadFrom`, and the method `LoadPmidAssessments`).

Modelling choices:

- **Abstracted operations.**
  - `ast.literal_eval` is a parameter `literalEval`. It returns `None` where the call raises.
  - `pd.read_csv` is abstracted per file, as the attempt outcome for each encoding: a parsed table with its column count, an error the loader catches, or an error it does not catch.
  - The output folder of a run is a map from file name to the records last written to that file.
- **Crashes.** A run of `generate_indicators` ends in one of two ways: completed, with the folder archived, or crashed, with the folder written so far. There are three causes of a crash:
  - the reference table is empty (`reference_df['Gene'][0]`);
  - a drug field parses to no names and the slice is not empty (`drug[0]` at the first abstract);
  - `shutil.make_archive` is asked for a folder that does not exist. The folder `<date>_<gene>` is named after the first row's gene and is made only when an abstract is scored. The archive takes the folder named after the last row's gene. So the archive step raises when the slice is empty, or when the first and last rows name different genes.
- **The scorer as a parameter.** The bookkeeping of the run is stated for any scorer `score`. The run itself passes `AnalyzeRelation`. Likewise, the loader's bookkeeping is stated for any per-file reader and tagger, and `LoadAll` passes `ReadCsv` and the tag with the search method.
- **File order.** `sorted(csv_files)` sorts `Path` objects part by part. All files come from one directory glob, so this is the order of their path strings, which the model uses.

## Model

| member | source | states |
|---|---|---|
| Indicator.StrElements | indicator.py:15 | the result keeps only string elements, and is no longer than the input |
| Indicator.StrElementsInOrder | indicator.py:15 | the result is exactly the string elements, in their original order: there are increasing positions of string elements, and every string element is at one of them |
| Indicator.StrElementsOfStrings | indicator.py:15 | for a sequence of strings only, the result is that sequence, element by element |
| Indicator.ParseDrugTerms | indicator.py:10-18 | a decoded list or tuple gives at most its own strings, each of them an element of it; any other outcome, including a raised decode, gives `[entry]` unchanged |
| Indicator.ParseDrugTermsInOrder | indicator.py:13-15 | a decoded list or tuple yields exactly its string elements, in order; non-strings are dropped |
| Indicator.ParseBrandGenericPair | indicator.py:10-15 | a decoded `(brand, generic)` tuple of two strings gives `[brand, generic]` |
| Indicator.Terms | indicator.py:22-32 | each of the six lexicons is non-empty and no term is the empty string, so no term occurs in every abstract |
| Indicator.Hits | indicator.py:64-69 | a count is positive iff some term of the lexicon occurs in the text |
| Indicator.HitsAtMostTerms | indicator.py:64-69 | a count never exceeds the number of terms in the lexicon |
| Indicator.Mentioned | indicator.py:55-59 | the gate passes iff the lowercased drug and the lowercased gene each occur at some index of the lowercased abstract |
| Indicator.CountIndicators | indicator.py:62-70 | each category's count is the number of its terms present in the text; the total is the sum of the six counts |
| Indicator.TotalPositiveIffTerm | indicator.py:70-75 | the total is positive iff some term of some lexicon occurs in the text |
| Indicator.AnalyzeRelation | indicator.py:51-77 | not mentioned iff the result is `not_evaluated` with the 0.0 sentinel; when mentioned, each category score is the number of its terms present in the lowercased abstract, the total is their sum, and the label is `indicator_evidence` iff the total is positive, otherwise `no_indicator_evidence`; `indicator_evidence` iff both names occur and some lexicon term occurs |
| Indicator.CountsBoundedByLexicon | indicator.py:64-69 | when the gate passes, each category count lies between 0 and the size of its lexicon |
| Indicator.UppercaseTermsNeverCount | indicator.py:55-69 | each count equals the number of the category's all-lowercase terms present, because terms with capitals are matched against lowercased text |
| Indicator.UppercaseLexiconTermsInLexicons | indicator.py:26-30 | the seven capitalised terms all belong to the animal, cell-line and imaging lexicons |
| Indicator.UppercaseLexiconTermsNeverMatch | indicator.py:26-30 | none of the capitalised terms ("PDX", "MRI", "CT", …) can ever occur in a lowercased abstract |
| Indicator.OutputFileName | indicator.py:97 | the name contains no `/`; it is gene, `_`, drug and `.csv`, with every `/` in gene and drug replaced by `-` |
| Indicator.Entry | indicator.py:92-93 | the record for one abstract carries that abstract's pmid and the label and scores the scorer gives it |
| Indicator.PairLog | indicator.py:90-93 | a pair's log has one record per abstract of the slice |
| Indicator.PairLogInSliceOrder | indicator.py:90-93 | the i-th record has the i-th abstract's pmid, and its label and scores come from scoring that abstract |
| Indicator.PairLogAppend | indicator.py:91-93 | scoring one more abstract appends exactly its record to the log |
| Indicator.PairLogPrefix | indicator.py:91-102 | what a pair's file holds after k abstracts is the first k records of its final log |
| Indicator.RunRows | indicator.py:85-102 | the loop over rows never removes a file already in the folder |
| Indicator.Run | indicator.py:79-105 | a run ends normally only for a non-empty table and slice whose first and last rows name the same gene |
| Indicator.ScorePair | indicator.py:90-102 | the loop over abstracts raises iff the slice is not empty and there is no drug name; otherwise, for a non-empty slice, the pair's file holds the full log and no other file changes; an empty slice changes nothing |
| Indicator.GenerateIndicators | indicator.py:79-105 | the method's outcome (completed, or crashed with its cause and the output folder) equals the run function `Run`, including the archive step that raises when the folder was never made or the last row's gene names another folder |
| Indicator.RunRowsStep | indicator.py:85-102 | a row with a drug name and a non-empty slice writes its pair's file, then the remaining rows run |
| Indicator.AfterRow | indicator.py:95-102 | the folder after a row's writes; `ScorePair` is proved to end in it, and `AfterRowChangesOnlyPairFile` states what it is |
| Indicator.AfterRowChangesOnlyPairFile | indicator.py:95-102 | after a row's writes the folder has the pair's file, which holds the full log of the slice; every other file is unchanged, and no other file is added |
| Indicator.AfterRowWrittenByRows | indicator.py:95-102 | after one more row, every file in the folder is still the full log of some row's pair |
| Indicator.RunRowsFilesWritten | indicator.py:85-102 | every file left by the run is the full log written by some row |
| Indicator.RunRowsFilesHoldFullLogs | indicator.py:85-102 | for any scorer, each output file was written by some row and holds one record per abstract of the slice, with the same pmids in the same order |
| Indicator.RunFilesHoldFullLogs | indicator.py:79-102 | each output file of a run holds one record per abstract of `abstracts[start:stop]`, with the same pmids in the same order |
| Indicator.RunRowsCrashes | indicator.py:85-92 | the rows from i on crash iff the slice is not empty and some row from i on has no drug name |
| Indicator.RunCrashesIff | indicator.py:79-105 | a run raises iff the reference table is empty, the slice is empty, some drug field parses to no names, or the first and last rows name different genes |
| Indicator.RunRowsEmptySlice | indicator.py:90-95 | with an empty slice, the rows leave the folder unchanged |
| Indicator.EmptySliceLeavesNoFolder | indicator.py:90-104 | with a non-empty table and an empty slice, no file is written and the folder is never made, so archiving raises with an empty folder map |
| Indicator.GeneMismatchCannotArchive | indicator.py:80-104 | when every drug field has a name, the slice is not empty, and the first and last rows name different genes, every row's file is written and then archiving raises |
| Indicator.RunRowsKeepsNames | indicator.py:85-99 | a completed row loop over a non-empty slice keeps the files it started with, and leaves a file for every row from i on |
| Indicator.CompletedRunWritesEveryPair | indicator.py:85-105 | a run that ends normally leaves a file for every reference row, named after its gene and first drug name |
| Text.ToLower | indicator.py:55 | one character lowercased: an upper-case ASCII letter becomes its lower-case letter, any other character is unchanged, and no upper-case letter comes out |
| Text.Lower | indicator.py:55 | lowercasing keeps the length, maps each character on its own, and leaves no upper-case letter |
| Text.Contains | indicator.py:56-57 | the empty pattern is always found; a found pattern is no longer than the text |
| Text.ContainsIffOccurs | indicator.py:56-57 | the substring test holds iff the pattern occurs at some index of the text |
| Text.LowerContainsIffOccurs | indicator.py:55-57 | the test of a lowercased pattern in a lowercased text holds iff the pattern occurs at some index |
| Text.ContainsAt | indicator.py:64-69 | a pattern occurring at some index is found |
| Text.UpperNeverInLower | indicator.py:55-69 | a pattern with an upper-case letter never occurs in a lowercased text |
| Text.ReplaceChar | indicator.py:97 | same length; each `from` becomes `to` and every other character stays; no `from` is left |
| Text.ReplaceCharConcat | indicator.py:97 | replacing distributes over concatenation |
| Text.ReplaceCharAbsent | indicator.py:97 | a string without `from` is unchanged |
| Text.ReplaceCharKeeps | indicator.py:97 | a third character is present after replacing iff it was present before |
| Text.FirstIndexOf | score.py:69 | -1 iff the character is absent; otherwise the index of its first occurrence |
| Text.LastIndexOf | score.py:68 | -1 iff the character is absent; otherwise the index of its last occurrence |
| Py.SliceBound | indicator.py:91 | a bound is clamped into 0..n, and a negative bound counts from the end |
| Py.Slice | indicator.py:91 | with both bounds adjusted CPython's way, the slice holds exactly the elements from the adjusted start up to, not including, the adjusted stop, in order, and is empty when the adjusted start is not before the adjusted stop |
| Py.DefaultSliceDropsLast | indicator.py:79-91 | with the default bounds `start=0, stop=-1`, the slice is every abstract but the last, and nothing for an empty list |
| Py.FullSlice | indicator.py:91 | `s[0:len(s)]` is `s` |
| Score.StripLastSuffix | score.py:68 | a name with no `.` is unchanged; otherwise the stem is the part before the last `.` |
| Score.CsvFile.Name | score.py:68 | the name is the whole last component of the path: a trailing part with no `/` that reaches back to the last `/`, or the whole path when it has no `/` |
| Score.SplitGeneDrug | score.py:69-74 | with an `_`, gene + "_" + drug is the name and the gene has no `_`; without one, the gene is the whole name and the drug is empty |
| Score.GeneDrugFromFileName | score.py:68-74 | the gene parsed from a file name has no `_` and is a leading part of the name |
| Score.SplitJoined | score.py:69-71 | joining a gene without `_` and any drug with `_`, then splitting, gives back the gene and the drug |
| Score.StripCsv | score.py:68 | stripping the suffix of `s + ".csv"` gives `s` |
| Score.FileNameRoundTrip | score.py:67-74 | a file name written by the classifier for a gene without `_` parses back to the gene and drug, with `/` turned into `-` |
| Score.FileNameRoundTripExact | score.py:67-74 | when gene and drug also have no `/`, the parse gives back exactly the gene and drug |
| Score.UnderscoreGeneSplitsEarly | score.py:69-71 | a gene containing `_` is split at its first `_`: its tail is moved into the drug |
| Score.PathLe | score.py:36 | Python's `str` order on paths, by code point; a prefix sorts first. Its totality and transitivity are `PathLeTotal` and `PathLeTrans` |
| Score.PathLeTotal | score.py:36 | any two paths are ordered one way or the other |
| Score.PathLeTrans | score.py:36 | the path order is transitive |
| Score.InsertByPath | score.py:36 | inserting adds exactly one file to the multiset |
| Score.InsertKeepsSorted | score.py:36 | inserting into a sorted list keeps it sorted |
| Score.SortByPath | score.py:36 | the result is sorted by path and is a permutation of the input |
| Score.Retryable | score.py:55-59 | an uncaught error is never retried; a parsed table is retried exactly when it has no columns; a caught error is retried |
| Score.ErrorOf | score.py:56-60 | the error left in `last_err`: the caught error itself, or the empty-data error raised for a table with no columns. `ReadFromAllRetryable` and `FailedFileKeepsLastError` state which attempt's error is recorded |
| Score.ReadFrom | score.py:42-65 | with no encoding left the file is skipped with the last error; a loaded table has columns and is what some tried encoding parsed; a raised error is one some tried encoding raised |
| Score.ReadCsv | score.py:38-65 | an empty file is skipped as "empty file"; a loaded table or raised error comes from a non-empty file and one of the four encodings |
| Score.ReadFromFirstDecisive | score.py:45-61 | the first encoding whose attempt is not retryable decides: a table with columns loads, and an error the loop does not catch propagates |
| Score.ReadFromAllRetryable | score.py:45-64 | when every attempt fails with a caught error or has no columns, the file is skipped with the last attempt's error |
| Score.FailedFileKeepsLastError | score.py:42-64 | a non-empty file that no encoding can read is skipped with the error of the `latin1` attempt |
| Score.ReadWithFallback | score.py:42-65 | the encoding loop computes the per-file outcome `ReadFrom` over utf-8, utf-8-sig, utf-16 and latin1 |
| Score.FirstFailures | score.py:85 | at most five failures, a prefix of the list, and all of them when there are fewer than five |
| Score.JoinFailures | score.py:85 | the joined text is empty iff there are no failures, and otherwise starts with the first failure's line |
| Score.JoinFailuresLists | score.py:85 | every listed failure's `path -> error` line occurs in the joined text |
| Score.FailureLine | score.py:85 | a failure's line is its path, then ` -> `, then its reason |
| Score.NoCsvMessage | score.py:83-86 | the message starts with the fixed prefix, and is exactly the prefix iff there are no failures |
| Score.NoCsvMessageListsFailures | score.py:81-86 | the error message starts with "No CSVs could be loaded. Examples of failures: " and mentions each of the first five failures |
| Score.Finish | score.py:81-88 | the result is the nothing-loaded error iff no table was loaded |
| Score.Tag | score.py:67-78 | the tagged table keeps the table and the search method, and its gene has no `_` and is a leading part of the file name |
| Score.TagWith | score.py:76-78 | the tagging keeps every table and records the search method |
| Score.LoadFrom | score.py:36-88 | the loop only extends what it has loaded and recorded; every remaining file ends up loaded or recorded; nothing-loaded comes only with no table loaded, and its message has the fixed prefix |
| Score.LoadAll | score.py:36-88 | a load returns at least one table, and counts every input file once, as loaded or skipped; a nothing-loaded error has the fixed prefix |
| Score.LoadedFiles | score.py:36-79 | every loaded file is an input file that reads as a table |
| Score.LoadedTablesOfLoadedFiles | score.py:76-79 | the k-th tagged table is the k-th loaded file's table, tagged |
| Score.NoneRaisesCons | score.py:36-61 | no file raises iff the first does not and no later one does |
| Score.FirstRaisesStep | score.py:36-61 | a file that does not raise passes the first raising error on |
| Score.SkippedStep | score.py:38-65 | a skipped file adds no table and adds its failure |
| Score.LoadedStep | score.py:76-79 | a loaded file adds its tagged table and no failure |
| Score.LoadFromNoneRaises | score.py:36-88 | when no remaining file raises, the loop ends with the tables of the loaded files and the failures of the skipped ones, in order |
| Score.LoadFromRaises | score.py:45-61 | when some remaining file raises, the load fails with the error of the first one that raises |
| Score.NoneRaisesPermuted | score.py:36 | sorting does not change whether some file raises |
| Score.LoadAllOutcome | score.py:36-88 | tables are loaded iff no file raises and some file loads, and they are the tagged tables of the loaded files, in sorted order, with the skipped files; nothing-loaded iff no file raises and none loads, with the message over the failures; a read error iff some file raises, with the first such error |
| Score.LoadedTablesTagged | score.py:67-79 | the k-th table is the k-th loaded file's table, tagged with the gene and drug from that file's name and with the search method |
| Score.LoadedFilesOfInput | score.py:36-79 | loaded files are non-empty; an input file is loaded iff it reads as a table; loaded files are in path order |
| Score.LoadedFilesKeepOrder | score.py:36 | filtering a sorted file list keeps it sorted |
| Score.LoadedFilesMembers | score.py:36-79 | a file is loaded iff it is an input and reads as a table |
| Score.SkippedFilesRecorded | score.py:63-65 | every skipped file is recorded as a failure with its reason |
| Score.EmptyFilesRecorded | score.py:38-40 | an empty input file is never loaded, and is recorded as an "empty file" failure |
| Score.LoadedOrFailed | score.py:36-79 | when no file raises, every file is either loaded or recorded as a failure |
| Score.LoadPmidAssessments | score.py:6-98 | the method's result equals the load function `LoadAll` over the files |

## Left out

- **File and archive I/O** is abstracted. The folder is a map from file name to records. `os.makedirs`, `shutil.make_archive` and `shutil.rmtree` are modelled only by whether the folder was made and whether archiving raises. CSV serialization of the records, zip extraction, and the glob of the extract directory with its fallback to `out_dir` are not modelled. The loader's input is the list of CSV files found, each described by its path, its size and the outcome of reading it with each encoding.
- **The archive's contents** are not modelled: a normal end is the folder map that was archived and removed. On the archive step, the model records only that `shutil.make_archive` raises `FileNotFoundError` when the folder does not exist. In CPython that call leaves an empty zip behind, and the folder of a mismatched first gene is never removed; neither is modelled.
- **The working directory** is assumed to hold no folder of the same name from an earlier run on the same day. Such a folder would let the archive step succeed where the model says it raises.
- **The date stamp** (`datetime.now()`), the `tqdm` progress bars and every `print` are left out.
- **`CHEMOTHERAPY_AGENTS`** is left out, because no operation reads it.
- **Lowercasing** covers ASCII letters only; Unicode case mapping of `str.lower()` is not modelled. Every lexicon term is ASCII.
- **Text.Contains** models `re.search(re.escape(p), t)` and `p in t` as the same plain substring test; the regular-expression engine itself is not modelled.
- **`pd.read_csv` internals** are given as per-encoding outcomes rather than modelled: delimiter sniffing, `on_bad_lines="skip"`, decoding and column inference.
- **`pd.concat`** is modelled as the ordered sequence of tagged tables: the column union and `ignore_index` renumbering are left out. The list of skipped files is returned with the tables instead of printed.
- **The first reference row** is the row labelled 0: `reference_df['Gene'][0]` is a label lookup, not a positional one. The model reads it as the first row and treats an empty table as the only case that raises. That holds for the default `RangeIndex`, which the table gets from `reset_index(drop=True)` in `search_set.py`; a table with another index is not modelled.
- **`ast.literal_eval`** is a parameter; its parser is not modelled.
- **The `0.0` score** of `not_evaluated` is the `ZeroSentinel` constructor, not a floating-point number.
