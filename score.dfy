/** Loading the per-pair result files back: the file name gives the gene and
    the drug, empty or unreadable files are recorded as failures, every loaded
    table is tagged, and a run that loads nothing is an error. Each file is
    abstracted as its path, its size and the outcome of reading it with each
    encoding in turn. */
module Score {
  import opened Text
  import Indicator

  // ===========================================================================
  // File name -> (gene, drug)
  // ===========================================================================

  /** `name.rsplit(".", 1)[0]`: the name without its last `.`-suffix. */
  function StripLastSuffix(name: string): (stem: string)
    ensures '.' !in name ==> stem == name
    ensures '.' in name ==>
              |stem| < |name| && name[..|stem|] == stem && name[|stem|] == '.' && '.' !in name[|stem| + 1..]
  {
    var k := LastIndexOf(name, '.');
    if k < 0 then name else name[..k]
  }

  datatype GeneDrug = GeneDrug(gene: string, drug: string)

  /** `name.split("_", 1)`, with drug `""` when there is no `_`: the gene is the
      text before the first `_` and the drug everything after it. */
  function SplitGeneDrug(stem: string): (r: GeneDrug)
    ensures '_' in stem ==> r.gene + "_" + r.drug == stem && '_' !in r.gene
    ensures '_' !in stem ==> r == GeneDrug(stem, "")
  {
    var k := FirstIndexOf(stem, '_');
    if k < 0 then GeneDrug(stem, "")
    else
      assert stem == stem[..k] + "_" + stem[k + 1..];
      GeneDrug(stem[..k], stem[k + 1..])
  }

  /** The gene and drug a result file's name stands for: the gene is a
      leading part of the name without `_`. */
  function GeneDrugFromFileName(name: string): (r: GeneDrug)
    ensures '_' !in r.gene
    ensures r.gene <= name
  {
    var stem := StripLastSuffix(name);
    var r := SplitGeneDrug(stem);
    assert '_' in stem ==> stem[..|r.gene|] == r.gene by {
      if '_' in stem {
        assert stem == r.gene + "_" + r.drug;
      }
    }
    r
  }

  /** Splitting `g + "_" + d` where `g` has no `_` gives back `g` and `d`. */
  lemma SplitJoined(g: string, d: string)
    requires '_' !in g
    ensures SplitGeneDrug(g + "_" + d) == GeneDrug(g, d)
  {
    var stem := g + "_" + d;
    assert stem[|g|] == '_';
    var r := SplitGeneDrug(stem);
    assert r.gene == stem[..|g|] == g;
    assert r.drug == stem[|g| + 1..] == d;
  }

  /** Stripping the last suffix of `s + ".csv"` gives back `s`. */
  lemma StripCsv(s: string)
    ensures StripLastSuffix(s + ".csv") == s
  {
    var name := s + ".csv";
    assert name[|s|] == '.';
  }

  /** The name `generate_indicators` writes for a gene without `_` parses back
      to that gene and drug, each with `/` turned into `-`. */
  lemma {:induction false} FileNameRoundTrip(gene: string, drug: string)
    requires '_' !in gene
    ensures GeneDrugFromFileName(Indicator.OutputFileName(gene, drug))
            == GeneDrug(ReplaceChar(gene, '/', '-'), ReplaceChar(drug, '/', '-'))
  {
    var g, d := ReplaceChar(gene, '/', '-'), ReplaceChar(drug, '/', '-');
    ReplaceCharKeeps(gene, '/', '-', '_');
    assert g + "_" + d + ".csv" == (g + "_" + d) + ".csv";
    StripCsv(g + "_" + d);
    SplitJoined(g, d);
  }

  /** For names without `/` and a gene without `_` the round trip is exact. */
  lemma FileNameRoundTripExact(gene: string, drug: string)
    requires '_' !in gene && '/' !in gene && '/' !in drug
    ensures GeneDrugFromFileName(Indicator.OutputFileName(gene, drug)) == GeneDrug(gene, drug)
  {
    FileNameRoundTrip(gene, drug);
    ReplaceCharAbsent(gene, '/', '-');
    ReplaceCharAbsent(drug, '/', '-');
  }

  /** A gene with `_` does not survive the round trip: the part after its
      first `_` moves into the drug. */
  lemma UnderscoreGeneSplitsEarly(g: string, h: string, drug: string)
    requires '_' !in g
    requires '/' !in g && '/' !in h && '/' !in drug
    ensures GeneDrugFromFileName(Indicator.OutputFileName(g + "_" + h, drug)) == GeneDrug(g, h + "_" + drug)
  {
    ReplaceCharAbsent(g + "_" + h, '/', '-');
    ReplaceCharAbsent(drug, '/', '-');
    assert Indicator.OutputFileName(g + "_" + h, drug) == (g + "_" + (h + "_" + drug)) + ".csv";
    StripCsv(g + "_" + (h + "_" + drug));
    SplitJoined(g, h + "_" + drug);
  }

  // ===========================================================================
  // Sorting the files by path (`sorted(csv_files)`)
  // ===========================================================================

  /** Python's string order: lexicographic by code point, a prefix first. */
  predicate PathLe(a: string, b: string): (le: bool)
    ensures a <= b ==> le
    decreases |a|
  {
    a == [] || (b != [] && (a[0] < b[0] || (a[0] == b[0] && PathLe(a[1..], b[1..]))))
  }

  lemma {:induction false} PathLeTotal(a: string, b: string)
    ensures PathLe(a, b) || PathLe(b, a)
    decreases |a|
  {
    if a != [] && b != [] && a[0] == b[0] {
      PathLeTotal(a[1..], b[1..]);
    }
  }

  lemma {:induction false} PathLeTrans(a: string, b: string, c: string)
    requires PathLe(a, b) && PathLe(b, c)
    ensures PathLe(a, c)
    decreases |a|
  {
    if a != [] && a[0] == b[0] && b[0] == c[0] {
      PathLeTrans(a[1..], b[1..], c[1..]);
    }
  }

  predicate SortedByPath(files: seq<CsvFile>) {
    forall i, j :: 0 <= i < j < |files| ==> PathLe(files[i].path, files[j].path)
  }

  /** Insert `f` before the first file whose path is not smaller. */
  function InsertByPath(f: CsvFile, sorted: seq<CsvFile>): (r: seq<CsvFile>)
    ensures multiset(r) == multiset(sorted) + multiset{f}
  {
    if sorted == [] then [f]
    else if PathLe(f.path, sorted[0].path) then [f] + sorted
    else
      assert sorted == [sorted[0]] + sorted[1..];
      [sorted[0]] + InsertByPath(f, sorted[1..])
  }

  lemma {:induction false} InsertKeepsSorted(f: CsvFile, sorted: seq<CsvFile>)
    requires SortedByPath(sorted)
    ensures SortedByPath(InsertByPath(f, sorted))
    decreases |sorted|
  {
    if sorted == [] {
    } else if PathLe(f.path, sorted[0].path) {
      forall j | 0 < j < |sorted| ensures PathLe(f.path, sorted[j].path) {
        PathLeTrans(f.path, sorted[0].path, sorted[j].path);
      }
    } else {
      PathLeTotal(f.path, sorted[0].path);
      InsertKeepsSorted(f, sorted[1..]);
      var rest := InsertByPath(f, sorted[1..]);
      forall k | 0 <= k < |rest| ensures PathLe(sorted[0].path, rest[k].path) {
        assert rest[k] in multiset(rest);
        if rest[k] != f {
          assert rest[k] in multiset(sorted[1..]);
          var j :| 0 <= j < |sorted[1..]| && sorted[1..][j] == rest[k];
          assert sorted[j + 1] == rest[k];
        }
      }
    }
  }

  /** `sorted(csv_files)`: the files ordered by path. */
  function SortByPath(files: seq<CsvFile>): (r: seq<CsvFile>)
    ensures multiset(r) == multiset(files)
    ensures SortedByPath(r)
  {
    if files == [] then []
    else
      var rest := SortByPath(files[1..]);
      InsertKeepsSorted(files[0], rest);
      assert files == [files[0]] + files[1..];
      InsertByPath(files[0], rest)
  }

  // ===========================================================================
  // Files and reading them
  // ===========================================================================

  /** A table as read from a CSV file. */
  datatype Table = Table(columns: seq<string>, rows: seq<seq<string>>)

  /** What one `pd.read_csv` call with one encoding does: it parses a table,
      raises one of the three errors the loader catches (carried as its repr),
      or raises anything else, which the loader does not catch. */
  datatype ReadAttempt = Parsed(table: Table) | Caught(error: string) | Uncaught(error: string)

  datatype Encoding = Utf8 | Utf8Sig | Utf16 | Latin1

  /** The encodings tried, in order. */
  const EncodingsToTry: seq<Encoding> := [Utf8, Utf8Sig, Utf16, Latin1]

  /** The repr of the error raised for a table without columns. */
  const NoColumnsError := "EmptyDataError('No columns after parse')"

  /** A CSV file found after extraction: its path, its size in bytes and what
      reading it with each encoding gives. */
  datatype CsvFile = CsvFile(path: string, size: nat,
                             utf8: ReadAttempt, utf8Sig: ReadAttempt, utf16: ReadAttempt, latin1: ReadAttempt)
  {
    function ReadAs(e: Encoding): ReadAttempt {
      match e
      case Utf8 => utf8
      case Utf8Sig => utf8Sig
      case Utf16 => utf16
      case Latin1 => latin1
    }

    /** `fpath.name`: the last component of the path, the part after the
        last `/`, or the whole path when it has none. */
    function Name(): (name: string)
      ensures '/' !in name
      ensures |name| <= |path| && name == path[|path| - |name|..]
      ensures '/' !in path ==> name == path
      ensures |name| < |path| ==> path[|path| - |name| - 1] == '/'
    {
      path[LastIndexOf(path, '/') + 1..]
    }
  }

  /** A read that the loader answers by trying the next encoding. */
  predicate Retryable(a: ReadAttempt): (retry: bool)
    ensures a.Caught? ==> retry
    ensures a.Uncaught? ==> !retry
    ensures a.Parsed? ==> (retry <==> |a.table.columns| == 0)
  {
    a.Caught? || (a.Parsed? && |a.table.columns| == 0)
  }

  /** The error a retryable read leaves in `last_err`. */
  function ErrorOf(a: ReadAttempt): string
    requires Retryable(a)
  {
    if a.Caught? then a.error else NoColumnsError
  }

  /** What reading one file comes to: a recorded failure, a table, or an
      exception that leaves the loader. */
  datatype FileOutcome = Skipped(reason: string) | LoadedTable(table: Table) | Raised(error: string)

  /** Try `encodings` in order, `lastErr` being the error of the previous try. */
  function ReadFrom(f: CsvFile, encodings: seq<Encoding>, lastErr: string): (r: FileOutcome)
    ensures encodings == [] ==> r == Skipped(lastErr)
    ensures r.LoadedTable? ==>
              |r.table.columns| > 0 && exists e :: e in encodings && f.ReadAs(e) == Parsed(r.table)
    ensures r.Raised? ==> exists e :: e in encodings && f.ReadAs(e) == Uncaught(r.error)
    decreases |encodings|
  {
    if encodings == [] then Skipped(lastErr)
    else
      match f.ReadAs(encodings[0])
      case Parsed(t) =>
        if |t.columns| == 0 then ReadFrom(f, encodings[1..], NoColumnsError) else LoadedTable(t)
      case Caught(e) => ReadFrom(f, encodings[1..], e)
      case Uncaught(e) => Raised(e)
  }

  /** One file: an empty file is a failure without being read; otherwise the
      encodings are tried in order, starting with no error (`repr(None)`). */
  function ReadCsv(f: CsvFile): (r: FileOutcome)
    ensures f.size == 0 ==> r == Skipped("empty file")
    ensures r.LoadedTable? ==>
              f.size > 0 && |r.table.columns| > 0 &&
              exists e :: e in EncodingsToTry && f.ReadAs(e) == Parsed(r.table)
    ensures r.Raised? ==> f.size > 0 && exists e :: e in EncodingsToTry && f.ReadAs(e) == Uncaught(r.error)
  {
    if f.size == 0 then Skipped("empty file") else ReadFrom(f, EncodingsToTry, "None")
  }

  /** The first read that is not retryable decides: a table with columns is
      loaded, an uncaught error leaves the loader. */
  lemma {:induction false} ReadFromFirstDecisive(f: CsvFile, encodings: seq<Encoding>, lastErr: string, i: nat)
    requires i < |encodings|
    requires forall j :: 0 <= j < i ==> Retryable(f.ReadAs(encodings[j]))
    requires !Retryable(f.ReadAs(encodings[i]))
    ensures f.ReadAs(encodings[i]).Parsed? ==> ReadFrom(f, encodings, lastErr) == LoadedTable(f.ReadAs(encodings[i]).table)
    ensures f.ReadAs(encodings[i]).Uncaught? ==> ReadFrom(f, encodings, lastErr) == Raised(f.ReadAs(encodings[i]).error)
    decreases i
  {
    if i > 0 {
      var a := f.ReadAs(encodings[0]);
      assert Retryable(a);
      ReadFromFirstDecisive(f, encodings[1..], ErrorOf(a), i - 1);
    }
  }

  /** When every read is retryable the file is a failure whose reason is the
      error of the last encoding tried. */
  lemma {:induction false} ReadFromAllRetryable(f: CsvFile, encodings: seq<Encoding>, lastErr: string)
    requires encodings != []
    requires forall j :: 0 <= j < |encodings| ==> Retryable(f.ReadAs(encodings[j]))
    ensures ReadFrom(f, encodings, lastErr) == Skipped(ErrorOf(f.ReadAs(encodings[|encodings| - 1])))
    decreases |encodings|
  {
    var a := f.ReadAs(encodings[0]);
    assert Retryable(a);
    if |encodings| > 1 {
      ReadFromAllRetryable(f, encodings[1..], ErrorOf(a));
    }
  }

  /** A non-empty file that fails every encoding is recorded with the latin-1
      error, the last one tried. */
  lemma FailedFileKeepsLastError(f: CsvFile)
    requires f.size > 0
    requires forall e :: Retryable(f.ReadAs(e))
    ensures ReadCsv(f) == Skipped(ErrorOf(f.ReadAs(Latin1)))
  {
    ReadFromAllRetryable(f, EncodingsToTry, "None");
  }

  // ===========================================================================
  // Loading all files
  // ===========================================================================

  datatype Failure = Failure(path: string, reason: string)

  /** A loaded table with the three columns the loader adds. */
  datatype TaggedTable = TaggedTable(table: Table, gene: string, drug: string, searchMethod: string)

  /** The loader's result: the tables in order together with the failures that
      were skipped, the error raised when nothing loaded, or an exception of
      `pd.read_csv` the loader does not catch. */
  datatype LoadResult =
    | Loaded(tables: seq<TaggedTable>, skipped: seq<Failure>)
    | NothingLoaded(message: string)
    | ReadError(error: string)

  /** `failures[:5]`. */
  function FirstFailures(failures: seq<Failure>): (r: seq<Failure>)
    ensures |r| <= 5 && |r| <= |failures|
    ensures r == failures[..|r|]
    ensures |r| == |failures| || |r| == 5
  {
    if |failures| <= 5 then failures else failures[..5]
  }

  /** `"; ".join(f"{p} -> {err}" for p, err in failures)`. */
  function JoinFailures(failures: seq<Failure>): (joined: string)
    ensures joined == "" <==> failures == []
    ensures failures != [] ==> FailureLine(failures[0]) <= joined
  {
    if failures == [] then ""
    else if |failures| == 1 then FailureLine(failures[0])
    else FailureLine(failures[0]) + "; " + JoinFailures(failures[1..])
  }

  const NoCsvPrefix := "No CSVs could be loaded. Examples of failures: "

  /** The message of the error raised when nothing loaded. */
  function NoCsvMessage(failures: seq<Failure>): (message: string)
    ensures NoCsvPrefix <= message
    ensures message == NoCsvPrefix <==> failures == []
  {
    NoCsvPrefix + JoinFailures(FirstFailures(failures))
  }

  /** The line a failure contributes to the message. */
  function FailureLine(failure: Failure): (line: string)
    ensures failure.path <= line
    ensures |line| == |failure.path| + 4 + |failure.reason|
    ensures line[|failure.path|..|failure.path| + 4] == " -> "
    ensures line[|line| - |failure.reason|..] == failure.reason
  {
    failure.path + " -> " + failure.reason
  }

  /** An occurrence inside one part of a concatenation is an occurrence in the whole. */
  lemma OccursInConcat(a: string, b: string, pat: string, i: int)
    ensures OccursAt(a, pat, i) ==> OccursAt(a + b, pat, i)
    ensures OccursAt(b, pat, i) ==> OccursAt(a + b, pat, |a| + i)
  {
    if OccursAt(a, pat, i) {
      assert (a + b)[i..i + |pat|] == a[i..i + |pat|];
    }
    if OccursAt(b, pat, i) {
      assert (a + b)[|a| + i..|a| + i + |pat|] == b[i..i + |pat|];
    }
  }

  /** Every failure joined into the text occurs in it. */
  lemma {:induction false} JoinFailuresLists(failures: seq<Failure>, k: nat)
    requires k < |failures|
    ensures exists i :: OccursAt(JoinFailures(failures), FailureLine(failures[k]), i)
    decreases k
  {
    var head := FailureLine(failures[0]);
    assert head == failures[0].path + " -> " + failures[0].reason;
    if |failures| == 1 {
      assert OccursAt(JoinFailures(failures), head, 0);
    } else {
      var rest := JoinFailures(failures[1..]);
      assert JoinFailures(failures) == head + ("; " + rest);
      if k == 0 {
        assert OccursAt(head, head, 0);
        OccursInConcat(head, "; " + rest, head, 0);
      } else {
        JoinFailuresLists(failures[1..], k - 1);
        var i :| OccursAt(rest, FailureLine(failures[k]), i);
        OccursInConcat("; ", rest, FailureLine(failures[k]), i);
        OccursInConcat(head, "; " + rest, FailureLine(failures[k]), 2 + i);
      }
    }
  }

  /** The message starts with the fixed text and names each of the first five
      failures (all of them when there are at most five), as `path -> reason`. */
  lemma NoCsvMessageListsFailures(failures: seq<Failure>)
    ensures NoCsvMessage(failures)[..|NoCsvPrefix|] == NoCsvPrefix
    ensures forall k :: 0 <= k < |failures| && k < 5 ==> Contains(NoCsvMessage(failures), FailureLine(failures[k]))
  {
    var shown := FirstFailures(failures);
    forall k | 0 <= k < |failures| && k < 5 ensures Contains(NoCsvMessage(failures), FailureLine(failures[k])) {
      assert shown[k] == failures[k];
      JoinFailuresLists(shown, k);
      var i :| OccursAt(JoinFailures(shown), FailureLine(failures[k]), i);
      OccursInConcat(NoCsvPrefix, JoinFailures(shown), FailureLine(failures[k]), i);
      ContainsAt(NoCsvMessage(failures), FailureLine(failures[k]), |NoCsvPrefix| + i);
    }
  }

  /** A loaded table tagged with the gene and drug of its file name and with
      the search method. */
  function Tag(f: CsvFile, t: Table, searchMethod: string): (r: TaggedTable)
    ensures r.table == t && r.searchMethod == searchMethod
    ensures '_' !in r.gene && r.gene <= f.Name()
  {
    var gd := GeneDrugFromFileName(f.Name());
    TaggedTable(t, gd.gene, gd.drug, searchMethod)
  }

  /** The end of the loader: an error listing the failures when no table
      loaded, the tables and the failures otherwise. */
  function Finish(dfs: seq<TaggedTable>, failures: seq<Failure>): (r: LoadResult)
    ensures r.NothingLoaded? <==> dfs == []
  {
    if dfs == [] then NothingLoaded(NoCsvMessage(failures)) else Loaded(dfs, failures)
  }

  /** How one file is read. */
  type Reader = CsvFile -> FileOutcome

  /** How a loaded table is tagged. */
  type Tagger = (CsvFile, Table) -> TaggedTable

  /** The tagging the loader applies: gene and drug from the file name, and
      the search method. */
  function TagWith(searchMethod: string): (tag: Tagger)
    ensures forall f, t :: tag(f, t).table == t && tag(f, t).searchMethod == searchMethod
  {
    (f, t) => Tag(f, t, searchMethod)
  }

  /** The loader from file `i` of the sorted list on, having loaded `dfs` and
      recorded `failures` so far. */
  function LoadFrom(read: Reader, files: seq<CsvFile>, i: nat, tag: Tagger,
                    dfs: seq<TaggedTable>, failures: seq<Failure>): (r: LoadResult)
    requires i <= |files|
    ensures r.Loaded? ==> r.tables != [] && dfs <= r.tables && failures <= r.skipped
    ensures r.Loaded? ==> |r.tables| + |r.skipped| == |dfs| + |failures| + (|files| - i)
    ensures r.NothingLoaded? ==> dfs == [] && NoCsvPrefix <= r.message
    decreases |files| - i
  {
    if i == |files| then Finish(dfs, failures)
    else
      match read(files[i])
      case Skipped(reason) => LoadFrom(read, files, i + 1, tag, dfs, failures + [Failure(files[i].path, reason)])
      case LoadedTable(t) => LoadFrom(read, files, i + 1, tag, dfs + [tag(files[i], t)], failures)
      case Raised(e) => ReadError(e)
  }

  /** `load_pmid_assessments`: sort the files by path and load them in order. */
  function LoadAll(csvFiles: seq<CsvFile>, searchMethod: string): (r: LoadResult)
    ensures r.Loaded? ==> r.tables != [] && |r.tables| + |r.skipped| == |csvFiles|
    ensures r.NothingLoaded? ==> NoCsvPrefix <= r.message
  {
    var sorted := SortByPath(csvFiles);
    assert |sorted| == |csvFiles| by {
      assert |multiset(sorted)| == |multiset(csvFiles)|;
    }
    LoadFrom(ReadCsv, sorted, 0, TagWith(searchMethod), [], [])
  }

  // ---------------------------------------------------------------------------
  // Reference definitions of what the loader collects
  // ---------------------------------------------------------------------------

  /** The files that load, in their order. */
  function LoadedFiles(read: Reader, files: seq<CsvFile>): (r: seq<CsvFile>)
    ensures forall f :: f in r ==> f in files && read(f).LoadedTable?
  {
    if files == [] then []
    else (if read(files[0]).LoadedTable? then [files[0]] else []) + LoadedFiles(read, files[1..])
  }

  /** The tagged tables of the files that load, in their order. */
  function LoadedTables(read: Reader, files: seq<CsvFile>, tag: Tagger): seq<TaggedTable> {
    if files == [] then []
    else
      match read(files[0])
      case LoadedTable(t) => [tag(files[0], t)] + LoadedTables(read, files[1..], tag)
      case _ => LoadedTables(read, files[1..], tag)
  }

  /** The k-th loaded table is the table of the k-th loaded file, tagged with
      that file's gene and drug. */
  lemma {:induction false} LoadedTablesOfLoadedFiles(read: Reader, files: seq<CsvFile>, tag: Tagger)
    ensures |LoadedTables(read, files, tag)| == |LoadedFiles(read, files)|
    ensures forall k :: 0 <= k < |LoadedFiles(read, files)| ==>
              LoadedTables(read, files, tag)[k]
              == tag(LoadedFiles(read, files)[k], read(LoadedFiles(read, files)[k]).table)
  {
    if files != [] {
      var f := files[0];
      LoadedTablesOfLoadedFiles(read, files[1..], tag);
      var tables, loaded := LoadedTables(read, files[1..], tag), LoadedFiles(read, files[1..]);
      if read(f).LoadedTable? {
        assert LoadedTables(read, files, tag) == [tag(f, read(f).table)] + tables;
        assert LoadedFiles(read, files) == [f] + loaded;
      } else {
        assert LoadedTables(read, files, tag) == tables;
        assert LoadedFiles(read, files) == loaded;
      }
    }
  }

  /** The failures recorded for the files that do not load, in their order. */
  function FailedFiles(read: Reader, files: seq<CsvFile>): seq<Failure> {
    if files == [] then []
    else
      match read(files[0])
      case Skipped(reason) => [Failure(files[0].path, reason)] + FailedFiles(read, files[1..])
      case _ => FailedFiles(read, files[1..])
  }

  /** No file raises an error the loader does not catch. */
  predicate NoneRaises(read: Reader, files: seq<CsvFile>) {
    forall f :: f in files ==> !read(f).Raised?
  }

  /** The first file of `files[i..]` that raises, raises `e`. */
  ghost predicate FirstRaises(read: Reader, files: seq<CsvFile>, i: nat, e: string) {
    exists j :: i <= j < |files| && read(files[j]) == Raised(e) && NoneRaises(read, files[i..j])
  }

  lemma NoneRaisesCons(read: Reader, f: CsvFile, rest: seq<CsvFile>)
    ensures NoneRaises(read, [f] + rest) <==> !read(f).Raised? && NoneRaises(read, rest)
  {
    if !read(f).Raised? && NoneRaises(read, rest) {
      forall g | g in [f] + rest ensures !read(g).Raised? {
        assert g == f || g in rest;
      }
    }
    if NoneRaises(read, [f] + rest) {
      assert f in [f] + rest;
      forall g | g in rest ensures !read(g).Raised? {
        assert g in [f] + rest;
      }
    }
  }

  lemma FirstRaisesStep(read: Reader, files: seq<CsvFile>, i: nat, e: string)
    requires i < |files| && !read(files[i]).Raised?
    requires FirstRaises(read, files, i + 1, e)
    ensures FirstRaises(read, files, i, e)
  {
    var j :| i + 1 <= j < |files| && read(files[j]) == Raised(e) && NoneRaises(read, files[i + 1..j]);
    assert files[i..j] == [files[i]] + files[i + 1..j];
    NoneRaisesCons(read, files[i], files[i + 1..j]);
  }

  /** A skipped file adds its failure and no table. */
  lemma SkippedStep(read: Reader, files: seq<CsvFile>, i: nat, tag: Tagger,
                    failures: seq<Failure>, reason: string)
    requires i < |files| && read(files[i]) == Skipped(reason)
    ensures LoadedTables(read, files[i..], tag) == LoadedTables(read, files[i + 1..], tag)
    ensures failures + FailedFiles(read, files[i..])
            == (failures + [Failure(files[i].path, reason)]) + FailedFiles(read, files[i + 1..])
  {
    assert files[i..][1..] == files[i + 1..];
  }

  /** A loaded file adds its tagged table and no failure. */
  lemma LoadedStep(read: Reader, files: seq<CsvFile>, i: nat, tag: Tagger, dfs: seq<TaggedTable>, t: Table)
    requires i < |files| && read(files[i]) == LoadedTable(t)
    ensures dfs + LoadedTables(read, files[i..], tag)
            == (dfs + [tag(files[i], t)]) + LoadedTables(read, files[i + 1..], tag)
    ensures FailedFiles(read, files[i..]) == FailedFiles(read, files[i + 1..])
  {
    assert files[i..][1..] == files[i + 1..];
  }

  /** No file of `files[i..]` raises: the loader finishes with every loaded
      table and every recorded failure, in file order. */
  lemma {:induction false} LoadFromNoneRaises(read: Reader, files: seq<CsvFile>, i: nat, tag: Tagger,
                                              dfs: seq<TaggedTable>, failures: seq<Failure>)
    requires i <= |files|
    requires NoneRaises(read, files[i..])
    ensures LoadFrom(read, files, i, tag, dfs, failures)
            == Finish(dfs + LoadedTables(read, files[i..], tag),
                      failures + FailedFiles(read, files[i..]))
    decreases |files| - i
  {
    if i < |files| {
      var f := files[i];
      var later := files[i + 1..];
      assert files[i..] == [f] + later;
      NoneRaisesCons(read, f, later);
      match read(f)
      case Skipped(reason) =>
        LoadFromNoneRaises(read, files, i + 1, tag, dfs, failures + [Failure(f.path, reason)]);
        SkippedStep(read, files, i, tag, failures, reason);
      case LoadedTable(t) =>
        LoadFromNoneRaises(read, files, i + 1, tag, dfs + [tag(f, t)], failures);
        LoadedStep(read, files, i, tag, dfs, t);
    } else {
      assert files[i..] == [];
      assert dfs + LoadedTables(read, files[i..], tag) == dfs;
      assert failures + FailedFiles(read, files[i..]) == failures;
    }
  }

  /** Some file of `files[i..]` raises: the loader stops with the error of the
      first one. */
  lemma {:induction false} LoadFromRaises(read: Reader, files: seq<CsvFile>, i: nat, tag: Tagger,
                                          dfs: seq<TaggedTable>, failures: seq<Failure>)
    requires i <= |files|
    requires !NoneRaises(read, files[i..])
    ensures LoadFrom(read, files, i, tag, dfs, failures).ReadError?
    ensures FirstRaises(read, files, i, LoadFrom(read, files, i, tag, dfs, failures).error)
    decreases |files| - i
  {
    var f := files[i];
    var later := files[i + 1..];
    assert files[i..] == [f] + later;
    NoneRaisesCons(read, f, later);
    match read(f)
    case Raised(e) =>
      assert NoneRaises(read, files[i..i]);
    case Skipped(reason) =>
      LoadFromRaises(read, files, i + 1, tag, dfs, failures + [Failure(f.path, reason)]);
      FirstRaisesStep(read, files, i, LoadFrom(read, files, i, tag, dfs, failures).error);
    case LoadedTable(t) =>
      LoadFromRaises(read, files, i + 1, tag, dfs + [tag(f, t)], failures);
      FirstRaisesStep(read, files, i, LoadFrom(read, files, i, tag, dfs, failures).error);
  }

  /** Files with the same members agree on whether one of them raises. */
  lemma NoneRaisesPermuted(read: Reader, a: seq<CsvFile>, b: seq<CsvFile>)
    requires multiset(a) == multiset(b)
    ensures NoneRaises(read, a) <==> NoneRaises(read, b)
  {
    forall f ensures f in a <==> f in b {
      assert f in a <==> f in multiset(a);
      assert f in b <==> f in multiset(b);
    }
  }

  /** What `load_pmid_assessments` returns: the tagged tables of the files
      that load, in path order, with the failures of the others; the error
      listing the failures when none loads; or the error of the first file in
      path order whose reading raises something the loader does not catch. */
  lemma LoadAllOutcome(csvFiles: seq<CsvFile>, searchMethod: string)
    ensures var r := LoadAll(csvFiles, searchMethod);
            var sorted := SortByPath(csvFiles);
            var loaded := LoadedFiles(ReadCsv, sorted);
            && (r.Loaded? <==> NoneRaises(ReadCsv, csvFiles) && loaded != [])
            && (r.Loaded? ==> r.tables == LoadedTables(ReadCsv, sorted, TagWith(searchMethod))
                              && r.skipped == FailedFiles(ReadCsv, sorted))
            && (r.NothingLoaded? <==> NoneRaises(ReadCsv, csvFiles) && loaded == [])
            && (r.NothingLoaded? ==> r.message == NoCsvMessage(FailedFiles(ReadCsv, sorted)))
            && (r.ReadError? <==> !NoneRaises(ReadCsv, csvFiles))
            && (r.ReadError? ==> FirstRaises(ReadCsv, sorted, 0, r.error))
  {
    var sorted := SortByPath(csvFiles);
    assert sorted[0..] == sorted;
    NoneRaisesPermuted(ReadCsv, sorted, csvFiles);
    if NoneRaises(ReadCsv, sorted) {
      LoadFromNoneRaises(ReadCsv, sorted, 0, TagWith(searchMethod), [], []);
      LoadedTablesOfLoadedFiles(ReadCsv, sorted, TagWith(searchMethod));
      assert [] + LoadedTables(ReadCsv, sorted, TagWith(searchMethod)) == LoadedTables(ReadCsv, sorted, TagWith(searchMethod));
      assert [] + FailedFiles(ReadCsv, sorted) == FailedFiles(ReadCsv, sorted);
    } else {
      LoadFromRaises(ReadCsv, sorted, 0, TagWith(searchMethod), [], []);
    }
  }

  /** The k-th loaded table is the table read from the k-th loaded file,
      tagged with the gene and drug of that file's name and the search method. */
  lemma LoadedTablesTagged(csvFiles: seq<CsvFile>, searchMethod: string)
    ensures var sorted := SortByPath(csvFiles);
            var loaded := LoadedFiles(ReadCsv, sorted);
            var tables := LoadedTables(ReadCsv, sorted, TagWith(searchMethod));
            && |tables| == |loaded|
            && forall k :: 0 <= k < |loaded| ==>
                 var names := GeneDrugFromFileName(loaded[k].Name());
                 tables[k] == TaggedTable(ReadCsv(loaded[k]).table, names.gene, names.drug, searchMethod)
  {
    LoadedTablesOfLoadedFiles(ReadCsv, SortByPath(csvFiles), TagWith(searchMethod));
  }

  /** The loaded files are exactly the given files that load, they are never
      empty, and they come in path order. */
  lemma LoadedFilesOfInput(csvFiles: seq<CsvFile>)
    ensures var loaded := LoadedFiles(ReadCsv, SortByPath(csvFiles));
            && (forall f :: f in loaded ==> f.size > 0)
            && (forall f :: f in csvFiles ==> (f in loaded <==> ReadCsv(f).LoadedTable?))
            && SortedByPath(loaded)
  {
    var sorted := SortByPath(csvFiles);
    LoadedFilesKeepOrder(ReadCsv, sorted);
    forall f | f in csvFiles ensures f in LoadedFiles(ReadCsv, sorted) <==> ReadCsv(f).LoadedTable? {
      assert f in multiset(csvFiles);
      assert f in sorted;
      LoadedFilesMembers(ReadCsv, sorted, f);
    }
  }

  /** The loaded tables keep the path order of their files. */
  lemma {:induction false} LoadedFilesKeepOrder(read: Reader, files: seq<CsvFile>)
    requires SortedByPath(files)
    ensures SortedByPath(LoadedFiles(read, files))
  {
    if files != [] {
      LoadedFilesKeepOrder(read, files[1..]);
      var rest := LoadedFiles(read, files[1..]);
      forall k | 0 <= k < |rest| ensures PathLe(files[0].path, rest[k].path) {
        assert rest[k] in files[1..];
        var j :| 0 <= j < |files[1..]| && files[1..][j] == rest[k];
        assert files[j + 1] == rest[k];
      }
    }
  }

  /** A file is among the loaded files exactly when it is one of the files
      and it loads. */
  lemma {:induction false} LoadedFilesMembers(read: Reader, files: seq<CsvFile>, f: CsvFile)
    ensures f in LoadedFiles(read, files) <==> f in files && read(f).LoadedTable?
  {
    if files != [] {
      LoadedFilesMembers(read, files[1..], f);
      assert files == [files[0]] + files[1..];
    }
  }

  /** Every file that is skipped has its failure recorded, with its reason. */
  lemma {:induction false} SkippedFilesRecorded(read: Reader, files: seq<CsvFile>, f: CsvFile)
    requires f in files && read(f).Skipped?
    ensures Failure(f.path, read(f).reason) in FailedFiles(read, files)
  {
    if files[0] != f {
      SkippedFilesRecorded(read, files[1..], f);
    }
  }

  /** An empty file is never loaded; it is recorded as a failure with reason
      "empty file". */
  lemma EmptyFilesRecorded(csvFiles: seq<CsvFile>, f: CsvFile)
    requires f in csvFiles && f.size == 0
    ensures var sorted := SortByPath(csvFiles);
            f !in LoadedFiles(ReadCsv, sorted) && Failure(f.path, "empty file") in FailedFiles(ReadCsv, sorted)
  {
    var sorted := SortByPath(csvFiles);
    assert f in multiset(csvFiles);
    assert f in sorted;
    SkippedFilesRecorded(ReadCsv, sorted, f);
  }

  /** When nothing raises, every file is either loaded or recorded as a failure. */
  lemma {:induction false} LoadedOrFailed(read: Reader, files: seq<CsvFile>)
    requires NoneRaises(read, files)
    ensures |LoadedFiles(read, files)| + |FailedFiles(read, files)| == |files|
  {
    if files != [] {
      assert NoneRaises(read, files[1..]) by {
        forall f | f in files[1..] ensures !read(f).Raised? {
          assert f in files;
        }
      }
      LoadedOrFailed(read, files[1..]);
    }
  }

  // ---------------------------------------------------------------------------
  // The loader
  // ---------------------------------------------------------------------------

  /** The inner loop over encodings: try each in order until a table with
      columns is read, keeping the error of the last failed try. */
  method ReadWithFallback(f: CsvFile) returns (outcome: FileOutcome)
    ensures outcome == ReadFrom(f, EncodingsToTry, "None")
  {
    var lastErr := "None";
    for j := 0 to |EncodingsToTry|
      invariant ReadFrom(f, EncodingsToTry[j..], lastErr) == ReadFrom(f, EncodingsToTry, "None")
    {
      match f.ReadAs(EncodingsToTry[j])
      case Parsed(t) =>
        if |t.columns| == 0 {
          lastErr := NoColumnsError;
        } else {
          return LoadedTable(t);
        }
      case Caught(e) =>
        lastErr := e;
      case Uncaught(e) =>
        return Raised(e);
    }
    return Skipped(lastErr);
  }

  /** `load_pmid_assessments`, after the CSV files have been found. */
  method LoadPmidAssessments(csvFiles: seq<CsvFile>, searchMethod: string) returns (result: LoadResult)
    ensures result == LoadAll(csvFiles, searchMethod)
  {
    var files := SortByPath(csvFiles);
    var dfs: seq<TaggedTable> := [];
    var failures: seq<Failure> := [];
    for i := 0 to |files|
      invariant LoadFrom(ReadCsv, files, i, TagWith(searchMethod), dfs, failures) == LoadAll(csvFiles, searchMethod)
    {
      var f := files[i];
      if f.size == 0 {
        assert ReadCsv(f) == Skipped("empty file");
        failures := failures + [Failure(f.path, "empty file")];
        continue;
      }
      var outcome := ReadWithFallback(f);
      assert ReadCsv(f) == outcome;
      match outcome
      case Skipped(reason) =>
        failures := failures + [Failure(f.path, reason)];
      case LoadedTable(t) =>
        var names := GeneDrugFromFileName(f.Name());
        assert TagWith(searchMethod)(f, t) == TaggedTable(t, names.gene, names.drug, searchMethod);
        dfs := dfs + [TaggedTable(t, names.gene, names.drug, searchMethod)];
      case Raised(e) =>
        return ReadError(e);
    }
    return Finish(dfs, failures);
  }
}
