/** The document-evidence classifier: the drug-field parser, the six indicator
    lexicons, the mention gate with the per-category indicator counts, and the
    batch run that scores every abstract of a slice against every reference
    pair and keeps one output file per (gene, drug) pair. */
module Indicator {
  import opened Text
  import opened Py

  // ===========================================================================
  // Drug-field parser
  // ===========================================================================

  /** The string elements of a decoded list or tuple, in their original order;
      elements of any other type are dropped. */
  function StrElements(xs: seq<Value>): (r: seq<string>)
    ensures |r| <= |xs|
    ensures forall k :: 0 <= k < |r| ==> Str(r[k]) in xs
  {
    if xs == [] then []
    else
      var last := xs[|xs| - 1];
      StrElements(xs[..|xs| - 1]) + (if last.Str? then [last.s] else [])
  }

  /** The indices of the string elements of `xs`, in increasing order. */
  ghost function StrPositions(xs: seq<Value>): seq<int>
  {
    if xs == [] then []
    else StrPositions(xs[..|xs| - 1]) + (if xs[|xs| - 1].Str? then [|xs| - 1] else [])
  }

  /** `StrElements` keeps exactly the string elements, in order: its k-th result
      is the element at the k-th string position, those positions increase, and
      every string element of `xs` is at one of them. */
  lemma {:induction false} StrElementsInOrder(xs: seq<Value>)
    ensures |StrPositions(xs)| == |StrElements(xs)|
    ensures forall k :: 0 <= k < |StrPositions(xs)| ==>
              0 <= StrPositions(xs)[k] < |xs| && xs[StrPositions(xs)[k]] == Str(StrElements(xs)[k])
    ensures forall k, l :: 0 <= k < l < |StrPositions(xs)| ==> StrPositions(xs)[k] < StrPositions(xs)[l]
    ensures forall i :: 0 <= i < |xs| && xs[i].Str? ==> i in StrPositions(xs)
  {
    if xs != [] {
      var init, n := xs[..|xs| - 1], |xs| - 1;
      StrElementsInOrder(init);
      var p, r := StrPositions(init), StrElements(init);
      forall k | 0 <= k < |p| ensures xs[p[k]] == Str(r[k]) {
        assert init[p[k]] == xs[p[k]];
      }
      if xs[n].Str? {
        assert StrPositions(xs) == p + [n];
        assert StrElements(xs) == r + [xs[n].s];
      } else {
        assert StrPositions(xs) == p;
        assert StrElements(xs) == r;
      }
      forall i | 0 <= i < |xs| && xs[i].Str? ensures i in StrPositions(xs) {
        if i < n {
          assert init[i] == xs[i];
        }
      }
    }
  }

  /** A list or tuple of strings only: `StrElements` is that list, element for element. */
  lemma {:induction false} StrElementsOfStrings(xs: seq<Value>)
    requires forall i :: 0 <= i < |xs| ==> xs[i].Str?
    ensures |StrElements(xs)| == |xs|
    ensures forall i :: 0 <= i < |xs| ==> StrElements(xs)[i] == xs[i].s
  {
    if xs != [] {
      StrElementsOfStrings(xs[..|xs| - 1]);
    }
  }

  /** `literalEval` decodes `entry` to a list or a tuple. */
  predicate DecodesToSequence(entry: string, literalEval: string -> Option<Value>) {
    literalEval(entry).Some? && literalEval(entry).value.IsSequence()
  }

  /** `parse_drug_terms`: `literalEval` stands for `ast.literal_eval`, with `None`
      for a call that raises. A decoded list or tuple gives its string elements;
      anything else gives the entry itself, unchanged. */
  function ParseDrugTerms(entry: string, literalEval: string -> Option<Value>): (r: seq<string>)
    ensures DecodesToSequence(entry, literalEval) ==>
              var items := literalEval(entry).value.items;
              |r| <= |items| && forall k :: 0 <= k < |r| ==> Str(r[k]) in items
    ensures !DecodesToSequence(entry, literalEval) ==> r == [entry]
  {
    match literalEval(entry)
    case Some(List(items)) => StrElements(items)
    case Some(Tuple(items)) => StrElements(items)
    case _ => [entry]
  }

  /** A drug field that decodes to a list or tuple yields exactly its strings,
      in their original order. */
  lemma ParseDrugTermsInOrder(entry: string, literalEval: string -> Option<Value>)
    requires DecodesToSequence(entry, literalEval)
    ensures var items := literalEval(entry).value.items;
            var r := ParseDrugTerms(entry, literalEval);
            var p := StrPositions(items);
            |p| == |r| &&
            (forall k :: 0 <= k < |p| ==> 0 <= p[k] < |items| && items[p[k]] == Str(r[k])) &&
            (forall k, l :: 0 <= k < l < |p| ==> p[k] < p[l]) &&
            (forall i :: 0 <= i < |items| && items[i].Str? ==> i in p)
  {
    StrElementsInOrder(literalEval(entry).value.items);
  }

  /** The `('Gleevec', 'Imatinib')` case: a decoded tuple of two names gives both
      names, brand first. */
  lemma ParseBrandGenericPair(entry: string, literalEval: string -> Option<Value>, brand: string, generic: string)
    requires literalEval(entry) == Some(Tuple([Str(brand), Str(generic)]))
    ensures ParseDrugTerms(entry, literalEval) == [brand, generic]
  {
    var items := [Str(brand), Str(generic)];
    StrElementsOfStrings(items);
  }

  // ===========================================================================
  // Lexicons
  // ===========================================================================

  const ClinicalStudyTerms: set<string> := {
    "randomized", "randomised", "placebo", "double-blind", "single-blind", "controlled", "trial",
    "pragmatic trial", "phase i", "phase ii", "phase iii", "phase iv", "clinical study",
    "clinical trial", "multicenter", "interventional", "crossover", "parallel group", "allocation",
    "intention-to-treat", "efficacy", "endpoint", "primary outcome", "progression free survival",
    "overall survival"}

  const CaseReportTerms: set<string> := {
    "case report", "case reports", "case series", "case study", "case studies", "single patient",
    "n-of-1"}

  const AnimalEvidenceTerms: set<string> := {
    "in vivo", "xenograft", "patient-derived xenograft", "PDX", "orthotopic", "murine", "mouse",
    "mice", "rat", "rats", "zebrafish", "Drosophila", "C. elegans", "animal model", "live animal"}

  const CellLineTerms: set<string> := {
    "in vitro", "cell line", "cultured cells", "cell culture", "monolayer", "3D culture", "organoid",
    "primary cells", "immortalized cell line", "transfected cell line"}

  const ImagingEvidenceTerms: set<string> := {
    "MRI", "magnetic resonance imaging", "CT", "computed tomography", "PET",
    "positron emission tomography", "ultrasound", "radiography", "fluorescence microscopy",
    "confocal microscopy", "histopathology", "histological imaging", "digital image analysis",
    "quantitative imaging", "imaging biomarkers"}

  const RetrospectiveStudyTerms: set<string> := {
    "retrospective study", "retrospective analysis", "retrospective review", "chart review",
    "registry data", "historical cohort", "medical record review", "retrospective cohort"}

  /** The six indicator categories, in the order the scores are reported. */
  datatype Category = ClinicalStudy | CaseReport | AnimalEvidence | CellLine | ImagingEvidence | Retrospective

  /** The lexicon of a category. None is empty, and no term is the empty
      string, which would occur in every abstract. */
  function Terms(c: Category): (terms: set<string>)
    ensures terms != {}
    ensures "" !in terms
  {
    match c
    case ClinicalStudy => ClinicalStudyTerms
    case CaseReport => CaseReportTerms
    case AnimalEvidence => AnimalEvidenceTerms
    case CellLine => CellLineTerms
    case ImagingEvidence => ImagingEvidenceTerms
    case Retrospective => RetrospectiveStudyTerms
  }

  /** The lexicon terms written with an upper-case letter. */
  const UppercaseLexiconTerms: set<string> := {"PDX", "Drosophila", "C. elegans", "3D culture", "MRI", "CT", "PET"}

  // ===========================================================================
  // Mention gate and indicator scorer
  // ===========================================================================

  /** The labels `analyze_relation` produces. */
  datatype Label = NotEvaluated | IndicatorEvidence | NoIndicatorEvidence

  /** The scores dictionary: one count per category and their unweighted total. */
  datatype Indicators = Indicators(
    clinicalStudy: nat, caseReport: nat, animalEvidence: nat, cellLine: nat,
    imagingEvidence: nat, retrospective: nat, unweightedTotal: nat)
  {
    function Count(c: Category): nat {
      match c
      case ClinicalStudy => clinicalStudy
      case CaseReport => caseReport
      case AnimalEvidence => animalEvidence
      case CellLine => cellLine
      case ImagingEvidence => imagingEvidence
      case Retrospective => retrospective
    }

    function SumOfCounts(): nat {
      clinicalStudy + caseReport + animalEvidence + cellLine + imagingEvidence + retrospective
    }
  }

  /** The second component of the result: the `0.0` sentinel, or the counts. */
  datatype Scores = ZeroSentinel | Counts(indicators: Indicators)

  datatype Relation = Relation(verdict: Label, scores: Scores)

  /** The terms of `terms` that occur in `text`. */
  function HitSet(terms: set<string>, text: string): set<string> {
    set w | w in terms && Contains(text, w)
  }

  lemma SubsetCardinality(a: set<string>, b: set<string>)
    requires a <= b
    ensures |a| <= |b|
  {
    if a != {} {
      var x :| x in a;
      SubsetCardinality(a - {x}, b - {x});
    }
  }

  /** `sum(word in text for word in terms)`: how many distinct terms occur in
      `text`, each counted once however often it occurs. */
  function Hits(terms: set<string>, text: string): (n: nat)
    ensures n > 0 <==> exists w :: w in terms && Contains(text, w)
  {
    var hit := HitSet(terms, text);
    assert hit != {} <==> exists w :: w in terms && Contains(text, w) by {
      if exists w :: w in terms && Contains(text, w) {
        var w :| w in terms && Contains(text, w);
        assert w in hit;
      }
    }
    |hit|
  }

  /** A count never exceeds the number of terms it is taken over. */
  lemma HitsAtMostTerms(terms: set<string>, text: string)
    ensures Hits(terms, text) <= |terms|
  {
    SubsetCardinality(HitSet(terms, text), terms);
  }

  /** Both the drug and the gene occur, case-insensitively, in the abstract. */
  function Mentioned(drug: string, gene: string, abstractText: string): (mentioned: bool)
    ensures mentioned <==>
              (exists i :: OccursAt(Lower(abstractText), Lower(drug), i)) &&
              (exists i :: OccursAt(Lower(abstractText), Lower(gene), i))
  {
    LowerContainsIffOccurs(abstractText, drug);
    LowerContainsIffOccurs(abstractText, gene);
    var text := Lower(abstractText);
    Contains(text, Lower(drug)) && Contains(text, Lower(gene))
  }

  /** Some term of some lexicon occurs in `text`. */
  predicate HasIndicatorTerm(text: string) {
    exists c: Category, w :: w in Terms(c) && Contains(text, w)
  }

  /** The six category counts over an already lowercased text. */
  function CountIndicators(text: string): (ind: Indicators)
    ensures ind.unweightedTotal == ind.SumOfCounts()
    ensures forall c :: ind.Count(c) == Hits(Terms(c), text)
  {
    var clinical := Hits(ClinicalStudyTerms, text);
    var caseReport := Hits(CaseReportTerms, text);
    var animal := Hits(AnimalEvidenceTerms, text);
    var cellLine := Hits(CellLineTerms, text);
    var imaging := Hits(ImagingEvidenceTerms, text);
    var retrospective := Hits(RetrospectiveStudyTerms, text);
    Indicators(clinical, caseReport, animal, cellLine, imaging, retrospective,
               clinical + caseReport + animal + cellLine + imaging + retrospective)
  }

  /** A positive total is the same as some term of some lexicon occurring. */
  lemma TotalPositiveIffTerm(text: string)
    ensures CountIndicators(text).unweightedTotal > 0 <==> HasIndicatorTerm(text)
  {
    var ind := CountIndicators(text);
    if ind.unweightedTotal > 0 {
      var c: Category :| ind.Count(c) > 0;
      var w :| w in Terms(c) && Contains(text, w);
    }
    if HasIndicatorTerm(text) {
      var c: Category, w :| w in Terms(c) && Contains(text, w);
      assert Hits(Terms(c), text) > 0;
    }
  }

  /** `analyze_relation`: the mention gate, then the per-category counts, their
      total and the label. */
  function AnalyzeRelation(drug: string, gene: string, abstractText: string): (r: Relation)
    ensures !Mentioned(drug, gene, abstractText) <==> r == Relation(NotEvaluated, ZeroSentinel)
    ensures Mentioned(drug, gene, abstractText) ==>
              r.scores.Counts? &&
              (forall c :: r.scores.indicators.Count(c) == Hits(Terms(c), Lower(abstractText))) &&
              r.scores.indicators.unweightedTotal == r.scores.indicators.SumOfCounts() &&
              (r.verdict == IndicatorEvidence <==> r.scores.indicators.unweightedTotal > 0) &&
              (r.verdict == NoIndicatorEvidence <==> r.scores.indicators.unweightedTotal == 0)
    ensures r.verdict == IndicatorEvidence <==> Mentioned(drug, gene, abstractText) && HasIndicatorTerm(Lower(abstractText))
  {
    var text := Lower(abstractText);
    if !Mentioned(drug, gene, abstractText) then
      Relation(NotEvaluated, ZeroSentinel)
    else
      var indicators := CountIndicators(text);
      TotalPositiveIffTerm(text);
      var verdict := if indicators.unweightedTotal > 0 then IndicatorEvidence else NoIndicatorEvidence;
      Relation(verdict, Counts(indicators))
  }

  /** When the gate passes, each category count lies between 0 and the size of
      its lexicon: it counts distinct terms present, not occurrences. */
  lemma CountsBoundedByLexicon(drug: string, gene: string, abstractText: string, c: Category)
    requires Mentioned(drug, gene, abstractText)
    ensures 0 <= AnalyzeRelation(drug, gene, abstractText).scores.indicators.Count(c) <= |Terms(c)|
  {
    HitsAtMostTerms(Terms(c), Lower(abstractText));
  }

  /** The lexicon terms of `terms` without an upper-case letter. */
  function LowercaseTerms(terms: set<string>): set<string> {
    set w | w in terms && !HasUpper(w)
  }

  /** Terms written with an upper-case letter never add to a count: each count
      is the number of the category's all-lowercase terms present. */
  lemma UppercaseTermsNeverCount(drug: string, gene: string, abstractText: string, c: Category)
    requires Mentioned(drug, gene, abstractText)
    ensures AnalyzeRelation(drug, gene, abstractText).scores.indicators.Count(c)
            == Hits(LowercaseTerms(Terms(c)), Lower(abstractText))
  {
    var text := Lower(abstractText);
    forall w | w in Terms(c) && HasUpper(w) ensures !Contains(text, w) {
      UpperNeverInLower(abstractText, w);
    }
    assert HitSet(Terms(c), text) == HitSet(LowercaseTerms(Terms(c)), text);
  }

  /** The seven terms with capitals all belong to the animal, cell-line and
      imaging lexicons. */
  lemma UppercaseLexiconTermsInLexicons()
    ensures UppercaseLexiconTerms <= AnimalEvidenceTerms + CellLineTerms + ImagingEvidenceTerms
  {
  }

  /** The seven lexicon terms with capitals can never occur in a lowercased
      abstract. */
  lemma UppercaseLexiconTermsNeverMatch(abstractText: string)
    ensures forall w :: w in UppercaseLexiconTerms ==> !Contains(Lower(abstractText), w)
  {
    forall w | w in UppercaseLexiconTerms ensures !Contains(Lower(abstractText), w) {
      assert HasUpper(w) by {
        assert IsUpper(w[0]) || IsUpper(w[1]);
      }
      UpperNeverInLower(abstractText, w);
    }
  }

  // ===========================================================================
  // Batch run over reference pairs and abstracts
  // ===========================================================================

  datatype Abstract = Abstract(pmid: string, text: string)

  datatype ReferenceRow = ReferenceRow(gene: string, drug: string)

  /** One row of a pair's output file: `{pmid, label, scores}`. */
  datatype LogRecord = LogRecord(pmid: string, verdict: Label, scores: Scores)

  /** The output folder: file name to the records last written to it. */
  type OutputDir = map<string, seq<LogRecord>>

  /** Why a run raises: `reference_df['Gene'][0]` on an empty table; `drug[0]`
      on a drug field that parsed to no names; or `shutil.make_archive` asked
      to archive a folder that does not exist. The folder `<date>_<gene>` is
      named after the first row's gene and made only when an abstract is
      scored, while the archive takes the folder named after the last row's
      gene. */
  datatype RunError = NoReferenceRows | NoDrugName(row: nat) | ArchiveFolderMissing

  /** The output folder when the run ends: archived and removed on a
      normal end, left on disk by an exception. */
  datatype RunOutcome = Completed(files: OutputDir) | Crashed(files: OutputDir, error: RunError)

  /** `f'{gene}_{drug}.csv'.replace("/", "-")`. */
  function OutputFileName(gene: string, drug: string): (name: string)
    ensures '/' !in name
    ensures name == ReplaceChar(gene, '/', '-') + "_" + ReplaceChar(drug, '/', '-') + ".csv"
  {
    ReplaceCharAbsent("_", '/', '-');
    ReplaceCharAbsent(".csv", '/', '-');
    ReplaceCharConcat(gene + "_" + drug, ".csv", '/', '-');
    ReplaceCharConcat(gene + "_", drug, '/', '-');
    ReplaceCharConcat(gene, "_", '/', '-');
    ReplaceChar(gene + "_" + drug + ".csv", '/', '-')
  }

  /** A scorer of one abstract against a (drug, gene) pair; the run uses
      `AnalyzeRelation`, and the bookkeeping lemmas below hold for any scorer. */
  type Scorer = (string, string, string) -> Relation

  /** The record written for one abstract. */
  function Entry(score: Scorer, drug: string, gene: string, a: Abstract): (e: LogRecord)
    ensures e.pmid == a.pmid
    ensures Relation(e.verdict, e.scores) == score(drug, gene, a.text)
  {
    var relation := score(drug, gene, a.text);
    LogRecord(a.pmid, relation.verdict, relation.scores)
  }

  /** The log accumulated for one pair over the abstracts of `slice`. */
  function PairLog(score: Scorer, drug: string, gene: string, slice: seq<Abstract>): (log: seq<LogRecord>)
    ensures |log| == |slice|
  {
    if slice == [] then []
    else PairLog(score, drug, gene, slice[..|slice| - 1]) + [Entry(score, drug, gene, slice[|slice| - 1])]
  }

  /** The log holds one record per abstract, in slice order: the i-th record has
      the i-th abstract's pmid and that abstract's label and scores. */
  lemma {:induction false} PairLogInSliceOrder(score: Scorer, drug: string, gene: string, slice: seq<Abstract>)
    ensures forall i :: 0 <= i < |slice| ==>
              PairLog(score, drug, gene, slice)[i].pmid == slice[i].pmid &&
              PairLog(score, drug, gene, slice)[i] == Entry(score, drug, gene, slice[i])
  {
    if slice != [] {
      PairLogInSliceOrder(score, drug, gene, slice[..|slice| - 1]);
    }
  }

  /** Scoring one more abstract appends its record to the log. */
  lemma PairLogAppend(score: Scorer, drug: string, gene: string, slice: seq<Abstract>, k: nat)
    requires k < |slice|
    ensures PairLog(score, drug, gene, slice[..k + 1])
            == PairLog(score, drug, gene, slice[..k]) + [Entry(score, drug, gene, slice[k])]
  {
    assert slice[..k + 1][..k] == slice[..k];
  }

  /** What the file holds after k abstracts is a prefix of what it holds at the
      end of the pair, so an interrupted run leaves a prefix of the full log. */
  lemma {:induction false} PairLogPrefix(score: Scorer, drug: string, gene: string, slice: seq<Abstract>, k: nat)
    requires k <= |slice|
    ensures PairLog(score, drug, gene, slice[..k]) == PairLog(score, drug, gene, slice)[..k]
  {
    PairLogInSliceOrder(score, drug, gene, slice);
    PairLogInSliceOrder(score, drug, gene, slice[..k]);
  }

  /** The rows from `i` on, continuing from the folder `files`. */
  function RunRows(score: Scorer, rows: seq<ReferenceRow>, i: nat, slice: seq<Abstract>,
                   literalEval: string -> Option<Value>, files: OutputDir): (r: RunOutcome)
    requires i <= |rows|
    ensures files.Keys <= r.files.Keys
    decreases |rows| - i
  {
    if i == |rows| then Completed(files)
    else if slice == [] then RunRows(score, rows, i + 1, slice, literalEval, files)
    else
      var drugs := ParseDrugTerms(rows[i].drug, literalEval);
      if drugs == [] then Crashed(files, NoDrugName(i))
      else
        var name := OutputFileName(rows[i].gene, drugs[0]);
        RunRows(score, rows, i + 1, slice, literalEval, files[name := PairLog(score, drugs[0], rows[i].gene, slice)])
  }

  /** The whole run of `generate_indicators` as a function of its inputs: the
      loop over rows, then the archive of the folder. A run ends normally only
      for a non-empty table and slice whose first and last rows share a gene. */
  function Run(abstracts: seq<Abstract>, rows: seq<ReferenceRow>, start: int, stop: int,
               literalEval: string -> Option<Value>): (r: RunOutcome)
    ensures r.Completed? ==>
              rows != [] && Slice(abstracts, start, stop) != [] && rows[|rows| - 1].gene == rows[0].gene
  {
    if rows == [] then Crashed(map[], NoReferenceRows)
    else
      var slice := Slice(abstracts, start, stop);
      var loop := RunRows(AnalyzeRelation, rows, 0, slice, literalEval, map[]);
      if loop.Crashed? then loop
      else if slice == [] || rows[|rows| - 1].gene != rows[0].gene then Crashed(loop.files, ArchiveFolderMissing)
      else loop
  }

  /** The body of the loop over reference rows in `generate_indicators`: score
      every abstract of `slice` against `gene` and the first drug name, append
      each record to the pair's log and rewrite the pair's file with the whole
      log after every append; the run passes `AnalyzeRelation` as `score`.
      Taking `drug[0]` raises when the drug field parsed
      to no names; that happens at the first abstract, so not for an empty slice. */
  method ScorePair(score: Scorer, gene: string, drug: seq<string>, slice: seq<Abstract>, files: OutputDir)
    returns (files': OutputDir, raised: bool)
    ensures raised <==> slice != [] && drug == []
    ensures raised || slice == [] ==> files' == files
    ensures !raised && slice != [] ==> files' == AfterRow(score, gene, drug[0], slice, files)
  {
    files' := files;
    var results: seq<LogRecord> := [];
    for k := 0 to |slice|
      invariant k > 0 ==> |drug| > 0
      invariant |drug| > 0 ==> results == PairLog(score, drug[0], gene, slice[..k])
      invariant k == 0 ==> files' == files
      invariant k > 0 ==> files' == files[OutputFileName(gene, drug[0]) := results]
    {
      if |drug| == 0 {
        return files', true;
      }
      var relation := score(drug[0], gene, slice[k].text);
      results := results + [LogRecord(slice[k].pmid, relation.verdict, relation.scores)];
      PairLogAppend(score, drug[0], gene, slice, k);
      files' := files'[OutputFileName(gene, drug[0]) := results];
    }
    assert slice[..|slice|] == slice;
    raised := false;
  }

  /** `generate_indicators`: run `ScorePair` for every reference row, with the
      row's gene and its parsed drug field, over `abstracts[start:stop]`, then
      archive the folder named after the first row's gene under the name
      built from the last row's gene. */
  method GenerateIndicators(abstracts: seq<Abstract>, reference: seq<ReferenceRow>,
                            start: int, stop: int, literalEval: string -> Option<Value>)
    returns (outcome: RunOutcome)
    ensures outcome == Run(abstracts, reference, start, stop, literalEval)
  {
    if |reference| == 0 {
      return Crashed(map[], NoReferenceRows);
    }
    var folderGene := reference[0].gene;
    var gene := folderGene;
    var folderMade := false;
    var files: OutputDir := map[];
    ghost var loop := RunRows(AnalyzeRelation, reference, 0, Slice(abstracts, start, stop), literalEval, map[]);
    for idx := 0 to |reference|
      invariant RunRows(AnalyzeRelation, reference, idx, Slice(abstracts, start, stop), literalEval, files) == loop
      invariant gene == reference[if idx == 0 then 0 else idx - 1].gene
      invariant folderMade <==> idx > 0 && Slice(abstracts, start, stop) != []
    {
      gene := reference[idx].gene;
      var drug := ParseDrugTerms(reference[idx].drug, literalEval);
      var slice := Slice(abstracts, start, stop);
      var raised;
      ghost var filesBefore := files;
      files, raised := ScorePair(AnalyzeRelation, gene, drug, slice, files);
      if raised {
        return Crashed(files, NoDrugName(idx));
      }
      folderMade := folderMade || slice != [];
      if slice == [] {
        assert RunRows(AnalyzeRelation, reference, idx, slice, literalEval, files)
               == RunRows(AnalyzeRelation, reference, idx + 1, slice, literalEval, files);
      } else {
        RunRowsStep(AnalyzeRelation, reference, idx, slice, literalEval, filesBefore);
      }
    }
    if !folderMade || gene != folderGene {
      return Crashed(files, ArchiveFolderMissing);
    }
    return Completed(files);
  }

  // ---------------------------------------------------------------------------
  // Properties of a run
  // ---------------------------------------------------------------------------

  /** The folder after row `i` has written its complete log. */
  function AfterRow(score: Scorer, gene: string, drug: string, slice: seq<Abstract>, files: OutputDir): OutputDir
  {
    files[OutputFileName(gene, drug) := PairLog(score, drug, gene, slice)]
  }

  /** A row's writes add or replace the pair's file with its full log and
      leave every other file as it was. */
  lemma AfterRowChangesOnlyPairFile(score: Scorer, gene: string, drug: string, slice: seq<Abstract>, files: OutputDir)
    ensures var after := AfterRow(score, gene, drug, slice, files);
            && after.Keys == files.Keys + {OutputFileName(gene, drug)}
            && after[OutputFileName(gene, drug)] == PairLog(score, drug, gene, slice)
            && forall n :: n in files && n != OutputFileName(gene, drug) ==> after[n] == files[n]
  {
  }

  /** One step of a run over a row that parses to at least one drug name. */
  lemma RunRowsStep(score: Scorer, rows: seq<ReferenceRow>, i: nat, slice: seq<Abstract>,
                    literalEval: string -> Option<Value>, files: OutputDir)
    requires i < |rows| && slice != [] && ParseDrugTerms(rows[i].drug, literalEval) != []
    ensures RunRows(score, rows, i, slice, literalEval, files)
            == RunRows(score, rows, i + 1, slice, literalEval,
                       AfterRow(score, rows[i].gene, ParseDrugTerms(rows[i].drug, literalEval)[0], slice, files))
  {
  }

  /** Row `j` exists and its drug field parses to no names at all. */
  predicate NoDrugNames(rows: seq<ReferenceRow>, j: int, literalEval: string -> Option<Value>) {
    0 <= j < |rows| && ParseDrugTerms(rows[j].drug, literalEval) == []
  }

  /** The slice is not empty, row `i` parses to at least one drug name, and it
      is the row that wrote `log` to the file `name`. */
  ghost predicate WrittenByRow(score: Scorer, rows: seq<ReferenceRow>, i: int, slice: seq<Abstract>,
                               literalEval: string -> Option<Value>, name: string, log: seq<LogRecord>)
  {
    0 <= i < |rows| && slice != [] &&
    var drugs := ParseDrugTerms(rows[i].drug, literalEval);
    |drugs| > 0 &&
    name == OutputFileName(rows[i].gene, drugs[0]) &&
    log == PairLog(score, drugs[0], rows[i].gene, slice)
  }

  /** Every file of `files` was written by some row. */
  ghost predicate AllWrittenByRows(score: Scorer, rows: seq<ReferenceRow>, slice: seq<Abstract>,
                                   literalEval: string -> Option<Value>, files: OutputDir)
  {
    forall name :: name in files ==> exists j :: WrittenByRow(score, rows, j, slice, literalEval, name, files[name])
  }

  /** Row `i` writing its file keeps every file attributable to some row. */
  lemma AfterRowWrittenByRows(score: Scorer, rows: seq<ReferenceRow>, i: nat, slice: seq<Abstract>,
                              literalEval: string -> Option<Value>, files: OutputDir)
    requires i < |rows| && slice != [] && ParseDrugTerms(rows[i].drug, literalEval) != []
    requires AllWrittenByRows(score, rows, slice, literalEval, files)
    ensures var drugs := ParseDrugTerms(rows[i].drug, literalEval);
            AllWrittenByRows(score, rows, slice, literalEval, AfterRow(score, rows[i].gene, drugs[0], slice, files))
  {
    var drugs := ParseDrugTerms(rows[i].drug, literalEval);
    var written := OutputFileName(rows[i].gene, drugs[0]);
    var next := AfterRow(score, rows[i].gene, drugs[0], slice, files);
    forall name | name in next
      ensures exists j :: WrittenByRow(score, rows, j, slice, literalEval, name, next[name])
    {
      if name == written {
        assert WrittenByRow(score, rows, i, slice, literalEval, name, next[name]);
      } else {
        var j :| WrittenByRow(score, rows, j, slice, literalEval, name, files[name]);
        assert WrittenByRow(score, rows, j, slice, literalEval, name, next[name]);
      }
    }
  }

  lemma {:induction false} RunRowsFilesWritten(score: Scorer, rows: seq<ReferenceRow>, i: nat, slice: seq<Abstract>,
                                               literalEval: string -> Option<Value>, files: OutputDir)
    requires i <= |rows|
    requires AllWrittenByRows(score, rows, slice, literalEval, files)
    ensures AllWrittenByRows(score, rows, slice, literalEval, RunRows(score, rows, i, slice, literalEval, files).files)
    decreases |rows| - i
  {
    if i < |rows| {
      if slice == [] {
        assert RunRows(score, rows, i, slice, literalEval, files) == RunRows(score, rows, i + 1, slice, literalEval, files);
        RunRowsFilesWritten(score, rows, i + 1, slice, literalEval, files);
      } else {
        var drugs := ParseDrugTerms(rows[i].drug, literalEval);
        if drugs != [] {
          var next := AfterRow(score, rows[i].gene, drugs[0], slice, files);
          RunRowsStep(score, rows, i, slice, literalEval, files);
          AfterRowWrittenByRows(score, rows, i, slice, literalEval, files);
          RunRowsFilesWritten(score, rows, i + 1, slice, literalEval, next);
        }
      }
    }
  }

  /** Every file left in the output folder, whether the run completed or not,
      holds the complete log of one reference row: one record per abstract of
      the slice, in slice order, named after that row's gene and first drug. */
  lemma RunRowsFilesHoldFullLogs(score: Scorer, rows: seq<ReferenceRow>, slice: seq<Abstract>,
                                 literalEval: string -> Option<Value>, name: string)
    requires name in RunRows(score, rows, 0, slice, literalEval, map[]).files
    ensures var log := RunRows(score, rows, 0, slice, literalEval, map[]).files[name];
            (exists j :: WrittenByRow(score, rows, j, slice, literalEval, name, log)) &&
            |log| == |slice| > 0 &&
            forall k :: 0 <= k < |slice| ==> log[k].pmid == slice[k].pmid
  {
    RunRowsFilesWritten(score, rows, 0, slice, literalEval, map[]);
    var files := RunRows(score, rows, 0, slice, literalEval, map[]).files;
    var log := files[name];
    assert exists j :: WrittenByRow(score, rows, j, slice, literalEval, name, log);
    var j :| WrittenByRow(score, rows, j, slice, literalEval, name, log);
    var drugs := ParseDrugTerms(rows[j].drug, literalEval);
    PairLogInSliceOrder(score, drugs[0], rows[j].gene, slice);
  }

  /** The same for a run of `generate_indicators` with `AnalyzeRelation`: each
      output file has exactly one record per abstract of `abstracts[start:stop]`,
      with the same pmids in the same order. */
  lemma RunFilesHoldFullLogs(abstracts: seq<Abstract>, rows: seq<ReferenceRow>, start: int, stop: int,
                             literalEval: string -> Option<Value>, name: string)
    requires name in Run(abstracts, rows, start, stop, literalEval).files
    ensures var slice := Slice(abstracts, start, stop);
            var log := Run(abstracts, rows, start, stop, literalEval).files[name];
            |log| == |slice| > 0 &&
            forall k :: 0 <= k < |slice| ==> log[k].pmid == slice[k].pmid
  {
    RunRowsFilesHoldFullLogs(AnalyzeRelation, rows, Slice(abstracts, start, stop), literalEval, name);
  }

  lemma {:induction false} RunRowsCrashes(score: Scorer, rows: seq<ReferenceRow>, i: nat, slice: seq<Abstract>,
                                          literalEval: string -> Option<Value>, files: OutputDir)
    requires i <= |rows|
    ensures RunRows(score, rows, i, slice, literalEval, files).Crashed? <==>
            slice != [] && exists j :: i <= j && NoDrugNames(rows, j, literalEval)
    decreases |rows| - i
  {
    if i == |rows| {
      assert forall j :: i <= j ==> !NoDrugNames(rows, j, literalEval);
    } else if slice == [] {
      RunRowsCrashes(score, rows, i + 1, slice, literalEval, files);
    } else {
      var drugs := ParseDrugTerms(rows[i].drug, literalEval);
      if drugs == [] {
        assert NoDrugNames(rows, i, literalEval);
      } else {
        RunRowsStep(score, rows, i, slice, literalEval, files);
        RunRowsCrashes(score, rows, i + 1, slice, literalEval, AfterRow(score, rows[i].gene, drugs[0], slice, files));
        assert !NoDrugNames(rows, i, literalEval);
        assert forall j :: i <= j && NoDrugNames(rows, j, literalEval) ==> i + 1 <= j;
      }
    }
  }

  /** A run raises exactly when the reference table is empty, the slice is
      empty, some row's drug field parses to no names, or the first and last
      rows name different genes. */
  lemma RunCrashesIff(abstracts: seq<Abstract>, rows: seq<ReferenceRow>, start: int, stop: int,
                      literalEval: string -> Option<Value>)
    ensures Run(abstracts, rows, start, stop, literalEval).Crashed? <==>
            rows == [] || Slice(abstracts, start, stop) == [] ||
            (exists j :: NoDrugNames(rows, j, literalEval)) ||
            rows[|rows| - 1].gene != rows[0].gene
  {
    if rows != [] {
      RunRowsCrashes(AnalyzeRelation, rows, 0, Slice(abstracts, start, stop), literalEval, map[]);
    }
  }

  lemma {:induction false} RunRowsEmptySlice(score: Scorer, rows: seq<ReferenceRow>, i: nat,
                                             literalEval: string -> Option<Value>, files: OutputDir)
    requires i <= |rows|
    ensures RunRows(score, rows, i, [], literalEval, files) == Completed(files)
    decreases |rows| - i
  {
    if i < |rows| {
      RunRowsEmptySlice(score, rows, i + 1, literalEval, files);
    }
  }

  /** With an empty slice no abstract is scored, no drug name is looked at,
      no file is written and the folder is never made, so archiving it raises. */
  lemma EmptySliceLeavesNoFolder(abstracts: seq<Abstract>, rows: seq<ReferenceRow>, start: int, stop: int,
                                 literalEval: string -> Option<Value>)
    requires rows != [] && Slice(abstracts, start, stop) == []
    ensures Run(abstracts, rows, start, stop, literalEval) == Crashed(map[], ArchiveFolderMissing)
  {
    RunRowsEmptySlice(AnalyzeRelation, rows, 0, literalEval, map[]);
  }

  /** When the first and last rows name different genes, every row still
      writes its file into the folder, and then archiving raises. */
  lemma GeneMismatchCannotArchive(abstracts: seq<Abstract>, rows: seq<ReferenceRow>, start: int, stop: int,
                                  literalEval: string -> Option<Value>)
    requires rows != [] && Slice(abstracts, start, stop) != []
    requires forall j :: 0 <= j < |rows| ==> ParseDrugTerms(rows[j].drug, literalEval) != []
    requires rows[|rows| - 1].gene != rows[0].gene
    ensures Run(abstracts, rows, start, stop, literalEval).Crashed?
    ensures Run(abstracts, rows, start, stop, literalEval).error == ArchiveFolderMissing
    ensures forall j :: 0 <= j < |rows| ==>
              RowFileName(rows, j, literalEval) in Run(abstracts, rows, start, stop, literalEval).files
  {
    var slice := Slice(abstracts, start, stop);
    RunRowsCrashes(AnalyzeRelation, rows, 0, slice, literalEval, map[]);
    RunRowsKeepsNames(AnalyzeRelation, rows, 0, slice, literalEval, map[]);
  }

  /** The file name row `j` writes to, once its drug field has a first name. */
  function RowFileName(rows: seq<ReferenceRow>, j: int, literalEval: string -> Option<Value>): string
    requires 0 <= j < |rows| && ParseDrugTerms(rows[j].drug, literalEval) != []
  {
    OutputFileName(rows[j].gene, ParseDrugTerms(rows[j].drug, literalEval)[0])
  }

  lemma {:induction false} RunRowsKeepsNames(score: Scorer, rows: seq<ReferenceRow>, i: nat, slice: seq<Abstract>,
                                             literalEval: string -> Option<Value>, files: OutputDir)
    requires i <= |rows|
    requires RunRows(score, rows, i, slice, literalEval, files).Completed? && slice != []
    ensures files.Keys <= RunRows(score, rows, i, slice, literalEval, files).files.Keys
    ensures forall j :: i <= j < |rows| ==>
              ParseDrugTerms(rows[j].drug, literalEval) != [] &&
              RowFileName(rows, j, literalEval) in RunRows(score, rows, i, slice, literalEval, files).files
    decreases |rows| - i
  {
    if i < |rows| {
      var drugs := ParseDrugTerms(rows[i].drug, literalEval);
      if drugs != [] {
        var next := AfterRow(score, rows[i].gene, drugs[0], slice, files);
        var result := RunRows(score, rows, i + 1, slice, literalEval, next);
        RunRowsStep(score, rows, i, slice, literalEval, files);
        RunRowsKeepsNames(score, rows, i + 1, slice, literalEval, next);
        assert files.Keys <= next.Keys;
        forall j | i <= j < |rows|
          ensures ParseDrugTerms(rows[j].drug, literalEval) != [] && RowFileName(rows, j, literalEval) in result.files
        {
          if j == i {
            assert RowFileName(rows, i, literalEval) in next;
          }
        }
      }
    }
  }

  /** A completed run over a non-empty slice leaves a file for every reference
      row, named after the row's gene and first drug name. */
  lemma CompletedRunWritesEveryPair(abstracts: seq<Abstract>, rows: seq<ReferenceRow>, start: int, stop: int,
                                    literalEval: string -> Option<Value>)
    requires Run(abstracts, rows, start, stop, literalEval).Completed?
    ensures forall j :: 0 <= j < |rows| ==>
              ParseDrugTerms(rows[j].drug, literalEval) != [] &&
              RowFileName(rows, j, literalEval) in Run(abstracts, rows, start, stop, literalEval).files
  {
    RunRowsKeepsNames(AnalyzeRelation, rows, 0, Slice(abstracts, start, stop), literalEval, map[]);
  }
}
