/** The six checks a translated notebook must pass against its original, and the per-file verdict. */
module ValidateTranslation {
  import opened Notebook

  /** The checks, under the names `run_all_validations` gives them, in the order it runs them. */
  datatype CheckName = CellCount | CellTypes | CodeCells | MarkdownTranslation | OutputsPresent | Metadata

  const AllChecks: seq<CheckName> := [CellCount, CellTypes, CodeCells, MarkdownTranslation, OutputsPresent, Metadata]

  /** A line of the cell-type report: the index and both `cell_type` values. */
  datatype TypeMismatch = TypeMismatch(index: nat, originalType: Option<string>, translatedType: Option<string>)

  /** The "Original:" and "Translated:" lines of the code report. */
  datatype Excerpt = Excerpt(original: string, translated: string)

  /** A cell of the code report, with an excerpt only when the original text is short. */
  datatype CodeMismatch = CodeMismatch(index: nat, excerpt: Option<Excerpt>)

  /** A line of the missing-outputs report: the index and the original's number of outputs. */
  datatype MissingOutput = MissingOutput(index: nat, count: nat)

  /** One entry of the validator's `issues` list. */
  datatype Issue =
    | CellCountMismatch(originalCount: nat, translatedCount: nat)
    | CellTypeMismatches(typeMismatches: seq<TypeMismatch>)
    | CodeCellMismatches(codeMismatches: seq<CodeMismatch>)
    | MarkdownUntranslated(totalMarkdown: nat)
    | MissingOutputs(missing: seq<MissingOutput>)
    | KernelMismatch(originalKernel: string, translatedKernel: string)
    | ValidationError(check: CheckName)

  /** The value a check returns: `Some(b)` for True/False, `None` for Python's None. */
  type CheckValue = Option<bool>

  // ---------------------------------------------------------------------------------------------
  // Cell count

  function CellCountIssues(o: Notebook, t: Notebook): (r: seq<Issue>)
    ensures r == [] <==> |o.cells| == |t.cells|
    ensures r != [] ==> r == [CellCountMismatch(|o.cells|, |t.cells|)]
  {
    if |o.cells| != |t.cells| then [CellCountMismatch(|o.cells|, |t.cells|)] else []
  }

  // ---------------------------------------------------------------------------------------------
  // Cell types

  /** The `mismatches` list of `validate_cell_types` after the first `n` zipped pairs. */
  function TypeMismatchesUpTo(o: seq<Cell>, t: seq<Cell>, n: nat): (r: seq<TypeMismatch>)
    requires n <= |o| && n <= |t|
    ensures forall e :: e in r ==>
      e.index < n && e == TypeMismatch(e.index, o[e.index].cellType, t[e.index].cellType)
      && o[e.index].cellType != t[e.index].cellType
    ensures forall i :: 0 <= i < n && o[i].cellType != t[i].cellType ==>
      TypeMismatch(i, o[i].cellType, t[i].cellType) in r
  {
    if n == 0 then []
    else
      var prefix := TypeMismatchesUpTo(o, t, n - 1);
      if o[n - 1].cellType != t[n - 1].cellType
      then prefix + [TypeMismatch(n - 1, o[n - 1].cellType, t[n - 1].cellType)]
      else prefix
  }

  function TypeMismatches(o: Notebook, t: Notebook): seq<TypeMismatch> {
    TypeMismatchesUpTo(o.cells, t.cells, AlignedLength(o.cells, t.cells))
  }

  /** The verdict of `validate_cell_types`: no zipped pair differs in `cell_type` (a missing type is None). */
  function CellTypesOk(o: Notebook, t: Notebook): (ok: bool)
    ensures ok <==> forall i :: 0 <= i < AlignedLength(o.cells, t.cells) ==> o.cells[i].cellType == t.cells[i].cellType
  {
    var r := TypeMismatches(o, t);
    assert r != [] ==> r[0] in r;
    r == []
  }

  function CellTypesIssues(o: Notebook, t: Notebook): seq<Issue> {
    if CellTypesOk(o, t) then [] else [CellTypeMismatches(TypeMismatches(o, t))]
  }

  // ---------------------------------------------------------------------------------------------
  // Code cells

  /** The report for a code cell whose text differs: excerpts only when the original is under 100 characters. */
  function CodeMismatchAt(o: Cell, t: Cell, i: nat): (r: CodeMismatch)
    ensures r.index == i
    ensures r.excerpt.Some? <==> |SourceText(o)| < 100
    ensures r.excerpt.Some? ==> r.excerpt.value.original == SourceText(o)
    ensures r.excerpt.Some? ==> r.excerpt.value.translated <= SourceText(t)
    ensures r.excerpt.Some? ==> |r.excerpt.value.translated| == if |SourceText(t)| < 100 then |SourceText(t)| else 100
  {
    var origSource := SourceText(o);
    var transSource := SourceText(t);
    if |origSource| < 100
    then CodeMismatch(i, Some(Excerpt(Take(origSource, 100), Take(transSource, 100))))
    else CodeMismatch(i, None)
  }

  /** A zipped pair `validate_code_cells` reports: the ORIGINAL is a code cell and the texts differ. */
  predicate CodeDiffers(o: Cell, t: Cell) {
    IsCode(o) && SourceText(o) != SourceText(t)
  }

  /** The cells reported by `validate_code_cells` among the first `n` zipped pairs. */
  function CodeMismatchesUpTo(o: seq<Cell>, t: seq<Cell>, n: nat): (r: seq<CodeMismatch>)
    requires n <= |o| && n <= |t|
    ensures forall e :: e in r ==>
      e.index < n && CodeDiffers(o[e.index], t[e.index]) && e == CodeMismatchAt(o[e.index], t[e.index], e.index)
    ensures forall i :: 0 <= i < n && CodeDiffers(o[i], t[i]) ==> CodeMismatchAt(o[i], t[i], i) in r
  {
    if n == 0 then []
    else
      var prefix := CodeMismatchesUpTo(o, t, n - 1);
      if CodeDiffers(o[n - 1], t[n - 1]) then prefix + [CodeMismatchAt(o[n - 1], t[n - 1], n - 1)] else prefix
  }

  function CodeMismatches(o: Notebook, t: Notebook): seq<CodeMismatch> {
    CodeMismatchesUpTo(o.cells, t.cells, AlignedLength(o.cells, t.cells))
  }

  /** The verdict of `validate_code_cells`; the translated cell's type plays no part. */
  function CodeCellsOk(o: Notebook, t: Notebook): (ok: bool)
    ensures ok <==> forall i :: 0 <= i < AlignedLength(o.cells, t.cells) && IsCode(o.cells[i]) ==>
      SourceText(o.cells[i]) == SourceText(t.cells[i])
  {
    var r := CodeMismatches(o, t);
    assert r != [] ==> r[0] in r;
    r == []
  }

  function CodeCellsIssues(o: Notebook, t: Notebook): seq<Issue> {
    if CodeCellsOk(o, t) then [] else [CodeCellMismatches(CodeMismatches(o, t))]
  }

  // ---------------------------------------------------------------------------------------------
  // Markdown translated

  /** `total_markdown` after the first `n` zipped pairs: every original markdown cell, blank ones included. */
  function TotalMarkdown(o: seq<Cell>, n: nat): (k: nat)
    requires n <= |o|
    ensures k <= n
    ensures k > 0 <==> exists i :: 0 <= i < n && IsMarkdown(o[i])
  {
    if n == 0 then 0 else TotalMarkdown(o, n - 1) + if IsMarkdown(o[n - 1]) then 1 else 0
  }

  /** `total_markdown` is the number of markdown cells among the first `n` cells of the original. */
  lemma {:induction false} TotalMarkdownIsCardinality(o: seq<Cell>, n: nat)
    requires n <= |o|
    ensures TotalMarkdown(o, n) == |set i | 0 <= i < n && IsMarkdown(o[i])|
  {
    var s := set i | 0 <= i < n && IsMarkdown(o[i]);
    if n > 0 {
      var s' := set i | 0 <= i < n - 1 && IsMarkdown(o[i]);
      TotalMarkdownIsCardinality(o, n - 1);
      if IsMarkdown(o[n - 1]) {
        assert s == s' + {n - 1};
      } else {
        assert s == s';
      }
    } else {
      assert s == {};
    }
  }

  /** A markdown cell that `validate_markdown_translated` counts as identical. */
  predicate IdenticalMarkdownPair(o: Cell, t: Cell) {
    IsMarkdown(o) && !IsBlank(SourceText(o)) && SourceText(o) == SourceText(t)
  }

  /** `identical_count` after the first `n` zipped pairs. */
  function IdenticalMarkdown(o: seq<Cell>, t: seq<Cell>, n: nat): (k: nat)
    requires n <= |o| && n <= |t|
    ensures k <= TotalMarkdown(o, n)
    ensures k == TotalMarkdown(o, n) <==> forall i :: 0 <= i < n && IsMarkdown(o[i]) ==> IdenticalMarkdownPair(o[i], t[i])
  {
    if n == 0 then 0 else IdenticalMarkdown(o, t, n - 1) + if IdenticalMarkdownPair(o[n - 1], t[n - 1]) then 1 else 0
  }

  /**
   * The verdict of `validate_markdown_translated`: it fails exactly when the zipped prefix holds a markdown
   * cell of the original and every such cell is non-blank and identical in the translation.
   */
  function MarkdownTranslatedOk(o: Notebook, t: Notebook): (ok: bool)
    ensures !ok <==>
      (exists i :: 0 <= i < AlignedLength(o.cells, t.cells) && IsMarkdown(o.cells[i]))
      && forall i :: 0 <= i < AlignedLength(o.cells, t.cells) && IsMarkdown(o.cells[i]) ==>
        IdenticalMarkdownPair(o.cells[i], t.cells[i])
  {
    var n := AlignedLength(o.cells, t.cells);
    !(TotalMarkdown(o.cells, n) > 0 && IdenticalMarkdown(o.cells, t.cells, n) == TotalMarkdown(o.cells, n))
  }

  function MarkdownIssues(o: Notebook, t: Notebook): seq<Issue> {
    if MarkdownTranslatedOk(o, t) then []
    else [MarkdownUntranslated(TotalMarkdown(o.cells, AlignedLength(o.cells, t.cells)))]
  }

  // ---------------------------------------------------------------------------------------------
  // Outputs present

  /** A zipped pair `validate_outputs_present` reports: an original code cell with outputs, none in the translation. */
  predicate OutputsMissing(o: Cell, t: Cell) {
    IsCode(o) && OutputCount(o) > 0 && OutputCount(t) == 0
  }

  /** The `missing_outputs` list after the first `n` zipped pairs. */
  function MissingOutputsUpTo(o: seq<Cell>, t: seq<Cell>, n: nat): (r: seq<MissingOutput>)
    requires n <= |o| && n <= |t|
    ensures forall e :: e in r ==>
      e.index < n && OutputsMissing(o[e.index], t[e.index]) && e.count == OutputCount(o[e.index])
    ensures forall i :: 0 <= i < n && OutputsMissing(o[i], t[i]) ==> MissingOutput(i, OutputCount(o[i])) in r
  {
    if n == 0 then []
    else
      var prefix := MissingOutputsUpTo(o, t, n - 1);
      if OutputsMissing(o[n - 1], t[n - 1]) then prefix + [MissingOutput(n - 1, OutputCount(o[n - 1]))] else prefix
  }

  function MissingOutputsOf(o: Notebook, t: Notebook): seq<MissingOutput> {
    MissingOutputsUpTo(o.cells, t.cells, AlignedLength(o.cells, t.cells))
  }

  /** The verdict of `validate_outputs_present`; the translated cell's type plays no part. */
  function OutputsPresentOk(o: Notebook, t: Notebook): (ok: bool)
    ensures ok <==> forall i :: 0 <= i < AlignedLength(o.cells, t.cells) && IsCode(o.cells[i]) && OutputCount(o.cells[i]) > 0 ==>
      OutputCount(t.cells[i]) > 0
  {
    var r := MissingOutputsOf(o, t);
    assert r != [] ==> r[0] in r;
    r == []
  }

  function OutputsPresentIssues(o: Notebook, t: Notebook): seq<Issue> {
    if OutputsPresentOk(o, t) then [] else [MissingOutputs(MissingOutputsOf(o, t))]
  }

  // ---------------------------------------------------------------------------------------------
  // Metadata

  /** The issue `validate_metadata` appends: both kernel names are set, non-empty and different. */
  function KernelIssues(o: Notebook, t: Notebook): (r: seq<Issue>)
    ensures r != [] <==> Truthy(o.kernelName) && Truthy(t.kernelName) && o.kernelName != t.kernelName
    ensures r != [] ==> r == [KernelMismatch(o.kernelName.value, t.kernelName.value)]
  {
    if Truthy(o.kernelName) && Truthy(t.kernelName) && o.kernelName.value != t.kernelName.value
    then [KernelMismatch(o.kernelName.value, t.kernelName.value)]
    else []
  }

  // ---------------------------------------------------------------------------------------------
  // All checks

  /** What each check returns when it does not raise; `validate_metadata` has no return statement. */
  function CheckResult(c: CheckName, o: Notebook, t: Notebook): (v: CheckValue)
    ensures c == Metadata <==> v.None?
  {
    match c
    case CellCount => Some(|o.cells| == |t.cells|)
    case CellTypes => Some(CellTypesOk(o, t))
    case CodeCells => Some(CodeCellsOk(o, t))
    case MarkdownTranslation => Some(MarkdownTranslatedOk(o, t))
    case OutputsPresent => Some(OutputsPresentOk(o, t))
    case Metadata => None
  }

  /**
   * What each check appends to `issues` when it does not raise: at most one entry, and for every check but
   * the metadata one, an entry exactly when it returns False.
   */
  function CheckIssues(c: CheckName, o: Notebook, t: Notebook): (r: seq<Issue>)
    ensures |r| <= 1
    ensures c != Metadata ==> (r != [] <==> CheckResult(c, o, t) == Some(false))
  {
    match c
    case CellCount => CellCountIssues(o, t)
    case CellTypes => CellTypesIssues(o, t)
    case CodeCells => CodeCellsIssues(o, t)
    case MarkdownTranslation => MarkdownIssues(o, t)
    case OutputsPresent => OutputsPresentIssues(o, t)
    case Metadata => KernelIssues(o, t)
  }

  /** One round of the `run_all_validations` loop; `faults` holds the checks that raise on this pair. */
  function StepResult(o: Notebook, t: Notebook, faults: set<CheckName>, c: CheckName): CheckValue {
    if c in faults then Some(false) else CheckResult(c, o, t)
  }

  /** What one round appends to `issues`: the check's own report, or one error entry if it raised. */
  function StepIssues(o: Notebook, t: Notebook, faults: set<CheckName>, c: CheckName): seq<Issue> {
    if c in faults then [ValidationError(c)] else CheckIssues(c, o, t)
  }

  /**
   * How the two halves of one round agree: a round appends at most one entry; a raising check is recorded
   * as False with one error entry;
   * only the metadata check, and only when it does not raise, leaves None; any other check adds nothing
   * exactly when its result is True.
   */
  lemma RoundOutcome(o: Notebook, t: Notebook, faults: set<CheckName>, c: CheckName)
    ensures |StepIssues(o, t, faults, c)| <= 1
    ensures c in faults ==> StepResult(o, t, faults, c) == Some(false) && StepIssues(o, t, faults, c) == [ValidationError(c)]
    ensures StepResult(o, t, faults, c).None? <==> c == Metadata && c !in faults
    ensures c != Metadata ==> (StepIssues(o, t, faults, c) == [] <==> StepResult(o, t, faults, c) == Some(true))
  {
  }

  /** The `results` dict after running the checks in `names`, in order. */
  function RunResults(o: Notebook, t: Notebook, faults: set<CheckName>, names: seq<CheckName>): (r: map<CheckName, CheckValue>)
    ensures forall c :: c in r <==> c in names
    decreases |names|
  {
    if names == [] then map[]
    else RunResults(o, t, faults, names[..|names| - 1])[names[|names| - 1] := StepResult(o, t, faults, names[|names| - 1])]
  }

  /** What running the checks in `names`, in order, appends to `issues`. */
  function RunIssues(o: Notebook, t: Notebook, faults: set<CheckName>, names: seq<CheckName>): seq<Issue>
    decreases |names|
  {
    if names == [] then []
    else RunIssues(o, t, faults, names[..|names| - 1]) + StepIssues(o, t, faults, names[|names| - 1])
  }

  /** Running one more check of a list adds its round to the results map. */
  lemma RunResultsStep(o: Notebook, t: Notebook, faults: set<CheckName>, names: seq<CheckName>, k: nat)
    requires k < |names|
    ensures RunResults(o, t, faults, names[..k + 1]) == RunResults(o, t, faults, names[..k])[names[k] := StepResult(o, t, faults, names[k])]
  {
    assert names[..k + 1][..k] == names[..k];
  }

  /** Running one more check of a list appends its round's issues at the end. */
  lemma RunIssuesStep(o: Notebook, t: Notebook, faults: set<CheckName>, names: seq<CheckName>, k: nat)
    requires k < |names|
    ensures RunIssues(o, t, faults, names[..k + 1]) == RunIssues(o, t, faults, names[..k]) + StepIssues(o, t, faults, names[k])
  {
    assert names[..k + 1][..k] == names[..k];
  }

  /** The status `main` prints for a file: PASS only when every result is truthy and no issue was recorded. */
  datatype FileStatus = Pass | HasIssues

  function FileVerdict(results: map<CheckName, CheckValue>, issues: seq<Issue>): (s: FileStatus)
    ensures s == Pass <==> (forall c :: c in results ==> results[c] == Some(true)) && issues == []
  {
    if (forall c :: c in results ==> results[c] == Some(true)) && issues == [] then Pass else HasIssues
  }

  // ---------------------------------------------------------------------------------------------
  // Properties of a full run

  /** After running `names`, each of them maps to that check's own round, whatever the other checks did. */
  lemma {:induction false} RunResultsPerCheck(o: Notebook, t: Notebook, faults: set<CheckName>, names: seq<CheckName>)
    ensures forall c :: c in names ==> RunResults(o, t, faults, names)[c] == StepResult(o, t, faults, c)
    decreases |names|
  {
    if names != [] {
      RunResultsPerCheck(o, t, faults, names[..|names| - 1]);
      assert names == names[..|names| - 1] + [names[|names| - 1]];
    }
  }

  /**
   * Each round appends at most one entry; the issue list stays empty exactly when no round appended
   * anything; every check that raises leaves its error entry.
   */
  lemma {:induction false} RunIssuesContents(o: Notebook, t: Notebook, faults: set<CheckName>, names: seq<CheckName>)
    ensures |RunIssues(o, t, faults, names)| <= |names|
    ensures RunIssues(o, t, faults, names) == [] <==> forall c :: c in names ==> StepIssues(o, t, faults, c) == []
    ensures forall c :: c in names && c in faults ==> ValidationError(c) in RunIssues(o, t, faults, names)
    decreases |names|
  {
    if names != [] {
      var init := names[..|names| - 1];
      RunIssuesContents(o, t, faults, init);
      RoundOutcome(o, t, faults, names[|names| - 1]);
      assert names == init + [names[|names| - 1]];
    }
  }

  /** Running six checks appends their six rounds' contributions, in the listed order. */
  lemma RunIssuesOfSix(o: Notebook, t: Notebook, faults: set<CheckName>, names: seq<CheckName>)
    requires |names| == 6
    ensures RunIssues(o, t, faults, names) ==
      StepIssues(o, t, faults, names[0]) + StepIssues(o, t, faults, names[1]) + StepIssues(o, t, faults, names[2])
      + StepIssues(o, t, faults, names[3]) + StepIssues(o, t, faults, names[4]) + StepIssues(o, t, faults, names[5])
  {
    assert names[..0] == [] && names[..6] == names;
    RunIssuesStep(o, t, faults, names, 0);
    assert RunIssues(o, t, faults, names[..1]) == StepIssues(o, t, faults, names[0]);
    RunIssuesStep(o, t, faults, names, 1);
    assert RunIssues(o, t, faults, names[..2]) == StepIssues(o, t, faults, names[0]) + StepIssues(o, t, faults, names[1]);
    RunIssuesStep(o, t, faults, names, 2);
    RunIssuesStep(o, t, faults, names, 3);
    RunIssuesStep(o, t, faults, names, 4);
    RunIssuesStep(o, t, faults, names, 5);
  }

  /** No check is skipped: the issues are the six rounds' contributions, in the listed order. */
  lemma RunIssuesInOrder(o: Notebook, t: Notebook, faults: set<CheckName>)
    ensures RunIssues(o, t, faults, AllChecks) ==
      StepIssues(o, t, faults, CellCount) + StepIssues(o, t, faults, CellTypes) + StepIssues(o, t, faults, CodeCells)
      + StepIssues(o, t, faults, MarkdownTranslation) + StepIssues(o, t, faults, OutputsPresent)
      + StepIssues(o, t, faults, Metadata)
  {
    RunIssuesOfSix(o, t, faults, AllChecks);
  }

  /**
   * A check that raises is recorded as False with one error issue; whether one check raises changes neither
   * the result nor the issue contribution of any other check.
   */
  lemma FaultIsolation(o: Notebook, t: Notebook, faults1: set<CheckName>, faults2: set<CheckName>, c: CheckName)
    requires c in faults1 <==> c in faults2
    ensures RunResults(o, t, faults1, AllChecks)[c] == RunResults(o, t, faults2, AllChecks)[c]
    ensures StepIssues(o, t, faults1, c) == StepIssues(o, t, faults2, c)
    ensures c in faults1 ==> RunResults(o, t, faults1, AllChecks)[c] == Some(false)
    ensures c in faults1 ==> StepIssues(o, t, faults1, c) == [ValidationError(c)]
  {
    RunResultsPerCheck(o, t, faults1, AllChecks);
    RunResultsPerCheck(o, t, faults2, AllChecks);
  }

  /**
   * With the checks as written, `all(results.values())` never holds, because the metadata entry is None or
   * False: no file can be reported as passing.
   */
  lemma PassUnreachable(o: Notebook, t: Notebook, faults: set<CheckName>, issues: seq<Issue>)
    ensures FileVerdict(RunResults(o, t, faults, AllChecks), issues) == HasIssues
  {
    RunResultsPerCheck(o, t, faults, AllChecks);
    assert Metadata in AllChecks;
  }

  /** Two empty notebooks give no issue at all, yet the file is still reported with issues. */
  lemma EmptyPairReportsIssues()
    ensures RunIssues(Notebook([], None), Notebook([], None), {}, AllChecks) == []
    ensures FileVerdict(RunResults(Notebook([], None), Notebook([], None), {}, AllChecks), []) == HasIssues
  {
    var empty := Notebook([], None);
    RunIssuesInOrder(empty, empty, {});
    PassUnreachable(empty, empty, {}, []);
  }

  /** The check list names every check. */
  lemma EveryCheckListed()
    ensures forall c :: c in AllChecks
  {
    forall c ensures c in AllChecks {
      match c
      case CellCount => assert AllChecks[0] == c;
      case CellTypes => assert AllChecks[1] == c;
      case CodeCells => assert AllChecks[2] == c;
      case MarkdownTranslation => assert AllChecks[3] == c;
      case OutputsPresent => assert AllChecks[4] == c;
      case Metadata => assert AllChecks[5] == c;
    }
  }

  /** The results with `validate_metadata` returning whether it found the kernels consistent. */
  function CorrectedResults(o: Notebook, t: Notebook, faults: set<CheckName>): (r: map<CheckName, CheckValue>)
    // every check has an entry, and none of them is None
    ensures forall c :: c in r && r[c].Some?
    // the other five entries are those of the run as written
    ensures forall c :: c != Metadata ==> r[c] == StepResult(o, t, faults, c)
    // the metadata entry is True exactly when the check did not raise and found the kernels consistent
    ensures r[Metadata] == Some(true) <==> Metadata !in faults && KernelIssues(o, t) == []
  {
    RunResultsPerCheck(o, t, faults, AllChecks);
    EveryCheckListed();
    RunResults(o, t, faults, AllChecks)[Metadata := if Metadata in faults then Some(false) else Some(KernelIssues(o, t) == [])]
  }

  /** A run that recorded no issue had no check raise and no check append anything. */
  lemma NoIssuesMeansEveryCheckClean(o: Notebook, t: Notebook, faults: set<CheckName>)
    requires RunIssues(o, t, faults, AllChecks) == []
    ensures forall c :: StepIssues(o, t, faults, c) == []
  {
    RunIssuesInOrder(o, t, faults);
    forall c ensures StepIssues(o, t, faults, c) == [] {
      match c
      case CellCount =>
      case CellTypes =>
      case CodeCells =>
      case MarkdownTranslation =>
      case OutputsPresent =>
      case Metadata =>
    }
  }

  /** A check that contributed no issue did not raise, and returned True unless it is the metadata check. */
  lemma CleanCheckPassed(o: Notebook, t: Notebook, faults: set<CheckName>, c: CheckName)
    requires StepIssues(o, t, faults, c) == []
    ensures c !in faults
    ensures c != Metadata ==> CheckResult(c, o, t) == Some(true)
    ensures c == Metadata ==> KernelIssues(o, t) == []
  {
  }

  /** With the corrected metadata check, a file passes exactly when the run recorded no issue. */
  lemma CorrectedPassIffNoIssues(o: Notebook, t: Notebook, faults: set<CheckName>)
    ensures FileVerdict(CorrectedResults(o, t, faults), RunIssues(o, t, faults, AllChecks)) == Pass
      <==> RunIssues(o, t, faults, AllChecks) == []
  {
    var results := CorrectedResults(o, t, faults);
    if RunIssues(o, t, faults, AllChecks) == [] {
      RunResultsPerCheck(o, t, faults, AllChecks);
      NoIssuesMeansEveryCheckClean(o, t, faults);
      forall c | c in results
        ensures results[c] == Some(true)
      {
        CleanCheckPassed(o, t, faults, c);
      }
    }
  }

  /**
   * The per-file part of `main`: a fresh validator runs all checks and the file's status is computed from
   * the results and the issues; as written, the status is never PASS.
   */
  method ValidatePair(o: Notebook, t: Notebook, faults: set<CheckName>)
    returns (results: map<CheckName, CheckValue>, issues: seq<Issue>, status: FileStatus)
    ensures results == RunResults(o, t, faults, AllChecks)
    ensures issues == RunIssues(o, t, faults, AllChecks)
    ensures status == HasIssues
  {
    var validator := new NotebookValidator(o, t);
    results := validator.RunAllValidations(faults);
    issues := validator.issues;
    status := FileVerdict(results, issues);
    PassUnreachable(o, t, faults, issues);
  }

  // ---------------------------------------------------------------------------------------------
  // The validator object

  /** `NotebookValidator`: a pair of parsed notebooks and the list of issues the checks append to. */
  class NotebookValidator {
    const original: Notebook
    const translated: Notebook
    var issues: seq<Issue>

    constructor (original: Notebook, translated: Notebook)
      ensures this.original == original && this.translated == translated
      ensures issues == []
    {
      this.original := original;
      this.translated := translated;
      issues := [];
    }

    method ValidateCellCount() returns (ok: bool)
      modifies this
      ensures ok <==> |original.cells| == |translated.cells|
      ensures issues == old(issues) + CheckIssues(CellCount, original, translated)
    {
      var origCount := |original.cells|;
      var transCount := |translated.cells|;
      if origCount != transCount {
        issues := issues + [CellCountMismatch(origCount, transCount)];
        return false;
      }
      return true;
    }

    method ValidateCellTypes() returns (ok: bool)
      modifies this
      ensures ok == CellTypesOk(original, translated)
      ensures issues == old(issues) + CheckIssues(CellTypes, original, translated)
    {
      var mismatches: seq<TypeMismatch> := [];
      for i := 0 to AlignedLength(original.cells, translated.cells)
        invariant mismatches == TypeMismatchesUpTo(original.cells, translated.cells, i)
      {
        var origType := original.cells[i].cellType;
        var transType := translated.cells[i].cellType;
        if origType != transType {
          mismatches := mismatches + [TypeMismatch(i, origType, transType)];
        }
      }
      if mismatches != [] {
        issues := issues + [CellTypeMismatches(mismatches)];
        return false;
      }
      return true;
    }

    method ValidateCodeCells() returns (ok: bool)
      modifies this
      ensures ok == CodeCellsOk(original, translated)
      ensures issues == old(issues) + CheckIssues(CodeCells, original, translated)
    {
      var mismatches: seq<CodeMismatch> := [];
      for i := 0 to AlignedLength(original.cells, translated.cells)
        invariant mismatches == CodeMismatchesUpTo(original.cells, translated.cells, i)
      {
        var origCell := original.cells[i];
        if origCell.cellType != Some(Code) {
          continue;
        }
        var origSource := Join(origCell.source);
        var transSource := Join(translated.cells[i].source);
        if origSource != transSource {
          if |origSource| < 100 {
            mismatches := mismatches + [CodeMismatch(i, Some(Excerpt(Take(origSource, 100), Take(transSource, 100))))];
          } else {
            mismatches := mismatches + [CodeMismatch(i, None)];
          }
        }
      }
      if mismatches != [] {
        issues := issues + [CodeCellMismatches(mismatches)];
        return false;
      }
      return true;
    }

    method ValidateMarkdownTranslated() returns (ok: bool)
      modifies this
      ensures ok == MarkdownTranslatedOk(original, translated)
      ensures issues == old(issues) + CheckIssues(MarkdownTranslation, original, translated)
    {
      var identicalCount := 0;
      var totalMarkdown := 0;
      for i := 0 to AlignedLength(original.cells, translated.cells)
        invariant totalMarkdown == TotalMarkdown(original.cells, i)
        invariant identicalCount == IdenticalMarkdown(original.cells, translated.cells, i)
      {
        var origCell := original.cells[i];
        if origCell.cellType != Some(Markdown) {
          continue;
        }
        totalMarkdown := totalMarkdown + 1;
        var origSource := Join(origCell.source);
        var transSource := Join(translated.cells[i].source);
        if IsBlank(origSource) {
          continue;
        }
        if origSource == transSource {
          identicalCount := identicalCount + 1;
        }
      }
      if totalMarkdown > 0 && identicalCount == totalMarkdown {
        issues := issues + [MarkdownUntranslated(totalMarkdown)];
        return false;
      }
      return true;
    }

    method ValidateOutputsPresent() returns (ok: bool)
      modifies this
      ensures ok == OutputsPresentOk(original, translated)
      ensures issues == old(issues) + CheckIssues(OutputsPresent, original, translated)
    {
      var missingOutputs: seq<MissingOutput> := [];
      for i := 0 to AlignedLength(original.cells, translated.cells)
        invariant missingOutputs == MissingOutputsUpTo(original.cells, translated.cells, i)
      {
        var origCell := original.cells[i];
        if origCell.cellType != Some(Code) {
          continue;
        }
        var origOutputs := OutputCount(origCell);
        var transOutputs := OutputCount(translated.cells[i]);
        if origOutputs > 0 && transOutputs == 0 {
          missingOutputs := missingOutputs + [MissingOutput(i, origOutputs)];
        }
      }
      if missingOutputs != [] {
        issues := issues + [MissingOutputs(missingOutputs)];
        return false;
      }
      return true;
    }

    /** Appends a kernel warning; returns nothing, which the results map records as None. */
    method ValidateMetadata()
      modifies this
      ensures issues == old(issues) + CheckIssues(Metadata, original, translated)
    {
      var origKernel := original.kernelName;
      var transKernel := translated.kernelName;
      if Truthy(origKernel) && Truthy(transKernel) && origKernel.value != transKernel.value {
        issues := issues + [KernelMismatch(origKernel.value, transKernel.value)];
      }
    }

    /** One entry of the `validations` list, called through its bound method. */
    method RunCheck(name: CheckName) returns (value: CheckValue)
      modifies this
      ensures value == CheckResult(name, original, translated)
      ensures issues == old(issues) + CheckIssues(name, original, translated)
    {
      match name {
        case CellCount =>
          var ok := ValidateCellCount();
          value := Some(ok);
        case CellTypes =>
          var ok := ValidateCellTypes();
          value := Some(ok);
        case CodeCells =>
          var ok := ValidateCodeCells();
          value := Some(ok);
        case MarkdownTranslation =>
          var ok := ValidateMarkdownTranslated();
          value := Some(ok);
        case OutputsPresent =>
          var ok := ValidateOutputsPresent();
          value := Some(ok);
        case Metadata =>
          ValidateMetadata();
          value := None;
      }
    }

    /**
     * `run_all_validations`: every check runs, in order, whatever the others did. A check in `faults` raises:
     * it is recorded as False and one error issue is appended in place of its own.
     */
    method RunAllValidations(faults: set<CheckName>) returns (results: map<CheckName, CheckValue>)
      modifies this
      ensures results == RunResults(original, translated, faults, AllChecks)
      ensures issues == old(issues) + RunIssues(original, translated, faults, AllChecks)
    {
      results := map[];
      for k := 0 to |AllChecks|
        invariant results == RunResults(original, translated, faults, AllChecks[..k])
        invariant issues == old(issues) + RunIssues(original, translated, faults, AllChecks[..k])
      {
        var name := AllChecks[k];
        RunResultsStep(original, translated, faults, AllChecks, k);
        RunIssuesStep(original, translated, faults, AllChecks, k);
        if name in faults {
          issues := issues + [ValidationError(name)];
          results := results[name := Some(false)];
        } else {
          var value := RunCheck(name);
          results := results[name := value];
        }
      }
      assert AllChecks[..|AllChecks|] == AllChecks;
    }
  }
}
