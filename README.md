# Notebook translation: output synchronizer and translation validator

This project models the two procedures that reconcile a Jupyter notebook with its translation. Both work on
two parsed notebooks, an *original* and a *translated* one, and pair their cells by position up to the
shorter length.

- **Output synchronizer** (`sync_notebook_outputs`). Where both aligned cells are code cells, it copies the
  original's `outputs` (only when the list is non-empty) and its `execution_count` (whenever the key is
  present, even with value null) onto the translated cell, in place. It returns how many cells had outputs
  copied. The model is `SyncOutputs.SyncNotebookOutputs`, a method over the translated cells as an
  `array<Cell>`. It is proved against the specification function `SyncedCells` and the counter
  `CopyCount`, and the lemmas beside them prove the frame, the count and idempotence.
- **Translation validator** (`NotebookValidator`). It is a class holding both notebooks and an `issues`
  list. Six checks each return a verdict and may append one issue: cell count, cell types, code text,
  markdown translated, outputs present and kernel metadata. `run_all_validations` runs all six in order
  and records a check that raises as False with an error issue. The model is the class
  `ValidateTranslation.NotebookValidator`. Each check is a method with the source's loop, proved against
  pure functions. Those functions' contracts state each verdict as a predicate over the two cell
  sequences, in both directions.

Files and modules:

- `notebook.dfy` (`Notebook`): cells, notebooks, `''.join`, `str.strip()` blankness, the alignment length.
- `sync_outputs.dfy` (`SyncOutputs`): the synchronizer.
- `validate_translation.dfy` (`ValidateTranslation`): the validator, the run over all checks, the per-file verdict.
- `sync_validation.dfy` (`SyncValidation`): what the validator sees after the synchronizer has run.

Representation choices:

- A cell's `cell_type` is `Option<string>` because `.get('cell_type')` may give None.
- `outputs` is `Option<seq<Output>>`, where a missing key is `None`.
- `execution_count` is `Option<Option<int>>`, so that a key present with value null (`Some(None)`) differs
  from a missing key (`None`).
- Every other key of a cell is kept in `rest`, so that "nothing else changes" can be stated.
- A notebook is its cells plus `metadata.kernelspec.name`. That name is `None` when any level of the lookup is missing.
- Issues are tagged values that carry the indices, types, counts and excerpts the source formats into its messages.
- The result of a check is `Option<bool>`, because `validate_metadata` returns Python's `None`.
- Which checks raise on a given pair depends on Python's dynamic typing of malformed JSON. It is a parameter,
  `faults: set<CheckName>`. A check that raises appends nothing of its own, because every check appends
  only once, at its end, after all its reads of the notebooks.

The model follows the code as written; in particular:

- The code, markdown and outputs checks gate only on the ORIGINAL cell's type. The translated cell's
  type is never looked at (validate_translation.py:48, 72, 96).
- `total_markdown` counts every original markdown cell in the zipped prefix, blank ones included. Only
  `identical_count` skips blank cells (validate_translation.py:75, 80-81). So one blank markdown cell
  makes the markdown check pass (`MarkdownTranslatedOk`).
- The per-file status is PASS only if every result is truthy and no issue was recorded. The metadata
  result is `None`, or False when that check raised, so PASS is never reached (see Findings).

## Model

| member | source | states |
|---|---|---|
| `Notebook.AlignedLength` | sync_outputs.py:18-23 | the walked length is the shorter of the two cell counts (`min`, as `zip` also stops) |
| `Notebook.OutputCount` | validate_translation.py:99-102 | `len(cell.get('outputs', []))` is zero exactly when the key is missing or the list is empty |
| `Notebook.Join` | validate_translation.py:51-52 | `''.join` of no fragments is empty and of one fragment is that fragment |
| `Notebook.JoinAppend` | validate_translation.py:51-52 | joining two fragment lists one after the other gives the concatenation of their joins |
| `Notebook.IsSpaceMatchesTable` | validate_translation.py:80 | the code-point range test for whitespace accepts exactly the 29 characters Python's `str.isspace` accepts, listed one by one in `Whitespace` |
| `Notebook.LStrip` | validate_translation.py:80 | `lstrip()` leaves a suffix that is empty or starts with a non-whitespace character, and everything it dropped is whitespace |
| `Notebook.RStrip` | validate_translation.py:80 | `rstrip()` leaves a prefix that is empty or ends with a non-whitespace character, and everything it dropped is whitespace |
| `Notebook.Strip` | validate_translation.py:80 | `strip()` gives the slice of the text left once everything before and after it, all whitespace, is dropped; the slice neither starts nor ends with whitespace, and is empty iff the text is all whitespace |
| `Notebook.BlankIffStripEmpty` | validate_translation.py:80 | the blankness test `not orig_source.strip()` holds exactly when every character is whitespace, the empty text included |
| `Notebook.Take` | validate_translation.py:58-59 | `s[:k]` is a prefix of `s` of length `min(k, len(s))` |
| `SyncOutputs.SyncCell` | sync_outputs.py:31-39 | one loop step writes only `outputs` and `execution_count`; it leaves a pair that is not code/code untouched; it overwrites `outputs` only from a non-empty original list (otherwise the translated value, present or absent, stays); it copies `execution_count` whenever the original has the key, null included |
| `SyncOutputs.SyncedCells` | sync_outputs.py:17-29 | the translated cell list keeps its length; cells at or beyond the alignment bound are unchanged; a cell changes only at an aligned index where both cells are code |
| `SyncOutputs.CopyCount` | sync_outputs.py:26-35 | the counter never exceeds the number of visited indices, and is zero exactly when no visited pair copies outputs |
| `SyncOutputs.OutputsCopied` | sync_outputs.py:46 | the returned count is at most the aligned length and equals the number of aligned pairs that are both code with non-empty original outputs |
| `SyncOutputs.SyncNotebookOutputs` | sync_outputs.py:5-46 | the in-place loop leaves the translated cells equal to `SyncedCells` of the old cells and returns the counter over the whole aligned prefix; the original notebook is a value and cannot change |
| `SyncOutputs.CopyCountIsCardinality` | sync_outputs.py:26-46 | the returned count equals the number of aligned indices where both cells are code and the original has non-empty outputs; an `execution_count` copy alone does not count |
| `SyncOutputs.SyncKeepsCopyDecision` | sync_outputs.py:32-39 | one step does not change whether its pair copies outputs, and a second step changes nothing |
| `SyncOutputs.CopyCountAfterSync` | sync_outputs.py:26-35 | the counter over any aligned prefix is the same for the synchronized cells as for the original ones |
| `SyncOutputs.SyncIdempotent` | sync_outputs.py:27-39 | a second run gives the same translated cells and returns the same count |
| `SyncOutputs.ThreeCellExample` | sync_outputs.py:26-39 | a code cell with two outputs, a markdown cell and a code cell without outputs, over empty translated outputs: count 1, only the first cell receives outputs |
| `ValidateTranslation.CellCountIssues` | validate_translation.py:17-27 | the count check appends nothing when the lengths agree and exactly one entry with both counts when they differ |
| `ValidateTranslation.TypeMismatchesUpTo` | validate_translation.py:31-37 | the `mismatches` list holds an entry, with both types, for exactly the zipped indices whose `cell_type` values differ (a missing type is None) |
| `ValidateTranslation.CellTypesOk` | validate_translation.py:29-42 | the cell-type check is True iff every zipped pair has equal `cell_type` |
| `ValidateTranslation.CodeMismatchAt` | validate_translation.py:54-59 | the "Original:"/"Translated:" excerpts are present iff the original text is shorter than 100 characters; the original excerpt is then the whole text, the translated one its first 100 characters |
| `ValidateTranslation.CodeMismatchesUpTo` | validate_translation.py:46-59 | the code report lists exactly the zipped indices whose ORIGINAL cell is code and whose joined texts differ |
| `ValidateTranslation.CodeCellsOk` | validate_translation.py:44-64 | the code check is True iff every zipped original code cell has the same joined text as its translated cell, whatever that cell's type |
| `ValidateTranslation.TotalMarkdown` | validate_translation.py:69-75 | `total_markdown` counts every zipped original markdown cell, blank ones included; it is positive iff one exists |
| `ValidateTranslation.TotalMarkdownIsCardinality` | validate_translation.py:69-75 | `total_markdown`, also the number in the warning at line 87, is the number of original markdown cells in the zipped prefix |
| `ValidateTranslation.IdenticalMarkdown` | validate_translation.py:68-84 | `identical_count` never exceeds `total_markdown`, and equals it iff every zipped original markdown cell is non-blank and identical in the translation |
| `ValidateTranslation.MarkdownTranslatedOk` | validate_translation.py:66-90 | the markdown check is False iff the zipped prefix has an original markdown cell and every such cell is non-blank and identical in the translation |
| `ValidateTranslation.MissingOutputsUpTo` | validate_translation.py:94-103 | the `missing_outputs` list holds, with the original's output count, exactly the zipped indices with an original code cell that has outputs and a translated cell with none |
| `ValidateTranslation.OutputsPresentOk` | validate_translation.py:92-108 | the outputs check is True iff every zipped original code cell with outputs faces a translated cell with outputs, whatever its type |
| `ValidateTranslation.KernelIssues` | validate_translation.py:110-117 | the metadata check appends one kernel warning iff both kernel names are present, non-empty and different |
| `ValidateTranslation.CheckResult` | validate_translation.py:17-117 | every check returns True or False except the metadata check, which returns None |
| `ValidateTranslation.CheckIssues` | validate_translation.py:17-117 | each check appends at most one issue, and every check but the metadata one appends one iff it returns False |
| `ValidateTranslation.RunResults` | validate_translation.py:130-138 | the results map has exactly the run checks as keys |
| `ValidateTranslation.EveryCheckListed` | validate_translation.py:121-128 | the check list names all six checks |
| `ValidateTranslation.RoundOutcome` | validate_translation.py:130-136 | one loop round appends at most one issue; a raising check is recorded False with one error entry; only a non-raising metadata check leaves None; any other check appends nothing iff its result is True |
| `ValidateTranslation.RunIssuesContents` | validate_translation.py:130-136 | the issues of a run number at most the checks run, are empty iff no round appended anything, and hold the error entry of every check that raised |
| `ValidateTranslation.RunResultsStep` | validate_translation.py:131-136 | one more loop round adds that check's result to the results map |
| `ValidateTranslation.RunIssuesStep` | validate_translation.py:131-136 | one more loop round appends that check's issues at the end of the list |
| `ValidateTranslation.RunResultsPerCheck` | validate_translation.py:130-138 | each check's entry in the results map is its own result, or False if it raised |
| `ValidateTranslation.RunIssuesOfSix` | validate_translation.py:121-136 | running six checks appends their six contributions in list order |
| `ValidateTranslation.RunIssuesInOrder` | validate_translation.py:121-136 | all six checks run in the listed order and none is skipped |
| `ValidateTranslation.FaultIsolation` | validate_translation.py:131-136 | a raising check is recorded as False with exactly one error issue; whether other checks raise changes neither its result nor its issues |
| `ValidateTranslation.FileVerdict` | validate_translation.py:173-174 | the status is PASS iff every result is truthy and no issue was recorded |
| `ValidateTranslation.PassUnreachable` | validate_translation.py:173-174 | with the checks as written, the status of every file is "ISSUES" |
| `ValidateTranslation.EmptyPairReportsIssues` | validate_translation.py:163-174 | two empty notebooks record no issue and are still reported with issues |
| `ValidateTranslation.CorrectedResults` | validate_translation.py:110-117 | with `validate_metadata` returning its verdict, every check has an entry and none is None; the other five entries are those of the run as written; the metadata entry is True iff the check did not raise and the kernels are consistent |
| `ValidateTranslation.NoIssuesMeansEveryCheckClean` | validate_translation.py:119-138 | a run that recorded no issue had no check raise and no check append anything |
| `ValidateTranslation.CleanCheckPassed` | validate_translation.py:17-136 | a check that contributed no issue did not raise, and returned True unless it is the metadata check |
| `ValidateTranslation.CorrectedPassIffNoIssues` | validate_translation.py:110-117 | with the metadata check returning whether the kernels agree, a file passes iff the run recorded no issue |
| `ValidateTranslation.ValidatePair` | validate_translation.py:163-174 | a fresh validator's run yields `RunResults`, `RunIssues` and a status that is never PASS |
| `ValidateTranslation.NotebookValidator.constructor` | validate_translation.py:6-9 | a new validator holds both notebooks and an empty issue list |
| `ValidateTranslation.NotebookValidator.ValidateCellCount` | validate_translation.py:17-27 | returns whether the cell counts agree, and appends the count check's issue |
| `ValidateTranslation.NotebookValidator.ValidateCellTypes` | validate_translation.py:29-42 | the loop returns `CellTypesOk` and appends the type report iff it is False |
| `ValidateTranslation.NotebookValidator.ValidateCodeCells` | validate_translation.py:44-64 | the loop returns `CodeCellsOk` and appends the code report iff it is False |
| `ValidateTranslation.NotebookValidator.ValidateMarkdownTranslated` | validate_translation.py:66-90 | the counting loop returns `MarkdownTranslatedOk` and appends the warning with `total_markdown` iff it is False |
| `ValidateTranslation.NotebookValidator.ValidateOutputsPresent` | validate_translation.py:92-108 | the loop returns `OutputsPresentOk` and appends the missing-outputs report iff it is False |
| `ValidateTranslation.NotebookValidator.ValidateMetadata` | validate_translation.py:110-117 | returns nothing and appends `KernelIssues` |
| `ValidateTranslation.NotebookValidator.RunCheck` | validate_translation.py:121-133 | calling one entry of the check list gives that check's result and issues |
| `ValidateTranslation.NotebookValidator.RunAllValidations` | validate_translation.py:119-138 | the results map is `RunResults` and the issue list grows by exactly `RunIssues` over all six checks |
| `SyncValidation.Synced` | sync_outputs.py:25-43 | the synchronized notebook keeps its cell count and kernel name |
| `SyncValidation.SyncKeepsTypesAndText` | sync_outputs.py:28-39 | synchronizing keeps every cell's type and joined text and the alignment length |
| `SyncValidation.SyncKeepsMarkdownVerdict` | validate_translation.py:66-90 | the markdown check gives the same verdict before and after synchronizing |
| `SyncValidation.SyncKeepsOtherVerdicts` | validate_translation.py:17-117 | synchronizing changes none of the count, type, code, markdown and kernel verdicts |
| `SyncValidation.MissingOutputsAfterSync` | validate_translation.py:92-108 | after synchronizing, a missing-outputs entry can only be at an index whose translated cell is not code |
| `SyncValidation.SyncMakesOutputsPresent` | validate_translation.py:92-108 | when the cell types line up, synchronizing makes the outputs check pass |

## Findings

| source | as written | input that shows it | evidently intended | confidence | as-written member | corrected member |
|---|---|---|---|---|---|---|
| validate_translation.py:110-117 | `validate_metadata` has no `return`, so `results["Metadata"]` is None, or False when the check raised. Then `all(results.values())` is false, and the status at lines 173-174 is never PASS | two empty notebooks without kernel names: no issue is recorded, yet the status is "ISSUES" | the metadata check returns whether the kernels agree, so a file passes exactly when no issue was recorded | high; not executed | `ValidateTranslation.EmptyPairReportsIssues` | `ValidateTranslation.CorrectedPassIffNoIssues` |

The validator itself (`RunAllValidations`, `ValidatePair`) keeps the behaviour as written. The corrected
results are `ValidateTranslation.CorrectedResults`, and the verdict function `FileVerdict` is shared by both.

## Left out

- Reading and writing the notebook files, `json.load`/`json.dump` with `ensure_ascii=False, indent=1`. Notebooks are already-parsed values. The synchronizer's result is the new content of the translated cell array, and writing it back is not modelled.
- Both `main` functions: directory globbing over `10*.ipynb` and `13*.ipynb`, the check for a missing counterpart, console output and the summary counters. I/O orchestration only. The per-file status expression of `main` is modelled (`FileVerdict`, `ValidatePair`).
- The printed warning when the cell counts differ, and all other console output. The text of issues is not modelled either: issues are tagged values carrying the same data.
- Which inputs make a check raise (a missing `cells` key, non-string `source` items, a `null` outputs value, a non-dict `metadata`). These depend on dynamic typing, and the model takes them as the `faults` parameter. The exception message is not kept, only the name of the check that raised.
- Aliasing. In the source the cell dictionaries are mutated in place, and the translated cell's `outputs` becomes the very list object of the original cell. The model keeps cells as values in an array and copies the list by value.
- Insertion order of the `results` dict. The model uses a map. The order in which checks run is captured by `RunIssues` and the loop of `RunAllValidations`.
- JSON values of unexpected types (a non-string `cell_type` or kernel name, a `source` given as one string rather than a list). A `source` given as a single string joins to the same text as a one-element list, which is how it is represented.
- The unused `unified_diff` import.
