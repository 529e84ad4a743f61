/** How the synchronizer's result looks to the validator. */
module SyncValidation {
  import opened Notebook
  import opened SyncOutputs
  import opened ValidateTranslation

  /** The translated notebook after `sync_notebook_outputs` has run on it. */
  function Synced(o: Notebook, t: Notebook): (r: Notebook)
    ensures |r.cells| == |t.cells| && r.kernelName == t.kernelName
  {
    t.(cells := SyncedCells(o.cells, t.cells))
  }

  /** Synchronizing leaves every cell's type and text, the cell count and the kernel names as they were. */
  lemma SyncKeepsTypesAndText(o: Notebook, t: Notebook)
    ensures AlignedLength(o.cells, Synced(o, t).cells) == AlignedLength(o.cells, t.cells)
    ensures forall i :: 0 <= i < |t.cells| ==>
      Synced(o, t).cells[i].cellType == t.cells[i].cellType && SourceText(Synced(o, t).cells[i]) == SourceText(t.cells[i])
  {
  }

  /**
   * Synchronizing changes no verdict but the outputs one: cell count, cell types, code text, markdown
   * text and kernel names are all as they were.
   */
  lemma SyncKeepsOtherVerdicts(o: Notebook, t: Notebook)
    ensures CellCountIssues(o, Synced(o, t)) == CellCountIssues(o, t)
    ensures CellTypesOk(o, Synced(o, t)) == CellTypesOk(o, t)
    ensures CodeCellsOk(o, Synced(o, t)) == CodeCellsOk(o, t)
    ensures MarkdownTranslatedOk(o, Synced(o, t)) == MarkdownTranslatedOk(o, t)
    ensures KernelIssues(o, Synced(o, t)) == KernelIssues(o, t)
  {
    SyncKeepsTypesAndText(o, t);
    SyncKeepsMarkdownVerdict(o, t);
  }

  lemma SyncKeepsMarkdownVerdict(o: Notebook, t: Notebook)
    ensures MarkdownTranslatedOk(o, Synced(o, t)) == MarkdownTranslatedOk(o, t)
  {
    SyncKeepsTypesAndText(o, t);
    var s := Synced(o, t);
    var n := AlignedLength(o.cells, t.cells);
    assert forall i :: 0 <= i < n ==> IdenticalMarkdownPair(o.cells[i], s.cells[i]) == IdenticalMarkdownPair(o.cells[i], t.cells[i]);
  }

  /**
   * After synchronizing, an original code cell with outputs can still be reported as missing its outputs
   * only where the translated cell is not a code cell.
   */
  lemma MissingOutputsAfterSync(o: Notebook, t: Notebook)
    ensures forall e :: e in MissingOutputsOf(o, Synced(o, t)) ==> !IsCode(t.cells[e.index])
  {
  }

  /** When the cell types line up, synchronizing makes the outputs check pass. */
  lemma SyncMakesOutputsPresent(o: Notebook, t: Notebook)
    requires CellTypesOk(o, t)
    ensures OutputsPresentOk(o, Synced(o, t))
  {
    var s := Synced(o, t);
    forall i | 0 <= i < AlignedLength(o.cells, s.cells) && IsCode(o.cells[i]) && OutputCount(o.cells[i]) > 0
      ensures OutputCount(s.cells[i]) > 0
    {
      assert s.cells[i] == SyncCell(o.cells[i], t.cells[i]);
    }
  }
}
