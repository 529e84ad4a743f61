/** Copying outputs and execution counts from an original notebook onto its translation. */
module SyncOutputs {
  import opened Notebook

  /** The synchronizer touches an aligned pair only when both cells are code cells. */
  predicate BothCode(o: Cell, t: Cell) {
    IsCode(o) && IsCode(t)
  }

  /** At this pair the outputs are copied, and the pair is counted. */
  predicate CopiesOutputs(o: Cell, t: Cell) {
    BothCode(o, t) && OutputCount(o) > 0
  }

  /** What one iteration of the copy loop makes of the translated cell `t`, given the original cell `o`. */
  function SyncCell(o: Cell, t: Cell): (r: Cell)
    // only `outputs` and `execution_count` are ever written
    ensures r.cellType == t.cellType && r.source == t.source && r.rest == t.rest
    ensures !BothCode(o, t) ==> r == t
    // outputs are overwritten only from a non-empty original list; otherwise left as they were
    ensures r.outputs == if CopiesOutputs(o, t) then o.outputs else t.outputs
    // execution_count is copied whenever the original has the key, even with value null
    ensures r.executionCount == if BothCode(o, t) && o.executionCount.Some? then o.executionCount else t.executionCount
  {
    if o.cellType == Some(Code) && t.cellType == Some(Code) then
      var withOutputs := if o.outputs.Some? && |o.outputs.value| > 0 then t.(outputs := o.outputs) else t;
      if o.executionCount.Some? then withOutputs.(executionCount := o.executionCount) else withOutputs
    else
      t
  }

  /** The translated cells after synchronization. */
  function SyncedCells(original: seq<Cell>, translated: seq<Cell>): (r: seq<Cell>)
    ensures |r| == |translated|
    ensures forall i :: AlignedLength(original, translated) <= i < |translated| ==> r[i] == translated[i]
    ensures forall i :: 0 <= i < |translated| && r[i] != translated[i] ==>
      i < AlignedLength(original, translated) && BothCode(original[i], translated[i])
  {
    seq(|translated|, i requires 0 <= i < |translated| =>
      if i < AlignedLength(original, translated) then SyncCell(original[i], translated[i]) else translated[i])
  }

  /** The value of the `outputs_copied` counter after the first `n` aligned indices. */
  function CopyCount(original: seq<Cell>, translated: seq<Cell>, n: nat): (k: nat)
    requires n <= |original| && n <= |translated|
    ensures k <= n
    ensures k == 0 <==> forall i :: 0 <= i < n ==> !CopiesOutputs(original[i], translated[i])
  {
    if n == 0 then 0
    else CopyCount(original, translated, n - 1) + if CopiesOutputs(original[n - 1], translated[n - 1]) then 1 else 0
  }

  /**
   * The number `sync_notebook_outputs` returns: how many aligned pairs are both code cells with a non-empty
   * original output list.
   */
  function OutputsCopied(original: seq<Cell>, translated: seq<Cell>): (k: nat)
    ensures k <= AlignedLength(original, translated)
    ensures k == |set i | 0 <= i < AlignedLength(original, translated) && CopiesOutputs(original[i], translated[i])|
  {
    CopyCountIsCardinality(original, translated, AlignedLength(original, translated));
    CopyCount(original, translated, AlignedLength(original, translated))
  }

  /**
   * `sync_notebook_outputs`: walks the aligned prefix and, where both cells are code cells, writes the
   * original's outputs and execution count into the translated cell in place; returns how many cells had
   * outputs copied. The original notebook is a value and cannot change.
   */
  method SyncNotebookOutputs(original: Notebook, translated: array<Cell>) returns (outputsCopied: nat)
    modifies translated
    ensures translated[..] == SyncedCells(original.cells, old(translated[..]))
    ensures outputsCopied == OutputsCopied(original.cells, old(translated[..]))
  {
    ghost var before := translated[..];
    var minCells: nat;
    if |original.cells| != translated.Length {
      minCells := if |original.cells| < translated.Length then |original.cells| else translated.Length;
    } else {
      minCells := |original.cells|;
    }
    assert minCells == AlignedLength(original.cells, before);

    outputsCopied := 0;
    for i := 0 to minCells
      invariant forall k :: 0 <= k < i ==> translated[k] == SyncCell(original.cells[k], before[k])
      invariant forall k :: i <= k < translated.Length ==> translated[k] == before[k]
      invariant outputsCopied == CopyCount(original.cells, before, i)
    {
      var origCell := original.cells[i];
      var transCell := translated[i];
      if origCell.cellType == Some(Code) && transCell.cellType == Some(Code) {
        if origCell.outputs.Some? && |origCell.outputs.value| > 0 {
          transCell := transCell.(outputs := origCell.outputs);
          outputsCopied := outputsCopied + 1;
        }
        if origCell.executionCount.Some? {
          transCell := transCell.(executionCount := origCell.executionCount);
        }
        translated[i] := transCell;
      }
    }
    assert forall k :: 0 <= k < translated.Length ==> translated[..][k] == SyncedCells(original.cells, before)[k];
  }

  /** The returned count is the number of aligned indices where both cells are code and the original has outputs. */
  lemma {:induction false} CopyCountIsCardinality(original: seq<Cell>, translated: seq<Cell>, n: nat)
    requires n <= |original| && n <= |translated|
    ensures CopyCount(original, translated, n) == |set i | 0 <= i < n && CopiesOutputs(original[i], translated[i])|
  {
    var s := set i | 0 <= i < n && CopiesOutputs(original[i], translated[i]);
    if n > 0 {
      var s' := set i | 0 <= i < n - 1 && CopiesOutputs(original[i], translated[i]);
      CopyCountIsCardinality(original, translated, n - 1);
      if CopiesOutputs(original[n - 1], translated[n - 1]) {
        assert s == s' + {n - 1};
      } else {
        assert s == s';
      }
    } else {
      assert s == {};
    }
  }

  /** Synchronization never changes whether a pair would have its outputs copied. */
  lemma SyncKeepsCopyDecision(o: Cell, t: Cell)
    ensures CopiesOutputs(o, SyncCell(o, t)) == CopiesOutputs(o, t)
    ensures SyncCell(o, SyncCell(o, t)) == SyncCell(o, t)
  {
  }

  /** The counter over a prefix is the same before and after synchronization. */
  lemma {:induction false} CopyCountAfterSync(original: seq<Cell>, translated: seq<Cell>, n: nat)
    requires n <= AlignedLength(original, translated)
    ensures CopyCount(original, SyncedCells(original, translated), n) == CopyCount(original, translated, n)
  {
    if n > 0 {
      CopyCountAfterSync(original, translated, n - 1);
      SyncKeepsCopyDecision(original[n - 1], translated[n - 1]);
    }
  }

  /** Idempotence: a second run over the result leaves the translated cells as they are and returns the same count. */
  lemma SyncIdempotent(original: seq<Cell>, translated: seq<Cell>)
    ensures SyncedCells(original, SyncedCells(original, translated)) == SyncedCells(original, translated)
    ensures OutputsCopied(original, SyncedCells(original, translated)) == OutputsCopied(original, translated)
  {
    var once := SyncedCells(original, translated);
    forall i | 0 <= i < AlignedLength(original, translated)
      ensures SyncCell(original[i], once[i]) == once[i]
    {
      SyncKeepsCopyDecision(original[i], translated[i]);
    }
    CopyCountAfterSync(original, translated, AlignedLength(original, translated));
  }

  /**
   * A three-cell pair: a code cell with two outputs, a markdown cell and a code cell without outputs,
   * translated with empty output lists. Only the first cell gets outputs, and the count is one.
   */
  lemma ThreeCellExample(original: seq<Cell>, translated: seq<Cell>, a: Output, b: Output)
    requires original == [
      Cell(Some(Code), ["x = 1"], Some([a, b]), Some(Some(1)), map[]),
      Cell(Some(Markdown), ["# Title"], None, None, map[]),
      Cell(Some(Code), ["y = 2"], Some([]), Some(None), map[])]
    requires translated == [
      Cell(Some(Code), ["x = 1"], Some([]), Some(None), map[]),
      Cell(Some(Markdown), ["# Titel"], None, None, map[]),
      Cell(Some(Code), ["y = 2"], Some([]), Some(None), map[])]
    ensures OutputsCopied(original, translated) == 1
    ensures SyncedCells(original, translated)[0].outputs == Some([a, b])
    ensures SyncedCells(original, translated)[1] == translated[1]
    ensures SyncedCells(original, translated)[2].outputs == Some([])
  {
    assert CopiesOutputs(original[0], translated[0]);
    assert !CopiesOutputs(original[1], translated[1]);
    assert !CopiesOutputs(original[2], translated[2]);
    assert CopyCount(original, translated, 1) == 1;
    assert CopyCount(original, translated, 2) == 1;
  }
}
