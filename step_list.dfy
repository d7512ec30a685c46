/** The list transformations behind the row buttons of the step table (move
    up, move down, delete, insert below) and the total roast time. Each row
    operation reads the whole table into a list, transforms the list with one
    of these functions and rebuilds the table from the result. */
module StepList {
  import opened Wrappers
  import opened StepWidgets

  /** The steps a table of well-formed rows can hold: canonical and renderable. */
  predicate TableSteps(steps: seq<StepEntry>) {
    forall i :: 0 <= i < |steps| ==> Canonical(steps[i]) && Renderable(steps[i])
  }

  /** `steps[row], steps[row-1] = steps[row-1], steps[row]` unless `row` is the
      first row, where moving up does nothing. */
  function MovedUp(steps: seq<StepEntry>, row: nat): (r: seq<StepEntry>)
    requires row < |steps|
    ensures |r| == |steps|
    ensures row == 0 ==> r == steps
    ensures row != 0 ==>
              r[row - 1] == steps[row] && r[row] == steps[row - 1] &&
              forall i :: 0 <= i < |steps| && i != row - 1 && i != row ==> r[i] == steps[i]
  {
    if row != 0 then steps[row := steps[row - 1]][row - 1 := steps[row]] else steps
  }

  /** `steps[row], steps[row+1] = steps[row+1], steps[row]` unless `row` is the
      last row, where moving down does nothing. */
  function MovedDown(steps: seq<StepEntry>, row: nat): (r: seq<StepEntry>)
    requires row < |steps|
    ensures |r| == |steps|
    ensures row == |steps| - 1 ==> r == steps
    ensures row != |steps| - 1 ==>
              r[row] == steps[row + 1] && r[row + 1] == steps[row] &&
              forall i :: 0 <= i < |steps| && i != row && i != row + 1 ==> r[i] == steps[i]
  {
    if row != |steps| - 1 then steps[row := steps[row + 1]][row + 1 := steps[row]] else steps
  }

  /** `steps.pop(row)`: the step at `row` is gone, the others keep their order. */
  function Deleted(steps: seq<StepEntry>, row: nat): (r: seq<StepEntry>)
    requires row < |steps|
    ensures |r| == |steps| - 1
    ensures forall i :: 0 <= i < row ==> r[i] == steps[i]
    ensures forall i :: row <= i < |r| ==> r[i] == steps[i + 1]
  {
    steps[..row] + steps[row + 1..]
  }

  /** `steps.insert(row + 1, default step)`: a default step right below `row`,
      the original steps around it in their order. */
  function Inserted(steps: seq<StepEntry>, row: nat): (r: seq<StepEntry>)
    requires row < |steps|
    ensures |r| == |steps| + 1
    ensures r[row + 1] == DefaultStep
    ensures forall i :: 0 <= i <= row ==> r[i] == steps[i]
    ensures forall i :: row + 1 < i < |r| ==> r[i] == steps[i - 1]
  {
    steps[..row + 1] + [DefaultStep] + steps[row + 1..]
  }

  /** The sum of the steps' section times, as `save_recipe` accumulates it. */
  function SumSectionTimes(steps: seq<StepEntry>): int
  {
    if steps == [] then 0
    else SumSectionTimes(steps[..|steps| - 1]) + steps[|steps| - 1].sectionTime
  }

  // ---------------------------------------------------------------------------
  // Reordering only permutes

  /** Swapping two neighbours keeps the same steps. */
  lemma {:induction false} SwapPermutes(steps: seq<StepEntry>, k: nat)
    requires k + 1 < |steps|
    ensures multiset(steps[k := steps[k + 1]][k + 1 := steps[k]]) == multiset(steps)
  {
    var swapped := steps[k := steps[k + 1]][k + 1 := steps[k]];
    assert steps == steps[..k] + [steps[k], steps[k + 1]] + steps[k + 2..];
    assert swapped == steps[..k] + [steps[k + 1], steps[k]] + steps[k + 2..];
  }

  /** Moving a step up keeps the same steps, only their order changes. */
  lemma {:induction false} MoveUpPermutes(steps: seq<StepEntry>, row: nat)
    requires row < |steps|
    ensures multiset(MovedUp(steps, row)) == multiset(steps)
  {
    if row != 0 {
      var up := MovedUp(steps, row);
      assert up == steps[row - 1 := steps[row]][row := steps[row - 1]];
      SwapPermutes(steps, row - 1);
    }
  }

  /** Moving a step down keeps the same steps, only their order changes. */
  lemma {:induction false} MoveDownPermutes(steps: seq<StepEntry>, row: nat)
    requires row < |steps|
    ensures multiset(MovedDown(steps, row)) == multiset(steps)
  {
    if row != |steps| - 1 {
      var down := MovedDown(steps, row);
      assert down == steps[row := steps[row + 1]][row + 1 := steps[row]];
      SwapPermutes(steps, row);
    }
  }

  /** Moving row i up and then row i - 1 down restores the original order. */
  lemma {:induction false} UpThenDownRestores(steps: seq<StepEntry>, i: nat)
    requires 1 <= i < |steps|
    ensures MovedDown(MovedUp(steps, i), i - 1) == steps
  {
    var up := MovedUp(steps, i);
    var back := MovedDown(up, i - 1);
    assert forall k :: 0 <= k < |steps| ==> back[k] == steps[k];
  }

  /** Moving row i down and then row i + 1 up restores the original order. */
  lemma {:induction false} DownThenUpRestores(steps: seq<StepEntry>, i: nat)
    requires i + 1 < |steps|
    ensures MovedUp(MovedDown(steps, i), i + 1) == steps
  {
    var down := MovedDown(steps, i);
    var back := MovedUp(down, i + 1);
    assert forall k :: 0 <= k < |steps| ==> back[k] == steps[k];
  }

  /** Deleting removes exactly one occurrence of the step at `row`. */
  lemma {:induction false} DeletedRemovesOne(steps: seq<StepEntry>, row: nat)
    requires row < |steps|
    ensures multiset(Deleted(steps, row)) + multiset{steps[row]} == multiset(steps)
  {
    assert steps == steps[..row] + [steps[row]] + steps[row + 1..];
  }

  /** Deleting the inserted row brings back the list it was inserted into. */
  lemma {:induction false} DeleteUndoesInsert(steps: seq<StepEntry>, row: nat)
    requires row < |steps|
    ensures Deleted(Inserted(steps, row), row + 1) == steps
  {
    var back := Deleted(Inserted(steps, row), row + 1);
    assert forall k :: 0 <= k < |steps| ==> back[k] == steps[k];
  }

  /** Every row operation keeps a list of table steps a list of table steps. */
  lemma {:induction false} OperationsKeepTableSteps(steps: seq<StepEntry>, row: nat)
    requires row < |steps| && TableSteps(steps)
    ensures TableSteps(MovedUp(steps, row)) && TableSteps(MovedDown(steps, row))
    ensures TableSteps(Deleted(steps, row)) && TableSteps(Inserted(steps, row))
  {
    var ins := Inserted(steps, row);
    forall i | 0 <= i < |ins| ensures Canonical(ins[i]) && Renderable(ins[i]) {
      if i <= row {
      } else if i > row + 1 {
        assert ins[i] == steps[i - 1];
      }
    }
  }

  // ---------------------------------------------------------------------------
  // Total time

  lemma {:induction false} SumAppend(a: seq<StepEntry>, b: seq<StepEntry>)
    ensures SumSectionTimes(a + b) == SumSectionTimes(a) + SumSectionTimes(b)
    decreases |b|
  {
    if b == [] {
      assert a + b == a;
    } else {
      var last := |b| - 1;
      assert (a + b)[..|a + b| - 1] == a + b[..last];
      SumAppend(a, b[..last]);
    }
  }

  lemma {:induction false} SumSingle(s: StepEntry)
    ensures SumSectionTimes([s]) == s.sectionTime
  {
    assert [s][..0] == [];
  }

  /** The total is the sum of the prefix, the step and the suffix. */
  lemma {:induction false} SumSplit(steps: seq<StepEntry>, k: nat)
    requires k < |steps|
    ensures SumSectionTimes(steps) ==
      SumSectionTimes(steps[..k]) + steps[k].sectionTime + SumSectionTimes(steps[k + 1..])
  {
    assert steps == steps[..k] + [steps[k]] + steps[k + 1..];
    SumAppend(steps[..k] + [steps[k]], steps[k + 1..]);
    SumAppend(steps[..k], [steps[k]]);
    SumSingle(steps[k]);
  }

  /** Swapping two neighbouring steps leaves the total time unchanged. */
  lemma {:induction false} SumSwapNeighbours(steps: seq<StepEntry>, k: nat)
    requires k + 1 < |steps|
    ensures SumSectionTimes(steps[k := steps[k + 1]][k + 1 := steps[k]]) == SumSectionTimes(steps)
  {
    var swapped := steps[k := steps[k + 1]][k + 1 := steps[k]];
    SumSplit(steps, k);
    SumSplit(steps[k + 1..], 0);
    SumSplit(swapped, k);
    SumSplit(swapped[k + 1..], 0);
    assert swapped[..k] == steps[..k];
    assert swapped[k + 1..][1..] == steps[k + 1..][1..];
    assert steps[k + 1..][..0] == [] && swapped[k + 1..][..0] == [];
  }

  /** Reordering the steps does not change the total roast time. */
  lemma {:induction false} MovesKeepTotalTime(steps: seq<StepEntry>, row: nat)
    requires row < |steps|
    ensures SumSectionTimes(MovedUp(steps, row)) == SumSectionTimes(steps)
    ensures SumSectionTimes(MovedDown(steps, row)) == SumSectionTimes(steps)
  {
    if row != 0 {
      SumSwapNeighbours(steps, row - 1);
      assert MovedUp(steps, row) == steps[row - 1 := steps[row]][row := steps[row - 1]];
    }
    if row != |steps| - 1 {
      SumSwapNeighbours(steps, row);
    }
  }

  /** Deleting a step takes its time off the total. */
  lemma {:induction false} DeleteTotalTime(steps: seq<StepEntry>, row: nat)
    requires row < |steps|
    ensures SumSectionTimes(Deleted(steps, row)) == SumSectionTimes(steps) - steps[row].sectionTime
  {
    SumSplit(steps, row);
    SumAppend(steps[..row], steps[row + 1..]);
  }

  /** Inserting the default step (time 0) leaves the total unchanged. */
  lemma {:induction false} InsertTotalTime(steps: seq<StepEntry>, row: nat)
    requires row < |steps|
    ensures SumSectionTimes(Inserted(steps, row)) == SumSectionTimes(steps)
  {
    var ins := Inserted(steps, row);
    SumSplit(ins, row + 1);
    assert ins[..row + 1] == steps[..row + 1];
    assert ins[row + 2..] == steps[row + 1..];
    SumAppend(steps[..row + 1], steps[row + 1..]);
    assert steps[..row + 1] + steps[row + 1..] == steps;
  }

  /** Three steps of 30, 45 and 125 seconds total 200 seconds. */
  lemma TotalTimeExample()
    ensures SumSectionTimes([StepEntry(Some(150), None, 5, 30), StepEntry(Some(300), None, 7, 45),
                             StepEntry(None, Some(true), 9, 125)]) == 200
  {
    var a, b, c := StepEntry(Some(150), None, 5, 30), StepEntry(Some(300), None, 7, 45),
                   StepEntry(None, Some(true), 9, 125);
    assert [a, b, c][..2] == [a, b];
    assert [a, b][..1] == [a];
    SumSingle(a);
  }
}
