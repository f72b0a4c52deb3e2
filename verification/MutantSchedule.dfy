/** The two-queue time-budget scheduler of scripts/mutants_queue.py, lines 109-186 and
    221-239. A queue holds parsed mutant names, each with the source file it is in. */
module MutantSchedule {
  import Radix

  datatype Mutant = Mutant(path: string, name: string)

  datatype Side = New | Old

  /** A scheduled name and the second its batch starts at. */
  datatype Row = Row(side: Side, start: nat, mutant: Mutant)

  datatype Pick = Nothing | From(side: Side)

  function NextSide(elapsed: nat, budget: nat, newRemaining: bool, oldRemaining: bool, capUsed: bool): Pick
    requires budget >= 1
  {
    if !newRemaining && !oldRemaining then Nothing
    else if newRemaining && !oldRemaining then From(New)
    else if oldRemaining && !newRemaining then From(Old)
    else if capUsed || elapsed >= budget / 2 then From(Old)
    else From(New)
  }

  function CapConsumed(elapsed: nat, budget: nat, newLeft: nat, oldLeft: nat, already: bool): bool
    requires already || newLeft == 0 || oldLeft == 0 || budget >= 1
  {
    if already then true
    else if newLeft == 0 || oldLeft == 0 then false
    else elapsed >= budget / 2
  }

  /** The first `k` names are in one file, at most `cap` of them, and no longer run is. */
  predicate IsBatch(queue: seq<Mutant>, cap: nat, k: nat) {
    && k <= |queue| && k <= cap
    && (forall i :: 0 <= i < k ==> queue[i].path == queue[0].path)
    && (k == |queue| || k == cap || queue[k].path != queue[0].path)
  }

  /** `file_batch` from `offset` on; `schedule` always asks for offset 0. */
  method FileBatch(lines: seq<Mutant>, offset: nat, cap: nat) returns (out: seq<Mutant>)
    requires cap >= 1
    ensures offset >= |lines| ==> out == []
    ensures offset < |lines| ==> out != [] && out <= lines[offset..] && IsBatch(lines[offset..], cap, |out|)
  {
    out := [];
    if offset >= |lines| {
      return;
    }
    var path := lines[offset].path;
    ghost var queue := lines[offset..];
    var i := offset;
    while i < |lines|
      invariant offset <= i <= |lines| && out == queue[..i - offset] && |out| <= cap
      invariant forall j :: 0 <= j < |out| ==> queue[j].path == path
      invariant i == offset || |out| >= 1
    {
      if lines[i].path != path || |out| >= cap {
        break;
      }
      out := out + [lines[i]];
      i := i + 1;
    }
  }

  /** The names scheduled from one side, in order. */
  function Taken(rows: seq<Row>, side: Side): seq<Mutant> {
    if rows == [] then []
    else
      Taken(rows[..|rows| - 1], side)
      + if rows[|rows| - 1].side == side then [rows[|rows| - 1].mutant] else []
  }

  function BatchRows(side: Side, start: nat, batch: seq<Mutant>): (r: seq<Row>)
    ensures |r| == |batch|
  {
    seq(|batch|, i requires 0 <= i < |batch| => Row(side, start, batch[i]))
  }

  lemma {:induction false} TakenOfBatch(rows: seq<Row>, side: Side, start: nat, batch: seq<Mutant>)
    ensures Taken(rows + BatchRows(side, start, batch), side) == Taken(rows, side) + batch
    ensures forall other :: other != side ==>
              Taken(rows + BatchRows(side, start, batch), other) == Taken(rows, other)
    decreases |batch|
  {
    if batch == [] {
      assert rows + BatchRows(side, start, batch) == rows;
    } else {
      var init := batch[..|batch| - 1];
      var all := rows + BatchRows(side, start, batch);
      assert all[..|all| - 1] == rows + BatchRows(side, start, init);
      TakenOfBatch(rows, side, start, init);
    }
  }

  /** The side rule for one row. A new name starts at or after half the budget, or with
      the night's window already used, only when the whole backlog has been scheduled. A
      backlog name starts earlier only when the whole new queue has been. */
  ghost predicate FollowsRule(rows: seq<Row>, i: nat, newNames: seq<Mutant>, backlog: seq<Mutant>,
                              half: nat, capUsed: bool)
    requires i < |rows|
  {
    var row, late := rows[i], capUsed || rows[i].start >= half;
    && (row.side == New && late ==> Taken(rows[..i], Old) == backlog)
    && (row.side == Old && !late ==> Taken(rows[..i], New) == newNames)
  }

  /** All rows so far follow the rule. */
  ghost predicate AllFollow(rows: seq<Row>, newNames: seq<Mutant>, backlog: seq<Mutant>, half: nat, capUsed: bool) {
    forall i :: 0 <= i < |rows| ==> FollowsRule(rows, i, newNames, backlog, half, capUsed)
  }

  lemma BatchFollows(rows: seq<Row>, side: Side, start: nat, batch: seq<Mutant>,
                     newNames: seq<Mutant>, backlog: seq<Mutant>, half: nat, capUsed: bool)
    requires AllFollow(rows, newNames, backlog, half, capUsed)
    requires side == New && (capUsed || start >= half) ==> Taken(rows, Old) == backlog
    requires side == Old && !(capUsed || start >= half) ==> Taken(rows, New) == newNames
    ensures AllFollow(rows + BatchRows(side, start, batch), newNames, backlog, half, capUsed)
  {
    hide Taken;
    var all := rows + BatchRows(side, start, batch);
    forall i | 0 <= i < |all| ensures FollowsRule(all, i, newNames, backlog, half, capUsed) {
      if i < |rows| {
        assert all[..i] == rows[..i];
        assert FollowsRule(rows, i, newNames, backlog, half, capUsed);
      } else {
        var done := batch[..i - |rows|];
        assert all[..i] == rows + BatchRows(side, start, done);
        TakenOfBatch(rows, side, start, done);
      }
    }
  }

  /** A batch starts every `batchSec` seconds from 0, none at or after the budget. */
  ghost predicate OnTheClock(rows: seq<Row>, budget: nat, batchSec: nat, elapsed: nat)
    requires batchSec >= 1
  {
    && (forall i :: 0 <= i < |rows| ==> rows[i].start < budget && rows[i].start % batchSec == 0
                                         && rows[i].start + batchSec <= elapsed)
    && (if rows == [] then elapsed == 0 else rows[0].start == 0 && rows[|rows| - 1].start + batchSec == elapsed)
    && (forall i :: 0 < i < |rows| ==>
          rows[i].start == rows[i - 1].start || rows[i].start == rows[i - 1].start + batchSec)
    && elapsed % batchSec == 0
  }

  /** Rows with one start time are of one side, in one file and at most `cap`. */
  ghost predicate Grouped(rows: seq<Row>, cap: nat) {
    && (forall i, j :: 0 <= i < j < |rows| ==> rows[i].start <= rows[j].start)
    && (forall i, j :: 0 <= i < j < |rows| && rows[i].start == rows[j].start ==>
          rows[i].side == rows[j].side && rows[i].mutant.path == rows[j].mutant.path)
    && (forall i, j :: 0 <= i && i + cap <= j < |rows| ==> rows[i].start < rows[j].start)
  }

  /** Rows are grouped by start time into batches that follow one another on the clock. */
  ghost predicate InBatches(rows: seq<Row>, budget: nat, batchSec: nat, cap: nat, elapsed: nat)
    requires batchSec >= 1
  {
    OnTheClock(rows, budget, batchSec, elapsed) && Grouped(rows, cap)
  }

  lemma BatchGroups(rows: seq<Row>, side: Side, batch: seq<Mutant>, budget: nat, batchSec: nat, cap: nat, elapsed: nat)
    requires batchSec >= 1 && InBatches(rows, budget, batchSec, cap, elapsed)
    requires elapsed < budget && |batch| <= cap
    requires batch != [] && forall i :: 0 <= i < |batch| ==> batch[i].path == batch[0].path
    ensures InBatches(rows + BatchRows(side, elapsed, batch), budget, batchSec, cap, elapsed + batchSec)
  {
    BatchClock(rows, BatchRows(side, elapsed, batch), budget, batchSec, elapsed);
    GroupAppend(rows, BatchRows(side, elapsed, batch), cap, elapsed);
  }

  lemma BatchClock(rows: seq<Row>, more: seq<Row>, budget: nat, batchSec: nat, elapsed: nat)
    requires batchSec >= 1 && OnTheClock(rows, budget, batchSec, elapsed)
    requires more != [] && elapsed < budget && forall i :: 0 <= i < |more| ==> more[i].start == elapsed
    ensures OnTheClock(rows + more, budget, batchSec, elapsed + batchSec)
  {
    Radix.NextMultiple(elapsed, batchSec);
  }

  lemma GroupAppend(rows: seq<Row>, more: seq<Row>, cap: nat, elapsed: nat)
    requires Grouped(rows, cap) && |more| <= cap && forall i :: 0 <= i < |rows| ==> rows[i].start < elapsed
    requires forall i :: 0 <= i < |more| ==>
               more[i].start == elapsed && more[i].side == more[0].side && more[i].mutant.path == more[0].mutant.path
    ensures Grouped(rows + more, cap)
  {}

  /** Row `i` is the last of its batch. */
  predicate BatchEnds(rows: seq<Row>, i: nat)
    requires i < |rows|
  {
    i + 1 == |rows| || rows[i + 1].start != rows[i].start
  }

  /** A batch that ends at row `i` could not have been longer: its side has no more names, the
      next one is in another file, or `cap` names are in it. */
  ghost predicate LongestAt(rows: seq<Row>, i: nat, newNames: seq<Mutant>, backlog: seq<Mutant>, cap: nat)
    requires i < |rows| && cap >= 1
  {
    var row := rows[i];
    var names := if row.side == New then newNames else backlog;
    var taken := |Taken(rows[..i + 1], row.side)|;
    || taken >= |names| || names[taken].path != row.mutant.path
    || (i + 1 >= cap && rows[i + 1 - cap].start == row.start)
  }

  ghost predicate AllLongest(rows: seq<Row>, newNames: seq<Mutant>, backlog: seq<Mutant>, cap: nat)
    requires cap >= 1
  {
    forall i :: 0 <= i < |rows| && BatchEnds(rows, i) ==> LongestAt(rows, i, newNames, backlog, cap)
  }

  lemma BatchIsLongest(rows: seq<Row>, side: Side, start: nat, queue: seq<Mutant>, batch: seq<Mutant>,
                       newNames: seq<Mutant>, backlog: seq<Mutant>, cap: nat)
    requires cap >= 1 && AllLongest(rows, newNames, backlog, cap)
    requires Taken(rows, side) + queue == (if side == New then newNames else backlog)
    requires batch != [] && batch <= queue && IsBatch(queue, cap, |batch|)
    requires forall i :: 0 <= i < |rows| ==> rows[i].start < start
    ensures AllLongest(rows + BatchRows(side, start, batch), newNames, backlog, cap)
  {
    hide Taken;
    var all := rows + BatchRows(side, start, batch);
    forall i | 0 <= i < |all| && BatchEnds(all, i) ensures LongestAt(all, i, newNames, backlog, cap) {
      if i < |rows| {
        assert all[..i + 1] == rows[..i + 1];
        assert BatchEnds(rows, i) && LongestAt(rows, i, newNames, backlog, cap);
        assert i + 1 >= cap ==> all[i + 1 - cap] == rows[i + 1 - cap];
      } else {
        assert i == |all| - 1 && all[..i + 1] == all;
        TakenOfBatch(rows, side, start, batch);
        assert all[i].mutant == batch[|batch| - 1] == queue[|batch| - 1];
      }
    }
  }

  /** The queues are what is left of the originals, and every row so far is in order. */
  ghost predicate Progress(rows: seq<Row>, newQ: seq<Mutant>, oldQ: seq<Mutant>, elapsed: nat,
                           newNames: seq<Mutant>, backlog: seq<Mutant>,
                           budget: nat, batchSec: nat, cap: nat, capUsed: bool)
    requires batchSec >= 1 && cap >= 1
  {
    && Taken(rows, New) + newQ == newNames && Taken(rows, Old) + oldQ == backlog
    && AllFollow(rows, newNames, backlog, budget / 2, capUsed)
    && InBatches(rows, budget, batchSec, cap, elapsed)
    && AllLongest(rows, newNames, backlog, cap)
  }

  lemma BatchStarts(rows: seq<Row>, queue: seq<Mutant>, batch: seq<Mutant>,
                    budget: nat, batchSec: nat, cap: nat, elapsed: nat)
    requires batchSec >= 1 && InBatches(rows, budget, batchSec, cap, elapsed)
    requires batch != [] && batch <= queue && IsBatch(queue, cap, |batch|)
    ensures forall i :: 0 <= i < |rows| ==> rows[i].start < elapsed
    ensures |batch| <= cap && forall i :: 0 <= i < |batch| ==> batch[i].path == batch[0].path
  {
    assert forall i :: 0 <= i < |batch| ==> batch[i] == queue[i];
  }

  lemma TakeNew(rows: seq<Row>, newQ: seq<Mutant>, oldQ: seq<Mutant>, elapsed: nat, batch: seq<Mutant>,
                newNames: seq<Mutant>, backlog: seq<Mutant>, budget: nat, batchSec: nat, cap: nat, capUsed: bool)
    requires batchSec >= 1 && cap >= 1
    requires Progress(rows, newQ, oldQ, elapsed, newNames, backlog, budget, batchSec, cap, capUsed)
    requires elapsed < budget && batch != [] && batch <= newQ && IsBatch(newQ, cap, |batch|)
    requires capUsed || elapsed >= budget / 2 ==> oldQ == []
    ensures Progress(rows + BatchRows(New, elapsed, batch), newQ[|batch|..], oldQ, elapsed + batchSec,
                     newNames, backlog, budget, batchSec, cap, capUsed)
  {
    hide Taken, AllFollow, InBatches, BatchRows, AllLongest, IsBatch;
    BatchFollows(rows, New, elapsed, batch, newNames, backlog, budget / 2, capUsed);
    BatchStarts(rows, newQ, batch, budget, batchSec, cap, elapsed);
    BatchIsLongest(rows, New, elapsed, newQ, batch, newNames, backlog, cap);
    BatchGroups(rows, New, batch, budget, batchSec, cap, elapsed);
    TakenOfBatch(rows, New, elapsed, batch);
    assert newQ == batch + newQ[|batch|..];
  }

  lemma TakeOld(rows: seq<Row>, newQ: seq<Mutant>, oldQ: seq<Mutant>, elapsed: nat, batch: seq<Mutant>,
                newNames: seq<Mutant>, backlog: seq<Mutant>, budget: nat, batchSec: nat, cap: nat, capUsed: bool)
    requires batchSec >= 1 && cap >= 1
    requires Progress(rows, newQ, oldQ, elapsed, newNames, backlog, budget, batchSec, cap, capUsed)
    requires elapsed < budget && batch != [] && batch <= oldQ && IsBatch(oldQ, cap, |batch|)
    requires !capUsed && elapsed < budget / 2 ==> newQ == []
    ensures Progress(rows + BatchRows(Old, elapsed, batch), newQ, oldQ[|batch|..], elapsed + batchSec,
                     newNames, backlog, budget, batchSec, cap, capUsed)
  {
    hide Taken, AllFollow, InBatches, BatchRows, AllLongest, IsBatch;
    BatchFollows(rows, Old, elapsed, batch, newNames, backlog, budget / 2, capUsed);
    BatchStarts(rows, oldQ, batch, budget, batchSec, cap, elapsed);
    BatchIsLongest(rows, Old, elapsed, oldQ, batch, newNames, backlog, cap);
    BatchGroups(rows, Old, batch, budget, batchSec, cap, elapsed);
    TakenOfBatch(rows, Old, elapsed, batch);
    assert oldQ == batch + oldQ[|batch|..];
  }

  lemma NothingScheduled(newNames: seq<Mutant>, backlog: seq<Mutant>,
                         budget: nat, batchSec: nat, cap: nat, capUsed: bool)
    requires batchSec >= 1 && cap >= 1
    ensures Progress([], newNames, backlog, 0, newNames, backlog, budget, batchSec, cap, capUsed)
  {}

  lemma ProgressMeans(rows: seq<Row>, newQ: seq<Mutant>, oldQ: seq<Mutant>, elapsed: nat,
                      newNames: seq<Mutant>, backlog: seq<Mutant>, budget: nat, batchSec: nat, cap: nat, capUsed: bool)
    requires batchSec >= 1 && cap >= 1
    requires Progress(rows, newQ, oldQ, elapsed, newNames, backlog, budget, batchSec, cap, capUsed)
    ensures Taken(rows, New) <= newNames && Taken(rows, Old) <= backlog
    ensures AllFollow(rows, newNames, backlog, budget / 2, capUsed) && InBatches(rows, budget, batchSec, cap, elapsed)
    ensures AllLongest(rows, newNames, backlog, cap)
    ensures newQ == [] && oldQ == [] ==> Taken(rows, New) == newNames && Taken(rows, Old) == backlog
  {
    hide Taken, AllFollow, InBatches, AllLongest;
  }

  /** Each side is served in queue order, the side rule holds at every batch, every batch is
      as long as its file and the cap allow, and the schedule stops only when the time is up
      or nothing is left. */
  method Schedule(newNames: seq<Mutant>, backlog: seq<Mutant>, budget: nat, batchSec: nat, cap: nat, capUsed: bool)
    returns (rows: seq<Row>, elapsed: nat)
    requires batchSec >= 1 && cap >= 1
    ensures Taken(rows, New) <= newNames && Taken(rows, Old) <= backlog
    ensures AllFollow(rows, newNames, backlog, budget / 2, capUsed)
    ensures InBatches(rows, budget, batchSec, cap, elapsed)
    ensures AllLongest(rows, newNames, backlog, cap)
    ensures elapsed >= budget || (Taken(rows, New) == newNames && Taken(rows, Old) == backlog)
  {
    hide Taken, AllFollow, InBatches, Progress, BatchRows, AllLongest;
    var newQ, oldQ := newNames, backlog;
    var used := capUsed;
    rows, elapsed := [], 0;
    NothingScheduled(newNames, backlog, budget, batchSec, cap, capUsed);
    while elapsed < budget && (newQ != [] || oldQ != [])
      invariant Progress(rows, newQ, oldQ, elapsed, newNames, backlog, budget, batchSec, cap, capUsed)
      invariant used ==> capUsed || elapsed >= budget / 2
      invariant capUsed ==> used
      decreases |newQ| + |oldQ|
    {
      used := CapConsumed(elapsed, budget, |newQ|, |oldQ|, used);
      var side := NextSide(elapsed, budget, newQ != [], oldQ != [], used);
      if side == Nothing {
        break;
      }
      if side == From(New) {
        var batch := FileBatch(newQ, 0, cap);
        assert newQ[0..] == newQ;
        TakeNew(rows, newQ, oldQ, elapsed, batch, newNames, backlog, budget, batchSec, cap, capUsed);
        rows := rows + BatchRows(New, elapsed, batch);
        newQ := newQ[|batch|..];
      } else {
        var batch := FileBatch(oldQ, 0, cap);
        assert oldQ[0..] == oldQ;
        TakeOld(rows, newQ, oldQ, elapsed, batch, newNames, backlog, budget, batchSec, cap, capUsed);
        rows := rows + BatchRows(Old, elapsed, batch);
        oldQ := oldQ[|batch|..];
      }
      elapsed := elapsed + batchSec;
    }
    ProgressMeans(rows, newQ, oldQ, elapsed, newNames, backlog, budget, batchSec, cap, capUsed);
  }
}
