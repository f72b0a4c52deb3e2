/** The resumable backlog cursor of scripts/mutants_queue.py, lines 87-100, 638-685 and
    937-964: a job rotates the backlog to where the last one stopped, and every batch it
    finishes moves the cursor on. */
module MutantCursor {
  import Radix
  import opened Sequences
  import MutantSchedule

  function Rotate(backlog: seq<string>, start: nat): (r: seq<string>)
    requires start <= |backlog|
    ensures |r| == |backlog|
  {
    backlog[start..] + backlog[..start]
  }

  /** The first index of a name. */
  function IndexOf(backlog: seq<string>, name: string): (r: nat)
    ensures r <= |backlog| && name !in backlog[..r] && (r < |backlog| ==> backlog[r] == name)
  {
    if backlog == [] || backlog[0] == name then 0 else 1 + IndexOf(backlog[1..], name)
  }

  /** Where `resume_old` starts: at the name if it is still listed, else at the index. */
  function ResumeStart(backlog: seq<string>, oldIndex: int, oldName: string): (r: nat)
    ensures backlog == [] ==> r == 0
    ensures backlog != [] ==> r < |backlog|
    ensures oldName != "" && oldName in backlog ==> backlog[r] == oldName && oldName !in backlog[..r]
    ensures backlog != [] && (oldName == "" || oldName !in backlog) ==> r == oldIndex % |backlog|
  {
    if backlog == [] then 0
    else
      var i := IndexOf(backlog, oldName);
      if oldName != "" && i < |backlog| then i else oldIndex % |backlog|
  }

  /** An index into a list of `n` names, `count` names further round. */
  function MovedOn(index: int, count: nat, n: nat): int {
    if n > 0 then (index + count) % n else 0
  }

  function NameAt(lines: seq<string>, offset: nat): string {
    if lines != [] then lines[offset % |lines|] else ""
  }

  class Cursor {
    var newBase: string
    var newSkip: nat
    var oldIndex: int
    var oldName: string
    var newCapUsed: bool

    /** The scan for the remembered name. A name that is still listed wins over the index. */
    method ResumeOld(backlog: seq<string>) returns (rotated: seq<string>, start: nat)
      ensures start == ResumeStart(backlog, oldIndex, oldName) && rotated == Rotate(backlog, start)
      ensures oldName != "" && oldName in backlog ==>
                start < |backlog| && backlog[start] == oldName && oldName !in backlog[..start] && rotated[0] == oldName
      ensures backlog != [] && (oldName == "" || oldName !in backlog) ==> start == oldIndex % |backlog|
    {
      if backlog == [] {
        return [], 0;
      }
      if oldName != "" {
        for i := 0 to |backlog|
          invariant oldName !in backlog[..i]
        {
          if backlog[i] == oldName {
            FirstIndex(backlog, oldName, i);
            return backlog[i..] + backlog[..i], i;
          }
        }
        assert backlog[..|backlog|] == backlog;
      }
      start := oldIndex % |backlog|;
      rotated := backlog[start..] + backlog[..start];
    }

    /** The `split` command: the new names not yet tried, and the rotated backlog. */
    method Split(newNames: seq<string>, backlog: seq<string>, head: string)
      returns (outNew: seq<string>, outOld: seq<string>)
      modifies this
      ensures var start := ResumeStart(backlog, old(oldIndex), old(oldName));
              && outOld == Rotate(backlog, start) && oldIndex == start
              && oldName == if backlog == [] then "" else backlog[start]
      ensures old(newSkip) < |newNames| ==>
                outNew == newNames[old(newSkip)..] && newSkip == old(newSkip) && newBase == old(newBase)
      ensures old(newSkip) >= |newNames| ==> outNew == [] && newSkip == 0 && newBase == head
      ensures newCapUsed == old(newCapUsed)
    {
      outNew := newNames;
      if newSkip >= |newNames| {
        newBase, newSkip, outNew := head, 0, [];
      } else if newSkip > 0 {
        outNew := newNames[newSkip..];
      }
      var start;
      outOld, start := ResumeOld(backlog);
      oldIndex := start;
      oldName := if outOld != [] then outOld[0] else "";
    }

    /** `advance_side` after `completed` more names of one side. `oldOffset` counts the
        names done in this job's rotated queue `oldLines`. */
    method AdvanceSide(side: MutantSchedule.Side, completed: nat, nNew: nat, nOld: nat, head: string,
                       oldLines: seq<string>, oldOffset: nat, elapsed: nat, budget: nat, newLeft: nat, oldLeft: nat)
      requires newCapUsed || newLeft == 0 || oldLeft == 0 || budget >= 1
      modifies this
      ensures side.New? ==> oldIndex == old(oldIndex) && oldName == old(oldName)
      ensures side.Old? ==>
                oldIndex == MovedOn(old(oldIndex), completed, nOld) && oldName == NameAt(oldLines, oldOffset)
      ensures var skip := old(newSkip) + if side.New? then completed else 0;
              if skip >= nNew then newSkip == 0 && newBase == head
              else newSkip == skip && newBase == old(newBase)
      ensures newCapUsed == MutantSchedule.CapConsumed(elapsed, budget, newLeft, oldLeft, old(newCapUsed))
    {
      match side {
      case New =>
        var skip := newSkip + completed;
        if skip >= nNew {
          newBase, newSkip := head, 0;
        } else {
          newSkip := skip;
        }
      case Old =>
        oldIndex := MovedOn(oldIndex, completed, nOld);
        oldName := NameAt(oldLines, oldOffset);
        if newSkip >= nNew {
          newBase, newSkip := head, 0;
        }
      }
      newCapUsed := MutantSchedule.CapConsumed(elapsed, budget, newLeft, oldLeft, newCapUsed);
    }
  }

  lemma InPrefix(s: seq<string>, i: nat, n: nat)
    requires i < n <= |s|
    ensures s[i] in s[..n]
  {
    assert s[..n][i] == s[i];
  }

  lemma FirstIndex(backlog: seq<string>, name: string, i: nat)
    requires i < |backlog| && backlog[i] == name && name !in backlog[..i]
    ensures IndexOf(backlog, name) == i
  {
    var r: nat := IndexOf(backlog, name);
    if r < i {
      InPrefix(backlog, r, i);
    } else if i < r {
      InPrefix(backlog, i, r);
    }
  }

  // ----- whole runs on a fixed backlog

  /** The cursor's backlog fields. */
  datatype Place = Place(index: int, name: string)

  function Sum(steps: seq<nat>): nat {
    if steps == [] then 0 else steps[0] + Sum(steps[1..])
  }

  /** One job after its split: each step finishes that many names of the rotated queue. */
  function RunSteps(place: Place, queue: seq<string>, offset: nat, steps: seq<nat>): Place
    requires queue != []
    decreases |steps|
  {
    if steps == [] then place
    else
      var done := offset + steps[0];
      RunSteps(Place(MovedOn(place.index, steps[0], |queue|), NameAt(queue, done)), queue, done, steps[1..])
  }

  /** A whole job: it resumes from the place the last one left. */
  function AfterJob(backlog: seq<string>, place: Place, steps: seq<nat>): Place {
    if backlog == [] then Place(0, "")
    else
      var start := ResumeStart(backlog, place.index, place.name);
      RunSteps(Place(start, backlog[start]), Rotate(backlog, start), 0, steps)
  }

  /** A finished batch of one side, and the second it finished at. */
  datatype Batch = Batch(side: MutantSchedule.Side, count: nat, elapsed: nat)

  /** The counts of one side's batches, in order. */
  function StepsOf(batches: seq<Batch>, side: MutantSchedule.Side): seq<nat> {
    if batches == [] then []
    else (if batches[0].side == side then [batches[0].count] else []) + StepsOf(batches[1..], side)
  }

  /** The names of the new list that the cursor has not passed. */
  function Untried(newNames: seq<string>, newSkip: nat): seq<string> {
    if newSkip < |newNames| then newNames[newSkip..] else []
  }

  /** The backlog side of a job with `rest` still to do of `steps`. */
  ghost predicate OldProgress(queue: seq<string>, first: Place, steps: seq<nat>,
                              place: Place, offset: nat, work: seq<string>, rest: seq<nat>)
  {
    && offset + Sum(rest) == Sum(steps) <= |queue| && work == queue[..offset]
    && if queue == [] then place == Place(0, "")
       else RunSteps(place, queue, offset, rest) == RunSteps(first, queue, 0, steps)
  }

  lemma OldNext(queue: seq<string>, first: Place, steps: seq<nat>,
                place: Place, offset: nat, work: seq<string>, count: nat, rest: seq<nat>)
    requires OldProgress(queue, first, steps, place, offset, work, [count] + rest)
    ensures offset + count <= |queue|
    ensures OldProgress(queue, first, steps,
                        Place(MovedOn(place.index, count, |queue|), NameAt(queue, offset + count)),
                        offset + count, work + queue[offset..offset + count], rest)
  {
    hide MovedOn, NameAt;
    assert ([count] + rest)[1..] == rest;
    NoNames(place.index, count, offset + count);
    assert queue[..offset] + queue[offset..offset + count] == queue[..offset + count];
  }

  lemma NoNames(index: int, count: nat, offset: nat)
    ensures MovedOn(index, count, 0) == 0 && NameAt([], offset) == ""
  {}

  /** The cursor's fields for the new list. */
  datatype NewPlace = NewPlace(skip: nat, base: string)

  /** The new side's fields once `done` names past `was` are finished: a finished list starts
      over on the new base. */
  function NewAfter(was: NewPlace, done: nat, n: nat, head: string): NewPlace {
    if was.skip + done >= n then NewPlace(0, head) else NewPlace(was.skip + done, was.base)
  }

  ghost predicate NewProgress(untried: seq<string>, steps: seq<nat>, offset: nat, work: seq<string>, rest: seq<nat>) {
    offset + Sum(rest) == Sum(steps) <= |untried| && work == untried[..offset]
  }

  lemma NewNext(untried: seq<string>, steps: seq<nat>, offset: nat, work: seq<string>, count: nat, rest: seq<nat>)
    requires NewProgress(untried, steps, offset, work, [count] + rest)
    ensures offset + count <= |untried|
    ensures NewProgress(untried, steps, offset + count, work + untried[offset..offset + count], rest)
  {
    assert ([count] + rest)[1..] == rest;
    assert untried[..offset] + untried[offset..offset + count] == untried[..offset + count];
  }

  lemma NextBatch(batches: seq<Batch>, i: nat, side: MutantSchedule.Side)
    requires i < |batches|
    ensures StepsOf(batches[i..], side)
         == if batches[i].side == side then [batches[i].count] + StepsOf(batches[i + 1..], side)
            else StepsOf(batches[i + 1..], side)
  {
    assert batches[i..][1..] == batches[i + 1..];
  }

  lemma NoSteps(batches: seq<Batch>, nNew: nat, nOld: nat, budget: nat)
    ensures forall side :: Sum(StepsOf(batches[..0], side)) == 0
    ensures !CapSpent(batches, 0, nNew, nOld, budget)
  {}

  lemma {:induction false} SumAppend(a: seq<nat>, b: seq<nat>)
    ensures Sum(a + b) == Sum(a) + Sum(b)
  {
    if a == [] {
      assert a + b == b;
    } else {
      assert (a + b)[1..] == a[1..] + b;
      SumAppend(a[1..], b);
    }
  }

  lemma Associate(x: seq<nat>, y: seq<nat>, z: seq<nat>)
    ensures x + (y + z) == x + y + z
  {}

  lemma {:induction false} StepsAppend(batches: seq<Batch>, b: Batch, side: MutantSchedule.Side)
    ensures StepsOf(batches + [b], side) == StepsOf(batches, side) + (if b.side == side then [b.count] else [])
  {
    if batches == [] {
      assert batches + [b] == [b] && [b][1..] == [];
    } else {
      assert (batches + [b])[1..] == batches[1..] + [b];
      StepsAppend(batches[1..], b, side);
      Associate(if batches[0].side == side then [batches[0].count] else [], StepsOf(batches[1..], side),
                if b.side == side then [b.count] else []);
    }
  }

  lemma StepDone(batches: seq<Batch>, i: nat, side: MutantSchedule.Side)
    requires i < |batches|
    ensures Sum(StepsOf(batches[..i + 1], side))
         == Sum(StepsOf(batches[..i], side)) + if batches[i].side == side then batches[i].count else 0
  {
    hide StepsOf;
    var b := batches[i];
    var more := if b.side == side then [b.count] else [];
    assert batches[..i + 1] == batches[..i] + [b];
    StepsAppend(batches[..i], b, side);
    SumAppend(StepsOf(batches[..i], side), more);
    assert Sum(more) == if b.side == side then b.count else 0 by {
      assert [b.count][1..] == [];
    }
  }

  /** Batch `i` finished in the second half of the budget while both sides had names left, so
      the night's time for new names is used up. */
  predicate SpendsCap(batches: seq<Batch>, i: nat, nNew: nat, nOld: nat, budget: nat)
    requires i < |batches|
  {
    && batches[i].elapsed >= budget / 2
    && Sum(StepsOf(batches[..i + 1], MutantSchedule.New)) < nNew
    && Sum(StepsOf(batches[..i + 1], MutantSchedule.Old)) < nOld
  }

  /** One of the first `k` batches does. */
  ghost predicate CapSpent(batches: seq<Batch>, k: nat, nNew: nat, nOld: nat, budget: nat)
    requires k <= |batches|
  {
    exists i :: 0 <= i < k && SpendsCap(batches, i, nNew, nOld, budget)
  }

  lemma CapMeans(batches: seq<Batch>, i: nat, nNew: nat, newOff: nat, nOld: nat, oldOff: nat,
                 budget: nat, was: bool, already: bool)
    requires i < |batches| && budget >= 1 && newOff <= nNew && oldOff <= nOld
    requires already <==> was || CapSpent(batches, i, nNew, nOld, budget)
    requires newOff == Sum(StepsOf(batches[..i + 1], MutantSchedule.New))
    requires oldOff == Sum(StepsOf(batches[..i + 1], MutantSchedule.Old))
    ensures MutantSchedule.CapConsumed(batches[i].elapsed, budget, nNew - newOff, nOld - oldOff, already)
       <==> was || CapSpent(batches, i + 1, nNew, nOld, budget)
  {
    hide SpendsCap;
    assert MutantSchedule.CapConsumed(batches[i].elapsed, budget, nNew - newOff, nOld - oldOff, already)
      <==> already || SpendsCap(batches, i, nNew, nOld, budget) by {
      SpendsMeans(batches, i, nNew, newOff, nOld, oldOff, budget);
    }
    assert CapSpent(batches, i + 1, nNew, nOld, budget)
      <==> CapSpent(batches, i, nNew, nOld, budget) || SpendsCap(batches, i, nNew, nOld, budget);
  }

  lemma SpendsMeans(batches: seq<Batch>, i: nat, nNew: nat, newOff: nat, nOld: nat, oldOff: nat, budget: nat)
    requires i < |batches|
    requires newOff == Sum(StepsOf(batches[..i + 1], MutantSchedule.New))
    requires oldOff == Sum(StepsOf(batches[..i + 1], MutantSchedule.Old))
    ensures SpendsCap(batches, i, nNew, nOld, budget)
       <==> batches[i].elapsed >= budget / 2 && newOff < nNew && oldOff < nOld
  {}

  lemma NoBatches(batches: seq<Batch>, side: MutantSchedule.Side)
    ensures StepsOf(batches[|batches|..], side) == []
  {}

  /** A job's calls in the order scripts/mutants-nightly.sh makes them: one split, then one
      advance per finished batch of either side with both running offsets. However the two
      sides take turns, the backlog cursor moves by the backlog batches alone and the new
      cursor by the new ones. */
  method Job(c: Cursor, newNames: seq<string>, backlog: seq<string>, batches: seq<Batch>, head: string, budget: nat)
    returns (newWork: seq<string>, oldWork: seq<string>)
    requires budget >= 1 && Sum(StepsOf(batches, MutantSchedule.Old)) <= |backlog|
    requires Sum(StepsOf(batches, MutantSchedule.New)) <= |Untried(newNames, c.newSkip)|
    modifies c
    ensures Place(c.oldIndex, c.oldName)
         == AfterJob(backlog, old(Place(c.oldIndex, c.oldName)), StepsOf(batches, MutantSchedule.Old))
    ensures oldWork == Rotate(backlog, ResumeStart(backlog, old(c.oldIndex), old(c.oldName)))
                         [..Sum(StepsOf(batches, MutantSchedule.Old))]
    ensures var done := Sum(StepsOf(batches, MutantSchedule.New));
            && newWork == Untried(newNames, old(c.newSkip))[..done]
            && NewPlace(c.newSkip, c.newBase) == NewAfter(old(NewPlace(c.newSkip, c.newBase)), done, |newNames|, head)
    ensures c.newCapUsed <==>
              || old(c.newCapUsed)
              || CapSpent(batches, |batches|, |Untried(newNames, old(c.newSkip))|, |backlog|, budget)
    ensures oldWork != [] && old(c.oldName) != "" && old(c.oldName) in backlog ==> oldWork[0] == old(c.oldName)
  {
    hide RunSteps, Sum, Rotate, ResumeStart, StepsOf, MovedOn, NameAt, OldProgress, NewProgress, AfterJob, Untried,
         CapSpent, MutantSchedule.CapConsumed;
    ghost var was := NewPlace(c.newSkip, c.newBase);
    ghost var oldSteps, newSteps := StepsOf(batches, MutantSchedule.Old), StepsOf(batches, MutantSchedule.New);
    var untried, queue := c.Split(newNames, backlog, head);
    var newOff: nat, oldOff: nat := 0, 0;
    newWork, oldWork := [], [];
    ghost var first := Place(c.oldIndex, c.oldName);
    JobStarts(newNames, was.skip, untried, queue, backlog, first, oldSteps, newSteps);
    assert batches[0..] == batches;
    NoSteps(batches, |untried|, |queue|, budget);
    for i := 0 to |batches|
      invariant OldProgress(queue, first, oldSteps, Place(c.oldIndex, c.oldName), oldOff, oldWork,
                            StepsOf(batches[i..], MutantSchedule.Old))
      invariant NewProgress(untried, newSteps, newOff, newWork, StepsOf(batches[i..], MutantSchedule.New))
      invariant NewPlace(c.newSkip, c.newBase) == NewAfter(was, newOff, |newNames|, head)
      invariant oldOff <= |queue| == |backlog| && newOff <= |untried|
      invariant newOff == Sum(StepsOf(batches[..i], MutantSchedule.New))
      invariant oldOff == Sum(StepsOf(batches[..i], MutantSchedule.Old))
      invariant c.newCapUsed <==>
                  old(c.newCapUsed) || CapSpent(batches, i, |untried|, |queue|, budget)
    {
      var b := batches[i];
      NextBatch(batches, i, MutantSchedule.Old);
      NextBatch(batches, i, MutantSchedule.New);
      if b.side.New? {
        NewNext(untried, newSteps, newOff, newWork, b.count, StepsOf(batches[i + 1..], MutantSchedule.New));
        newWork := newWork + untried[newOff..newOff + b.count];
        newOff := newOff + b.count;
      } else {
        OldNext(queue, first, oldSteps, Place(c.oldIndex, c.oldName), oldOff, oldWork, b.count,
                StepsOf(batches[i + 1..], MutantSchedule.Old));
        oldWork := oldWork + queue[oldOff..oldOff + b.count];
        oldOff := oldOff + b.count;
      }
      StepDone(batches, i, MutantSchedule.Old);
      StepDone(batches, i, MutantSchedule.New);
      CapMeans(batches, i, |untried|, newOff, |queue|, oldOff, budget, old(c.newCapUsed), c.newCapUsed);
      c.AdvanceSide(b.side, b.count, |newNames|, |backlog|, head, queue, oldOff,
                    b.elapsed, budget, |untried| - newOff, |queue| - oldOff);
    }
    NoBatches(batches, MutantSchedule.Old);
    NoBatches(batches, MutantSchedule.New);
    JobEnds(untried, newSteps, newOff, newWork);
    BacklogEnds(backlog, old(Place(c.oldIndex, c.oldName)), queue, first, oldSteps,
                Place(c.oldIndex, c.oldName), oldOff, oldWork);
  }

  /** A name that the next job's list still holds is where that job goes on, whatever has been
      added or removed elsewhere in the list. */
  lemma NextJobContinues(backlog: seq<string>, place: Place, steps: seq<nat>, later: seq<string>)
    requires backlog != [] && Sum(steps) <= |backlog|
    requires var next := AfterJob(backlog, place, steps).name; next != "" && next in later
    ensures var queue := Rotate(backlog, ResumeStart(backlog, place.index, place.name));
            var after := AfterJob(backlog, place, steps);
            && after.name == queue[Sum(steps) % |queue|]
            && Rotate(later, ResumeStart(later, after.index, after.name))[0] == after.name
  {
    hide MovedOn;
    var start := ResumeStart(backlog, place.index, place.name);
    StepsName(Place(start, backlog[start]), Rotate(backlog, start), 0, steps);
  }

  lemma {:induction false} StepsName(place: Place, queue: seq<string>, offset: nat, steps: seq<nat>)
    requires queue != [] && place.name == NameAt(queue, offset)
    ensures RunSteps(place, queue, offset, steps).name == NameAt(queue, offset + Sum(steps))
    decreases |steps|
  {
    hide NameAt, MovedOn;
    if steps != [] {
      var done := offset + steps[0];
      StepsName(Place(MovedOn(place.index, steps[0], |queue|), NameAt(queue, done)), queue, done, steps[1..]);
    }
  }

  lemma JobStarts(newNames: seq<string>, skip: nat, untried: seq<string>, queue: seq<string>, backlog: seq<string>,
                  first: Place, oldSteps: seq<nat>, newSteps: seq<nat>)
    requires untried == (if skip < |newNames| then newNames[skip..] else [])
    requires |queue| == |backlog| && (backlog == [] ==> first == Place(0, ""))
    requires Sum(oldSteps) <= |backlog| && Sum(newSteps) <= |Untried(newNames, skip)|
    ensures untried == Untried(newNames, skip)
    ensures OldProgress(queue, first, oldSteps, first, 0, [], oldSteps)
    ensures NewProgress(untried, newSteps, 0, [], newSteps)
  {}

  lemma JobEnds(untried: seq<string>, steps: seq<nat>, offset: nat, work: seq<string>)
    requires NewProgress(untried, steps, offset, work, [])
    ensures offset == Sum(steps) <= |untried| && work == untried[..Sum(steps)]
  {}

  lemma BacklogEnds(backlog: seq<string>, was: Place, queue: seq<string>, first: Place, steps: seq<nat>,
                    place: Place, offset: nat, work: seq<string>)
    requires var start := ResumeStart(backlog, was.index, was.name);
             queue == Rotate(backlog, start) && (backlog != [] ==> first == Place(start, backlog[start]))
    requires OldProgress(queue, first, steps, place, offset, work, [])
    ensures Sum(steps) <= |backlog| && place == AfterJob(backlog, was, steps) && work == queue[..Sum(steps)]
    ensures work != [] && was.name != "" && was.name in backlog ==> work[0] == was.name
  {
    hide ResumeStart;
  }

  datatype Run = Run(place: Place, work: seq<string>)

  /** Jobs in a row, each resuming from the cursor, and all the names they finished. */
  function RunJobs(backlog: seq<string>, place: Place, jobs: seq<seq<nat>>): Run
    requires backlog != [] && forall i :: 0 <= i < |jobs| ==> Sum(jobs[i]) <= |backlog|
  {
    if jobs == [] then Run(place, [])
    else
      var k := |jobs| - 1;
      var before := RunJobs(backlog, place, jobs[..k]);
      var start := ResumeStart(backlog, before.place.index, before.place.name);
      var queue := Rotate(backlog, start);
      Run(AfterJob(backlog, before.place, jobs[k]), before.work + queue[..Sum(jobs[k])])
  }

  /** The endless walk round the list from `start`, cut after `n` names. */
  function Walk(backlog: seq<string>, start: nat, n: nat): (r: seq<string>)
    requires backlog != []
    ensures |r| == n
  {
    seq(n, i requires 0 <= i < n => backlog[(start + i) % |backlog|])
  }

  ghost predicate At(backlog: seq<string>, place: Place, pos: nat)
    requires backlog != []
  {
    place.index == pos % |backlog| && place.name == backlog[pos % |backlog|]
  }

  lemma ModOfMod(a: nat, b: nat, n: nat)
    requires n >= 1
    ensures (a % n + b) % n == (a + b) % n
  {
    Radix.DivModParts(a, n);
    Radix.DivModParts(a % n + b, n);
    SumOfParts(n, a / n, a % n, b, (a % n + b) / n, (a % n + b) % n);
  }

  lemma SumOfParts(n: nat, q: nat, x: nat, b: nat, p: nat, r: nat)
    requires n >= 1 && r < n && x + b == n * p + r
    ensures (n * q + x + b) % n == r
  {
    assert n * (q + p) + r == n * q + x + b by {
      Radix.MulSum(n, q, p);
    }
    Radix.DivModUnique(n, q + p, r);
  }

  lemma ModSmall(a: nat, n: nat)
    requires n >= 1 && a < 2 * n
    ensures a % n == if a < n then a else a - n
  {
    if a < n {
      Radix.DivModUnique(n, 0, a);
    } else {
      Radix.DivModUnique(n, 1, a - n);
    }
  }

  lemma RotatedAt(backlog: seq<string>, start: nat, k: nat)
    requires start < |backlog| && k < |backlog|
    ensures Rotate(backlog, start)[k] == backlog[(start + k) % |backlog|]
  {
    ModSmall(start + k, |backlog|);
  }

  lemma {:induction false} StepsKeepPlace(backlog: seq<string>, start: nat, place: Place, offset: nat, steps: seq<nat>)
    requires start < |backlog| && offset + Sum(steps) <= |backlog| && At(backlog, place, start + offset)
    ensures At(backlog, RunSteps(place, Rotate(backlog, start), offset, steps), start + offset + Sum(steps))
    decreases |steps|
  {
    if steps != [] {
      var n, step, done := |backlog|, steps[0], offset + steps[0];
      ModOfMod(start + offset, step, n);
      ModSmall(done, n);
      RotatedAt(backlog, start, done % n);
      if done == n {
        ModSmall(start + done, n);
        ModSmall(start, n);
      }
      var next := Place((place.index + step) % n, Rotate(backlog, start)[done % n]);
      assert At(backlog, next, start + done);
      StepsKeepPlace(backlog, start, next, done, steps[1..]);
    }
  }

  lemma WalkConcat(backlog: seq<string>, start: nat, m: nat, n: nat)
    requires backlog != []
    ensures Walk(backlog, start, m) + Walk(backlog, (start + m) % |backlog|, n) == Walk(backlog, start, m + n)
  {
    var second, whole := Walk(backlog, (start + m) % |backlog|, n), Walk(backlog, start, m + n);
    forall i | 0 <= i < n ensures second[i] == whole[m + i] {
      ModOfMod(start + m, i, |backlog|);
    }
  }

  lemma RotatedIsWalk(backlog: seq<string>, start: nat, n: nat)
    requires start < |backlog| && n <= |backlog|
    ensures Rotate(backlog, start)[..n] == Walk(backlog, start, n)
  {
    forall i | 0 <= i < n ensures Rotate(backlog, start)[i] == Walk(backlog, start, n)[i] {
      RotatedAt(backlog, start, i);
    }
  }

  /** A cursor at a place of a list of distinct names resumes exactly there. */
  lemma ResumesAtPlace(backlog: seq<string>, place: Place, pos: nat)
    requires backlog != [] && Distinct(backlog) && "" !in backlog && At(backlog, place, pos)
    ensures ResumeStart(backlog, place.index, place.name) == pos % |backlog|
  {
    var i := pos % |backlog|;
    assert backlog[i] in backlog;
    assert place.name !in backlog[..i];
    FirstIndex(backlog, place.name, i);
  }

  /** Over any number of jobs, whatever cursor the first one found, the finished names are
      a prefix of the endless walk from there, and the cursor names the next one. */
  lemma {:induction false} JobsWalkTheList(backlog: seq<string>, place: Place, jobs: seq<seq<nat>>)
    requires backlog != [] && Distinct(backlog) && "" !in backlog
    requires forall i :: 0 <= i < |jobs| ==> Sum(jobs[i]) <= |backlog|
    ensures var start, r := ResumeStart(backlog, place.index, place.name), RunJobs(backlog, place, jobs);
            && r.work == Walk(backlog, start, |r.work|)
            && (jobs != [] ==> At(backlog, r.place, start + |r.work|))
    decreases |jobs|
  {
    hide Walk, Rotate, RunSteps, ResumeStart, At, Sum;
    var first := ResumeStart(backlog, place.index, place.name);
    if jobs != [] {
      var k, n := |jobs| - 1, |backlog|;
      var before := RunJobs(backlog, place, jobs[..k]);
      JobsWalkTheList(backlog, place, jobs[..k]);
      var done := |before.work|;
      var start := ResumeStart(backlog, before.place.index, before.place.name);
      if k == 0 {
        ModSmall(first, n);
      } else {
        ResumesAtPlace(backlog, before.place, first + done);
      }
      assert start == (first + done) % n;
      JobFromStart(backlog, first + done, jobs[k]);
      RotatedIsWalk(backlog, start, Sum(jobs[k]));
      WalkConcat(backlog, first, done, Sum(jobs[k]));
    }
  }

  lemma JobFromStart(backlog: seq<string>, pos: nat, steps: seq<nat>)
    requires backlog != [] && Sum(steps) <= |backlog|
    ensures var start := pos % |backlog|;
            At(backlog, RunSteps(Place(start, backlog[start]), Rotate(backlog, start), 0, steps), pos + Sum(steps))
  {
    var start := pos % |backlog|;
    ModSmall(start, |backlog|);
    StepsKeepPlace(backlog, start, Place(start, backlog[start]), 0, steps);
    ModOfMod(pos, Sum(steps), |backlog|);
  }

  /** The walk repeats a name only after a whole round. */
  lemma NoEarlyRepeat(backlog: seq<string>, start: nat, n: nat, i: nat, j: nat)
    requires backlog != [] && Distinct(backlog) && i < j < n && j < i + |backlog|
    ensures Walk(backlog, start, n)[i] != Walk(backlog, start, n)[j]
  {
    var m, d := |backlog|, j - i;
    var a := (start + i) % m;
    ModOfMod(start + i, d, m);
    ModSmall(a + d, m);
  }
}
