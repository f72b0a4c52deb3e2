/** The txid and header side of the repair: scripts/repair-idx-double-append.py, lines
    289-376. Entry `fk` (from 1) of txid.body is the 32 bytes at `32 + 32 * (fk - 1)`. */
module TxidRepair {
  import opened ByteStrings
  import opened Moves
  import Radix

  function Entry(file: Bytes, fk: nat): (r: Bytes)
    requires 1 <= fk && 32 + 32 * fk <= |file|
    ensures |r| == 32
  {
    file[32 * fk..32 * fk + 32]
  }

  function Truncate(file: Bytes, n: nat): (r: Bytes)
    ensures |r| == n
  {
    if n <= |file| then file[..n] else file + Zeros(n - |file|)
  }

  /** The file with `k` entries from `src` on moved down to `dst`. */
  function MovedEntries(file: Bytes, dst: nat, src: nat, k: nat): (r: Bytes)
    requires dst <= src && 32 * (src + k) <= |file|
    ensures |r| == |file|
  {
    Moved(file, 32 * dst, 32 * src, 32 * k)
  }

  lemma NoEntriesMoved(file: Bytes, dst: nat, src: nat)
    requires dst <= src && 32 * src <= |file|
    ensures MovedEntries(file, dst, src, 0) == file
  {}

  lemma MoveEntries(file: Bytes, dst: nat, src: nat, k: nat, batch: nat)
    requires dst <= src && 32 * (src + k + batch) <= |file|
    ensures var m := MovedEntries(file, dst, src, k);
            Overwrite(m, 32 * (dst + k), m[32 * (src + k)..32 * (src + k + batch)])
            == MovedEntries(file, dst, src, k + batch)
  {
    hide Moved, Overwrite;
    MoveStep(file, 32 * dst, 32 * src, 32 * k, 32 * batch);
    assert 32 * k + 32 * batch == 32 * (k + batch);
  }

  /** The compacted file: the tail moved over the ghost entries, cut to the new length,
      which is also published as the high-water mark. */
  function CompactedFile(file: Bytes, lastGood: nat, ghostN: nat, oldCount: nat): (r: Bytes)
    requires lastGood + ghostN <= oldCount && 32 + 32 * oldCount <= |file|
    ensures |r| == 32 + 32 * (oldCount - ghostN) && r[8..16] == LE(|r|, 8)
  {
    var n := 32 + 32 * (oldCount - ghostN);
    var moved := MovedEntries(file, lastGood + 1, lastGood + 1 + ghostN, oldCount - lastGood - ghostN);
    Overwrite(moved[..n], 8, LE(n, 8))
  }

  datatype Status = Compacted | TooShort | ShortRead(fk: nat)

  /** The batch that starts at `fk` is the first one the file does not hold in full: what
      comes before it has been moved, and nothing else has changed. */
  ghost predicate StoppedAt(file: Bytes, lastGood: nat, ghostN: nat, oldCount: nat, batchMax: nat, fk: nat, data: Bytes)
    requires batchMax >= 1
  {
    var src := lastGood + 1 + ghostN;
    && src <= fk <= oldCount && (fk - src) % batchMax == 0
    && |file| < 32 * (fk + if oldCount - fk + 1 < batchMax then oldCount - fk + 1 else batchMax)
    && (if fk == src then data == file
        else 32 * fk <= |file| && data == MovedEntries(file, lastGood + 1, src, fk - src))
  }

  /** The file a compaction leaves, for every file. One shorter than its index fails on the
      first short batch, unless there is nothing to move: then it is cut or extended. */
  ghost predicate CompactOutcome(file: Bytes, lastGood: nat, ghostN: nat, oldCount: nat, batchMax: nat,
                                 r: Status, data: Bytes)
    requires lastGood + ghostN <= oldCount && batchMax >= 1
  {
    var n := 32 + 32 * (oldCount - ghostN);
    if |file| < 32 then r == TooShort && data == file
    else if 32 + 32 * oldCount <= |file| then r == Compacted && data == CompactedFile(file, lastGood, ghostN, oldCount)
    else if lastGood + ghostN == oldCount then r == Compacted && data == Overwrite(Truncate(file, n), 8, LE(n, 8))
    else r.ShortRead? && StoppedAt(file, lastGood, ghostN, oldCount, batchMax, r.fk, data)
  }

  class TxidFile {
    var data: Bytes

    constructor (data: Bytes)
      ensures this.data == data
    {
      this.data := data;
    }

    /** The batched forward move of the entries after the ghost window. The source uses
        batches of 4096 entries; any batch size moves the same bytes. */
    method MoveTail(lastGood: nat, ghostN: nat, oldCount: nat, batchMax: nat) returns (shortRead: Option<nat>)
      requires lastGood + ghostN <= oldCount && 1 <= batchMax
      modifies this
      ensures shortRead.None? <==> 32 + 32 * oldCount <= |old(data)| || lastGood + ghostN == oldCount
      ensures 32 + 32 * oldCount <= |old(data)| ==>
                data == MovedEntries(old(data), lastGood + 1, lastGood + 1 + ghostN, oldCount - lastGood - ghostN)
      ensures lastGood + ghostN == oldCount ==> data == old(data)
      ensures shortRead.Some? ==> StoppedAt(old(data), lastGood, ghostN, oldCount, batchMax, shortRead.value, data)
    {
      hide MovedEntries, Overwrite;
      ghost var orig, dst0, src0 := data, lastGood + 1, lastGood + 1 + ghostN;
      ghost var k := 0;
      if 32 * src0 <= |orig| {
        NoEntriesMoved(orig, dst0, src0);
      }
      var dst, src := lastGood + 1, lastGood + 1 + ghostN;
      while src <= oldCount
        invariant dst == dst0 + k && src == src0 + k && src <= oldCount + 1
        invariant k > 0 ==> 32 * (src0 + k) <= |orig|
        invariant 32 * (src0 + k) <= |orig| ==> data == MovedEntries(orig, dst0, src0, k)
        invariant |data| == |orig| && (k == 0 ==> data == orig)
        invariant k % batchMax == 0 || src == oldCount + 1
      {
        var batch := if oldCount - src + 1 < batchMax then oldCount - src + 1 else batchMax;
        if |data| < 32 * (src + batch) {
          return Some(src);
        }
        MoveEntries(orig, dst0, src0, k, batch);
        Radix.NextMultiple(k, batchMax);
        var chunk := data[32 * src..32 * (src + batch)];
        data := Overwrite(data, 32 * dst, chunk);
        src := src + batch;
        dst := dst + batch;
        k := k + batch;
      }
      return None;
    }

    /** Move, truncation and high-water mark. */
    method Compact(lastGood: nat, ghostN: nat, oldCount: nat, batchMax: nat) returns (r: Status)
      requires lastGood + ghostN <= oldCount && 1 <= batchMax
      modifies this
      ensures CompactOutcome(old(data), lastGood, ghostN, oldCount, batchMax, r, data)
      ensures r.Compacted? ==> |data| == 32 + 32 * (oldCount - ghostN) && data[8..16] == LE(|data|, 8)
    {
      hide LE, MovedEntries, StoppedAt;
      if |data| < 32 {
        return TooShort;
      }
      var shortRead := MoveTail(lastGood, ghostN, oldCount, batchMax);
      if shortRead.Some? {
        return ShortRead(shortRead.value);
      }
      var newLen := 32 + 32 * (oldCount - ghostN);
      data := Truncate(data, newLen);
      data := Overwrite(data, 8, LE(newLen, 8));
      r := Compacted;
    }
  }

  /** Which old entry the compacted file holds at `fk`. */
  function OldFk(fk: nat, lastGood: nat, ghostN: nat): nat {
    if fk <= lastGood then fk else fk + ghostN
  }

  lemma MovedEntry(file: Bytes, dst: nat, src: nat, k: nat, fk: nat)
    requires dst <= src && 32 * (src + k) <= |file| && fk < dst + k
    ensures var from := if fk < dst then fk else fk - dst + src;
            MovedEntries(file, dst, src, k)[32 * fk..32 * fk + 32] == file[32 * from..32 * from + 32]
  {
    var m, d, s := MovedEntries(file, dst, src, k), 32 * dst, 32 * src;
    assert m[..d] == file[..d] && m[d..d + 32 * k] == file[s..s + 32 * k];
    if fk < dst {
      SliceOfSlice(m, 0, d, 32 * fk, 32 * fk + 32);
      SliceOfSlice(file, 0, d, 32 * fk, 32 * fk + 32);
    } else {
      SliceOfSlice(m, d, d + 32 * k, 32 * (fk - dst), 32 * (fk - dst) + 32);
      SliceOfSlice(file, s, s + 32 * k, 32 * (fk - dst), 32 * (fk - dst) + 32);
    }
  }

  lemma HeaderWriteKeepsEntries(file: Bytes, n: nat, mark: Bytes, fk: nat)
    requires 32 + 32 * fk <= n <= |file| && 1 <= fk && |mark| == 8
    ensures Overwrite(file[..n], 8, mark)[32 * fk..32 * fk + 32] == file[32 * fk..32 * fk + 32]
  {
    var out := Overwrite(file[..n], 8, mark);
    assert out[16..n] == file[16..n];
    SliceOfSlice(out, 16, n, 32 * fk - 16, 32 * fk + 16);
    SliceOfSlice(file, 16, n, 32 * fk - 16, 32 * fk + 16);
  }

  lemma CompactedEntry(file: Bytes, lastGood: nat, ghostN: nat, oldCount: nat, fk: nat)
    requires lastGood + ghostN <= oldCount && 32 + 32 * oldCount <= |file|
    requires 1 <= fk <= oldCount - ghostN
    ensures Entry(CompactedFile(file, lastGood, ghostN, oldCount), fk) == Entry(file, OldFk(fk, lastGood, ghostN))
  {
    hide LE, MovedEntries, Overwrite;
    var n := 32 + 32 * (oldCount - ghostN);
    var k := oldCount - lastGood - ghostN;
    MovedEntry(file, lastGood + 1, lastGood + 1 + ghostN, k, fk);
    HeaderWriteKeepsEntries(MovedEntries(file, lastGood + 1, lastGood + 1 + ghostN, k), n, LE(n, 8), fk);
  }

  // ----- header ranges

  /** Header `i` names the txids `first .. first + count - 1`; a zero in either is no range. */
  datatype Range = Range(first: nat, count: nat)

  predicate Names(r: Range) {
    r.first > 0 && r.count > 0
  }

  function Last(r: Range): int {
    r.first + r.count - 1
  }

  function Adjusted(r: Range, lastGood: nat, ghostN: nat): Range {
    var lo, hi := lastGood + 1, lastGood + ghostN;
    if !Names(r) then r
    else if r.first >= lo && Last(r) <= hi then Range(0, 0)
    else if r.first > hi then Range(r.first - ghostN, r.count)
    else if r.first <= lastGood && Last(r) > lastGood then Range(0, 0)
    else r
  }

  /** The two header tables, rewritten in place; entries past the shorter table stay. */
  method AdjustHeaders(first: array<nat>, count: array<nat>, lastGood: nat, ghostN: nat)
    requires first != count
    modifies first, count
    ensures var n := if first.Length < count.Length then first.Length else count.Length;
            forall i :: 0 <= i < n ==>
              Range(first[i], count[i]) == Adjusted(Range(old(first[i]), old(count[i])), lastGood, ghostN)
    ensures forall i :: count.Length <= i < first.Length ==> first[i] == old(first[i])
    ensures forall i :: first.Length <= i < count.Length ==> count[i] == old(count[i])
  {
    var n := if first.Length < count.Length then first.Length else count.Length;
    var lo, hi := lastGood + 1, lastGood + ghostN;
    for i := 0 to n
      invariant forall k :: 0 <= k < i ==>
        Range(first[k], count[k]) == Adjusted(Range(old(first[k]), old(count[k])), lastGood, ghostN)
      invariant forall k :: i <= k < first.Length ==> first[k] == old(first[k])
      invariant forall k :: i <= k < count.Length ==> count[k] == old(count[k])
    {
      var f, c := first[i], count[i];
      if f == 0 || c == 0 {
        continue;
      }
      var last := f + c - 1;
      if f >= lo && last <= hi {
        first[i], count[i] := 0, 0;
      } else if f > hi {
        first[i] := f - ghostN;
      } else if f <= lastGood && last > lastGood {
        first[i], count[i] := 0, 0;
      }
    }
  }

  predicate InBounds(r: Range, n: nat) {
    Names(r) ==> Last(r) <= n
  }

  /** The txids a range names. */
  function Txids(file: Bytes, r: Range, n: nat): (s: seq<Bytes>)
    requires 32 + 32 * n <= |file| && Names(r) && InBounds(r, n)
  {
    seq(r.count, i requires 0 <= i < r.count => Entry(file, r.first + i))
  }

  /** The range survives as the same txids of the compacted file, or is cleared. */
  ghost predicate KeepsMeaning(file: Bytes, r: Range, lastGood: nat, ghostN: nat, n: nat)
    requires lastGood + ghostN <= n && 32 + 32 * n <= |file| && Names(r) && InBounds(r, n)
  {
    var after := Adjusted(r, lastGood, ghostN);
    || after == Range(0, 0)
    || (Names(after) && InBounds(after, n - ghostN)
        && Txids(CompactedFile(file, lastGood, ghostN, n), after, n - ghostN) == Txids(file, r, n))
  }

  /** Starts inside the ghost window and ends past it: no case of the adjustment applies. */
  predicate Straddles(r: Range, lastGood: nat, ghostN: nat) {
    lastGood < r.first <= lastGood + ghostN < Last(r)
  }

  /** No txid of the ghost window stands again after it. */
  predicate GhostsDoNotRecur(file: Bytes, lastGood: nat, ghostN: nat, n: nat)
    requires 32 + 32 * n <= |file|
  {
    forall i, j :: lastGood < i <= lastGood + ghostN < j <= n ==> Entry(file, i) != Entry(file, j)
  }

  /** Every txid of the range stands again `ghostN` entries later. */
  predicate RepeatsAhead(file: Bytes, r: Range, ghostN: nat, n: nat)
    requires 32 + 32 * n <= |file| && Names(r)
  {
    && Last(r) + ghostN <= n
    && forall fk :: r.first <= fk <= Last(r) ==> Entry(file, fk) == Entry(file, fk + ghostN)
  }

  /** A range that does not straddle the end of the ghost window keeps its meaning. */
  lemma UnstraddledKeepsMeaning(file: Bytes, r: Range, lastGood: nat, ghostN: nat, n: nat)
    requires lastGood + ghostN <= n && 32 + 32 * n <= |file| && Names(r) && InBounds(r, n)
    requires !Straddles(r, lastGood, ghostN)
    ensures KeepsMeaning(file, r, lastGood, ghostN, n)
  {
    hide CompactedFile, Entry;
    var after := Adjusted(r, lastGood, ghostN);
    if after != Range(0, 0) {
      forall i | 0 <= i < r.count
        ensures Txids(CompactedFile(file, lastGood, ghostN, n), after, n - ghostN)[i] == Txids(file, r, n)[i]
      {
        CompactedEntry(file, lastGood, ghostN, n, after.first + i);
      }
    }
  }

  /** A straddling range is left in place and then names the txids `ghostN` entries later. */
  lemma StraddlingMeans(file: Bytes, r: Range, lastGood: nat, ghostN: nat, n: nat)
    requires lastGood + ghostN <= n && 32 + 32 * n <= |file| && Names(r) && InBounds(r, n)
    requires Straddles(r, lastGood, ghostN)
    ensures KeepsMeaning(file, r, lastGood, ghostN, n) <==> RepeatsAhead(file, r, ghostN, n)
  {
    hide CompactedFile, Entry;
    if InBounds(r, n - ghostN) {
      var before, after := Txids(file, r, n), Txids(CompactedFile(file, lastGood, ghostN, n), r, n - ghostN);
      forall i | 0 <= i < r.count
        ensures before[i] == Entry(file, r.first + i) && after[i] == Entry(file, r.first + i + ghostN)
      {
        CompactedEntry(file, lastGood, ghostN, n, r.first + i);
      }
      if before == after {
        forall fk | r.first <= fk <= Last(r) ensures Entry(file, fk) == Entry(file, fk + ghostN) {
          assert before[fk - r.first] == after[fk - r.first];
        }
      }
    }
  }

  /** The exact condition for any store: a range keeps its meaning or is cleared unless it
      straddles the end of the ghost window and its txids do not all stand again later. Where
      no ghost txid recurs after the window, straddling alone decides. */
  lemma KeepsMeaningIff(file: Bytes, r: Range, lastGood: nat, ghostN: nat, n: nat)
    requires lastGood + ghostN <= n && 32 + 32 * n <= |file| && Names(r) && InBounds(r, n)
    ensures KeepsMeaning(file, r, lastGood, ghostN, n)
       <==> !Straddles(r, lastGood, ghostN) || RepeatsAhead(file, r, ghostN, n)
    ensures GhostsDoNotRecur(file, lastGood, ghostN, n) ==>
              (KeepsMeaning(file, r, lastGood, ghostN, n) <==> !Straddles(r, lastGood, ghostN))
  {
    hide CompactedFile, Entry, KeepsMeaning;
    if Straddles(r, lastGood, ghostN) {
      StraddlingMeans(file, r, lastGood, ghostN, n);
      if RepeatsAhead(file, r, ghostN, n) {
        assert Entry(file, r.first) == Entry(file, r.first + ghostN);
      }
    } else {
      UnstraddledKeepsMeaning(file, r, lastGood, ghostN, n);
    }
  }

  /** An instance in every store of four entries whose third is a ghost: the range of the last
      two is left as it is and points past the end. */
  lemma StraddlingLosesMeaning(file: Bytes)
    requires |file| >= 160
    ensures !KeepsMeaning(file, Range(3, 2), 2, 1, 4)
  {
    assert Adjusted(Range(3, 2), 2, 1) == Range(3, 2);
  }

  predicate Disjoint(a: Range, b: Range) {
    Names(a) && Names(b) ==> Last(a) < b.first || Last(b) < a.first
  }

  predicate PairwiseDisjoint(table: seq<Range>) {
    forall i, j :: 0 <= i < j < |table| ==> Disjoint(table[i], table[j])
  }

  /** Within bounds, pairwise disjoint, and none straddling the end of the ghost window. */
  ghost predicate SoundTable(table: seq<Range>, lastGood: nat, ghostN: nat, n: nat) {
    && (forall i :: 0 <= i < |table| ==> InBounds(table[i], n))
    && (forall i :: 0 <= i < |table| && Names(table[i]) ==> !Straddles(table[i], lastGood, ghostN))
    && PairwiseDisjoint(table)
  }

  function AdjustedTable(table: seq<Range>, lastGood: nat, ghostN: nat): (r: seq<Range>)
    ensures |r| == |table|
  {
    seq(|table|, i requires 0 <= i < |table| => Adjusted(table[i], lastGood, ghostN))
  }

  /** Every range of a sound table keeps its meaning, and the adjusted ranges are again
      in bounds and pairwise disjoint. */
  lemma TableKeepsMeaning(file: Bytes, table: seq<Range>, lastGood: nat, ghostN: nat, n: nat)
    requires lastGood + ghostN <= n && 32 + 32 * n <= |file| && SoundTable(table, lastGood, ghostN, n)
    ensures forall i :: 0 <= i < |table| && Names(table[i]) ==> KeepsMeaning(file, table[i], lastGood, ghostN, n)
    ensures var after := AdjustedTable(table, lastGood, ghostN);
            && (forall i :: 0 <= i < |after| ==> InBounds(after[i], n - ghostN))
            && PairwiseDisjoint(after)
  {
    hide CompactedFile, Entry, KeepsMeaning;
    forall i | 0 <= i < |table| && Names(table[i]) ensures KeepsMeaning(file, table[i], lastGood, ghostN, n) {
      UnstraddledKeepsMeaning(file, table[i], lastGood, ghostN, n);
    }
  }

  /** `a` straddles and stays, and `b` comes down from behind the window onto it. */
  predicate Collides(a: Range, b: Range, lastGood: nat, ghostN: nat) {
    && Names(a) && Names(b) && Straddles(a, lastGood, ghostN) && b.first > lastGood + ghostN
    && b.first - ghostN <= Last(a) && a.first <= Last(b) - ghostN
  }

  /** Disjoint ranges stay disjoint exactly when neither comes down onto the other. */
  lemma StayDisjointIff(a: Range, b: Range, lastGood: nat, ghostN: nat)
    requires Disjoint(a, b)
    ensures Disjoint(Adjusted(a, lastGood, ghostN), Adjusted(b, lastGood, ghostN))
       <==> !Collides(a, b, lastGood, ghostN) && !Collides(b, a, lastGood, ghostN)
  {}

  predicate NoneCollide(table: seq<Range>, lastGood: nat, ghostN: nat) {
    forall i, j :: 0 <= i < |table| && 0 <= j < |table| && i != j ==> !Collides(table[i], table[j], lastGood, ghostN)
  }

  /** The same for a whole table. */
  lemma TableStaysDisjointIff(table: seq<Range>, lastGood: nat, ghostN: nat)
    requires PairwiseDisjoint(table)
    ensures PairwiseDisjoint(AdjustedTable(table, lastGood, ghostN)) <==> NoneCollide(table, lastGood, ghostN)
  {
    hide Collides, Disjoint, Adjusted;
    var after := AdjustedTable(table, lastGood, ghostN);
    forall i, j | 0 <= i < j < |table|
      ensures Disjoint(after[i], after[j])
         <==> !Collides(table[i], table[j], lastGood, ghostN) && !Collides(table[j], table[i], lastGood, ghostN)
    {
      StayDisjointIff(table[i], table[j], lastGood, ghostN);
    }
    if PairwiseDisjoint(after) {
      forall i, j | 0 <= i < |table| && 0 <= j < |table| && i != j
        ensures !Collides(table[i], table[j], lastGood, ghostN)
      {
        assert if i < j then Disjoint(after[i], after[j]) else Disjoint(after[j], after[i]);
      }
    }
  }

  /** It does happen, with both ranges within a store of five entries whose third is a ghost. */
  lemma StraddlingOverlaps()
    ensures exists a: Range, b: Range, lastGood: nat, ghostN: nat, n: nat ::
              && lastGood + ghostN <= n && InBounds(a, n) && InBounds(b, n) && Disjoint(a, b)
              && Straddles(a, lastGood, ghostN) && Collides(a, b, lastGood, ghostN)
              && !Disjoint(Adjusted(a, lastGood, ghostN), Adjusted(b, lastGood, ghostN))
  {
    var a, b := Range(3, 2), Range(5, 1);
    assert Adjusted(a, 2, 1) == a && Adjusted(b, 2, 1) == Range(4, 1);
    assert InBounds(a, 5) && InBounds(b, 5) && Straddles(a, 2, 1) && Collides(a, b, 2, 1);
    assert Disjoint(a, b) && !Disjoint(Adjusted(a, 2, 1), Adjusted(b, 2, 1));
  }

  // ----- undoing an insertion

  /** `file` is `orig` with `ghostN` entries of any contents inserted after `lastGood`, and
      with any high-water mark. */
  predicate GhostsInserted(orig: Bytes, file: Bytes, lastGood: nat, ghostN: nat) {
    var at := 32 * (lastGood + 1);
    && at <= |orig| && |file| == |orig| + 32 * ghostN && file[..8] == orig[..8]
    && file[16..at] == orig[16..at] && file[at + 32 * ghostN..] == orig[at..]
  }

  /** Compaction gives back the original file, byte for byte. */
  lemma CompactUndoesInsertion(orig: Bytes, file: Bytes, lastGood: nat, ghostN: nat, n: nat)
    requires lastGood <= n && |orig| == 32 + 32 * n && orig[8..16] == LE(|orig|, 8)
    requires GhostsInserted(orig, file, lastGood, ghostN)
    ensures CompactedFile(file, lastGood, ghostN, n + ghostN) == orig
  {
    hide LE, Moved, Overwrite;
    var at, from, len := 32 * (lastGood + 1), 32 * (lastGood + 1 + ghostN), 32 * (n - lastGood);
    var moved := MovedEntries(file, lastGood + 1, lastGood + 1 + ghostN, n - lastGood);
    MovedHead(file, at, from, len);
    assert file[from..from + len] == file[from..];
    assert file[..at][16..] == file[16..at] && file[..at][..8] == file[..8];
    HeaderRestored(orig, file[..at], at, LE(|orig|, 8));
  }

  lemma MovedHead(file: Bytes, dst: nat, src: nat, len: nat)
    requires dst <= src && src + len <= |file|
    ensures Moved(file, dst, src, len)[..dst + len] == file[..dst] + file[src..src + len]
  {}

  lemma HeaderRestored(orig: Bytes, head: Bytes, at: nat, mark: Bytes)
    requires 32 <= at <= |orig| && |head| == at && mark == orig[8..16]
    requires head[..8] == orig[..8] && head[16..] == orig[16..at]
    ensures Overwrite(head + orig[at..], 8, mark) == orig
  {
    var s := head + orig[at..];
    assert s[..8] == orig[..8];
    assert s[16..] == head[16..] + orig[at..] == orig[16..];
    assert orig == orig[..8] + orig[8..16] + orig[16..];
  }

  /** A range behind `lastGood` after the insertion. */
  function MovedUp(r: Range, lastGood: nat, ghostN: nat): Range {
    if Names(r) && r.first > lastGood then Range(r.first + ghostN, r.count) else r
  }

  /** The range goes on past `lastGood`, so an insertion there cuts it in two. */
  predicate Spans(r: Range, lastGood: nat) {
    Names(r) && r.first <= lastGood < Last(r)
  }

  /** The adjustment gives every range back that the insertion did not cut, and clears those
      it did. */
  lemma AdjustUndoesMove(r: Range, lastGood: nat, ghostN: nat)
    ensures Adjusted(MovedUp(r, lastGood, ghostN), lastGood, ghostN) == if Spans(r, lastGood) then Range(0, 0) else r
  {}

  function MovedUpTable(table: seq<Range>, lastGood: nat, ghostN: nat): (r: seq<Range>)
    ensures |r| == |table|
  {
    seq(|table|, i requires 0 <= i < |table| => MovedUp(table[i], lastGood, ghostN))
  }

  /** The same for a whole table. */
  lemma TableRestoredIff(table: seq<Range>, lastGood: nat, ghostN: nat)
    ensures var after := AdjustedTable(MovedUpTable(table, lastGood, ghostN), lastGood, ghostN);
            && |after| == |table|
            && (forall i :: 0 <= i < |table| ==>
                  after[i] == if Spans(table[i], lastGood) then Range(0, 0) else table[i])
            && (after == table <==> forall i :: 0 <= i < |table| ==> !Spans(table[i], lastGood))
  {
    hide Adjusted, MovedUp;
    var after := AdjustedTable(MovedUpTable(table, lastGood, ghostN), lastGood, ghostN);
    forall i | 0 <= i < |table| ensures after[i] == if Spans(table[i], lastGood) then Range(0, 0) else table[i] {
      AdjustUndoesMove(table[i], lastGood, ghostN);
    }
    if after == table {
      forall i | 0 <= i < |table| ensures !Spans(table[i], lastGood) {
        assert after[i] == table[i];
      }
    }
  }
}
