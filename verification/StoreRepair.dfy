/** The whole repair of scripts/repair-idx-double-append.py, lines 149-246: index, txids
    and headers all lose the same ghost window. */
module StoreRepair {
  import opened ByteStrings
  import opened IndexRepair
  import opened TxidRepair

  /** The range table of two parallel arrays. */
  ghost function Table(first: array<nat>, count: array<nat>): (r: seq<Range>)
    reads first, count
  {
    var n := if first.Length < count.Length then first.Length else count.Length;
    seq(n, i requires 0 <= i < n reads first, count => Range(first[i], count[i]))
  }

  /** The segments before the last one hold fks `1 .. firstFk - 1`, so the store has
      `firstFk - 1 + n` entries in all. Nothing is touched unless a window is found. */
  method RepairStore(idx: Bytes, n: nat, firstFk: nat, bodyBase: nat,
                     txids: TxidFile, first: array<nat>, count: array<nat>)
    returns (r: Repair, status: Status)
    requires 1 <= n && 16 + 4 * n <= |idx| && 1 <= firstFk && first != count
    modifies txids, first, count
    ensures RepairOutcome(idx, n, firstFk, r)
    ensures r.NotRepaired? || !status.Compacted? ==> first[..] == old(first[..]) && count[..] == old(count[..])
    ensures r.NotRepaired? ==> txids.data == old(txids.data)
    ensures r.Repaired? ==>
              && r.lastGood + r.ghostN <= firstFk - 1 + n
              && CompactOutcome(old(txids.data), r.lastGood, r.ghostN, firstFk - 1 + n, 4096, status, txids.data)
    ensures r.Repaired? && status.Compacted? ==>
              && |txids.data| == 32 + 32 * (firstFk - 1 + r.count)
              && Table(first, count) == AdjustedTable(old(Table(first, count)), r.lastGood, r.ghostN)
              && (count.Length <= first.Length ==> first[count.Length..] == old(first[count.Length..]))
              && (first.Length <= count.Length ==> count[first.Length..] == old(count[first.Length..]))
  {
    hide Detected, CompactOutcome, LE, Slots, Adjusted;
    status := Compacted;
    r := RepairSegment(idx, n, firstFk, bodyBase);
    if r.NotRepaired? {
      return;
    }
    CloneBounds(Slots(idx, n), firstFk, Clone(r.lastGood, r.ghostN, r.lastGood + 1 - firstFk));
    status := txids.Compact(r.lastGood, r.ghostN, firstFk - 1 + n, 4096);
    if !status.Compacted? {
      return;
    }
    AdjustHeaders(first, count, r.lastGood, r.ghostN);
  }

  /** Repair undoes the corruption of a whole store: a window of the ordered index `a` was
      appended twice, as many txids of any contents were inserted behind it, and the header
      ranges behind it were moved up. If the window is not constant, index and txids are the
      original ones again, and the table is exactly when the insertion cut none of its
      ranges; a cut range is cleared. Otherwise nothing is changed. */
  method RestoreStore(idx: Bytes, n: nat, firstFk: nat, bodyBase: nat,
                      txids: TxidFile, first: array<nat>, count: array<nat>,
                      ghost a: seq<nat>, ghost p: nat, ghost w: nat, ghost orig: Bytes, ghost table: seq<Range>)
    returns (r: Repair, status: Status)
    requires 1 <= firstFk && first != count && NonDecreasing(a) && 1 <= w <= p <= |a| && n == |a| + w
    requires 16 + 4 * n <= |idx| && Slots(idx, n) == Doubled(a, p, w)
    requires |orig| == 32 + 32 * (firstFk - 1 + |a|) && orig[8..16] == LE(|orig|, 8)
    requires GhostsInserted(orig, txids.data, firstFk + p - 1, w)
    requires Table(first, count) == MovedUpTable(table, firstFk + p - 1, w)
    modifies txids, first, count
    ensures r.Repaired? <==> a[p - w] < a[p - 1]
    ensures r.Repaired? ==>
              && |r.file| == 16 + 4 * |a| && r.count == |a| && Slots(r.file, |a|) == a
              && status.Compacted? && txids.data == orig
              && |Table(first, count)| == |table|
              && (forall i :: 0 <= i < |table| ==>
                    Table(first, count)[i] == if Spans(table[i], firstFk + p - 1) then Range(0, 0) else table[i])
              && (Table(first, count) == table <==> forall i :: 0 <= i < |table| ==> !Spans(table[i], firstFk + p - 1))
    ensures r.NotRepaired? ==>
              txids.data == old(txids.data) && first[..] == old(first[..]) && count[..] == old(count[..])
  {
    hide RepairOutcome, Slots, Doubled, LE, CompactedFile, AdjustedTable, MovedUpTable, Table, GhostsInserted;
    ghost var file, lastGood := txids.data, firstFk + p - 1;
    r, status := RepairStore(idx, n, firstFk, bodyBase, txids, first, count);
    RepairUndoesDoubling(a, p, w, idx, firstFk, r);
    if r.Repaired? {
      InsertedLength(orig, file, lastGood, w);
      CompactUndoesInsertion(orig, file, lastGood, w, firstFk - 1 + |a|);
      TableRestoredIff(table, lastGood, w);
    }
  }

  lemma InsertedLength(orig: Bytes, file: Bytes, lastGood: nat, ghostN: nat)
    requires GhostsInserted(orig, file, lastGood, ghostN)
    ensures |file| == |orig| + 32 * ghostN
  {}
}
