/** Removing a double-appended index window: scripts/repair-idx-double-append.py, lines
    69-233. A segment file is 16 header bytes and then one little-endian u32 per slot. */
module IndexRepair {
  import opened ByteStrings
  import opened Moves

  function U32At(mv: Bytes, slot: nat): nat
    requires 20 + 4 * slot <= |mv|
  {
    FromLE(mv[16 + 4 * slot..20 + 4 * slot])
  }

  /** The first `n` slots. */
  function Slots(mv: Bytes, n: nat): (r: seq<nat>)
    requires 16 + 4 * n <= |mv|
    ensures |r| == n
  {
    seq(n, i requires 0 <= i < n => U32At(mv, i))
  }

  // ----- detection

  predicate NonDecreasing(s: seq<nat>) {
    forall i, j :: 0 <= i <= j < |s| ==> s[i] <= s[j]
  }

  predicate Increasing(s: seq<nat>) {
    forall i, j :: 0 <= i < j < |s| ==> s[i] < s[j]
  }

  /** Slot `inv` is the first one below its predecessor. */
  predicate FirstInversion(s: seq<nat>, inv: nat) {
    0 < inv < |s| && s[inv] < s[inv - 1] && NonDecreasing(s[..inv])
  }

  /** The `w` slots from `inv` on repeat the `w` slots before it. */
  predicate Repeats(s: seq<nat>, inv: nat, w: nat) {
    1 <= w <= inv && inv + w <= |s| && s[inv - w..inv] == s[inv..inv + w]
  }

  datatype Detection =
    | Clone(lastGood: nat, ghostN: nat, inv: nat)
    | NothingToRepair
    | NoCloneWindow(inv: nat)

  method FindInversion(mv: Bytes, n: nat, bodyBase: nat) returns (inv: Option<nat>)
    requires 1 <= n && 16 + 4 * n <= |mv|
    ensures inv.Some? ==> FirstInversion(Slots(mv, n), inv.value)
    ensures inv.None? ==> NonDecreasing(Slots(mv, n))
  {
    ghost var s := Slots(mv, n);
    var prev := bodyBase + U32At(mv, 0) * 8;
    for i := 1 to n
      invariant prev == bodyBase + s[i - 1] * 8
      invariant NonDecreasing(s[..i])
    {
      var start := bodyBase + U32At(mv, i) * 8;
      if start < prev {
        return Some(i);
      }
      assert s[..i + 1] == s[..i] + [s[i]];
      prev := start;
    }
    assert s[..n] == s;
    return None;
  }

  method WindowRepeats(mv: Bytes, n: nat, inv: nat, w: nat) returns (ok: bool)
    requires 16 + 4 * n <= |mv| && 1 <= w <= inv && inv + w <= n
    ensures ok <==> Repeats(Slots(mv, n), inv, w)
  {
    hide FromLE;
    ghost var s := Slots(mv, n);
    ghost var source, copy := s[inv - w..inv], s[inv..inv + w];
    for k := 0 to w
      invariant forall j :: 0 <= j < k ==> source[j] == copy[j]
    {
      assert source[k] == U32At(mv, inv - w + k) && copy[k] == U32At(mv, inv + k);
      if U32At(mv, inv - w + k) != U32At(mv, inv + k) {
        return false;
      }
    }
    assert source == copy;
    return true;
  }

  /** The widest repeated window, 0 if there is none. */
  method WidestWindow(mv: Bytes, n: nat, inv: nat) returns (best: nat)
    requires 16 + 4 * n <= |mv| && inv <= n
    ensures best > 0 ==> Repeats(Slots(mv, n), inv, best)
    ensures forall w :: w > best ==> !Repeats(Slots(mv, n), inv, w)
  {
    best := 0;
    var w := 1;
    while w <= inv && inv + w <= n
      invariant 1 <= w
      invariant best > 0 ==> Repeats(Slots(mv, n), inv, best)
      invariant forall v :: best < v < w ==> !Repeats(Slots(mv, n), inv, v)
    {
      var ok := WindowRepeats(mv, n, inv, w);
      if ok {
        best := w;
      }
      w := w + 1;
    }
  }

  /** The widening loop after the search, one slot at a time. */
  method Widen(mv: Bytes, n: nat, inv: nat, best: nat) returns (w: nat)
    requires 16 + 4 * n <= |mv| && inv <= n
    ensures w >= best && !Repeats(Slots(mv, n), inv, w + 1)
    ensures forall v :: best < v <= w ==> Repeats(Slots(mv, n), inv, v)
  {
    w := best;
    while w + 1 <= inv && inv + w + 1 <= n
      invariant w >= best && forall v :: best < v <= w ==> Repeats(Slots(mv, n), inv, v)
      decreases n - w
    {
      var ok := WindowRepeats(mv, n, inv, w + 1);
      if !ok {
        break;
      }
      w := w + 1;
    }
  }

  /** The first inversion and the widest window that repeats there. */
  ghost predicate Detected(s: seq<nat>, firstFk: nat, r: Detection) {
    match r
    case NothingToRepair => NonDecreasing(s)
    case NoCloneWindow(inv) => FirstInversion(s, inv) && forall w: nat :: !Repeats(s, inv, w)
    case Clone(lastGood, ghostN, inv) =>
      && FirstInversion(s, inv) && lastGood == firstFk + inv - 1 && Repeats(s, inv, ghostN)
      && forall w: nat :: Repeats(s, inv, w) ==> w <= ghostN
  }

  /** `detect_clone` on the last segment. */
  method DetectClone(mv: Bytes, n: nat, firstFk: nat, bodyBase: nat) returns (r: Detection)
    requires 1 <= n && 16 + 4 * n <= |mv|
    ensures Detected(Slots(mv, n), firstFk, r)
  {
    var inv := FindInversion(mv, n, bodyBase);
    if inv.None? {
      return NothingToRepair;
    }
    var best := WidestWindow(mv, n, inv.value);
    if best == 0 {
      return NoCloneWindow(inv.value);
    }
    var w := Widen(mv, n, inv.value, best);
    assert forall v: nat :: Repeats(Slots(mv, n), inv.value, v) ==> !(v > best);
    r := Clone(firstFk + inv.value - 1, w, inv.value);
  }

  // ----- the corruption

  /** `a` with its `w` slots before `p` appended once more at `p`. */
  function Doubled(a: seq<nat>, p: nat, w: nat): (r: seq<nat>)
    requires w <= p <= |a|
    ensures |r| == |a| + w
  {
    a[..p] + a[p - w..p] + a[p..]
  }

  lemma OrderedBelow(s: seq<nat>, n: nat, i: nat)
    requires 0 < i < n <= |s| && NonDecreasing(s[..n])
    ensures s[i - 1] <= s[i]
  {
    assert s[..n][i - 1] <= s[..n][i];
  }

  lemma FirstInversionUnique(s: seq<nat>, i: nat, j: nat)
    requires FirstInversion(s, i) && FirstInversion(s, j)
    ensures i == j
  {
    if i < j {
      OrderedBelow(s, j, i);
    } else if j < i {
      OrderedBelow(s, i, j);
    }
  }

  lemma DoubledAt(a: seq<nat>, p: nat, w: nat, i: nat)
    requires w <= p <= |a| && i < |a| + w
    ensures Doubled(a, p, w)[i] == if i < p then a[i] else a[i - w]
  {}

  /** A doubled window that is not constant shows as an inversion exactly at its start. */
  lemma DoubledInverts(a: seq<nat>, p: nat, w: nat)
    requires NonDecreasing(a) && 1 <= w <= p <= |a| && a[p - w] < a[p - 1]
    ensures FirstInversion(Doubled(a, p, w), p)
  {
    assert Doubled(a, p, w)[..p] == a[..p];
  }

  /** Doubling a constant window leaves the index in order. */
  lemma DoubledConstant(a: seq<nat>, p: nat, w: nat)
    requires NonDecreasing(a) && 1 <= w <= p <= |a| && a[p - w] == a[p - 1]
    ensures NonDecreasing(Doubled(a, p, w))
  {
    var b := Doubled(a, p, w);
    forall i, j | 0 <= i <= j < |b| ensures b[i] <= b[j] {
      DoubledAt(a, p, w, i);
      DoubledAt(a, p, w, j);
    }
  }

  lemma DoubledSlices(a: seq<nat>, p: nat, w: nat, v: nat)
    requires w <= p <= |a| && v <= p && p + v <= |a| + w
    ensures var b := Doubled(a, p, w); b[p - v..p] == a[p - v..p] && b[p..p + v] == a[p - w..p - w + v]
  {
    var b := Doubled(a, p, w);
    var repeated, source := b[p..p + v], a[p - w..p - w + v];
    forall k | 0 <= k < v ensures repeated[k] == source[k] {
      DoubledAt(a, p, w, p + k);
    }
  }

  /** An ordered run with a period never rises above its first slot. */
  lemma {:induction false} PeriodicRunIsFlat(a: seq<nat>, lo: nat, n: nat, d: nat, i: nat)
    requires NonDecreasing(a) && 1 <= d && 1 <= n && lo + n + d <= |a|
    requires a[lo..lo + n] == a[lo + d..lo + d + n]
    requires lo <= i < lo + n + d
    ensures a[i] <= a[lo]
    decreases i
  {
    if i < lo + d {
      assert a[lo..lo + n][0] == a[lo + d..lo + d + n][0];
    } else {
      assert a[lo..lo + n][i - d - lo] == a[lo + d..lo + d + n][i - d - lo];
      PeriodicRunIsFlat(a, lo, n, d, i - d);
    }
  }

  /** Only the doubled window repeats at its start: another width would make the slots
      around it periodic, and an ordered periodic run is flat. */
  lemma OnlyTheWindowRepeats(a: seq<nat>, p: nat, w: nat, v: nat)
    requires NonDecreasing(a) && 1 <= w <= p <= |a| && a[p - w] < a[p - 1]
    ensures Repeats(Doubled(a, p, w), p, v) <==> v == w
  {
    hide Doubled;
    var b := Doubled(a, p, w);
    if v == w {
      DoubledSlices(a, p, w, w);
    } else if Repeats(b, p, v) {
      DoubledSlices(a, p, w, v);
      if v < w {
        PeriodicRunIsFlat(a, p - w, v, w - v, p - 1);
      } else {
        PeriodicRunIsFlat(a, p - v, v, v - w, p - 1);
      }
    }
  }

  /** What `detect_clone` may return for a doubled window, for every ordered index: the
      window itself, exactly when it is not constant. */
  lemma DetectsDoubledIff(a: seq<nat>, p: nat, w: nat, b: Bytes, firstFk: nat, r: Detection)
    requires NonDecreasing(a) && 1 <= w <= p <= |a|
    requires 16 + 4 * (|a| + w) <= |b| && Slots(b, |a| + w) == Doubled(a, p, w)
    requires Detected(Slots(b, |a| + w), firstFk, r)
    ensures if a[p - w] < a[p - 1] then r == Clone(firstFk + p - 1, w, p) else r == NothingToRepair
  {
    var s := Doubled(a, p, w);
    if a[p - w] < a[p - 1] {
      DoubledInverts(a, p, w);
      assert !NonDecreasing(s) by {
        assert s[p] < s[p - 1];
      }
      FirstInversionUnique(s, p, r.inv);
      OnlyTheWindowRepeats(a, p, w, w);
      OnlyTheWindowRepeats(a, p, w, if r.Clone? then r.ghostN else w);
    } else {
      DoubledConstant(a, p, w);
    }
  }

  // ----- compaction

  method SetU32(mv: array<Byte>, slot: nat, val: nat)
    requires 20 + 4 * slot <= mv.Length
    modifies mv
    ensures mv[..] == Overwrite(old(mv[..]), 16 + 4 * slot, LE(val, 4))
  {
    var bytes := LE(val, 4);
    forall k | 0 <= k < 4 {
      mv[16 + 4 * slot + k] := bytes[k];
    }
  }

  /** The file with slot `src` copied to slot `dst`. */
  function CopiedSlot(mv: Bytes, dst: nat, src: nat): (r: Bytes)
    requires dst <= src && 20 + 4 * src <= |mv|
    ensures |r| == |mv|
  {
    Overwrite(mv, 16 + 4 * dst, mv[16 + 4 * src..20 + 4 * src])
  }

  /** The file with `k` slots from `src` on moved down to `dst`. */
  function MovedSlots(mv: Bytes, dst: nat, src: nat, k: nat): (r: Bytes)
    requires dst <= src && 16 + 4 * (src + k) <= |mv|
    ensures |r| == |mv|
  {
    Moved(mv, 16 + 4 * dst, 16 + 4 * src, 4 * k)
  }

  lemma NothingMoved(mv: Bytes, dst: nat, src: nat)
    requires dst <= src && 16 + 4 * src <= |mv|
    ensures MovedSlots(mv, dst, src, 0) == mv
  {}

  lemma MoveSlot(orig: Bytes, dst: nat, src: nat, k: nat)
    requires dst <= src && 16 + 4 * (src + k + 1) <= |orig|
    ensures CopiedSlot(MovedSlots(orig, dst, src, k), dst + k, src + k) == MovedSlots(orig, dst, src, k + 1)
  {
    hide Moved, Overwrite;
    MoveStep(orig, 16 + 4 * dst, 16 + 4 * src, 4 * k, 4);
    assert 4 * k + 4 == 4 * (k + 1);
  }

  /** `set_u32(mv, dst, u32_at(mv, src))` copies the slot's four bytes. */
  method CopySlot(mv: array<Byte>, dst: nat, src: nat)
    requires dst <= src && 20 + 4 * src <= mv.Length
    modifies mv
    ensures mv[..] == CopiedSlot(old(mv[..]), dst, src)
  {
    hide Overwrite, LE, FromLE;
    var piece := mv[16 + 4 * src..20 + 4 * src];
    assert piece == mv[..][16 + 4 * src..20 + 4 * src];
    LEOfFromLE(piece);
    SetU32(mv, dst, FromLE(piece));
  }

  /** The in-place shift of `k` slots from `src` on down to `dst`. */
  method ShiftSlots(mv: array<Byte>, dst: nat, src: nat, k: nat)
    requires dst <= src && 16 + 4 * (src + k) <= mv.Length
    modifies mv
    ensures mv[..] == MovedSlots(old(mv[..]), dst, src, k)
  {
    hide MovedSlots, CopiedSlot;
    ghost var orig := mv[..];
    NothingMoved(orig, dst, src);
    for i := 0 to k
      invariant mv[..] == MovedSlots(orig, dst, src, i)
    {
      MoveSlot(orig, dst, src, i);
      CopySlot(mv, dst + i, src + i);
    }
  }

  datatype Repair = Repaired(file: Bytes, count: nat, lastGood: nat, ghostN: nat) | NotRepaired(why: Detection)

  /** The detected window is gone and every other slot is kept in order, under a header
      whose high-water mark is the new file length. */
  ghost predicate RepairOutcome(file: Bytes, n: nat, firstFk: nat, r: Repair)
    requires 16 + 4 * n <= |file|
  {
    var s := Slots(file, n);
    match r
    case NotRepaired(why) => !why.Clone? && Detected(s, firstFk, why)
    case Repaired(out, count, lastGood, ghostN) =>
      && firstFk <= lastGood
      && var inv := lastGood + 1 - firstFk;
      && Detected(s, firstFk, Clone(lastGood, ghostN, inv))
      && count == n - ghostN && |out| == 16 + 4 * count
      && out[..8] == file[..8] && out[8..16] == LE(|out|, 8)
      && Slots(out, count) == s[..inv] + s[inv + ghostN..]
  }

  /** Detects the ghost window in the last segment and writes the segment without it. */
  method RepairSegment(file: Bytes, n: nat, firstFk: nat, bodyBase: nat) returns (r: Repair)
    requires 1 <= n && 16 + 4 * n <= |file|
    ensures RepairOutcome(file, n, firstFk, r)
  {
    hide Detected, FromLE, LE, Slots, MovedSlots;
    var d := DetectClone(file, n, firstFk, bodyBase);
    if !d.Clone? {
      return NotRepaired(d);
    }
    CloneBounds(Slots(file, n), firstFk, d);
    var mv := new Byte[|file|](i requires 0 <= i < |file| => file[i]);
    assert mv[..] == file;
    ShiftSlots(mv, d.inv, d.inv + d.ghostN, n - d.inv - d.ghostN);
    var count := d.inv + (n - d.inv - d.ghostN);
    var need := 16 + 4 * count;
    var out := Overwrite(mv[..need], 8, LE(need, 8));
    HeaderKept(file, d.inv, d.inv + d.ghostN, n - d.inv - d.ghostN, need, out);
    CompactedSlots(file, n, d.inv, d.ghostN, out);
    r := Repaired(out, count, d.lastGood, d.ghostN);
  }

  /** Truncation and the new high-water mark touch only bytes 8 to 16 of the moved file. */
  lemma HeaderKept(file: Bytes, dst: nat, src: nat, k: nat, need: nat, out: Bytes)
    requires dst <= src && 16 + 4 * (src + k) <= |file| && 16 <= need <= |file|
    requires out == Overwrite(MovedSlots(file, dst, src, k)[..need], 8, LE(need, 8))
    ensures |out| == need && out[..8] == file[..8] && out[8..16] == LE(need, 8)
    ensures out[16..] == MovedSlots(file, dst, src, k)[16..need]
  {
    hide LE;
    var m := MovedSlots(file, dst, src, k);
    assert m[..8] == file[..8];
  }

  lemma CloneBounds(s: seq<nat>, firstFk: nat, d: Detection)
    requires Detected(s, firstFk, d) && d.Clone?
    ensures 1 <= d.ghostN <= d.inv && d.inv + d.ghostN <= |s| && d.lastGood == firstFk + d.inv - 1
  {}

  lemma MovedSlotBytes(file: Bytes, dst: nat, src: nat, k: nat, i: nat)
    requires dst <= src && 16 + 4 * (src + k) <= |file| && i < dst + k
    ensures var from := if i < dst then i else i - dst + src;
            MovedSlots(file, dst, src, k)[16 + 4 * i..20 + 4 * i] == file[16 + 4 * from..20 + 4 * from]
  {
    var m, d, s := MovedSlots(file, dst, src, k), 16 + 4 * dst, 16 + 4 * src;
    assert m[..d] == file[..d] && m[d..d + 4 * k] == file[s..s + 4 * k];
    if i < dst {
      SliceOfSlice(m, 0, d, 16 + 4 * i, 20 + 4 * i);
      SliceOfSlice(file, 0, d, 16 + 4 * i, 20 + 4 * i);
    } else {
      SliceOfSlice(m, d, d + 4 * k, 4 * (i - dst), 4 * (i - dst) + 4);
      SliceOfSlice(file, s, s + 4 * k, 4 * (i - dst), 4 * (i - dst) + 4);
    }
  }

  lemma CompactedSlots(file: Bytes, n: nat, inv: nat, ghostN: nat, out: Bytes)
    requires 16 + 4 * n <= |file| && inv + ghostN <= n
    requires |out| == 16 + 4 * (n - ghostN)
    requires out[16..] == MovedSlots(file, inv, inv + ghostN, n - inv - ghostN)[16..|out|]
    ensures Slots(out, n - ghostN) == Slots(file, n)[..inv] + Slots(file, n)[inv + ghostN..]
  {
    hide FromLE, MovedSlots;
    var m := MovedSlots(file, inv, inv + ghostN, n - inv - ghostN);
    var before := Slots(file, n);
    var kept := before[..inv] + before[inv + ghostN..];
    forall i | 0 <= i < n - ghostN ensures Slots(out, n - ghostN)[i] == kept[i] {
      SliceOfSlice(out, 16, |out|, 4 * i, 4 * i + 4);
      SliceOfSlice(m, 16, |out|, 4 * i, 4 * i + 4);
      MovedSlotBytes(file, inv, inv + ghostN, n - inv - ghostN, i);
      assert out[16..|out|] == out[16..];
      var from := if i < inv then i else i - inv + (inv + ghostN);
      assert kept[i] == before[from] == U32At(file, from);
    }
  }

  /** Repair undoes the corruption. For every ordered index and every window of it that
      was appended twice, the repaired segment holds the original index, with file length,
      published high-water mark and slot count agreeing, exactly when the window is not
      constant; a constant window is reported as nothing to repair. */
  lemma RepairUndoesDoubling(a: seq<nat>, p: nat, w: nat, file: Bytes, firstFk: nat, r: Repair)
    requires NonDecreasing(a) && 1 <= w <= p <= |a|
    requires 16 + 4 * (|a| + w) <= |file| && Slots(file, |a| + w) == Doubled(a, p, w)
    requires RepairOutcome(file, |a| + w, firstFk, r)
    ensures r.Repaired? <==> a[p - w] < a[p - 1]
    ensures Increasing(a) ==> (r.Repaired? <==> w >= 2)
    ensures r.NotRepaired? ==> r.why == NothingToRepair
    ensures r.Repaired? ==>
              && r.count == |a| && |r.file| == 16 + 4 * |a| && Slots(r.file, r.count) == a
              && r.file[8..16] == LE(|r.file|, 8)
              && r.lastGood == firstFk + p - 1 && r.ghostN == w
  {
    hide Detected, Slots, LE;
    var n, s := |a| + w, Slots(file, |a| + w);
    var d := if r.Repaired? then Clone(r.lastGood, r.ghostN, r.lastGood + 1 - firstFk) else r.why;
    DetectsDoubledIff(a, p, w, file, firstFk, d);
    if r.Repaired? {
      assert s[..p] == a[..p] && s[p + w..] == a[p..];
      assert a[..p] + a[p..] == a;
    }
  }
}
