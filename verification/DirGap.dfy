/** Finding room for an entry in a directory (src/fat/directory.c, _FAT_directory_findEntryGap). */
module DirGap {
  import opened Bytes
  import opened Arith
  import opened FatCodec
  import opened Chains
  import opened Fat
  import opened DirEntry
  import opened LongNames
  import opened DirItems
  import opened DirEdits
  import opened DirArea
  import opened DirSteps
  import opened SectorCache

  /** Of the first `i` slots none ends the directory, the last `run` of them are free and the one before
      those is not, and there is no gap of `size` slots among them. */
  ghost predicate Scanned(slots: seq<Entry>, i: nat, run: nat, size: nat) {
    && run < size && run <= i <= |slots|
    && FreeSlots(slots, i - run, run) && (run < i ==> !IsFree(slots[i - run - 1]))
    && (forall k :: 0 <= k < i ==> !IsLast(slots[k]))
    && forall a: nat :: a + size <= i ==> !FreeSlots(slots, a, size)
  }

  lemma ScanFree(slots: seq<Entry>, i: nat, run: nat, size: nat)
    requires Scanned(slots, i, run, size) && i < |slots| && IsFree(slots[i])
    ensures if run + 1 < size then Scanned(slots, i + 1, run + 1, size) else FreeSlots(slots, i - run, size)
  {
    if run + 1 < size {
      forall a: nat | a + size <= i + 1
        ensures !FreeSlots(slots, a, size)
      {
        if a + size == i + 1 {
          assert a <= i - run - 1 < a + size;
        }
      }
    }
  }

  lemma ScanLive(slots: seq<Entry>, i: nat, run: nat, size: nat)
    requires Scanned(slots, i, run, size) && i < |slots| && !IsFree(slots[i]) && !IsLast(slots[i])
    ensures Scanned(slots, i + 1, 0, size)
  {
    forall a: nat | a + size <= i + 1
      ensures !FreeSlots(slots, a, size)
    {
      if a + size == i + 1 {
        assert a <= i < a + size;
      }
    }
  }

  lemma ScanExtended(slots: seq<Entry>, i: nat, run: nat, size: nat, n: nat)
    requires Scanned(slots, i, run, size)
    ensures Scanned(slots + Blank(n), i, run, size)
  {
    var more := slots + Blank(n);
    forall a: nat | a + size <= i
      ensures !FreeSlots(more, a, size)
    {
      assert !FreeSlots(slots, a, size);
      var k :| a <= k < a + size && !IsFree(slots[k]);
      assert more[k] == slots[k];
    }
  }

  /** The slots as before, or with empty ones behind them. */
  ghost predicate Extended(before: seq<Entry>, after: seq<Entry>) {
    |before| <= |after| && after == before + Blank(|after| - |before|)
  }

  lemma ExtendedMore(a: seq<Entry>, b: seq<Entry>, n: nat)
    requires Extended(a, b)
    ensures Extended(a, b + Blank(n))
  {
    var c := b + Blank(n);
    assert |c| == |b| + n;
    assert forall k :: 0 <= k < |c| ==> c[k] == (a + Blank(|c| - |a|))[k];
  }

  lemma ExtendedNot(a: seq<Entry>)
    ensures Extended(a, a)
  {
    assert a + Blank(0) == a;
  }

  datatype Scanning = GapFound | EndFound | NoRoom

  /** The scan stopped at slot `i`, the end marker; `remain` slots of the gap are still to come behind it. */
  ghost predicate EndAt(slots: seq<Entry>, i: nat, remain: nat, size: nat) {
    remain < size <= i + 1 + remain && i < |slots| && IsLast(slots[i]) && Scanned(slots, i, size - remain - 1, size)
  }

  /** The scan stopped at slot `i`, the last of a gap. */
  ghost predicate GapAt(slots: seq<Entry>, i: nat, size: nat) {
    0 < size <= i + 1 && i < |slots| && FreeSlots(slots, i + 1 - size, size) && Scanned(slots, i, size - 1, size)
  }

  /** The scan stopped behind the last slot. */
  ghost predicate NoGap(slots: seq<Entry>, size: nat) {
    exists run: nat :: Scanned(slots, |slots|, run, size)
  }

  /** One slot of the scan: counts down, or starts over. */
  method Examine(pt: Partition, gapStart0: EntryPosition, gapEnd: EntryPosition, remain0: nat, size: nat,
                 ghost dir: Dir, ghost slots: seq<Entry>, ghost i: nat)
    returns (endOfDirectory: bool, gapStart: EntryPosition, remain: nat)
    requires DirOk(pt, dir) && slots == SlotsOf(pt, dir) && SlotAt(pt.g, dir, gapEnd, i) && 0 < remain0 <= size
    requires Scanned(slots, i, size - remain0, size)
             && (remain0 < size ==> SlotAt(pt.g, dir, gapStart0, i + remain0 - size))
    modifies pt.cache.Repr
    ensures DirOk(pt, dir) && pt.cache.view == old(pt.cache.view) && remain <= size && i < |slots|
    ensures remain < size ==> i + 1 + remain >= size && SlotAt(pt.g, dir, gapStart, i + 1 + remain - size)
    ensures if endOfDirectory then EndAt(slots, i, remain, size)
            else if remain == 0 then GapAt(slots, i, size)
            else Scanned(slots, i + 1, size - remain, size)
    ensures IsLast(slots[i]) ==> endOfDirectory
    ensures endOfDirectory ==> remain < size
  {
    hide Cache.Valid, Mul, Table, SlotAt, DirSlots, IsDir, FreeSlots, Scanned;
    endOfDirectory, gapStart, remain := false, gapStart0, remain0;
    ScannedRun(slots, i, size - remain0, size);
    var entryData := ReadSlot(pt, gapEnd, dir, i);
    if entryData[0] == DIR_ENTRY_LAST {
      if remain == size {
        gapStart := gapEnd;
      }
      remain := remain - 1;
      endOfDirectory := true;
    } else if entryData[0] == DIR_ENTRY_FREE {
      if remain == size {
        gapStart := gapEnd;
      }
      remain := remain - 1;
      ScanFree(slots, i, size - remain0, size);
    } else {
      remain := size;
      ScanLive(slots, i, size - remain0, size);
    }
  }

  lemma ScannedRun(slots: seq<Entry>, i: nat, run: nat, size: nat)
    requires Scanned(slots, i, run, size)
    ensures run <= i <= |slots| && run < size
  {
  }

  /** The loop of findEntryGap that looks for `size` free slots in a row or the end of the directory. */
  method ScanForGap(pt: Partition, dirCluster: nat, size: nat, ghost dir0: Dir, ghost slots0: seq<Entry>)
    returns (result: Scanning, gapStart: EntryPosition, gapEnd: EntryPosition, remain: nat, ghost dir: Dir,
        ghost slots: seq<Entry>, ghost i: nat)
    requires DirOk(pt, dir0) && slots0 == SlotsOf(pt, dir0) && pt.firstFree <= pt.g.lastCluster && 0 < size
    requires SlotAt(pt.g, dir0, EntryPosition(dirCluster, 0, 0), 0)
    modifies pt, pt.cache.Repr
    ensures DirOk(pt, dir) && slots == SlotsOf(pt, dir) && DirGrown(pt.g, old(pt.cache.view), dir0, pt.cache.view, dir)
    ensures Extended(slots0, slots) && remain <= size
    ensures result == NoRoom ==>
              slots == slots0 && dir == dir0 && (dir.Fixed? || NoneFree(pt.T())) && NoGap(slots, size)
    ensures result != NoRoom ==> SlotAt(pt.g, dir, gapEnd, i) && pt.firstFree <= pt.g.lastCluster
    ensures result == EndFound ==> EndAt(slots, i, remain, size) && SlotAt(pt.g, dir, gapStart, i + 1 + remain - size)
    ensures result == GapFound ==> slots == slots0 && GapAt(slots, i, size) && SlotAt(pt.g, dir, gapStart, i + 1 - size)
    ensures old(pt.Counted()) ==> pt.Counted()
  {
    hide Cache.Valid, Mul, Table, NoneFree, FreeCount, SlotAt, DirSlots, DirGrown, Scanned, Extended, IsDir, EndAt,
        GapAt;
    gapEnd := EntryPosition(dirCluster, 0, 0);
    gapStart, remain, dir, slots, i := gapEnd, size, dir0, slots0, 0;
    DirGrownNot(pt.g, pt.cache.view, dir0);
    ExtendedNot(slots0);
    ScannedNone(slots0, size);
    ghost var v0 := pt.cache.view;
    while true
      invariant DirOk(pt, dir) && slots == SlotsOf(pt, dir) && DirGrown(pt.g, v0, dir0, pt.cache.view, dir)
      invariant pt.firstFree <= pt.g.lastCluster && 0 < remain <= size && i <= |slots0|
      invariant SlotAt(pt.g, dir, gapEnd, i) && Scanned(slots, i, size - remain, size)
      invariant remain < size ==> i + remain >= size && SlotAt(pt.g, dir, gapStart, i + remain - size)
      invariant Extended(slots0, slots)
                && (if dir == dir0 then slots == slots0 && pt.cache.view == v0 else i < |slots| && IsLast(slots[i]))
      invariant old(pt.Counted()) ==> pt.Counted()
      decreases |slots0| - i
    {
      var endOfDirectory;
      endOfDirectory, gapStart, remain := Examine(pt, gapStart, gapEnd, remain, size, dir, slots, i);
      if endOfDirectory {
        return EndFound, gapStart, gapEnd, remain, dir, slots, i;
      }
      if remain == 0 {
        return GapFound, gapStart, gapEnd, remain, dir, slots, i;
      }
      var ok;
      ghost var was, v1 := dir, pt.cache.view;
      ok, gapEnd, dir := Increment(pt, gapEnd, true, dir, i);
      DirGrownMore(pt.g, v0, dir0, v1, was, pt.cache.view, dir);
      if remain < size {
        SlotStays(pt.g, v1, was, pt.cache.view, dir, gapStart, i + 1 + remain - size);
      }
      if !ok {
        return NoRoom, gapStart, gapEnd, remain, dir, slots, i + 1;
      }
      if dir != dir0 {
        ghost var n: nat := |SlotsOf(pt, dir)| - i - 1;
        ScanExtended(slots, i + 1, size - remain, size, n);
        ExtendedMore(slots0, slots, n);
        slots := slots + Blank(n);
      }
      i := i + 1;
    }
  }

  /** The slots behind slot `i` up to slot `j` have been emptied, and the directory may have got longer. */
  ghost predicate Blanked(before: seq<Entry>, after: seq<Entry>, i: nat, j: nat) {
    && i <= j < |after| && i < |before| <= |after|
    && forall k :: 0 <= k < |after| ==> after[k] == if k < |before| && (k <= i || j < k) then before[k] else Zeros(32)
  }

  /** Every slot is as before, but that some from slot `i` on may have been emptied. */
  ghost predicate Emptied(before: seq<Entry>, after: seq<Entry>, i: nat) {
    |before| <= |after|
    && forall k :: 0 <= k < |after| ==> (k < |before| && after[k] == before[k]) || (i <= k && after[k] == Zeros(32))
  }

  lemma BlankedMore(before: seq<Entry>, after: seq<Entry>, i: nat, j: nat, n: nat)
    requires Blanked(before, after, i, j) && j + 1 < |after| + n
    ensures Blanked(before, (after + Blank(n))[j + 1 := Zeros(32)], i, j + 1)
  {
  }

  /** The loop of findEntryGap that empties the rest of the gap and the slot behind it. If there is no slot
      behind, the slot it is at is emptied once more. */
  method BlankTail(pt: Partition, gapEnd0: EntryPosition, remain0: nat, ghost dir0: Dir, ghost slots0: seq<Entry>,
        ghost i: nat)
    returns (ok: bool, dataEnd: EntryPosition, ghost dir: Dir, ghost slots: seq<Entry>)
    requires DirOk(pt, dir0) && slots0 == SlotsOf(pt, dir0) && pt.firstFree <= pt.g.lastCluster && i < |slots0|
             && SlotAt(pt.g, dir0, gapEnd0, i)
    modifies pt, pt.cache.Repr
    ensures DirOk(pt, dir) && slots == SlotsOf(pt, dir) && DirGrown(pt.g, old(pt.cache.view), dir0, pt.cache.view, dir)
    ensures ok ==>
              SlotAt(pt.g, dir, dataEnd, i + remain0) && Blanked(slots0, slots, i, i + remain0 + 1)
                && pt.firstFree <= pt.g.lastCluster
    ensures !ok ==> Emptied(slots0, slots, i)
    ensures !ok ==> (dir.Fixed? && i + remain0 + 1 >= |slots0|) || NoneFree(pt.T())
    ensures old(pt.Counted()) ==> pt.Counted()
  {
    hide Cache.Valid, Mul, Table, NoneFree, FreeCount, SlotAt, DirSlots, DirGrown, IsDir, Blanked, Emptied;
    var gapEnd, remain := gapEnd0, remain0 + 1;
    ok, dataEnd, dir, slots := true, gapEnd0, dir0, slots0;
    ghost var j := i;
    DirGrownNot(pt.g, pt.cache.view, dir0);
    BlankedNot(slots0, i);
    while remain > 0 && ok
      invariant DirOk(pt, dir) && slots == SlotsOf(pt, dir)
                && DirGrown(pt.g, old(pt.cache.view), dir0, pt.cache.view, dir)
      invariant 0 <= remain && j + remain == i + remain0 + 1
      invariant ok ==>
                  SlotAt(pt.g, dir, gapEnd, j) && Blanked(slots0, slots, i, j) && pt.firstFree <= pt.g.lastCluster
                    && i <= j
      invariant ok && remain <= remain0 ==> j > i && SlotAt(pt.g, dir, dataEnd, j - 1)
      invariant !ok ==> Emptied(slots0, slots, i)
      invariant !ok ==> (dir.Fixed? && i + remain0 + 1 >= |slots0|) || NoneFree(pt.T())
      invariant old(pt.Counted()) ==> pt.Counted()
      decreases remain, ok
    {
      dataEnd := gapEnd;
      ok, gapEnd, dir, slots := BlankNext(pt, gapEnd, dir, slots, slots0, i, j, old(pt.cache.view), dir0);
      remain := remain - 1;
      j := j + 1;
    }
  }

  lemma BlankedNot(slots: seq<Entry>, i: nat)
    requires i < |slots|
    ensures Blanked(slots, slots, i, i)
  {
  }

  /** One round of that loop, from slot `j` on. */
  method BlankNext(pt: Partition, gapEnd0: EntryPosition, ghost dir1: Dir, ghost slots1: seq<Entry>,
        ghost slots0: seq<Entry>, ghost i: nat, ghost j: nat,
                   ghost v0: seq<byte>, ghost dir0: Dir)
    returns (ok: bool, gapEnd: EntryPosition, ghost dir: Dir, ghost slots: seq<Entry>)
    requires DirOk(pt, dir1) && slots1 == SlotsOf(pt, dir1) && pt.firstFree <= pt.g.lastCluster
             && SlotAt(pt.g, dir1, gapEnd0, j)
    requires Blanked(slots0, slots1, i, j) && IsDir(pt.g, v0, dir0) && DirGrown(pt.g, v0, dir0, pt.cache.view, dir1)
    modifies pt, pt.cache.Repr
    ensures DirOk(pt, dir) && slots == SlotsOf(pt, dir) && DirGrown(pt.g, v0, dir0, pt.cache.view, dir)
    ensures ok ==>
              SlotAt(pt.g, dir, gapEnd0, j) && SlotAt(pt.g, dir, gapEnd, j + 1) && Blanked(slots0, slots, i, j + 1)
                && pt.firstFree <= pt.g.lastCluster
    ensures !ok ==>
              Emptied(slots0, slots, i)
                && ((dir.Fixed? && j + 1 >= |slots0|) || NoneFree(pt.T()))
    ensures old(pt.Counted()) ==> pt.Counted()
  {
    hide Cache.Valid, Mul, Table, NoneFree, FreeCount, SlotAt, DirSlots, DirGrown, IsDir, Blanked, Emptied;
    ghost var v1 := pt.cache.view;
    ok, gapEnd, dir := Increment(pt, gapEnd0, true, dir1, j);
    ghost var v2 := pt.cache.view;
    DirGrownMore(pt.g, v0, dir0, v1, dir1, v2, dir);
    SlotStays(pt.g, v1, dir1, v2, dir, gapEnd0, j);
    ghost var n: nat := |SlotsOf(pt, dir)| - |slots1|;
    WriteSlot(pt, gapEnd, Zeros(32), dir, if ok then j + 1 else j);
    DirGrownMore(pt.g, v0, dir0, v2, dir, pt.cache.view, dir);
    slots := SlotsOf(pt, dir);
    if ok {
      ExtendedNot(slots1);
      BlankedMore(slots0, slots1, i, j, n);
    } else {
      BlankedFront(slots0, slots1, i, j);
    }
  }

  lemma BlankedFront(before: seq<Entry>, after: seq<Entry>, i: nat, j: nat)
    requires Blanked(before, after, i, j)
    ensures i <= j < |after| && |before| <= |after| && Emptied(before, after[j := Zeros(32)], i)
  {
  }

  /** What findEntryGap leaves: slots `s` to `s + size - 1` are the gap. Either all of them were free and
      nothing has changed, or they were the free slots at the end and some behind the end marker, which now
      comes behind the gap. */
  ghost predicate GapMade(before: seq<Entry>, after: seq<Entry>, s: nat, size: nat) {
    GapInside(before, after, s, size) || exists mid: seq<Entry>, i: nat :: GapBehind(before, mid, after, s, i, size)
  }

  ghost predicate GapInside(before: seq<Entry>, after: seq<Entry>, s: nat, size: nat) {
    0 < size && GapAt(before, s + size - 1, size) && after == before
  }

  ghost predicate GapBehind(before: seq<Entry>, mid: seq<Entry>, after: seq<Entry>, s: nat, i: nat, size: nat) {
    Extended(before, mid) && s <= i < s + size && EndAt(mid, i, s + size - 1 - i, size)
        && Blanked(mid, after, i, s + size)
  }

  /** There is no gap: none among the slots, and the free slots at the end, with those behind the end marker,
      are too few. */
  ghost predicate NoSpace(slots: seq<Entry>, size: nat) {
    NoGap(slots, size) || exists i: nat, remain: nat :: EndAt(slots, i, remain, size) && i + remain + 1 >= |slots|
  }

  /** What a search without success leaves: the slots before the end marker as they were, the others too or
      empty. */
  ghost predicate OnlyEmptied(before: seq<Entry>, after: seq<Entry>) {
    exists i: nat :: i <= |before| && (i < |before| ==> IsLast(before[i])) && Emptied(before, after, i)
  }

  /** In the fixed root directory, where nothing can be added, a gap is found only if there is one. */
  lemma SpaceFound(before: seq<Entry>, after: seq<Entry>, s: nat, size: nat)
    requires GapMade(before, after, s, size) && |after| == |before|
    ensures !NoSpace(before, size)
  {
    hide FreeSlots;
    if GapInside(before, after, s, size) {
      forall i: nat, remain: nat
        ensures !EndAt(before, i, remain, size)
      {
        InsideMeansNoEnd(before, s + size - 1, i, remain, size);
      }
      InsideMeansGap(before, s + size - 1, size);
    } else {
      var mid: seq<Entry>, i: nat :| GapBehind(before, mid, after, s, i, size);
      assert Blank(0) == [];
      assert mid == before;
      forall j: nat, remain: nat | EndAt(before, j, remain, size)
        ensures j + remain + 1 < |before|
      {
        OneEnd(before, i, s + size - 1 - i, j, remain, size);
      }
    }
  }

  lemma InsideMeansGap(slots: seq<Entry>, i: nat, size: nat)
    requires GapAt(slots, i, size)
    ensures !NoGap(slots, size)
  {
    hide FreeSlots;
  }

  lemma InsideMeansNoEnd(slots: seq<Entry>, i: nat, j: nat, remain: nat, size: nat)
    requires GapAt(slots, i, size)
    ensures !EndAt(slots, j, remain, size)
  {
    assert IsFree(slots[i]);
  }

  /** The scan can stop at one end marker only, and with one run of free slots before it. */
  lemma OneEnd(slots: seq<Entry>, i: nat, remain: nat, j: nat, remain': nat, size: nat)
    requires EndAt(slots, i, remain, size) && EndAt(slots, j, remain', size)
    ensures i == j && remain == remain'
  {
    assert i == j;
    var run, run' := size - remain - 1, size - remain' - 1;
    assert run < i ==> !IsFree(slots[i - run - 1]);
    assert run' < i ==> !IsFree(slots[i - run' - 1]);
  }

  /** Finds `size` slots in a row that are free or at the end of the directory, extending it if need be. It
      fails only if the fixed root directory has no such gap with room for an end marker, or the disc is
      full; what is listed is kept even then. */
  method FindEntryGap(pt: Partition, dirCluster: nat, size: nat, ghost dir0: Dir, ghost slots0: seq<Entry>)
    returns (ok: bool, dataStart: EntryPosition, dataEnd: EntryPosition, ghost dir: Dir, ghost slots: seq<Entry>,
        ghost s: nat)
    requires DirOk(pt, dir0) && slots0 == SlotsOf(pt, dir0) && pt.firstFree <= pt.g.lastCluster && 0 < size
    requires SlotAt(pt.g, dir0, EntryPosition(dirCluster, 0, 0), 0)
    modifies pt, pt.cache.Repr
    ensures DirOk(pt, dir) && slots == SlotsOf(pt, dir) && DirGrown(pt.g, old(pt.cache.view), dir0, pt.cache.view, dir)
    ensures ok ==>
              GapMade(slots0, slots, s, size) && (dir.Fixed? ==> !NoSpace(slots0, size))
                && SlotAt(pt.g, dir, dataStart, s) && SlotAt(pt.g, dir, dataEnd, s + size - 1)
    ensures !ok ==> (dir.Fixed? && NoSpace(slots0, size)) || NoneFree(pt.T())
    ensures !ok ==> OnlyEmptied(slots0, slots)
    ensures ok ==> pt.firstFree <= pt.g.lastCluster
    ensures old(pt.Counted()) ==> pt.Counted()
  {
    hide Cache.Valid, Mul, Table, NoneFree, FreeCount, SlotAt, DirSlots, DirGrown, IsDir, Blanked, EndAt, GapAt,
        NoGap, Extended, Emptied;
    ghost var v0 := pt.cache.view;
    var result, gapStart, gapEnd, remain;
    ghost var mid, i, dir1;
    result, gapStart, gapEnd, remain, dir1, mid, i := ScanForGap(pt, dirCluster, size, dir0, slots0);
    ok, dataStart, dataEnd, dir, slots, s := true, gapStart, gapEnd, dir1, mid, 0;
    GrownDirs(pt.g, v0, dir0, pt.cache.view, dir1);
    match result {
      case NoRoom =>
        ok := false;
        NothingEmptied(slots0);
      case GapFound =>
        GapPlace(mid, i, size);
        s := i + 1 - size;
      case EndFound =>
        ghost var v1 := pt.cache.view;
        EndPlace(mid, i, remain, size);
        s := i + 1 + remain - size;
        ok, dataEnd, dir, slots := BlankTail(pt, gapEnd, remain, dir1, mid, i);
        GrownDirs(pt.g, v1, dir1, pt.cache.view, dir);
        DirGrownMore(pt.g, v0, dir0, v1, dir1, pt.cache.view, dir);
        SlotStays(pt.g, v1, dir1, pt.cache.view, dir, gapStart, s);
        if ok {
          assert GapBehind(slots0, mid, slots, s, i, size);
        } else {
          KeptFront(slots0, mid, slots, i);
        }
    }
    GrownDirs(pt.g, v0, dir0, pt.cache.view, dir);
    if ok && dir.Fixed? {
      SpaceFound(slots0, slots, s, size);
    }
  }

  lemma NothingEmptied(slots: seq<Entry>)
    ensures OnlyEmptied(slots, slots)
  {
    assert Emptied(slots, slots, |slots|);
  }

  /** What is before the end marker is kept in any case, and the slots behind it are too, or are empty. */
  lemma KeptFront(slots0: seq<Entry>, mid: seq<Entry>, slots: seq<Entry>, i: nat)
    requires Extended(slots0, mid) && i < |mid| && IsLast(mid[i]) && Emptied(mid, slots, i)
    ensures OnlyEmptied(slots0, slots) && (|slots0| == |mid| ==> mid == slots0)
  {
    assert |slots0| == |mid| ==> mid == slots0 + [];
    var k := if i < |slots0| then i else |slots0|;
    assert Emptied(slots0, slots, k);
  }

  lemma GapPlace(slots: seq<Entry>, i: nat, size: nat)
    requires GapAt(slots, i, size)
    ensures 0 < size <= i + 1 <= |slots|
  {
  }

  lemma EndPlace(slots: seq<Entry>, i: nat, remain: nat, size: nat)
    requires EndAt(slots, i, remain, size)
    ensures remain < size <= i + 1 + remain && i < |slots| && IsLast(slots[i])
  {
  }

  lemma ScannedNone(slots: seq<Entry>, size: nat)
    requires 0 < size
    ensures Scanned(slots, 0, 0, size)
  {
  }
}
