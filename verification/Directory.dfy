/** Adding, enumerating and removing the entries of a directory on a volume (src/fat/directory.c). */
module Directory {
  import opened Bytes
  import opened Arith
  import opened Volume
  import opened FatCodec
  import opened Chains
  import opened Fat
  import opened DirEntry
  import opened LongNames
  import opened ShortNames
  import opened DirItems
  import opened DirLaws
  import opened DirEdits
  import opened DirArea
  import opened DirSteps
  import opened DirGap
  import opened SectorCache

  /** From `before` to `after` the first slots of an entry have been written from slot `s` on. */
  ghost predicate Overwritten(before: seq<Entry>, after: seq<Entry>, s: nat, d: seq<Entry>) {
    s + |d| <= |before| == |after|
    && forall k :: 0 <= k < |after| ==> after[k] == if s <= k < s + |d| then d[k - s] else before[k]
  }

  lemma OverwrittenMore(before: seq<Entry>, after: seq<Entry>, s: nat, d: seq<Entry>, e: Entry)
    requires Overwritten(before, after, s, d) && s + |d| < |before|
    ensures Overwritten(before, after[s + |d| := e], s, d + [e])
  {
  }

  lemma OverwrittenIsWritten(before: seq<Entry>, after: seq<Entry>, s: nat, d: seq<Entry>)
    requires Overwritten(before, after, s, d)
    ensures DirEdits.Written(before, after, s, d)
  {
    assert after[..s] == before[..s];
    assert after[s..s + |d|] == d;
    assert after[s + |d|..] == before[s + |d|..];
  }

  /** The slots written so far of `entrySize`: long-name slots from the last part to the first, then the entry. */
  ghost predicate Partly(d: seq<Entry>, name: seq<Ucs2>, entrySize: nat, chk: byte, e: Entry) {
    && |d| <= entrySize
    && (forall k :: 0 <= k < |d| && k < entrySize - 1 ==> IsLfnSlot(d[k], name, entrySize - 1 - k, k == 0, chk))
    && (0 < |d| == entrySize ==> d[|d| - 1] == e)
  }

  lemma AllWritten(d: seq<Entry>, name: seq<Ucs2>, entrySize: nat, chk: byte, e: Entry)
    requires Partly(d, name, entrySize, chk, e) && |d| == entrySize > 0
             && (entrySize > 1 ==> entrySize == SlotCount(name) + 1)
    ensures var lfn := d[..entrySize - 1]; d == lfn + [e] && (entrySize > 1 ==> IsLfn(lfn, name, chk))
  {
  }

  /** One round of the writing loop of addEntry; `i` slots are to come, this one included. */
  method WriteNext(pt: Partition, lfn: seq<Ucs2>, i: nat, entrySize: nat, aliasCheckSum: byte, entryData: Entry,
        cur0: EntryPosition,
                   ghost name: seq<Ucs2>, ghost dir: Dir, ghost gap: seq<Entry>, ghost slots0: seq<Entry>,
                       ghost s: nat, ghost d0: seq<Entry>)
    returns (ok: bool, cur: EntryPosition, ghost slots: seq<Entry>, ghost d: seq<Entry>)
    requires DirOk(pt, dir) && slots0 == SlotsOf(pt, dir) && s + entrySize <= |gap| && 0 < i <= entrySize
             && |d0| == entrySize - i
    requires SlotAt(pt.g, dir, cur0, s + |d0|) && Overwritten(gap, slots0, s, d0)
             && Partly(d0, name, entrySize, aliasCheckSum, entryData)
    requires entrySize == 1 || (IsLongName(name) && entrySize == SlotCount(name) + 1)
    requires |lfn| == MAX_LFN_LENGTH && forall k ::
               0 <= k < MAX_LFN_LENGTH ==> lfn[k] == if k < |name| then name[k] else 0
    modifies pt, pt.cache.Repr
    ensures DirOk(pt, dir) && slots == SlotsOf(pt, dir) && DirGrown(pt.g, old(pt.cache.view), dir, pt.cache.view, dir)
    ensures |d| == |d0| + 1 && Overwritten(gap, slots, s, d) && Partly(d, name, entrySize, aliasCheckSum, entryData)
    ensures i > 1 ==> ok && SlotAt(pt.g, dir, cur, s + |d|)
    ensures pt.firstFree == old(pt.firstFree) && (old(pt.Counted()) ==> pt.Counted())
  {
    hide Cache.Valid, Mul, Table, FreeCount, SlotAt, DirSlots, DirGrown, IsDir, IsLfnSlot, Padded;
    var e := entryData;
    if i > 1 {
      e := BuildSlot(lfn, i - 1, i == entrySize, aliasCheckSum, name);
    }
    ghost var v0 := pt.cache.view;
    WriteSlot(pt, cur0, e, dir, s + |d0|);
    OverwrittenMore(gap, slots0, s, d0, e);
    d := d0 + [e];
    slots := SlotsOf(pt, dir);
    ghost var v1 := pt.cache.view;
    ghost var dir1;
    ok, cur, dir1 := Increment(pt, cur0, false, dir, s + |d0|);
    DirGrownMore(pt.g, v0, dir, v1, dir, pt.cache.view, dir);
  }

  /** The writing loop of addEntry. */
  method WriteEntry(pt: Partition, name: seq<Ucs2>, entrySize: nat, aliasCheckSum: byte, entryData: Entry,
        dataStart: EntryPosition,
                    ghost dir: Dir, ghost gap: seq<Entry>, ghost s: nat)
    returns (ghost lfn: seq<Entry>, ghost slots: seq<Entry>)
    requires DirOk(pt, dir) && gap == SlotsOf(pt, dir) && SlotAt(pt.g, dir, dataStart, s) && s + entrySize <= |gap|
             && 0 < entrySize
    requires entrySize == 1 || (IsLongName(name) && entrySize == SlotCount(name) + 1)
    modifies pt, pt.cache.Repr
    ensures DirOk(pt, dir) && slots == SlotsOf(pt, dir) && DirGrown(pt.g, old(pt.cache.view), dir, pt.cache.view, dir)
    ensures |lfn| == entrySize - 1 && (entrySize > 1 ==> IsLfn(lfn, name, aliasCheckSum))
    ensures DirEdits.Written(gap, slots, s, lfn + [entryData])
    ensures pt.firstFree == old(pt.firstFree) && (old(pt.Counted()) ==> pt.Counted())
  {
    hide Cache.Valid, Mul, Table, FreeCount, SlotAt, DirSlots, DirGrown, IsDir, Overwritten, Partly, IsLfn,
        DirEdits.Written;
    var buffer := seq(MAX_LFN_LENGTH,
        k requires 0 <= k < MAX_LFN_LENGTH => var u: Ucs2 := if k < |name| then name[k] else 0; u);
    var i, cur, entryStillValid := entrySize, dataStart, true;
    ghost var v0, d := pt.cache.view, [];
    slots := gap;
    DirGrownNot(pt.g, v0, dir);
    NothingWritten(gap, s, name, entrySize, aliasCheckSum, entryData);
    while entryStillValid && i > 0
      invariant DirOk(pt, dir) && slots == SlotsOf(pt, dir) && DirGrown(pt.g, v0, dir, pt.cache.view, dir)
      invariant 0 <= i <= entrySize && |d| == entrySize - i && Overwritten(gap, slots, s, d)
                && Partly(d, name, entrySize, aliasCheckSum, entryData)
      invariant i > 0 ==> entryStillValid && SlotAt(pt.g, dir, cur, s + |d|)
      invariant pt.firstFree == old(pt.firstFree) && (old(pt.Counted()) ==> pt.Counted())
      decreases i
    {
      ghost var v1 := pt.cache.view;
      entryStillValid, cur, slots, d := WriteNext(pt, buffer, i, entrySize, aliasCheckSum, entryData, cur, name, dir,
          gap, slots, s, d);
      DirGrownMore(pt.g, v0, dir, v1, dir, pt.cache.view, dir);
      i := i - 1;
    }
    AllWritten(d, name, entrySize, aliasCheckSum, entryData);
    OverwrittenIsWritten(gap, slots, s, d);
    lfn := d[..entrySize - 1];
  }

  lemma NothingWritten(gap: seq<Entry>, s: nat, name: seq<Ucs2>, entrySize: nat, chk: byte, e: Entry)
    requires s <= |gap|
    ensures Overwritten(gap, gap, s, []) && Partly([], name, entrySize, chk, e)
  {
  }

  lemma {:induction false} LayoutHasNoLast(items: seq<Item>, k: nat)
    requires AllItems(items) && k < |Layout(items)|
    ensures !IsLast(Layout(items)[k])
    decreases |items|
  {
    var n := |Slots(items[0])|;
    if k < n {
      NoLast(items[0], k);
    } else {
      LayoutHasNoLast(items[1..], k - n);
    }
  }

  lemma HeldSlot(slots: seq<Entry>, items: seq<Item>, k: nat)
    requires Holds(slots, 0, items) && k < |Layout(items)|
    ensures slots[k] == Layout(items)[k] && !IsLast(slots[k])
  {
    LayoutHasNoLast(items, k);
    assert slots[k] == slots[0..0 + |Layout(items)|][k];
  }

  /** A gap inside lies before the end of the directory. */
  lemma InsideIsHeld(slots: seq<Entry>, items: seq<Item>, s: nat, size: nat)
    requires Holds(slots, 0, items) && 0 < size && GapAt(slots, s + size - 1, size)
    ensures s + size <= |Layout(items)| && FreeSlots(slots, s, size)
  {
    hide Numbered, AllItems, Layout;
    var z := |Layout(items)|;
    assert !IsLast(slots[s + size - 1]);
    assert z < |slots| ==> IsLast(slots[z]);
  }

  /** The end marker the scan stops at is the end of the items. */
  lemma EndIsHeld(slots: seq<Entry>, mid: seq<Entry>, items: seq<Item>, i: nat, remain: nat, size: nat)
    requires Holds(slots, 0, items) && Extended(slots, mid) && EndAt(mid, i, remain, size)
    ensures i == |Layout(items)| && FreeSlots(slots, i + 1 + remain - size, size - remain - 1)
  {
    hide Numbered, AllItems, Layout;
    var z := |Layout(items)|;
    assert z < |mid| ==> IsLast(mid[z]);
    if i < z {
      HeldSlot(slots, items, i);
    }
    assert forall k :: 0 <= k < |slots| ==> slots[k] == mid[k];
  }

  /** What the directory lists after an entry has been added: the entries as before, in their order, with the
      new one among them. */
  lemma Added(before: seq<Entry>, gap: seq<Entry>, after: seq<Entry>, items: seq<Item>, s: nat, it: Item)
    returns (a: nat, items': seq<Item>)
    requires Holds(before, 0, items) && IsItem(it) && (it.Short? || it.Long?)
    requires GapMade(before, gap, s, |Slots(it)|) && DirEdits.Written(gap, after, s, Slots(it))
    ensures a <= |items| && Holds(after, 0, items')
            && Files(items') == Files(items[..a]) + FileOf(it) + Files(items[a..])
  {
    hide Numbered, AllItems, Layout, Files, FileOf, IsItem, GapAt, EndAt, Holds, Slots, Blanked, Extended,
        DirEdits.Written;
    var n := |Slots(it)|;
    if GapInside(before, gap, s, n) {
      InsideIsHeld(before, items, s, n);
      a := InsertInGap(before, after, items, s, it);
      items' := items[..a] + [it] + items[a + n..];
    } else {
      var mid: seq<Entry>, i: nat :| GapBehind(before, mid, gap, s, i, n);
      EndIsHeld(before, mid, items, i, s + n - 1 - i, n);
      BehindGap(before, mid, gap, after, items, s, i, Slots(it));
      var b := InsertAtEnd(before, after, items, s, it);
      items' := items[..b] + [it];
      a := |items|;
      assert items[..a] == items && items[a..] == [];
      FilesNone();
    }
  }

  lemma BehindGap(before: seq<Entry>, mid: seq<Entry>, gap: seq<Entry>, after: seq<Entry>, items: seq<Item>, s: nat,
        i: nat, d: seq<Entry>)
    requires GapBehind(before, mid, gap, s, i, |d|) && DirEdits.Written(gap, after, s, d) && Holds(before, 0, items)
             && s <= |before|
    ensures s + |d| < |after| && after[..s] == before[..s] && after[s..s + |d|] == d
    ensures IsEnd(after[s + |d|]) && Numbered(after[s + |d|..])
  {
    hide EndAt, Layout;
    var n := s + |d|;
    assert after[n..] == gap[n..] && after[n] == after[n..][0] == gap[n] == Zeros(32);
    forall k | 0 <= k < |after[n..]|
      ensures after[n..][k] == Zeros(32) || (n + k < |before| && after[n..][k] == before[n + k])
    {
      assert after[n..][k] == gap[n..][k] == gap[n + k];
    }
    forall k | 0 <= k < s
      ensures after[k] == before[k]
    {
      assert after[k] == after[..s][k] == gap[..s][k] == gap[k] == mid[k];
    }
    assert after[..s] == before[..s];
  }

  /** What is listed does not change when slots behind the end are emptied, or the end marker is. */
  lemma EmptiedList(before: seq<Entry>, after: seq<Entry>, items: seq<Item>)
    requires Holds(before, 0, items) && OnlyEmptied(before, after)
    ensures Numbered(after)
    ensures forall junk: seq<Ucs2> | |junk| == MAX_LFN_LENGTH :: Listing(after, junk) == Files(items)
  {
    hide AllItems, Layout, Files, Listing, Holds;
    EmptiedHolds(before, after, items);
    HoldsNumbered(after, 0, items);
    forall junk: seq<Ucs2> | |junk| == MAX_LFN_LENGTH
      ensures Listing(after, junk) == Files(items)
    {
      ListsItems(after, junk, items);
    }
  }

  lemma EmptiedHolds(before: seq<Entry>, after: seq<Entry>, items: seq<Item>)
    requires Holds(before, 0, items) && OnlyEmptied(before, after)
    ensures Holds(after, 0, items)
  {
    hide AllItems, Layout;
    var i: nat :| i <= |before| && (i < |before| ==> IsLast(before[i])) && Emptied(before, after, i);
    var z := |Layout(items)|;
    if i < z {
      HeldSlot(before, items, i);
    }
    assert after[0..0 + z] == before[0..0 + z];
  }

  /** addEntry from the point on where name and short entry are settled: finds a gap and writes the slots. On
      success the directory lists the old entries in their order with the new one among them, and a long name
      is read back as it was given. Without success it lists what it did before. */
  method AddEntry(pt: Partition, name: seq<Ucs2>, isLong: bool, entryData: Entry, dirCluster: nat,
                  ghost dir0: Dir, ghost slots0: seq<Entry>, ghost items: seq<Item>)
    returns (ok: bool, ghost dir: Dir, ghost slots: seq<Entry>, ghost it: Item, ghost a: nat)
    requires DirOk(pt, dir0) && slots0 == SlotsOf(pt, dir0) && pt.firstFree <= pt.g.lastCluster
    requires SlotAt(pt.g, dir0, EntryPosition(dirCluster, 0, 0), 0)
    requires IsEntry(entryData) && (isLong ==> IsLongName(name)) && Holds(slots0, 0, items)
    modifies pt, pt.cache.Repr
    ensures DirOk(pt, dir) && slots == SlotsOf(pt, dir) && DirGrown(pt.g, old(pt.cache.view), dir0, pt.cache.view, dir)
    ensures it.e == entryData && if isLong then it.Long? && it.name == name else it.Short?
    ensures ok ==> a <= |items| && Numbered(slots)
    ensures ok ==> forall junk: seq<Ucs2> | |junk| == MAX_LFN_LENGTH ::
              Listing(slots, junk) == Files(items[..a]) + FileOf(it) + Files(items[a..])
    ensures !ok ==> (dir.Fixed? && NoSpace(slots0, if isLong then SlotCount(name) + 1 else 1)) || NoneFree(pt.T())
    ensures !ok ==> OnlyEmptied(slots0, slots) && Numbered(slots)
                    && forall junk: seq<Ucs2> | |junk| == MAX_LFN_LENGTH :: Listing(slots, junk) == Files(items)
    ensures old(pt.Counted()) ==> pt.Counted()
  {
    hide Cache.Valid, Mul, Table, FreeCount, SlotAt, DirSlots, DirGrown, IsDir, IsLfn, Holds, GapMade,
        DirEdits.Written, Listing, Files, NoneFree, NoSpace, Numbered, OnlyEmptied;
    it := if isLong then Long(name, [], entryData) else Short(entryData);
    a := 0;
    var entrySize := if isLong then SlotCount(name) + 1 else 1;
    var aliasCheckSum := AliasChecksum(entryData);
    var dataStart, dataEnd;
    ghost var gap, s;
    ghost var v0 := pt.cache.view;
    ok, dataStart, dataEnd, dir, gap, s := FindEntryGap(pt, dirCluster, entrySize, dir0, slots0);
    slots := gap;
    if !ok {
      EmptiedList(slots0, slots, items);
      return;
    }
    ghost var v1, lfn := pt.cache.view, [];
    SlotBound(pt.g, dir, dataEnd, s + entrySize - 1);
    lfn, slots := WriteEntry(pt, name, entrySize, aliasCheckSum, entryData, dataStart, dir, gap, s);
    DirGrownMore(pt.g, v0, dir0, v1, dir, pt.cache.view, dir);
    it := if isLong then Long(name, lfn, entryData) else Short(entryData);
    ghost var items';
    a, items' := AddedToList(slots0, gap, slots, items, s, it, lfn);
  }

  lemma AddedToList(before: seq<Entry>, gap: seq<Entry>, after: seq<Entry>, items: seq<Item>, s: nat, it: Item,
        lfn: seq<Entry>)
    returns (a: nat, items': seq<Item>)
    requires Holds(before, 0, items) && IsItem(it) && (it.Short? || it.Long?) && Slots(it) == lfn + [it.e]
    requires GapMade(before, gap, s, |lfn| + 1) && DirEdits.Written(gap, after, s, lfn + [it.e])
    ensures a <= |items| && Numbered(after)
    ensures forall junk: seq<Ucs2> | |junk| == MAX_LFN_LENGTH ::
              Listing(after, junk) == Files(items[..a]) + FileOf(it) + Files(items[a..])
  {
    hide Numbered, Files, FileOf, IsItem, Holds, GapMade, DirEdits.Written, Listing, Slots;
    a, items' := Added(before, gap, after, items, s, it);
    HoldsNumbered(after, 0, items');
    forall junk: seq<Ucs2> | |junk| == MAX_LFN_LENGTH
      ensures Listing(after, junk) == Files(items[..a]) + FileOf(it) + Files(items[a..])
    {
      ListsItems(after, junk, items');
    }
  }

  lemma NumberedAt(slots: seq<Entry>, i: nat)
    requires Numbered(slots) && i < |slots| && slots[i][ATTRIBUTES] == ATTRIB_LFN
    ensures slots[i][LFN_ORDINAL] < 0x80 ==> OrdinalOf(slots[i]) > 0
  {
  }

  /** The copying loop for the units of a long-name slot. */
  method StoreUnits(lfn0: seq<Ucs2>, lfnPos: nat, e: Entry) returns (lfn: seq<Ucs2>)
    requires |lfn0| == MAX_LFN_LENGTH
    ensures lfn == Stored(lfn0, lfnPos, e, LFN_ENTRY_LENGTH)
  {
    hide Get;
    lfn := lfn0;
    for i := 0 to LFN_ENTRY_LENGTH
      invariant lfn == Stored(lfn0, lfnPos, e, i)
    {
      if lfnPos + i < MAX_LFN_LENGTH - 1 {
        lfn := lfn[lfnPos + i := Unit(e, i)];
      }
    }
  }

  /** The long-name branch of getNextEntry. */
  method FeedSlot(st0: Scan, entryData: Entry, ghost i: int) returns (isStart: bool, st: Scan)
    requires |st0.lfn| == MAX_LFN_LENGTH && (entryData[LFN_ORDINAL] < 0x80 ==> OrdinalOf(entryData) > 0)
    ensures isStart <==> LFN_END <= entryData[LFN_ORDINAL] < LFN_DEL
    ensures |st.lfn| == MAX_LFN_LENGTH && (st.pending ==> st0.pending || isStart)
    ensures forall start: int :: Feed(st0.(start := start), i, entryData) == st.(start := if isStart then i else start)
  {
    hide Get;
    hide Stored;
    var ordinal := entryData[LFN_ORDINAL] as int;
    st, isStart := st0, false;
    if ordinal >= LFN_DEL {
      st := st.(pending := false);
    } else if ordinal >= LFN_END {
      isStart := true;
      var lfnPos := OrdinalOf(entryData) * 13;
      if lfnPos > MAX_LFN_LENGTH - 1 {
        lfnPos := MAX_LFN_LENGTH - 1;
      }
      st := st.(pending := true, lfn := st.lfn[lfnPos := 0], chk := entryData[LFN_CHECKSUM]);
    }
    if st.chk != entryData[LFN_CHECKSUM] {
      st := st.(pending := false);
    }
    if st.pending {
      var lfn := StoreUnits(st.lfn, (OrdinalOf(entryData) - 1) * 13, entryData);
      st := st.(lfn := lfn);
    }
  }

  /** What getNextEntry returns stands for an outcome of the scan. */
  ghost predicate Matches(g: Geometry, dir: Dir, r: Outcome, found: bool, dataStart: EntryPosition,
        dataEnd: EntryPosition, name: seq<Ucs2>, data: Entry) {
    match r
    case NoMore => !found
    case Found(start, end, n, e) =>
      found && start >= 0 && SlotAt(g, dir, dataStart, start) && SlotAt(g, dir, dataEnd, end) && name == n && data == e
  }

  /** The root directory of a 12 or 16-bit volume is no cluster. */
  function Rooted(g: Geometry, pos: EntryPosition): EntryPosition {
    if pos.cluster == CLUSTER_ROOT then pos.(cluster := g.rootDirCluster) else pos
  }

  /** The next entry behind a position; `junk` is what the name buffer holds before. */
  method GetNextEntry(pt: Partition, dataEnd0: EntryPosition, junk: seq<Ucs2>, ghost dir: Dir,
        ghost slots: seq<Entry>, ghost i0: int)
    returns (found: bool, dataStart: EntryPosition, dataEnd: EntryPosition, name: seq<Ucs2>, data: Entry)
    requires DirOk(pt, dir) && slots == SlotsOf(pt, dir) && Numbered(slots) && |junk| == MAX_LFN_LENGTH
             && -1 <= i0 < |slots|
    requires Reached(pt.g, dir, Rooted(pt.g, dataEnd0), i0)
    modifies pt, pt.cache.Repr
    ensures DirOk(pt, dir) && pt.cache.view == old(pt.cache.view) && SlotsOf(pt, dir) == slots
            && pt.firstFree == old(pt.firstFree)
    ensures Matches(pt.g, dir, ScanFrom(slots, i0 + 1, Scan(false, 0, i0, junk)), found, dataStart, dataEnd, name, data)
    ensures found ==> data[11] != 0x0F && data[11] as int / 8 % 2 == 0 && 0x20 < data[0] != 0xE5
  {
    hide Cache.Valid, Mul, Table, FreeCount, SlotAt, DirSlots, DirGrown, IsDir, Numbered, Feed, Checksum, AliasName,
        UntilZero, Reached;
    dataEnd := if dataEnd0.cluster == CLUSTER_ROOT then dataEnd0.(cluster := pt.g.rootDirCluster) else dataEnd0;
    dataStart, name, data, found := dataEnd, [], Zeros(32), false;
    var st := Scan(false, 0, 0, junk);
    ghost var i, start := i0, i0;
    ghost var r := ScanFrom(slots, i0 + 1, Scan(false, 0, i0, junk));
    while true
      invariant DirOk(pt, dir) && pt.cache.view == old(pt.cache.view) && SlotsOf(pt, dir) == slots
                && pt.firstFree == old(pt.firstFree)
      invariant -1 <= i < |slots| && Reached(pt.g, dir, dataEnd, i) && |st.lfn| == MAX_LFN_LENGTH
      invariant ScanFrom(slots, i + 1, st.(start := start)) == r
      invariant st.pending ==> start >= 0 && SlotAt(pt.g, dir, dataStart, start)
      invariant !found
      decreases |slots| - i
    {
      var ok;
      ghost var dir1;
      ok, dataEnd, dir1 := Increment(pt, dataEnd, false, dir, i);
      if !ok {
        return;
      }
      i := i + 1;
      SlotReached(pt.g, dir, dataEnd, i);
      data := ReadSlot(pt, dataEnd, dir, i);
      if data[ATTRIBUTES] == ATTRIB_LFN {
        var isStart;
        NumberedAt(slots, i);
        isStart, st := FeedSlot(st, data, i);
        if isStart {
          dataStart := dataEnd;
          start := i;
        }
      } else if IsVolumeBit(data) {
        // a volume name
      } else if data[NAME] == DIR_ENTRY_LAST {
        return;
      } else if data[NAME] != DIR_ENTRY_FREE && data[NAME] > 0x20 {
        if st.pending {
          var chkSum := AliasChecksum(data);
          if chkSum != st.chk {
            st := st.(pending := false);
          }
        }
        if st.pending {
          name := UntilZero(st.lfn);
        } else {
          dataStart := dataEnd;
          var _, alias := EntryGetAlias(data);
          name := alias;
        }
        found := true;
        return;
      }
    }
  }

  /** The name buffer of a call, which is not initialised. */
  method NameBuffer() returns (junk: seq<Ucs2>)
    ensures |junk| == MAX_LFN_LENGTH
  {
    junk := *;
    if |junk| != MAX_LFN_LENGTH {
      junk := seq(MAX_LFN_LENGTH, k => 0);
    }
  }

  lemma RootedStays(g: Geometry, v: seq<byte>, dir: Dir, pos: EntryPosition, i: nat)
    requires IsDir(g, v, dir) && SlotAt(g, dir, pos, i) && (dir.Fixed? ==> g.rootDirCluster == CLUSTER_ROOT)
    ensures Rooted(g, pos) == pos && i < SlotTotal(g, dir)
  {
    hide Mul, Table, IsChain;
    SlotBound(g, dir, pos, i);
    var t: nat :| SectorAt(g, dir, pos, t) && 0 <= pos.offset < PerSector(g) && i == Mul(t, PerSector(g)) + pos.offset;
    if dir.Chained? {
      var k := SectorIn(g, v, dir.ch, pos, t);
    }
  }

  lemma FixedIsRoot(g: Geometry, dir: Dir, dirCluster: nat)
    requires Reached(g, dir, Rooted(g, EntryPosition(dirCluster, 0, -1)), -1)
    ensures dir.Fixed? ==> g.rootDirCluster == CLUSTER_ROOT
  {
  }

  /** Reads a directory to its end, with a fresh name buffer for every call: gets its entries in their order. They
      are those of the slots `at` before the end marker in slot `stop`. */
  method ReadDirectory(pt: Partition, dirCluster: nat, ghost dir: Dir, ghost slots: seq<Entry>, ghost items: seq<Item>)
    returns (entries: seq<Listed>, ghost at: seq<nat>, ghost stop: nat)
    requires DirOk(pt, dir) && slots == SlotsOf(pt, dir) && Holds(slots, 0, items)
    requires var first := if dirCluster == 0 then pt.g.rootDirCluster else dirCluster;
             Reached(pt.g, dir, EntryPosition(first, 0, -1), -1)
    modifies pt, pt.cache.Repr
    ensures DirOk(pt, dir) && pt.cache.view == old(pt.cache.view) && entries == Files(items)
    ensures stop <= |slots| && forall k :: 0 <= k <= stop && k < |slots| ==>
              (k == stop <==> slots[k][0] == 0 && slots[k][11] != 0x0F && slots[k][11] as int / 8 % 2 == 0)
    ensures forall k :: 0 <= k < stop ==>
              (k in at <==> slots[k][11] != 0x0F && slots[k][11] as int / 8 % 2 == 0 && 0x20 < slots[k][0] != 0xE5)
    ensures |at| == |entries| && forall k :: 0 <= k < |at| ==> at[k] < stop && entries[k].entry == slots[at[k]]
    ensures forall j, k :: 0 <= j < k < |at| ==> at[j] < at[k]
  {
    hide Cache.Valid, Mul, Table, FreeCount, SlotAt, DirSlots, DirGrown, IsDir, Numbered, Reached, Holds, Files,
        ScanFrom;
    FixedIsRoot(pt.g, dir, dirCluster);
    entries := [];
    ghost var i, rest := -1, items;
    HoldsNumbered(slots, 0, items);
    var found, dataStart, dataEnd, name, data := true, EntryPosition(dirCluster, 0, -1),
        EntryPosition(dirCluster, 0, -1), [], Zeros(32);
    while found
      invariant DirOk(pt, dir) && pt.cache.view == old(pt.cache.view) && slots == SlotsOf(pt, dir)
      invariant found ==> -1 <= i < |slots| && Reached(pt.g, dir, Rooted(pt.g, dataEnd), i) && Holds(slots, i + 1, rest)
      invariant entries + Files(rest) == Files(items) && (!found ==> Files(rest) == [])
      decreases found, |slots| - i
    {
      var junk := NameBuffer();
      ghost var was := rest;
      ghost var outcome := ScanFrom(slots, i + 1, Scan(false, 0, i, junk));
      rest := NextIs(slots, i + 1, Scan(false, 0, i, junk), rest);
      found, dataStart, dataEnd, name, data := GetNextEntry(pt, dataEnd, junk, dir, slots, i);
      if found {
        entries := entries + [Listed(name, data)];
        i := outcome.end;
        RootedStays(pt.g, pt.cache.view, dir, dataEnd, i);
        SlotIsReached(pt.g, dir, dataEnd, i);
      } else {
        rest := was;
      }
    }
    at, stop := ReadSlots(slots, items);
  }

  lemma ReadSlots(slots: seq<Entry>, items: seq<Item>) returns (at: seq<nat>, stop: nat)
    requires Holds(slots, 0, items)
    ensures stop <= |slots| && forall k :: 0 <= k <= stop && k < |slots| ==>
              (k == stop <==> slots[k][0] == 0 && slots[k][11] != 0x0F && slots[k][11] as int / 8 % 2 == 0)
    ensures forall k :: 0 <= k < stop ==>
              (k in at <==> slots[k][11] != 0x0F && slots[k][11] as int / 8 % 2 == 0 && 0x20 < slots[k][0] != 0xE5)
    ensures |at| == |Files(items)|
    ensures forall k :: 0 <= k < |at| ==> at[k] < stop && Files(items)[k].entry == slots[at[k]]
    ensures forall j, k :: 0 <= j < k < |at| ==> at[j] < at[k]
  {
    hide Holds, Files, Numbered, Listing;
    HoldsNumbered(slots, 0, items);
    var junk: seq<Ucs2> := seq(MAX_LFN_LENGTH, k => 0);
    ListsItems(slots, junk, items);
    at, stop := ListedBytes(slots, junk);
  }

  lemma SlotIsReached(g: Geometry, dir: Dir, pos: EntryPosition, i: nat)
    requires SlotAt(g, dir, pos, i)
    ensures Reached(g, dir, pos, i)
  {
  }

  /** Marks the slots of an entry, from `dataStart` to `dataEnd`, as deleted. The result is false when the entry
      was in the last slot of the directory, although it is removed then too: the loop takes one step more. */
  method RemoveSlots(pt: Partition, dataStart: EntryPosition, dataEnd: EntryPosition, ghost dir: Dir,
        ghost slots0: seq<Entry>, ghost s: nat, ghost e: nat)
    returns (ret: bool, ghost slots: seq<Entry>)
    requires DirOk(pt, dir) && slots0 == SlotsOf(pt, dir) && s <= e && SlotAt(pt.g, dir, dataStart, s)
             && SlotAt(pt.g, dir, dataEnd, e)
    modifies pt, pt.cache.Repr
    ensures DirOk(pt, dir) && slots == SlotsOf(pt, dir) && DirGrown(pt.g, old(pt.cache.view), dir, pt.cache.view, dir)
    ensures e < |slots0| && DirEdits.Written(slots0, slots, s, ErasedAll(slots0[s..e + 1]))
    ensures ret <==> e + 1 < |slots0|
    ensures pt.firstFree == old(pt.firstFree) && (old(pt.Counted()) ==> pt.Counted())
  {
    hide Cache.Valid, Mul, Table, FreeCount, SlotAt, DirSlots, DirGrown, IsDir, Overwritten, DirEdits.Written;
    SlotBound(pt.g, dir, dataEnd, e);
    var entryStart, finished := dataStart, false;
    ret := true;
    slots := slots0;
    ghost var v0, d := pt.cache.view, [];
    DirGrownNot(pt.g, v0, dir);
    NoneErased(slots0, s);
    while ret && !finished
      invariant DirOk(pt, dir) && slots == SlotsOf(pt, dir) && DirGrown(pt.g, v0, dir, pt.cache.view, dir)
      invariant s + |d| <= e + 1 && Overwritten(slots0, slots, s, d) && ErasedSo(slots0, s, d)
      invariant !finished ==> ret && s + |d| <= e && SlotAt(pt.g, dir, entryStart, s + |d|)
      invariant finished ==> s + |d| == e + 1 && (ret <==> e + 1 < |slots0|)
      invariant pt.firstFree == old(pt.firstFree) && (old(pt.Counted()) ==> pt.Counted())
      decreases !finished, e + 1 - s - |d|
    {
      ghost var v1, j := pt.cache.view, s + |d|;
      var entryData := ReadSlot(pt, entryStart, dir, j);
      KeptSlot(slots0, slots, s, d);
      entryData := entryData[0 := DIR_ENTRY_FREE];
      WriteSlot(pt, entryStart, entryData, dir, j);
      DirGrownMore(pt.g, v0, dir, v1, dir, pt.cache.view, dir);
      OverwrittenMore(slots0, slots, s, d, entryData);
      slots, d := SlotsOf(pt, dir), d + [entryData];
      SlotUnique(pt.g, pt.cache.view, dir, entryStart, dataEnd, j, e);
      if entryStart.cluster == dataEnd.cluster && entryStart.sector == dataEnd.sector
          && entryStart.offset == dataEnd.offset {
        finished := true;
      }
      ghost var v2, dir1 := pt.cache.view, dir;
      ret, entryStart, dir1 := Increment(pt, entryStart, false, dir, j);
      if ret {
        SlotBound(pt.g, dir, entryStart, j + 1);
      }
    }
    OverwrittenIsWritten(slots0, slots, s, d);
    AllErased(slots0, s, e, d);
  }

  ghost predicate ErasedSo(slots: seq<Entry>, s: nat, d: seq<Entry>) {
    s + |d| <= |slots| && forall k :: 0 <= k < |d| ==> d[k] == Erased(slots[s + k])
  }

  lemma NoneErased(slots: seq<Entry>, s: nat)
    requires s <= |slots|
    ensures Overwritten(slots, slots, s, []) && ErasedSo(slots, s, [])
  {
  }

  lemma KeptSlot(before: seq<Entry>, after: seq<Entry>, s: nat, d: seq<Entry>)
    requires Overwritten(before, after, s, d) && s + |d| < |before| && ErasedSo(before, s, d)
    ensures after[s + |d|] == before[s + |d|] && ErasedSo(before, s, d + [Erased(before[s + |d|])])
  {
  }

  lemma AllErased(slots: seq<Entry>, s: nat, e: nat, d: seq<Entry>)
    requires ErasedSo(slots, s, d) && s + |d| == e + 1
    ensures d == ErasedAll(slots[s..e + 1])
  {
  }

  /** removeEntry on the `k`-th part of a directory without orphans: the entry, and no other, is gone. */
  method RemoveEntry(pt: Partition, dataStart: EntryPosition, dataEnd: EntryPosition,
                     ghost dir: Dir, ghost slots0: seq<Entry>, ghost items: seq<Item>, ghost k: nat)
    returns (ret: bool, ghost slots: seq<Entry>, ghost items': seq<Item>)
    requires DirOk(pt, dir) && slots0 == SlotsOf(pt, dir) && Holds(slots0, 0, items) && k < |items|
    requires SlotAt(pt.g, dir, dataStart, |Layout(items[..k])|)
    requires SlotAt(pt.g, dir, dataEnd, |Layout(items[..k])| + |Slots(items[k])| - 1)
    modifies pt, pt.cache.Repr
    ensures DirOk(pt, dir) && slots == SlotsOf(pt, dir) && DirGrown(pt.g, old(pt.cache.view), dir, pt.cache.view, dir)
            && Numbered(slots)
    ensures Holds(slots, 0, items') && Files(items') == Files(items[..k]) + Files(items[k + 1..])
    ensures forall junk: seq<Ucs2> | |junk| == MAX_LFN_LENGTH ::
              Listing(slots, junk) == Files(items[..k]) + Files(items[k + 1..])
    ensures ret <==> |Layout(items[..k])| + |Slots(items[k])| < |slots|
    ensures old(pt.Counted()) ==> pt.Counted()
  {
    hide Cache.Valid, Mul, Table, FreeCount, SlotAt, DirSlots, DirGrown, IsDir, Holds, Layout, Slots, Listing, Files,
        Numbered, DirEdits.Written;
    ghost var s, n := |Layout(items[..k])|, |Slots(items[k])|;
    ret, slots := RemoveSlots(pt, dataStart, dataEnd, dir, slots0, s, s + n - 1);
    items' := RemovedFromList(slots0, slots, items, k);
  }

  lemma RemovedFromList(before: seq<Entry>, after: seq<Entry>, items: seq<Item>, k: nat)
    returns (items': seq<Item>)
    requires Holds(before, 0, items) && k < |items|
    requires var s, n := |Layout(items[..k])|, |Slots(items[k])|;
             s + n <= |before| && DirEdits.Written(before, after, s, ErasedAll(before[s..s + n]))
    ensures |after| == |before| && Numbered(after)
    ensures Holds(after, 0, items') && Files(items') == Files(items[..k]) + Files(items[k + 1..])
    ensures forall junk: seq<Ucs2> | |junk| == MAX_LFN_LENGTH ::
              Listing(after, junk) == Files(items[..k]) + Files(items[k + 1..])
  {
    hide Numbered, Files, FileOf, IsItem, Holds, Listing, Slots, Layout, ErasedAll;
    ItemSlots(before, items, k);
    items' := DirEdits.RemoveEntry(before, after, items, k);
    HoldsNumbered(after, 0, items');
    forall junk: seq<Ucs2> | |junk| == MAX_LFN_LENGTH
      ensures Listing(after, junk) == Files(items[..k]) + Files(items[k + 1..])
    {
      ListsItems(after, junk, items');
    }
  }

  /** Where the slots of an item are. */
  lemma ItemSlots(slots: seq<Entry>, items: seq<Item>, k: nat)
    requires Holds(slots, 0, items) && k < |items|
    ensures var s, n := |Layout(items[..k])|, |Slots(items[k])|;
            s + n <= |slots| && slots[s..s + n] == Slots(items[k])
  {
    hide Numbered, Layout, Slots, IsItem;
    HoldsParts(slots, items);
    ThreeParts(items, k, 1);
    assert items[k..k + 1] == [items[k]];
    One(items[k]);
    MiddleOf(Layout(items[..k]), Slots(items[k]), Layout(items[k + 1..]), slots[|Layout(items)|..]);
  }

  lemma MiddleOf(l: seq<Entry>, d: seq<Entry>, r: seq<Entry>, rest: seq<Entry>)
    ensures (l + d + r + rest)[|l|..|l| + |d|] == d
  {
  }
}
