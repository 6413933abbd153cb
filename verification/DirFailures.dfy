/** Removing the entry in the last slot of a directory, on the small volume. */
module DirFailures {
  import opened Bytes
  import opened Arith
  import opened Volume
  import opened FatCodec
  import opened Chains
  import opened Growth
  import opened DirEntry
  import opened LongNames
  import opened DirItems
  import opened DirArea
  import opened DirSteps
  import opened Directory
  import opened SectorCache
  import opened SmallVolume
  import opened Failures

  /** The last slot of the root directory. */
  const LAST: EntryPosition := EntryPosition(CLUSTER_ROOT, 0, 15)

  /** The parts of the root directory: an entry, deleted slots, an entry. */
  function RootItems(slots: seq<Entry>): (items: seq<Item>)
    requires |slots| == 16
    ensures |items| == 16
  {
    seq(16, k requires 0 <= k < 16 => if k == 0 || k == 15 then Short(slots[k]) else Dead(slots[k]))
  }

  lemma {:induction false} OneSlotEach(items: seq<Item>)
    requires forall k :: 0 <= k < |items| ==> !items[k].Long?
    ensures |Layout(items)| == |items| && forall k :: 0 <= k < |items| ==> Layout(items)[k] == items[k].e
    decreases |items|
  {
    if items != [] {
      OneSlotEach(items[1..]);
      assert Layout(items) == [items[0].e] + Layout(items[1..]);
    }
  }

  /** The slots of the root directory are cut out of its sector. */
  lemma RootSlots()
    ensures IsDir(SMALL, Image(false), Fixed) && |DirSlots(SMALL, Image(false), Fixed)| == 16
    ensures forall k, b ::
              0 <= k < 16 && 0 <= b < 32 ==>
                DirSlots(SMALL, Image(false), Fixed)[k][b] == Image(false)[1024 + 32 * k + b]
  {
    hide Mul, Div, Table, Closed, IsChain, Image, Cut, Sub;
    SmallIsOk(false);
    SmallFile(false);
    Products();
    MulIsProduct(1, 16);
    var v := Image(false);
    AreaLength(SMALL, v, Fixed);
    var a := RootArea(SMALL, v);
    assert a == v[1024..1536];
    forall k, b | 0 <= k < 16 && 0 <= b < 32
      ensures DirSlots(SMALL, v, Fixed)[k][b] == v[1024 + 32 * k + b]
    {
      assert DirSlots(SMALL, v, Fixed)[k] == Sub(a, 32 * k, 32);
      SlotByte(v, k, b);
    }
  }

  lemma SlotByte(v: seq<byte>, k: nat, b: nat)
    requires |v| == 3072 && k < 16 && b < 32
    ensures Sub(v[1024..1536], 32 * k, 32)[b] == v[1024 + 32 * k + b]
  {
    SubOfMiddle(v, 1024, 1536, 1024 + 32 * k, 32);
  }

  lemma RootKinds(k: nat)
    requires k < 16
    ensures IsDir(SMALL, Image(false), Fixed) && |DirSlots(SMALL, Image(false), Fixed)| == 16
    ensures var e := DirSlots(SMALL, Image(false), Fixed)[k];
            if k == 0 || k == 15 then IsEntry(e) else IsFree(e) && e[ATTRIBUTES] == 0
  {
    hide DirSlots, IsDir;
    RootSlots();
    var e := DirSlots(SMALL, Image(false), Fixed)[k];
    assert e[NAME] == Image(false)[1024 + 32 * k] && e[ATTRIBUTES] == Image(false)[1024 + 32 * k + 11];
  }

  lemma RootHolds()
    ensures IsDir(SMALL, Image(false), Fixed) && |DirSlots(SMALL, Image(false), Fixed)| == 16
    ensures var slots := DirSlots(SMALL, Image(false), Fixed); Holds(slots, 0, RootItems(slots))
  {
    hide DirSlots, IsDir, Image, Layout, IsEntry;
    RootKinds(0);
    var slots := DirSlots(SMALL, Image(false), Fixed);
    var items := RootItems(slots);
    forall k | 0 <= k < 16
      ensures IsItem(items[k]) && (slots[k][ATTRIBUTES] == ATTRIB_LFN ==> false)
    {
      RootKinds(k);
      EntryIsNoLfn(slots[k]);
    }
    OneSlotEach(items);
    assert slots[0..16] == Layout(items);
  }

  lemma EntryIsNoLfn(e: Entry)
    ensures IsEntry(e) ==> e[ATTRIBUTES] != ATTRIB_LFN
  {
  }

  lemma RootPlaces()
    ensures SlotAt(SMALL, Fixed, LAST, 15)
    ensures Reached(SMALL, Fixed, Rooted(SMALL, EntryPosition(CLUSTER_ROOT, 0, -1)), -1)
  {
    hide Mul;
    MulZero(16);
    assert SectorAt(SMALL, Fixed, LAST, 0);
  }

  /** What is listed before and after. */
  lemma RootFiles(slots: seq<Entry>)
    requires |slots| == 16
    ensures var items := RootItems(slots);
            |Files(items)| == 2 && Files(items[..15]) + Files(items[16..]) == Files(items)[..1]
            && |Layout(items[..15])| == 15 && |Slots(items[15])| == 1
  {
    hide Files, FileOf, Layout;
    var items := RootItems(slots);
    OneSlotEach(items[..15]);
    DirEdits.ThreeParts(items, 15, 1);
    DirEdits.ThreeParts(items[..15], 0, 1);
    DirEdits.DeadLayout(items[..15][1..]);
    assert items[15..16] == [items[15]] && items[..15][0..1] == [items[0]];
    assert items[..15][..0] == [] && items[16..] == [];
    DirEdits.One(items[15]);
    DirEdits.One(items[0]);
    DirEdits.FilesNone();
    OneListed(slots[0]);
    OneListed(slots[15]);
  }

  lemma OneListed(e: Entry)
    ensures |FileOf(Short(e))| == 1
  {
  }

  /** Reads the root directory, removes the entry in its last slot, and reads it again: the removal reports
      failure, and the entry is gone. */
  method RemoveLast() returns (before: seq<Listed>, ret: bool, after: seq<Listed>)
    ensures |before| == 2 && !ret && after == before[..1]
  {
    hide Mul, Div, Mod, Cache.Valid, Image, Table, SlotAt, DirSlots, DirGrown, IsDir, Holds, Layout, Slots, Files,
        Listing, Numbered, RootItems, Reached;
    RootHolds();
    RootPlaces();
    var pt := MountSmall(false);
    ghost var slots := SlotsOf(pt, Fixed);
    ghost var items := RootItems(slots);
    RootFiles(slots);
    ghost var at, stop;
    before, at, stop := ReadDirectory(pt, CLUSTER_ROOT, Fixed, slots, items);
    ghost var slots', items';
    ret, slots', items' := Directory.RemoveEntry(pt, LAST, LAST, Fixed, slots, items, 15);
    after, at, stop := ReadDirectory(pt, CLUSTER_ROOT, Fixed, slots', items');
  }
}
