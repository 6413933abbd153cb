/** What the slots of a directory mean (src/fat/directory.c): the scan for the next entry, the entries a
    directory lists, and how inserting and removing an entry change that list. */
module DirItems {
  import opened Bytes
  import opened DirEntry
  import opened LongNames

  predicate IsFree(e: Entry) {
    e[NAME] == DIR_ENTRY_FREE
  }

  predicate IsLast(e: Entry) {
    e[NAME] == DIR_ENTRY_LAST
  }

  predicate IsVolumeBit(e: Entry) {
    e[ATTRIBUTES] as int / ATTRIB_VOL % 2 == 1
  }

  /** `tolower` on ASCII. */
  function ToLower(c: byte): byte {
    if 'A' as int <= c as int <= 'Z' as int then c + 32 else c
  }

  /** The characters from `at` on up to the first space, at most `n` of them. */
  function Field(e: Entry, at: nat, n: nat, lower: bool): (s: seq<Ucs2>)
    requires at + n <= 32
    ensures |s| <= n
    decreases n
  {
    if n == 0 || e[at] == ' ' as int then []
    else [(if lower then ToLower(e[at]) else e[at]) as int] + Field(e, at + 1, n - 1, lower)
  }

  /** The name of a short entry as entryGetAlias copies it. */
  function AliasCopy(e: Entry): seq<Ucs2> {
    if e[NAME] == '.' as int then if e[NAME + 1] == '.' as int then ['.' as int, '.' as int] else ['.' as int]
    else
      Field(e, NAME, 8, e[CASE_INFO] as int / 0x08 % 2 == 1)
      + if e[EXTENSION] == ' ' as int then []
          else ['.' as int] + Field(e, EXTENSION, 3, e[CASE_INFO] as int / 0x10 % 2 == 1)
  }

  function AliasName(e: Entry): (name: seq<Ucs2>) {
    if IsFree(e) then [] else UntilZero(AliasCopy(e))
  }

  /** The slots of long names have numbers from 1 on. */
  ghost predicate Numbered(slots: seq<Entry>) {
    forall k ::
        0 <= k < |slots| && slots[k][ATTRIBUTES] == ATTRIB_LFN && slots[k][LFN_ORDINAL] < 0x80 ==>
          OrdinalOf(slots[k]) > 0
  }

  datatype Outcome = NoMore | Found(start: int, end: nat, name: seq<Ucs2>, entry: Entry)

  /** A slot that ends the scan with an entry. */
  predicate IsEntry(e: Entry) {
    e[ATTRIBUTES] != ATTRIB_LFN && !IsVolumeBit(e) && !IsLast(e) && !IsFree(e) && e[NAME] > 0x20
  }

  /** A slot that ends the directory for the scan. */
  predicate IsEnd(e: Entry) {
    e[ATTRIBUTES] != ATTRIB_LFN && !IsVolumeBit(e) && IsLast(e)
  }

  /** The entry found at slot `i`. A long name counts only if its checksum fits. */
  function EntryFound(i: nat, e: Entry, st: Scan): Outcome {
    if st.pending && Checksum(e, 11) == st.chk then Found(st.start, i, UntilZero(st.lfn), e)
    else Found(i, i, AliasName(e), e)
  }

  /** The loop of getNextEntry from slot `i` on. */
  function ScanFrom(slots: seq<Entry>, i: nat, st: Scan): (r: Outcome)
    requires i <= |slots| && |st.lfn| == MAX_LFN_LENGTH && Numbered(slots)
    ensures r.Found? ==> i <= r.end < |slots|
    decreases |slots| - i
  {
    if i == |slots| then NoMore
    else
      var e := slots[i];
      if e[ATTRIBUTES] == ATTRIB_LFN then ScanFrom(slots, i + 1, Feed(st, i, e))
      else if IsEnd(e) then NoMore
      else if IsEntry(e) then EntryFound(i, e, st)
      else ScanFrom(slots, i + 1, st)
  }

  datatype Listed = Listed(name: seq<Ucs2>, entry: Entry)

  /** All entries: the one found from slot `i` on, then those behind it. `junk` is what an uninitialised
      name buffer holds. */
  function ListFrom(slots: seq<Entry>, i: nat, st: Scan, junk: seq<Ucs2>): seq<Listed>
    requires i <= |slots| && |st.lfn| == MAX_LFN_LENGTH && |junk| == MAX_LFN_LENGTH && Numbered(slots)
    decreases |slots| - i
  {
    match ScanFrom(slots, i, st)
    case NoMore => []
    case Found(start, end, name, e) => [Listed(name, e)] + ListFrom(slots, end + 1, Scan(false, 0, end, junk), junk)
  }

  /** What getFirstEntry and getNextEntry, called until they fail, list. */
  function Listing(slots: seq<Entry>, junk: seq<Ucs2>): seq<Listed>
    requires |junk| == MAX_LFN_LENGTH && Numbered(slots)
  {
    ListFrom(slots, 0, Scan(false, 0, -1, junk), junk)
  }

  /** The parts of a directory without orphans: deleted slots, slots the scan passes over, short entries,
      and entries with their long-name slots in front. */
  datatype Item = Dead(e: Entry) | Other(e: Entry) | Short(e: Entry) | Long(name: seq<Ucs2>, lfn: seq<Entry>, e: Entry)

  ghost predicate IsItem(it: Item) {
    match it
    case Dead(e) => IsFree(e)
    case Other(e) => !IsFree(e) && !IsLast(e) && e[ATTRIBUTES] != ATTRIB_LFN && !IsEntry(e)
    case Short(e) => IsEntry(e)
    case Long(name, lfn, e) => IsLongName(name) && IsLfn(lfn, name, Checksum(e, 11)) && IsEntry(e)
  }

  function Slots(it: Item): (s: seq<Entry>)
    ensures |s| > 0
  {
    if it.Long? then it.lfn + [it.e] else [it.e]
  }

  function Layout(items: seq<Item>): seq<Entry> {
    if items == [] then [] else Slots(items[0]) + Layout(items[1..])
  }

  ghost predicate AllItems(items: seq<Item>) {
    forall k :: 0 <= k < |items| ==> IsItem(items[k])
  }

  /** The entry of an item, as it is listed. */
  function FileOf(it: Item): seq<Listed> {
    match it
    case Short(e) => [Listed(AliasName(e), e)]
    case Long(name, lfn, e) => [Listed(name, e)]
    case _ => []
  }

  /** The entries among the items. */
  function Files(items: seq<Item>): seq<Listed> {
    if items == [] then [] else FileOf(items[0]) + Files(items[1..])
  }

  /** The directory from slot `i` on: these items, and then its end. */
  ghost predicate Holds(slots: seq<Entry>, i: nat, items: seq<Item>) {
    && AllItems(items) && Numbered(slots)
    && i + |Layout(items)| <= |slots| && slots[i..i + |Layout(items)|] == Layout(items)
    && (i + |Layout(items)| < |slots| ==> IsEnd(slots[i + |Layout(items)|]))
  }

  lemma HoldsRest(slots: seq<Entry>, i: nat, items: seq<Item>)
    requires Holds(slots, i, items) && items != []
    ensures var n := |Slots(items[0])|;
            i + n <= |slots| && slots[i..i + n] == Slots(items[0]) && IsItem(items[0])
                && Holds(slots, i + n, items[1..])
  {
    hide Numbered, IsItem, Slots;
    SliceParts(slots, i, Slots(items[0]), Layout(items[1..]));
  }

  lemma SliceParts(slots: seq<Entry>, i: nat, s: seq<Entry>, r: seq<Entry>)
    requires i + |s + r| <= |slots|
    ensures slots[i..i + |s + r|] == s + r <==> slots[i..i + |s|] == s && slots[i + |s|..i + |s| + |r|] == r
  {
    var t := slots[i..i + |s + r|];
    assert slots[i..i + |s|] == t[..|s|] && slots[i + |s|..i + |s| + |r|] == t[|s|..];
    assert t == t[..|s|] + t[|s|..];
    assert (s + r)[..|s|] == s && (s + r)[|s|..] == r;
  }

  /** Feeding the slots of a name leads to its entry. */
  lemma {:induction false} ScanLong(slots: seq<Entry>, i: nat, st: Scan, it: Item, n: nat)
    requires Numbered(slots) && it.Long? && IsItem(it) && i + |it.lfn| < |slots|
             && slots[i..i + |it.lfn| + 1] == Slots(it)
    requires n <= |it.lfn| && |st.lfn| == MAX_LFN_LENGTH && Fed(st, it.name, Checksum(it.e, 11), i, n)
    ensures ScanFrom(slots, i + n, st) == Found(i, i + |it.lfn|, it.name, it.e)
    decreases |it.lfn| - n
  {
    hide Fed, Feed, Checksum, IsLfnSlot;
    assert slots[i + n] == slots[i..i + |it.lfn| + 1][n] == Slots(it)[n];
    if n == |it.lfn| {
      FedName(st, it.name, Checksum(it.e, 11), i);
      FedState(st, it.name, Checksum(it.e, 11), i);
    } else {
      FeedMore(st, slots[i + n], it.name, Checksum(it.e, 11), i, n);
      LfnFlag(it, n);
      ScanLong(slots, i, Feed(st, i + n, slots[i + n]), it, n + 1);
    }
  }

  lemma FedState(st: Scan, name: seq<Ucs2>, chk: byte, i: int)
    requires IsLongName(name) && Fed(st, name, chk, i, SlotCount(name))
    ensures st.pending && st.chk == chk && st.start == i && |st.lfn| == MAX_LFN_LENGTH
  {
  }

  lemma LfnFlag(it: Item, n: nat)
    requires it.Long? && IsItem(it) && n < |it.lfn|
    ensures it.lfn[n][ATTRIBUTES] == ATTRIB_LFN && it.lfn[n][LFN_ORDINAL] < 0x80
    ensures IsLfnSlot(it.lfn[n], it.name, |it.lfn| - n, n == 0, Checksum(it.e, 11))
  {
  }

  /** A slot that is not an entry is passed over. */
  lemma PassOver(slots: seq<Entry>, i: nat, st: Scan, junk: seq<Ucs2>, it: Item) returns (st': Scan)
    requires Numbered(slots) && i < |slots| && slots[i..i + 1] == Slots(it) && IsItem(it) && (it.Dead? || it.Other?)
    requires |junk| == MAX_LFN_LENGTH && |st.lfn| == MAX_LFN_LENGTH && !st.pending
    ensures |st'.lfn| == MAX_LFN_LENGTH && !st'.pending
            && ListFrom(slots, i, st, junk) == ListFrom(slots, i + 1, st', junk)
    ensures ScanFrom(slots, i, st) == ScanFrom(slots, i + 1, st')
  {
    hide Checksum, AliasName, UntilZero, Stored;
    assert slots[i] == slots[i..i + 1][0] == it.e;
    st' := if it.e[ATTRIBUTES] == ATTRIB_LFN then Feed(st, i, it.e) else st;
    assert ScanFrom(slots, i, st) == ScanFrom(slots, i + 1, st');
    SameScan(slots, i, st, i + 1, st', junk);
  }

  lemma SameScan(slots: seq<Entry>, i: nat, st: Scan, j: nat, st': Scan, junk: seq<Ucs2>)
    requires Numbered(slots) && i <= |slots| && j <= |slots| && |junk| == |st.lfn| == |st'.lfn| == MAX_LFN_LENGTH
    requires ScanFrom(slots, i, st) == ScanFrom(slots, j, st')
    ensures ListFrom(slots, i, st, junk) == ListFrom(slots, j, st', junk)
  {
    hide ScanFrom, Numbered;
  }

  /** The scan finds an entry at its own place. */
  lemma EntryScan(slots: seq<Entry>, i: nat, st: Scan, it: Item) returns (name: seq<Ucs2>)
    requires Numbered(slots) && i + |Slots(it)| <= |slots| && slots[i..i + |Slots(it)|] == Slots(it) && IsItem(it)
             && (it.Short? || it.Long?)
    requires |st.lfn| == MAX_LFN_LENGTH && !st.pending
    ensures ScanFrom(slots, i, st) == Found(i, i + |Slots(it)| - 1, name, it.e) && FileOf(it) == [Listed(name, it.e)]
  {
    hide Checksum, AliasName, UntilZero, Stored, Feed, IsLfn, IsLongName;
    if it.Long? {
      name := it.name;
      LongHasSlots(it);
      FedNone(st, it, i);
      ScanLong(slots, i, st, it, 0);
    } else {
      name := AliasName(it.e);
      assert slots[i] == slots[i..i + 1][0] == it.e;
    }
  }

  /** An entry is listed, and the scan starts afresh behind it. */
  lemma ListEntry(slots: seq<Entry>, i: nat, st: Scan, junk: seq<Ucs2>, it: Item)
    requires Numbered(slots) && i + |Slots(it)| <= |slots| && slots[i..i + |Slots(it)|] == Slots(it) && IsItem(it)
             && (it.Short? || it.Long?)
    requires |junk| == MAX_LFN_LENGTH && |st.lfn| == MAX_LFN_LENGTH && !st.pending
    ensures var end := i + |Slots(it)| - 1;
            ListFrom(slots, i, st, junk) == FileOf(it) + ListFrom(slots, end + 1, Scan(false, 0, end, junk), junk)
  {
    hide ScanFrom, IsItem, Slots, FileOf;
    var name := EntryScan(slots, i, st, it);
  }

  lemma LongHasSlots(it: Item)
    requires it.Long? && IsItem(it)
    ensures |Slots(it)| == |it.lfn| + 1
  {
  }

  lemma FedNone(st: Scan, it: Item, i: int)
    requires it.Long? && IsItem(it) && |st.lfn| == MAX_LFN_LENGTH
    ensures IsLongName(it.name) && Fed(st, it.name, Checksum(it.e, 11), i, 0)
  {
  }

  lemma FilesHead(items: seq<Item>)
    requires items != []
    ensures Files(items) == FileOf(items[0]) + Files(items[1..])
  {
  }

  /** A directory without orphans lists exactly its entries, whatever the name buffer held before. */
  lemma {:induction false} ListsFrom(slots: seq<Entry>, i: nat, st: Scan, junk: seq<Ucs2>, items: seq<Item>)
    requires Holds(slots, i, items) && |junk| == MAX_LFN_LENGTH && |st.lfn| == MAX_LFN_LENGTH && !st.pending
    ensures ListFrom(slots, i, st, junk) == Files(items)
    decreases |items|
  {
    hide Holds, ListFrom, Files, Slots, IsItem, FileOf;
    if items == [] {
      ListsNothing(slots, i, st, junk, items);
    } else {
      HoldsRest(slots, i, items);
      HoldsNumbered(slots, i, items);
      FilesHead(items);
      var it, n := items[0], |Slots(items[0])|;
      if it.Dead? || it.Other? {
        OneSlot(it);
        var st' := PassOver(slots, i, st, junk, it);
        ListsFrom(slots, i + 1, st', junk, items[1..]);
      } else {
        ListEntry(slots, i, st, junk, it);
        ListsFrom(slots, i + n, Scan(false, 0, i + n - 1, junk), junk, items[1..]);
      }
    }
  }

  /** The next entry the scan finds is the first of those that are left, and behind it are the others. */
  lemma {:induction false} NextIs(slots: seq<Entry>, i: nat, st: Scan, items: seq<Item>) returns (rest: seq<Item>)
    requires Holds(slots, i, items) && |st.lfn| == MAX_LFN_LENGTH && !st.pending
    ensures Numbered(slots) && i <= |slots|
    ensures match ScanFrom(slots, i, st)
            case NoMore => Files(items) == []
            case Found(start, end, name, e) =>
              start >= 0 && Files(items) == [Listed(name, e)] + Files(rest) && Holds(slots, end + 1, rest)
    decreases |items|
  {
    hide Holds, ScanFrom, Files, Slots, IsItem, FileOf;
    HoldsNumbered(slots, i, items);
    rest := [];
    if items == [] {
      ScansNothing(slots, i, st, items);
    } else {
      HoldsRest(slots, i, items);
      FilesHead(items);
      var it := items[0];
      if it.Dead? || it.Other? {
        OneSlot(it);
        var st' := PassOver(slots, i, st, st.lfn, it);
        rest := NextIs(slots, i + 1, st', items[1..]);
      } else {
        var name := EntryScan(slots, i, st, it);
        rest := items[1..];
      }
    }
  }

  lemma ScansNothing(slots: seq<Entry>, i: nat, st: Scan, items: seq<Item>)
    requires Holds(slots, i, items) && items == [] && |st.lfn| == MAX_LFN_LENGTH
    ensures i <= |slots| && Numbered(slots) && ScanFrom(slots, i, st) == NoMore && Files(items) == []
  {
  }

  lemma OneSlot(it: Item)
    requires it.Dead? || it.Other?
    ensures |Slots(it)| == 1 && FileOf(it) == []
  {
  }

  lemma HoldsNumbered(slots: seq<Entry>, i: nat, items: seq<Item>)
    requires Holds(slots, i, items)
    ensures Numbered(slots) && i <= |slots|
  {
  }

  lemma ListsNothing(slots: seq<Entry>, i: nat, st: Scan, junk: seq<Ucs2>, items: seq<Item>)
    requires Holds(slots, i, items) && items == [] && |junk| == MAX_LFN_LENGTH && |st.lfn| == MAX_LFN_LENGTH
    ensures i <= |slots| && Numbered(slots) && ListFrom(slots, i, st, junk) == Files(items)
  {
  }

  lemma ListsItems(slots: seq<Entry>, junk: seq<Ucs2>, items: seq<Item>)
    requires Holds(slots, 0, items) && |junk| == MAX_LFN_LENGTH
    ensures Listing(slots, junk) == Files(items)
  {
    ListsFrom(slots, 0, Scan(false, 0, -1, junk), junk, items);
  }

  /** Round trip of long names: from the slots of a name and the entry they are tied to, the scan reads the
      same name, for every name of 1 to 247 units without a zero. */
  lemma LongNameRoundTrip(name: seq<Ucs2>, lfn: seq<Entry>, e: Entry, junk: seq<Ucs2>)
    requires IsLongName(name) && IsLfn(lfn, name, Checksum(e, 11)) && IsEntry(e) && |junk| == MAX_LFN_LENGTH
    requires Numbered(lfn + [e])
    ensures ScanFrom(lfn + [e], 0, Scan(false, 0, -1, junk)) == Found(0, |lfn|, name, e)
  {
    hide Checksum, IsLfn, IsLongName;
    var it, slots := Long(name, lfn, e), lfn + [e];
    assert slots[0..0 + |lfn| + 1] == Slots(it);
    FedNone(Scan(false, 0, -1, junk), it, 0);
    ScanLong(slots, 0, Scan(false, 0, -1, junk), it, 0);
  }
}
