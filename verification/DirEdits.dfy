/** Inserting an entry into a gap of a directory and removing one (src/fat/directory.c), and what that does
    to the list of entries. */
module DirEdits {
  import opened DirEntry
  import opened LongNames
  import opened DirItems

  lemma {:induction false} LayoutConcat(a: seq<Item>, b: seq<Item>)
    ensures Layout(a + b) == Layout(a) + Layout(b) && Files(a + b) == Files(a) + Files(b)
    decreases |a|
  {
    hide Slots, FileOf;
    if a == [] {
      assert a + b == b;
    } else {
      LayoutConcat(a[1..], b);
      UnfoldSum(a, b);
    }
  }

  lemma UnfoldSum(a: seq<Item>, b: seq<Item>)
    requires a != []
    ensures Layout(a + b) == Slots(a[0]) + Layout(a[1..] + b) && Files(a + b) == FileOf(a[0]) + Files(a[1..] + b)
  {
    hide Slots, FileOf;
    assert (a + b)[1..] == a[1..] + b;
  }

  /** Deleted items take one slot each. */
  lemma {:induction false} DeadLayout(items: seq<Item>)
    requires forall k :: 0 <= k < |items| ==> items[k].Dead?
    ensures |Layout(items)| == |items| && Files(items) == []
    decreases |items|
  {
    if items != [] {
      DeadLayout(items[1..]);
    }
  }

  ghost predicate FreeSlots(slots: seq<Entry>, s: nat, n: nat) {
    s + n <= |slots| && forall i :: s <= i < s + n ==> IsFree(slots[i])
  }

  /** Only deleted items have free slots. */
  lemma FirstFree(it: Item)
    requires IsItem(it) && exists i :: 0 <= i < |Slots(it)| && IsFree(Slots(it)[i])
    ensures it.Dead?
  {
    hide Checksum;
    var i :| 0 <= i < |Slots(it)| && IsFree(Slots(it)[i]);
    if it.Long? && i < |it.lfn| {
      LfnFlag(it, i);
    }
  }

  /** No item has a slot that ends the directory. */
  lemma NoLast(it: Item, i: nat)
    requires IsItem(it) && i < |Slots(it)|
    ensures !IsLast(Slots(it)[i])
  {
    hide Checksum;
    if it.Long? && i < |it.lfn| {
      LfnFlag(it, i);
      assert IsLfnSlot(it.lfn[i], it.name, |it.lfn| - i, i == 0, Checksum(it.e, 11));
    }
  }

  /** A run of free slots is a run of deleted items. */
  lemma {:induction false} FreeRun(items: seq<Item>, s: nat, n: nat) returns (a: nat)
    requires AllItems(items) && FreeSlots(Layout(items), s, n) && (n == 0 ==> s == |Layout(items)|)
    ensures a + n <= |items| && |Layout(items[..a])| == s && forall k :: a <= k < a + n ==> items[k].Dead?
    decreases |items|
  {
    if n == 0 {
      a := |items|;
      assert items[..a] == items;
    } else {
      var m, r := |Slots(items[0])|, items[1..];
      assert Layout(items) == Slots(items[0]) + Layout(r);
      if s == 0 {
        FirstOfRun(items, n);
        assert Layout(items)[m..] == Layout(r);
        a := 0;
        if n > 1 {
          assert forall i :: 0 <= i < n - 1 ==> Layout(r)[i] == Layout(items)[i + 1];
          var b := FreeRun(r, 0, n - 1);
          LayoutGrows(r, b);
        }
      } else {
        BehindFirst(items, s, n);
        assert forall i :: s - m <= i < s - m + n ==> Layout(r)[i] == Layout(items)[i + m];
        var b := FreeRun(r, s - m, n);
        a := b + 1;
        assert items[..a][1..] == r[..b];
      }
    }
  }

  lemma FirstOfRun(items: seq<Item>, n: nat)
    requires AllItems(items) && FreeSlots(Layout(items), 0, n) && 0 < n
    ensures items != [] && items[0].Dead? && |Slots(items[0])| == 1
  {
    assert Slots(items[0])[0] == Layout(items)[0];
    FirstFree(items[0]);
  }

  lemma BehindFirst(items: seq<Item>, s: nat, n: nat)
    requires AllItems(items) && FreeSlots(Layout(items), s, n) && 0 < n && 0 < s
    ensures items != [] && |Slots(items[0])| <= s
  {
    if s < |Slots(items[0])| {
      assert Slots(items[0])[s] == Layout(items)[s];
      FirstFree(items[0]);
    }
  }

  /** Nothing laid out means no items. */
  lemma LayoutGrows(items: seq<Item>, b: nat)
    requires b <= |items| && |Layout(items[..b])| == 0
    ensures b == 0
  {
  }

  /** From `before` to `after` the slots `d` have been written from slot `s` on. */
  ghost predicate Written(before: seq<Entry>, after: seq<Entry>, s: nat, d: seq<Entry>) {
    && s + |d| <= |before| == |after|
    && after[..s] == before[..s] && after[s..s + |d|] == d && after[s + |d|..] == before[s + |d|..]
  }

  lemma SlotsNumbered(it: Item)
    requires IsItem(it) && !it.Dead?
    ensures Numbered(Slots(it))
  {
    hide Checksum;
    if it.Long? {
      forall k | 0 <= k < |it.lfn|
        ensures OrdinalOf(it.lfn[k]) > 0
      {
        LfnFlag(it, k);
      }
    }
  }

  lemma NumberedConcat(a: seq<Entry>, b: seq<Entry>)
    ensures Numbered(a + b) <==> Numbered(a) && Numbered(b)
  {
    if Numbered(a + b) {
      assert forall k :: 0 <= k < |a| ==> a[k] == (a + b)[k];
      assert forall k :: 0 <= k < |b| ==> b[k] == (a + b)[|a| + k];
    }
  }

  /** A directory from its parts. */
  lemma HoldsFrom(slots: seq<Entry>, items: seq<Item>, rest: seq<Entry>)
    requires slots == Layout(items) + rest && AllItems(items) && Numbered(slots) && (rest != [] ==> IsEnd(rest[0]))
    ensures Holds(slots, 0, items)
  {
    assert slots[0..0 + |Layout(items)|] == Layout(items);
  }

  lemma HoldsParts(slots: seq<Entry>, items: seq<Item>)
    requires Holds(slots, 0, items)
    ensures var z := |Layout(items)|;
            z <= |slots| && slots == Layout(items) + slots[z..] && AllItems(items) && Numbered(slots)
            && (slots[z..] != [] ==> IsEnd(slots[z]))
  {
    assert slots[0..|Layout(items)|] == slots[..|Layout(items)|];
  }

  lemma ThreeParts(items: seq<Item>, a: nat, n: nat)
    requires a + n <= |items|
    ensures items == items[..a] + items[a..a + n] + items[a + n..]
    ensures Layout(items) == Layout(items[..a]) + Layout(items[a..a + n]) + Layout(items[a + n..])
    ensures Files(items) == Files(items[..a]) + Files(items[a..a + n]) + Files(items[a + n..])
    ensures Files(items[a..]) == Files(items[a..a + n]) + Files(items[a + n..])
  {
    hide Layout, Files;
    LayoutConcat(items[..a] + items[a..a + n], items[a + n..]);
    LayoutConcat(items[..a], items[a..a + n]);
    LayoutConcat(items[a..a + n], items[a + n..]);
    CutInThree(items, a, n);
  }

  lemma CutInThree(items: seq<Item>, a: nat, n: nat)
    requires a + n <= |items|
    ensures items == items[..a] + items[a..a + n] + items[a + n..] && items[a..] == items[a..a + n] + items[a + n..]
  {
  }

  lemma One(it: Item)
    ensures Layout([it]) == Slots(it) && Files([it]) == FileOf(it)
  {
    assert [it][1..] == [];
  }

  /** Writing an entry over deleted slots puts it in its place in the list. */
  lemma InsertInGap(before: seq<Entry>, after: seq<Entry>, items: seq<Item>, s: nat, it: Item) returns (a: nat)
    requires Holds(before, 0, items) && IsItem(it) && (it.Short? || it.Long?)
    requires Written(before, after, s, Slots(it)) && FreeSlots(before, s, |Slots(it)|)
             && s + |Slots(it)| <= |Layout(items)|
    ensures a + |Slots(it)| <= |items| && Holds(after, 0, items[..a] + [it] + items[a + |Slots(it)|..])
    ensures Files(items[..a] + [it] + items[a + |Slots(it)|..]) == Files(items[..a]) + FileOf(it) + Files(items[a..])
  {
    hide Slots, IsItem, FileOf, Layout, Files, Numbered, Holds;
    var n := |Slots(it)|;
    HoldsParts(before, items);
    assert FreeSlots(Layout(items), s, n);
    a := FreeRun(items, s, n);
    ThreeParts(items, a, n);
    DeadLayout(items[a..a + n]);
    var l, r, rest := Layout(items[..a]), Layout(items[a + n..]), before[|Layout(items)|..];
    InsertedSlots(before, after, s, Slots(it), l, Layout(items[a..a + n]), r, rest);
    LayoutConcat(items[..a] + [it], items[a + n..]);
    LayoutConcat(items[..a], [it]);
    One(it);
    SlotsNumbered(it);
    NumberedConcat(l + Layout(items[a..a + n]) + r, rest);
    NumberedConcat(l + Layout(items[a..a + n]), r);
    NumberedConcat(l, Layout(items[a..a + n]));
    NumberedConcat(l + Slots(it) + r, rest);
    NumberedConcat(l + Slots(it), r);
    NumberedConcat(l, Slots(it));
    HoldsFrom(after, items[..a] + [it] + items[a + n..], rest);
  }

  lemma InsertedSlots(before: seq<Entry>, after: seq<Entry>, s: nat, d: seq<Entry>, l: seq<Entry>, gap: seq<Entry>,
        r: seq<Entry>, rest: seq<Entry>)
    requires Written(before, after, s, d) && before == l + gap + r + rest && |l| == s && |gap| == |d|
    ensures after == l + d + r + rest
  {
    assert before[..s] == l && before[s + |d|..] == r + rest;
    assert after == after[..s] + after[s..s + |d|] + after[s + |d|..];
  }

  /** Writing an entry over the deleted slots at the end and beyond, with an end marker behind it, puts it last
      in the list. */
  lemma InsertAtEnd(before: seq<Entry>, after: seq<Entry>, items: seq<Item>, s: nat, it: Item) returns (a: nat)
    requires Holds(before, 0, items) && IsItem(it) && (it.Short? || it.Long?)
    requires s <= |Layout(items)| && FreeSlots(before, s, |Layout(items)| - s)
    requires s + |Slots(it)| < |after| && after[..s] == before[..s] && after[s..s + |Slots(it)|] == Slots(it)
    requires IsEnd(after[s + |Slots(it)|]) && Numbered(after[s + |Slots(it)|..])
    ensures a <= |items| && Holds(after, 0, items[..a] + [it])
    ensures Files(items[..a] + [it]) == Files(items) + FileOf(it)
  {
    hide Slots, IsItem, FileOf, Layout, Files, Numbered, Holds;
    var n, z := |Slots(it)|, |Layout(items)|;
    HoldsParts(before, items);
    assert FreeSlots(Layout(items), s, z - s);
    a := FreeRun(items, s, z - s);
    assert a + (z - s) <= |items|;
    ThreeParts(items, a, z - s);
    DeadLayout(items[a..a + (z - s)]);
    LayoutConcat(items[..a], items[a..a + (z - s)]);
    assert items[..a + (z - s)] == items[..a] + items[a..a + (z - s)];
    AllLaidOut(items, a + (z - s));
    FilesNone();
    var l := Layout(items[..a]);
    assert before[..s] == l;
    assert after == l + Slots(it) + after[s + n..];
    LayoutConcat(items[..a], [it]);
    One(it);
    SlotsNumbered(it);
    NumberedPrefix(before, items, a);
    NumberedConcat(l, Slots(it));
    NumberedConcat(l + Slots(it), after[s + n..]);
    HoldsFrom(after, items[..a] + [it], after[s + n..]);
  }

  lemma FilesNone()
    ensures Files([]) == []
  {
  }

  /** If the first items take all the slots, there are no others. */
  lemma AllLaidOut(items: seq<Item>, b: nat)
    requires b <= |items| && |Layout(items[..b])| == |Layout(items)|
    ensures b == |items| && items[b..] == []
  {
    hide Layout, Slots;
    LayoutConcat(items[..b], items[b..]);
    assert items == items[..b] + items[b..];
    if b < |items| {
      LaysOut(items[b..]);
    }
  }

  lemma LaysOut(items: seq<Item>)
    requires items != []
    ensures |Layout(items)| > 0
  {
  }

  lemma NumberedPrefix(slots: seq<Entry>, items: seq<Item>, a: nat)
    requires Holds(slots, 0, items) && a <= |items|
    ensures Numbered(Layout(items[..a]))
  {
    hide Layout, IsItem, Numbered;
    HoldsParts(slots, items);
    LayoutConcat(items[..a], items[a..]);
    assert items == items[..a] + items[a..];
    NumberedConcat(Layout(items), slots[|Layout(items)|..]);
    NumberedConcat(Layout(items[..a]), Layout(items[a..]));
  }

  /** The mark of a deleted slot. */
  function Erased(e: Entry): Entry {
    e[NAME := DIR_ENTRY_FREE]
  }

  function ErasedAll(d: seq<Entry>): (r: seq<Entry>)
    ensures |r| == |d| && forall i :: 0 <= i < |d| ==> r[i] == Erased(d[i])
  {
    if d == [] then [] else [Erased(d[0])] + ErasedAll(d[1..])
  }

  function DeadItems(d: seq<Entry>): (items: seq<Item>)
    ensures |items| == |d| && AllItems(items)
  {
    if d == [] then [] else [Dead(Erased(d[0]))] + DeadItems(d[1..])
  }

  lemma {:induction false} DeadItemsLaidOut(d: seq<Entry>)
    ensures Layout(DeadItems(d)) == ErasedAll(d) && Files(DeadItems(d)) == [] && Numbered(ErasedAll(d))
    decreases |d|
  {
    if d != [] {
      DeadItemsLaidOut(d[1..]);
      NumberedConcat([Erased(d[0])], ErasedAll(d[1..]));
    }
  }

  /** Marking all slots of an entry as deleted takes it, and nothing else, out of the list. */
  lemma RemoveEntry(before: seq<Entry>, after: seq<Entry>, items: seq<Item>, k: nat) returns (items': seq<Item>)
    requires Holds(before, 0, items) && k < |items|
    requires Written(before, after, |Layout(items[..k])|, ErasedAll(Slots(items[k])))
    ensures Holds(after, 0, items') && Files(items') == Files(items[..k]) + Files(items[k + 1..])
  {
    hide Slots, IsItem, FileOf, Layout, Files, Numbered, Holds, ErasedAll, DeadItems;
    var d := Slots(items[k]);
    HoldsParts(before, items);
    ThreeParts(items, k, 1);
    assert items[k..k + 1] == [items[k]];
    One(items[k]);
    DeadItemsLaidOut(d);
    var l, r, rest := Layout(items[..k]), Layout(items[k + 1..]), before[|Layout(items)|..];
    InsertedSlots(before, after, |l|, ErasedAll(d), l, d, r, rest);
    items' := items[..k] + DeadItems(d) + items[k + 1..];
    LayoutConcat(items[..k] + DeadItems(d), items[k + 1..]);
    LayoutConcat(items[..k], DeadItems(d));
    NumberedConcat(l + d + r, rest);
    NumberedConcat(l + d, r);
    NumberedConcat(l, d);
    NumberedConcat(l + ErasedAll(d) + r, rest);
    NumberedConcat(l + ErasedAll(d), r);
    NumberedConcat(l, ErasedAll(d));
    HoldsFrom(after, items', rest);
  }
}
