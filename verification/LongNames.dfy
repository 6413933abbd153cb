/** Long file names in directory slots (src/fat/directory.c): thirteen 16-bit units a slot, last part first,
    tied to the short entry behind them by a checksum. */
module LongNames {
  import opened Bytes
  import opened DirEntry

  const ATTRIB_LFN: nat := 0x0F
  const ATTRIB_VOL: nat := 0x08
  const LFN_END: nat := 0x40
  const LFN_DEL: nat := 0x80
  const MAX_LFN_LENGTH: nat := 256
  const LFN_ENTRY_LENGTH: nat := 13
  const DIR_ENTRY_LAST: nat := 0x00
  const DIR_ENTRY_FREE: nat := 0xE5

  // Offsets in a long-name slot
  const LFN_ORDINAL: nat := 0x00
  const LFN_RESERVED1: nat := 0x0C
  const LFN_CHECKSUM: nat := 0x0D
  const LFN_RESERVED2: nat := 0x1A

  /** UCS-2 units */
  type Ucs2 = u: int | 0 <= u < 0x1_0000

  /** LFN_offset_table: where the units of a slot are. */
  function UnitOffset(j: nat): (at: nat)
    requires j < LFN_ENTRY_LENGTH
    ensures 0 < at && at + 2 <= 32
    ensures at + 2 <= ATTRIBUTES || (LFN_CHECKSUM < at && at + 2 <= LFN_RESERVED2) || LFN_RESERVED2 + 2 <= at
  {
    if j < 5 then 1 + 2 * j else if j < 11 then 0x0E + 2 * (j - 5) else 0x1C + 2 * (j - 11)
  }

  lemma UnitsApart(i: nat, j: nat)
    requires i < j < LFN_ENTRY_LENGTH
    ensures UnitOffset(i) + 2 <= UnitOffset(j)
  {
  }

  function Unit(e: Entry, j: nat): Ucs2
    requires j < LFN_ENTRY_LENGTH
  {
    Get(e, UnitOffset(j), 2)
  }

  /** The checksum of a short name: an 8-bit rotation to the right and an addition for every character. */
  function Checksum(e: Entry, n: nat): (c: byte)
    requires n <= 11
  {
    if n == 0 then 0
    else
      var c := Checksum(e, n - 1);
      ((if c as int % 2 == 1 then 0x80 else 0) + c as int / 2 + e[n - 1] as int) % 256
  }

  /** A name that a file can have: no zero in it, and at most as long as nineteen slots. */
  predicate IsLongName(name: seq<Ucs2>) {
    0 < |name| <= 247 && forall i :: 0 <= i < |name| ==> name[i] != 0
  }

  /** The unit at a place in the slots: the name, then a zero, then padding. */
  function Padded(name: seq<Ucs2>, p: nat): Ucs2 {
    if p < |name| then name[p] else if p == |name| then 0 else 0xFFFF
  }

  /** How many slots a name takes. */
  function SlotCount(name: seq<Ucs2>): nat {
    (|name| + LFN_ENTRY_LENGTH - 1) / LFN_ENTRY_LENGTH
  }

  /** The slot with number `ord`, counted from 1, of a long name. */
  ghost predicate IsLfnSlot(e: Entry, name: seq<Ucs2>, ord: nat, last: bool, chk: byte)
    requires ord > 0
  {
    && e[LFN_ORDINAL] == ord + (if last then LFN_END else 0)
    && e[ATTRIBUTES] == ATTRIB_LFN && e[LFN_RESERVED1] == 0 && e[LFN_CHECKSUM] == chk && Get(e, LFN_RESERVED2, 2) == 0
    && forall j :: 0 <= j < LFN_ENTRY_LENGTH ==> Unit(e, j) == Padded(name, (ord - 1) * 13 + j)
  }

  /** The slots of a name, in the order of the directory: the last part comes first and is marked. */
  ghost predicate IsLfn(slots: seq<Entry>, name: seq<Ucs2>, chk: byte) {
    && |slots| == SlotCount(name)
    && forall i :: 0 <= i < |slots| ==> IsLfnSlot(slots[i], name, |slots| - i, i == 0, chk)
  }

  /** The unit addEntry puts in a place: a zero in the buffer is written as padding if the one before it in
      the slot is a zero too, except at the second place. In the last slot of a name that makes a zero and
      then padding. */
  lemma PaddingIsRight(lfn: seq<Ucs2>, name: seq<Ucs2>, ord: nat, j: nat)
    requires |lfn| == MAX_LFN_LENGTH && IsLongName(name) && 0 < ord <= SlotCount(name) && j < LFN_ENTRY_LENGTH
    requires forall k :: 0 <= k < MAX_LFN_LENGTH ==> lfn[k] == if k < |name| then name[k] else 0
    ensures (ord - 1) * 13 + j < 247
    ensures var p := (ord - 1) * 13 + j;
            Padded(name, p) == if lfn[p] != 0 then lfn[p] else if j > 1 && lfn[p - 1] == 0 then 0xFFFF else 0
  {
    assert (ord - 1) * 13 < |name|;
  }

  /** A field store and the bytes around it. */
  lemma PutAround(e: Entry, at: nat, v: nat, k: nat)
    requires at + 2 <= 32 && k < 32 && (k < at || at + 2 <= k)
    ensures Put(e, at, v, 2)[k] == e[k]
  {
  }

  lemma PutUnit(e: Entry, j: nat, value: Ucs2, k: nat)
    requires k <= j < LFN_ENTRY_LENGTH
    ensures Unit(Put(e, UnitOffset(j), value, 2), k) == if k == j then value else Unit(e, k)
    ensures Put(e, UnitOffset(j), value, 2)[LFN_ORDINAL] == e[LFN_ORDINAL]
  {
    hide Get, Put;
    PutAround(e, UnitOffset(j), value, LFN_ORDINAL);
    GetPut(e, UnitOffset(j), value, 2, UnitOffset(k), 2);
    if k < j {
      UnitsApart(k, j);
    }
  }

  /** Flag, checksum and reserved fields leave the units alone. */
  function WithHeader(e: Entry, chk: byte): Entry {
    Put(e[LFN_CHECKSUM := chk][ATTRIBUTES := ATTRIB_LFN][LFN_RESERVED1 := 0], LFN_RESERVED2, 0, 2)
  }

  lemma HeaderFields(e: Entry, chk: byte)
    ensures var h := WithHeader(e, chk);
            h[LFN_ORDINAL] == e[LFN_ORDINAL] && h[ATTRIBUTES] == ATTRIB_LFN && h[LFN_RESERVED1] == 0
                && h[LFN_CHECKSUM] == chk
            && Get(h, LFN_RESERVED2, 2) == 0
  {
    GetPut(e[LFN_CHECKSUM := chk][ATTRIBUTES := ATTRIB_LFN][LFN_RESERVED1 := 0], LFN_RESERVED2, 0, 2, LFN_RESERVED2, 2);
  }

  lemma HeaderUnits(e: Entry, chk: byte, j: nat)
    requires j < LFN_ENTRY_LENGTH
    ensures Unit(WithHeader(e, chk), j) == Unit(e, j)
  {
    var h, at := WithHeader(e, chk), UnitOffset(j);
    assert h[at] == e[at] && h[at + 1] == e[at + 1];
    assert Sub(h, at, 2) == [e[at], e[at + 1]] == Sub(e, at, 2);
  }

  /** Builds one slot of a long name, as addEntry does; `lfn` is the name, followed by zeros. */
  method BuildSlot(lfn: seq<Ucs2>, ord: nat, last: bool, aliasCheckSum: byte, ghost name: seq<Ucs2>) returns (e: Entry)
    requires |lfn| == MAX_LFN_LENGTH && IsLongName(name) && 0 < ord <= SlotCount(name)
    requires forall k :: 0 <= k < MAX_LFN_LENGTH ==> lfn[k] == if k < |name| then name[k] else 0
    ensures IsLfnSlot(e, name, ord, last, aliasCheckSum)
  {
    hide Get, Put;
    var ordinal: byte := ord + if last then LFN_END else 0;
    e := Zeros(32)[LFN_ORDINAL := ordinal];
    var j := 0;
    while j < LFN_ENTRY_LENGTH
      invariant j <= LFN_ENTRY_LENGTH && e[LFN_ORDINAL] == ordinal
      invariant forall k :: 0 <= k < j ==> Unit(e, k) == Padded(name, (ord - 1) * 13 + k)
    {
      PaddingIsRight(lfn, name, ord, j);
      var p := (ord - 1) * 13 + j;
      var value: Ucs2 := lfn[p];
      if value == 0 && j > 1 && lfn[p - 1] == 0 {
        value := 0xFFFF;
      }
      forall k | 0 <= k <= j
        ensures Unit(Put(e, UnitOffset(j), value, 2), k) == if k == j then value else Unit(e, k)
      {
        PutUnit(e, j, value, k);
      }
      PutUnit(e, j, value, j);
      e := Put(e, UnitOffset(j), value, 2);
      j := j + 1;
    }
    HeaderFields(e, aliasCheckSum);
    forall k | 0 <= k < LFN_ENTRY_LENGTH
      ensures Unit(WithHeader(e, aliasCheckSum), k) == Padded(name, (ord - 1) * 13 + k)
    {
      HeaderUnits(e, aliasCheckSum, k);
    }
    e := WithHeader(e, aliasCheckSum);
  }

  /** What getNextEntry remembers of long-name slots while it scans. */
  datatype Scan = Scan(pending: bool, chk: byte, start: int, lfn: seq<Ucs2>)

  /** Copies the units of a slot into the buffer, as far as they fit. */
  function Stored(lfn: seq<Ucs2>, lfnPos: int, e: Entry, n: nat): (r: seq<Ucs2>)
    requires |lfn| == MAX_LFN_LENGTH && 0 <= lfnPos && n <= LFN_ENTRY_LENGTH
    ensures |r| == MAX_LFN_LENGTH
  {
    if n == 0 then lfn
    else
      var r := Stored(lfn, lfnPos, e, n - 1);
      if lfnPos + n - 1 < MAX_LFN_LENGTH - 1 then r[lfnPos + n - 1 := Unit(e, n - 1)] else r
  }

  lemma {:induction false} StoredAt(lfn: seq<Ucs2>, lfnPos: int, e: Entry, n: nat, x: nat)
    requires |lfn| == MAX_LFN_LENGTH && 0 <= lfnPos && n <= LFN_ENTRY_LENGTH && x < MAX_LFN_LENGTH
    ensures Stored(lfn, lfnPos, e, n)[x] == if lfnPos <= x < lfnPos + n
            && x < MAX_LFN_LENGTH - 1 then Unit(e, x - lfnPos) else lfn[x]
  {
    if n > 0 {
      StoredAt(lfn, lfnPos, e, n - 1, x);
    }
  }

  /** The number of a long-name slot, without the mark for the last one. */
  function OrdinalOf(e: Entry): nat {
    e[LFN_ORDINAL] as int % LFN_END
  }

  /** One long-name slot, the `i`-th of the directory. */
  function Feed(st: Scan, i: int, e: Entry): (st': Scan)
    requires |st.lfn| == MAX_LFN_LENGTH && (e[LFN_ORDINAL] < 0x80 ==> OrdinalOf(e) > 0)
    ensures |st'.lfn| == MAX_LFN_LENGTH
  {
    var o := e[LFN_ORDINAL] as int;
    var st1 :=
      if o >= LFN_DEL then st.(pending := false)
      else if o >= LFN_END then
        var lfnPos := Min(OrdinalOf(e) * 13, MAX_LFN_LENGTH - 1);
        st.(start := i, pending := true, lfn := st.lfn[lfnPos := 0], chk := e[LFN_CHECKSUM])
      else st;
    var st2 := if st1.chk != e[LFN_CHECKSUM] then st1.(pending := false) else st1;
    if st2.pending then st2.(lfn := Stored(st2.lfn, (OrdinalOf(e) - 1) * 13, e, LFN_ENTRY_LENGTH)) else st2
  }

  /** The buffer up to its first zero. */
  function UntilZero(lfn: seq<Ucs2>): (name: seq<Ucs2>)
    ensures name <= lfn && (forall i :: 0 <= i < |name| ==> name[i] != 0) && (|name| < |lfn| ==> lfn[|name|] == 0)
  {
    if lfn == [] || lfn[0] == 0 then [] else [lfn[0]] + UntilZero(lfn[1..])
  }

  lemma UntilZeroIs(lfn: seq<Ucs2>, name: seq<Ucs2>)
    requires |name| < |lfn| && lfn[..|name|] == name && lfn[|name|] == 0 && forall i :: 0 <= i < |name| ==> name[i] != 0
    ensures UntilZero(lfn) == name
  {
    var u := UntilZero(lfn);
    forall i | 0 <= i < |name|
      ensures lfn[i] == name[i]
    {
      assert lfn[i] == lfn[..|name|][i];
    }
    assert forall i :: 0 <= i < |u| ==> u[i] == lfn[i];
    assert lfn[..|u|] == u;
  }

  /** The state after `n` slots of a name have been fed in, from the `i`-th slot of the directory on. */
  ghost predicate Fed(st: Scan, name: seq<Ucs2>, chk: byte, i: int, n: nat)
    requires IsLongName(name)
  {
    var m := SlotCount(name);
    && n <= m && |st.lfn| == MAX_LFN_LENGTH
    && (n > 0 ==>
          st.pending && st.chk == chk && st.start == i
          && (forall p :: (m - n) * 13 <= p < m * 13 ==> st.lfn[p] == Padded(name, p))
          && st.lfn[m * 13] == 0)
  }

  /** One slot more. */
  lemma FeedMore(st: Scan, e: Entry, name: seq<Ucs2>, chk: byte, i: int, n: nat)
    requires IsLongName(name) && Fed(st, name, chk, i, n) && n < SlotCount(name)
    requires IsLfnSlot(e, name, SlotCount(name) - n, n == 0, chk)
    ensures OrdinalOf(e) == SlotCount(name) - n && e[LFN_ORDINAL] < 0x80
    ensures Fed(Feed(st, if n == 0 then i else i + n, e), name, chk, i, n + 1)
  {
    hide Get, Stored;
    var m := SlotCount(name);
    var ord := m - n;
    assert OrdinalOf(e) == ord;
    var lfn1 := if n == 0 then st.lfn[m * 13 := 0] else st.lfn;
    var st' := Feed(st, if n == 0 then i else i + n, e);
    assert st'.lfn == Stored(lfn1, (ord - 1) * 13, e, LFN_ENTRY_LENGTH);
    StoredAt(lfn1, (ord - 1) * 13, e, LFN_ENTRY_LENGTH, m * 13);
    forall p | (ord - 1) * 13 <= p < m * 13
      ensures st'.lfn[p] == Padded(name, p)
    {
      StoredAt(lfn1, (ord - 1) * 13, e, LFN_ENTRY_LENGTH, p);
      if p < ord * 13 {
        assert Unit(e, p - (ord - 1) * 13) == Padded(name, p);
      }
    }
  }

  /** After all slots the buffer holds the name. */
  lemma FedName(st: Scan, name: seq<Ucs2>, chk: byte, i: int)
    requires IsLongName(name) && Fed(st, name, chk, i, SlotCount(name))
    ensures UntilZero(st.lfn) == name
  {
    var m := SlotCount(name);
    assert |name| <= m * 13 <= 247;
    forall p | 0 <= p < |name|
      ensures st.lfn[p] == name[p]
    {
      assert st.lfn[p] == Padded(name, p);
    }
    assert st.lfn[..|name|] == name;
    if |name| < m * 13 {
      assert st.lfn[|name|] == Padded(name, |name|);
    }
    UntilZeroIs(st.lfn, name);
  }
}
