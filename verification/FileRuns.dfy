/** Whole runs of an open file. A handle that is not in append mode behaves as a sequence of bytes with a
    cursor, whatever the cache, the table and the form of its position do meanwhile. */
module FileRuns {
  import opened Bytes
  import opened Arith
  import opened Volume
  import opened FatCodec
  import opened Chains
  import opened Fat
  import opened FileData
  import opened Growth
  import opened DirEntry
  import opened FatFile
  import opened FileExtend
  import opened SectorCache
  import opened CacheModel

  /** What a client sees of the file: its bytes and the cursor. `settled` says that no write has moved the
      cursor since the last seek or read, `dirty` that something has been written. `low` is the smallest size
      since the position was put at the cursor, or zero if it is elsewhere. */
  datatype Machine = Machine(content: seq<byte>, cursor: nat, settled: bool, dirty: bool, low: nat)

  datatype Op = Seek(pos: int, dir: Whence) | Read(len: nat) | Write(data: seq<byte>) | Truncate(len: nat)

  datatype Seen = Returned(r: int) | Got(d: seq<byte>)

  /** The room on the volume, and the sizes of a sector and of a cluster. */
  datatype Limits = Limits(room: nat, bps: nat, bpc: nat)

  /** Where a seek goes. */
  function SeekTo(m: Machine, pos: int, dir: Whence): int {
    match dir
    case SEEK_SET => pos
    case SEEK_CUR => m.cursor + pos
    case SEEK_END => |m.content| + pos
    case Other => -1
  }

  /** The smallest size since the position was put at the cursor, which it is whenever that is not behind the
      end. */
  function Low(m: Machine): nat {
    if m.cursor <= |m.content| then |m.content| else m.low
  }

  function Step(m: Machine, op: Op): (Machine, Seen) {
    match op
    case Seek(pos, dir) =>
      var t := SeekTo(m, pos, dir);
      if 0 <= t <= FILE_MAX_SIZE then (m.(cursor := t, settled := true, low := 0), Returned(t)) else (m, Returned(-1))
    case Read(len) =>
      if m.cursor >= |m.content| || len == 0 then (m, Got([]))
      else
        var end := Min(m.cursor + len, |m.content|);
        (m.(cursor := end, settled := true), Got(m.content[m.cursor..end]))
    case Write(d) =>
      if d == [] then (m, Returned(0))
      else (Machine(Patched(m.content, m.cursor, d), m.cursor + |d|, false, true, 0), Returned(|d|))
    case Truncate(len) =>
      var settled := m.settled && (m.cursor < |m.content| || len <= |m.content|);
      (Machine(if len <= |m.content| then m.content[..len] else Patched(m.content, len, []), m.cursor, settled, true,
               Min(Low(m), len)),
       Returned(0))
  }

  /** A seek goes to the offset it names, from the start, from the cursor or from the end, and is refused if that
      is no offset of a file. */
  lemma SeekGoes(m: Machine, pos: int, dir: Whence, from: int)
    requires from == match dir case SEEK_SET => 0 case SEEK_CUR => m.cursor case SEEK_END => |m.content| case Other => 0
    ensures var (m', seen) := Step(m, Seek(pos, dir));
            && m'.content == m.content && m'.dirty == m.dirty
            && if !dir.Other? && 0 <= from + pos <= 0xFFFF_FFFF
               then m'.cursor == from + pos && seen == Returned(from + pos) && m'.settled
               else m' == m && seen == Returned(-1)
  {
  }

  /** A read gets the bytes from the cursor on, as many as there are, and moves the cursor over them. */
  lemma ReadGets(m: Machine, len: nat)
    ensures var (m', seen) := Step(m, Read(len));
            && seen.Got? && |seen.d| == Max(0, Min(len, |m.content| - m.cursor))
            && (forall i :: 0 <= i < |seen.d| ==> seen.d[i] == m.content[m.cursor + i])
            && m'.cursor == m.cursor + |seen.d| && m'.content == m.content && m'.dirty == m.dirty
  {
  }

  /** A write stores its bytes at the cursor and moves it behind them; a gap before them is zero, and every other
      byte stays. */
  lemma WriteStores(m: Machine, d: seq<byte>)
    ensures var (m', seen) := Step(m, Write(d));
            && seen == Returned(|d|) && m'.cursor == m.cursor + |d|
            && |m'.content| == (if d == [] then |m.content| else Max(|m.content|, m.cursor + |d|))
            && forall i :: 0 <= i < |m'.content| ==>
                 m'.content[i] == if m.cursor <= i < m.cursor + |d| then d[i - m.cursor]
                                  else if i < |m.content| then m.content[i] else 0
  {
    if d != [] {
      forall i | 0 <= i < |Patched(m.content, m.cursor, d)|
        ensures Patched(m.content, m.cursor, d)[i] == if m.cursor <= i < m.cursor + |d| then d[i - m.cursor]
                                                      else if i < |m.content| then m.content[i] else 0
      {
        PatchedAt(m.content, m.cursor, d, i);
      }
    }
  }

  /** A truncation sets the size, drops what is behind it or adds zeros, and leaves the cursor. */
  lemma TruncateSets(m: Machine, len: nat)
    ensures var (m', seen) := Step(m, Truncate(len));
            && seen == Returned(0) && m'.cursor == m.cursor && |m'.content| == len
            && forall i :: 0 <= i < len ==> m'.content[i] == if i < |m.content| then m.content[i] else 0
  {
    if len > |m.content| {
      forall i | 0 <= i < len
        ensures Patched(m.content, len, [])[i] == if i < |m.content| then m.content[i] else 0
      {
        PatchedAt(m.content, len, [], i);
      }
    }
  }

  /** The position is at a cursor behind the end: it was put there when the file was longer, and its cluster has
      not been cut off since. */
  predicate Anchored(m: Machine, bpc: nat)
    requires bpc > 0
  {
    0 < m.low && Mod(m.cursor, bpc) != 0 && Div(m.cursor, bpc) <= Div(m.low - 1, bpc)
  }

  /** What a client must heed. Offsets stay in the range of a file, and there is room. A read of less than
      a sector on a cluster boundary does not follow a write directly. A file is not cut exactly at the cursor
      on a cluster boundary, and not grown over a cursor behind its end that has lost its position. */
  predicate Allowed(op: Op, m: Machine, lim: Limits)
    requires lim.bpc > 0
  {
    match op
    case Seek(pos, dir) => -0x8000_0000_0000_0000 <= pos < 0x8000_0000_0000_0000
    case Read(len) =>
      m.cursor + len <= FILE_MAX_SIZE
      && (m.settled || m.cursor >= |m.content| || Min(len, |m.content| - m.cursor) >= lim.bps || len == 0
          || Mod(m.cursor, lim.bpc) != 0)
    case Write(d) =>
      m.cursor + |d| <= FILE_MAX_SIZE && |m.content| + |d| <= FILE_MAX_SIZE && (d == [] || m.cursor + |d| <= lim.room)
    case Truncate(len) =>
      len <= FILE_MAX_SIZE && (len <= |m.content| || len <= lim.room)
      && !(0 < len == m.cursor < |m.content| && Mod(len, lim.bpc) == 0)
      && (|m.content| < m.cursor <= len ==> Anchored(m, lim.bpc))
  }

  predicate AllAllowed(ops: seq<Op>, m: Machine, lim: Limits)
    requires lim.bpc > 0
  {
    ops == [] || (Allowed(ops[0], m, lim) && AllAllowed(ops[1..], Step(m, ops[0]).0, lim))
  }

  function Final(m: Machine, ops: seq<Op>): Machine
    decreases |ops|
  {
    if ops == [] then m else Final(Step(m, ops[0]).0, ops[1..])
  }

  function Observed(m: Machine, ops: seq<Op>): seq<Seen>
    decreases |ops|
  {
    if ops == [] then [] else [Step(m, ops[0]).1] + Observed(Step(m, ops[0]).0, ops[1..])
  }

  /** No write of the run stores a byte at offset `i`. */
  predicate Unwritten(ops: seq<Op>, m: Machine, i: nat)
    decreases |ops|
  {
    ops == [] || (!(ops[0].Write? && m.cursor <= i < m.cursor + |ops[0].data|)
                  && Unwritten(ops[1..], Step(m, ops[0]).0, i))
  }

  /** What was cut off does not come back: however a run goes on after a cut, a byte behind the cut is zero
      unless the run has written it. */
  lemma NothingComesBack(m: Machine, n: nat, ops: seq<Op>, i: nat)
    requires n <= |m.content| && n <= i
    requires Unwritten(ops, Step(m, Truncate(n)).0, i)
    ensures var m' := Final(m, [Truncate(n)] + ops); i < |m'.content| ==> m'.content[i] == 0
  {
    hide Patched, Step, Unwritten;
    StepCut(m, n);
    assert ([Truncate(n)] + ops)[1..] == ops;
    StaysBlank(Step(m, Truncate(n)).0, ops, i);
  }

  lemma {:induction false} StaysBlank(m: Machine, ops: seq<Op>, i: nat)
    requires i < |m.content| ==> m.content[i] == 0
    requires Unwritten(ops, m, i)
    ensures i < |Final(m, ops).content| ==> Final(m, ops).content[i] == 0
    decreases |ops|
  {
    hide Patched, Step;
    if ops != [] {
      StepBlank(m, ops[0], i);
      StaysBlank(Step(m, ops[0]).0, ops[1..], i);
    }
  }

  lemma StepBlank(m: Machine, op: Op, i: nat)
    requires i < |m.content| ==> m.content[i] == 0
    requires !(op.Write? && m.cursor <= i < m.cursor + |op.data|)
    ensures var m' := Step(m, op).0; i < |m'.content| ==> m'.content[i] == 0
  {
    hide Patched;
    match op {
      case Seek(pos, dir) =>
      case Read(len) =>
      case Write(d) => PatchedBlank(m.content, m.cursor, d, i);
      case Truncate(len) => PatchedBlank(m.content, len, [], i);
    }
  }

  lemma PatchedBlank(s: seq<byte>, p: nat, d: seq<byte>, i: nat)
    requires (i < |s| ==> s[i] == 0) && !(p <= i < p + |d|)
    ensures i < |Patched(s, p, d)| ==> Patched(s, p, d)[i] == 0
  {
  }

  lemma StepCut(m: Machine, n: nat)
    requires n <= |m.content|
    ensures Step(m, Truncate(n)).0.content == m.content[..n] && Step(m, Truncate(n)).0.cursor == m.cursor
  {
    hide Patched;
  }

  /** Growing right after a cut, by a truncation or by a write behind the end, shows zeros and keeps what is
      before the cut. */
  lemma CutThenGrow(m: Machine, n: nat, op: Op, i: nat)
    requires n <= |m.content| && n <= i
    requires match op case Truncate(len) => i < len case Write(d) => d != [] && i < m.cursor case _ => false
    ensures var m' := Final(m, [Truncate(n), op]);
            i < |m'.content| && m'.content[i] == 0 && m'.content[..n] == m.content[..n]
  {
    hide Patched, Step;
    StepCut(m, n);
    var m1 := Step(m, Truncate(n)).0;
    TwoSteps(m, Truncate(n), op);
    StepGrow(m1, op, i);
  }

  lemma TwoSteps(m: Machine, a: Op, b: Op)
    ensures Final(m, [a, b]) == Step(Step(m, a).0, b).0
  {
    hide Step;
    assert [a, b][1..] == [b] && [b][1..] == [];
    assert Final(Step(m, a).0, [b]) == Step(Step(m, a).0, b).0;
  }

  lemma StepGrow(m: Machine, op: Op, i: nat)
    requires |m.content| <= i
    requires match op case Truncate(len) => i < len case Write(d) => d != [] && i < m.cursor case _ => false
    ensures var m' := Step(m, op).0; i < |m'.content| && m'.content[i] == 0 && m'.content[..|m.content|] == m.content
  {
    hide Patched;
    match op {
      case Truncate(len) => PatchedGap(m.content, len, [], i);
      case Write(d) => PatchedGap(m.content, m.cursor, d, i);
    }
  }

  lemma PatchedGap(s: seq<byte>, p: nat, d: seq<byte>, i: nat)
    requires |s| <= i < p
    ensures i < |Patched(s, p, d)| && Patched(s, p, d)[i] == 0 && Patched(s, p, d)[..|s|] == s
  {
  }

  /** A file that can be read and written, not in append mode, on a volume with a sound hint. */
  ghost predicate Ready(f: File)
    reads f, f.partition, f.partition.cache, f.partition.cache.Repr
  {
    f.Valid() && f.inUse && f.read && f.write && !f.append && f.partition.firstFree <= f.partition.g.lastCluster
  }

  ghost predicate Shown(f: File, m: Machine)
    reads f, f.partition, f.partition.cache, f.partition.cache.Repr
    requires f.Stored()
  {
    m.content == f.Content() && m.cursor == f.currentPosition && (m.settled ==> f.Settled()) && (m.dirty ==> f.modified)
    && (f.filesize < f.currentPosition && f.partition.g.Bpc() > 0 && Anchored(m, f.partition.g.Bpc()) ==>
          Denotes(f.partition.g, f.chain, f.rwPosition, f.currentPosition))
  }

  ghost predicate LimitsOf(f: File, lim: Limits)
    reads f, f.partition, f.partition.cache, f.partition.cache.Repr
    requires f.Stored()
  {
    lim.room == f.Capacity() && lim.bps == f.partition.g.bps && lim.bpc == f.partition.g.Bpc() && lim.bpc > 0
  }

  method DoSeek(f: File, pos: int, dir: Whence, ghost m: Machine, ghost lim: Limits) returns (r: int)
    requires Ready(f) && Shown(f, m) && LimitsOf(f, lim) && Allowed(Seek(pos, dir), m, lim)
    modifies f`currentPosition, f`rwPosition, f.partition.cache.Repr
    ensures Ready(f) && Shown(f, Step(m, Seek(pos, dir)).0) && LimitsOf(f, lim)
            && Returned(r) == Step(m, Seek(pos, dir)).1
    ensures f.partition.cache.view == old(f.partition.cache.view) && f.chain == old(f.chain)
  {
    hide Cache.Valid, Mul, Table, FileBytes, Closed, IsChain, FreeCount, Denotes;
    var errno;
    r, errno := f.Seek(pos, dir);
  }

  method DoRead(f: File, len: nat, ghost m: Machine, ghost lim: Limits) returns (d: seq<byte>)
    requires Ready(f) && Shown(f, m) && LimitsOf(f, lim) && Allowed(Read(len), m, lim)
    modifies f`currentPosition, f`rwPosition, f.partition.cache.Repr
    ensures Ready(f) && Shown(f, Step(m, Read(len)).0) && LimitsOf(f, lim) && Got(d) == Step(m, Read(len)).1
    ensures f.partition.cache.view == old(f.partition.cache.view) && f.chain == old(f.chain)
  {
    hide Cache.Valid, Mul, Mod, Table, FileBytes, Closed, IsChain, FreeCount, Denotes;
    assert f.rwPosition.sector == f.partition.g.spc && f.currentPosition < f.filesize ==> !f.Settled();
    if f.currentPosition < f.filesize {
      f.SettledInside();
    }
    var r, errno;
    r, d, errno := f.Read(len);
  }

  lemma SameRoom(g: Geometry, v0: seq<byte>, ch0: seq<nat>, v1: seq<byte>, ch1: seq<nat>)
    requires Grown(g, v0, ch0, v1, ch1)
    ensures Mul(|ch1| + FreeCount(Table(g, v1)), g.Bpc()) == Mul(|ch0| + FreeCount(Table(g, v0)), g.Bpc())
  {
    hide Mul, FreeCount, Table, Untouched, FixedKept, WellFormed;
  }

  method DoWrite(f: File, d: seq<byte>, ghost m: Machine, ghost lim: Limits) returns (r: int)
    requires Ready(f) && Shown(f, m) && LimitsOf(f, lim) && Allowed(Write(d), m, lim)
    modifies f, f.partition, f.partition.cache.Repr
    ensures Ready(f) && Shown(f, Step(m, Write(d)).0) && LimitsOf(f, lim) && Returned(r) == Step(m, Write(d)).1
    ensures Spared(f.partition.g, old(f.partition.cache.view), old(f.chain), f.partition.cache.view, f.chain)
  {
    hide Cache.Valid, Mul, Table, FileBytes, Closed, IsChain, FreeCount, Denotes, Patched, Spared, Grown;
    var errno;
    r, errno := f.Write(d);
    assert d[..|d|] == d;
    GrownSpares(f.partition.g, old(f.partition.cache.view), old(f.chain), f.partition.cache.view, f.chain);
    SameRoom(f.partition.g, old(f.partition.cache.view), old(f.chain), f.partition.cache.view, f.chain);
  }

  /** What becomes of an anchored cursor when the size is set. */
  lemma Anchors(g: Geometry, m: Machine, len: nat, ch0: seq<nat>, pos0: FilePosition, ch1: seq<nat>,
        pos1: FilePosition)
    requires g.Ok() && g.Bpc() > 0 && (m.content == [] <==> ch0 == []) && (ch0 != [] ==> pos1 == pos0)
    requires m.content != [] && m.cursor <= |m.content| ==> Denotes(g, ch0, pos0, m.cursor)
    requires |m.content| < m.cursor && Anchored(m, g.Bpc()) ==> Denotes(g, ch0, pos0, m.cursor)
    requires if len < |m.content| then ch1 <= ch0 && (0 < len ==> JustLongEnough(g, len, |ch1|)) else ch0 <= ch1
    ensures var m' := Step(m, Truncate(len)).0;
            |m'.content| < m.cursor && Anchored(m', g.Bpc()) ==> Denotes(g, ch1, pos1, m.cursor)
  {
    hide Mul, Div, Mod, Patched, Denotes;
    var m' := Step(m, Truncate(len)).0;
    NowhereInNone(g, ch0, pos0, m.cursor);
    if |m'.content| < m.cursor && Anchored(m', g.Bpc()) {
      DivMono(m'.low - 1, Low(m) - 1, g.Bpc());
      if len < |m.content| {
        DivMono(m'.low - 1, len - 1, g.Bpc());
        CutKeeps(g, ch0, ch1, pos0, m.cursor, len);
      } else {
        SameCursor(g, ch0, ch1, pos0, m.cursor);
      }
    }
  }

  lemma NowhereInNone(g: Geometry, ch: seq<nat>, pos: FilePosition, p: nat)
    ensures ch == [] ==> !Denotes(g, ch, pos, p)
  {
  }

  lemma ChainKept(g: Geometry, v0: seq<byte>, ch0: seq<nat>, v1: seq<byte>, ch1: seq<nat>)
    requires Grown(g, v0, ch0, v1, ch1)
    ensures ch0 <= ch1
  {
  }

  lemma CutKeeps(g: Geometry, ch0: seq<nat>, ch1: seq<nat>, pos: FilePosition, p: nat, len: nat)
    requires g.Ok() && g.Bpc() > 0 && 0 < len && ch1 <= ch0 && JustLongEnough(g, len, |ch1|)
    requires Denotes(g, ch0, pos, p) && Mod(p, g.Bpc()) != 0 && Div(p, g.Bpc()) <= Div(len - 1, g.Bpc())
    ensures Denotes(g, ch1, pos, p)
  {
    hide Mul, Div, Mod;
    var k: nat :| At(g, ch0, pos, k, p);
    BoundaryOffset(g, ch0, pos, k, p);
    PositionParts(g, ch0, pos, k, p);
    ClustersWanted(g, len, |ch1|);
    assert At(g, ch1, pos, k, p);
  }

  method DoTruncate(f: File, len: nat, ghost m: Machine, ghost lim: Limits) returns (r: int)
    requires Ready(f) && Shown(f, m) && LimitsOf(f, lim) && Allowed(Truncate(len), m, lim)
    modifies f, f.partition, f.partition.cache.Repr
    ensures Ready(f) && Shown(f, Step(m, Truncate(len)).0) && LimitsOf(f, lim)
            && Returned(r) == Step(m, Truncate(len)).1
    ensures Spared(f.partition.g, old(f.partition.cache.view), old(f.chain), f.partition.cache.view, f.chain)
  {
    hide Cache.Valid, Mul, Mod, Table, FileBytes, Closed, IsChain, FreeCount, Denotes, Patched, Spared, Grown, Confined,
        Div, Anchored, ChainAfter, BlankFrom, Released;
    var errno;
    NowhereInNone(f.partition.g, f.chain, f.rwPosition, f.currentPosition);
    r, errno := f.Truncate(len);
    if len < old(f.filesize) {
      ConfinedSpares(f.partition.g, old(f.partition.cache.view), old(f.chain), f.partition.cache.view, f.chain);
    } else {
      GrownSpares(f.partition.g, old(f.partition.cache.view), old(f.chain), f.partition.cache.view, f.chain);
      ChainKept(f.partition.g, old(f.partition.cache.view), old(f.chain), f.partition.cache.view, f.chain);
    }
    Anchors(f.partition.g, m, len, old(f.chain), old(f.rwPosition), f.chain, f.rwPosition);
  }

  method Do(f: File, op: Op, ghost m: Machine, ghost lim: Limits) returns (seen: Seen)
    requires Ready(f) && Shown(f, m) && LimitsOf(f, lim) && Allowed(op, m, lim)
    modifies f, f.partition, f.partition.cache.Repr
    ensures Ready(f) && Shown(f, Step(m, op).0) && LimitsOf(f, lim) && seen == Step(m, op).1
    ensures Spared(f.partition.g, old(f.partition.cache.view), old(f.chain), f.partition.cache.view, f.chain)
  {
    hide Cache.Valid, Mul, Mod, Table, FileBytes, Closed, IsChain, FreeCount, Denotes, Patched, Grown, Confined, Step,
        Allowed;
    match op {
      case Seek(pos, dir) =>
        var r := DoSeek(f, pos, dir, m, lim);
        seen := Returned(r);
        SparedNot(f.partition.g, old(f.partition.cache.view), f.chain);
      case Read(len) =>
        var d := DoRead(f, len, m, lim);
        seen := Got(d);
        SparedNot(f.partition.g, old(f.partition.cache.view), f.chain);
      case Write(d) =>
        var r := DoWrite(f, d, m, lim);
        seen := Returned(r);
      case Truncate(len) =>
        var r := DoTruncate(f, len, m, lim);
        seen := Returned(r);
    }
  }

  /** Every run of seeks, reads, writes and truncations returns what the byte sequence with a cursor
      returns, ends with its bytes and cursor, and leaves every other file alone. */
  method Run(f: File, ops: seq<Op>, ghost m0: Machine, ghost lim: Limits) returns (seen: seq<Seen>)
    requires Ready(f) && Shown(f, m0) && LimitsOf(f, lim) && AllAllowed(ops, m0, lim)
    modifies f, f.partition, f.partition.cache.Repr
    ensures Ready(f) && Shown(f, Final(m0, ops)) && LimitsOf(f, lim) && seen == Observed(m0, ops)
    ensures Spared(f.partition.g, old(f.partition.cache.view), old(f.chain), f.partition.cache.view, f.chain)
  {
    hide Cache.Valid, Mul, Mod, Table, FileBytes, Closed, IsChain, FreeCount, Denotes, Patched, Spared, Allowed, Step;
    ghost var m, v0, ch0 := m0, f.partition.cache.view, f.chain;
    seen := [];
    SparedNot(f.partition.g, v0, ch0);
    var i := 0;
    while i < |ops|
      invariant i <= |ops|
      invariant Ready(f) && Shown(f, m) && LimitsOf(f, lim) && AllAllowed(ops[i..], m, lim)
      invariant seen + Observed(m, ops[i..]) == Observed(m0, ops) && Final(m, ops[i..]) == Final(m0, ops)
      invariant Spared(f.partition.g, v0, ch0, f.partition.cache.view, f.chain)
    {
      assert ops[i..][0] == ops[i] && ops[i..][1..] == ops[i + 1..];
      ghost var v1, ch1 := f.partition.cache.view, f.chain;
      var one := Do(f, ops[i], m, lim);
      SparedMore(f.partition.g, v0, ch0, v1, ch1, f.partition.cache.view, f.chain);
      m := Step(m, ops[i]).0;
      seen := seen + [one];
      i := i + 1;
    }
  }

  /** The same on a handle: cut, go on as you like, and read the content. */
  method CutAndRun(f: File, n: nat, ops: seq<Op>, ghost m0: Machine, ghost lim: Limits) returns (seen: seq<Seen>)
    requires Ready(f) && Shown(f, m0) && LimitsOf(f, lim) && AllAllowed([Truncate(n)] + ops, m0, lim)
    requires n <= f.filesize
    modifies f, f.partition, f.partition.cache.Repr
    ensures Ready(f) && seen == Observed(m0, [Truncate(n)] + ops)
    ensures forall i: nat :: n <= i < f.filesize && Unwritten(ops, Step(m0, Truncate(n)).0, i) ==> f.Content()[i] == 0
  {
    hide Cache.Valid, Mul, Mod, Table, FileBytes, Closed, IsChain, FreeCount, Denotes, Patched, Spared, Allowed, Step,
        Unwritten, Final, Observed, AllAllowed;
    seen := Run(f, [Truncate(n)] + ops, m0, lim);
    forall i: nat | n <= i < f.filesize && Unwritten(ops, Step(m0, Truncate(n)).0, i)
      ensures f.Content()[i] == 0
    {
      NothingComesBack(m0, n, ops, i);
    }
  }

  /** The directory the file's entry is in: the fixed root directory, or a chain that is not the file's. */
  ghost predicate InDirectory(f: File, dir: seq<nat>)
    reads f, f.partition, f.partition.cache, f.partition.cache.Repr
    requires f.Stored()
  {
    OnVolume(f.partition.g, f.dirEntryEnd)
    && (f.dirEntryEnd.cluster == CLUSTER_ROOT
        || (IsChain(f.partition.T(), dir) && Disjoint(f.chain, dir) && f.dirEntryEnd.cluster in dir))
  }

  lemma EntryStaysApart(f: File, v0: seq<byte>, ch0: seq<nat>, dir: seq<nat>)
    requires f.Stored() && OnVolume(f.partition.g, f.dirEntryEnd)
    requires Spared(f.partition.g, v0, ch0, f.partition.cache.view, f.chain)
    requires f.dirEntryEnd.cluster == CLUSTER_ROOT
             || (IsChain(Table(f.partition.g, v0), dir) && Disjoint(ch0, dir) && f.dirEntryEnd.cluster in dir)
    ensures InDirectory(f, dir) && f.EntryApart()
  {
    hide Table, FileBytes, Mul;
    ChainClusters(f.partition.g, f.partition.cache.view, f.chain);
  }

  ghost function EntryOf(f: File): Entry
    requires f.partition.Valid() && OnVolume(f.partition.g, f.dirEntryEnd)
    reads f, f.partition, f.partition.cache, f.partition.cache.Repr
  {
    SlotOnVolume(f.partition.g, f.dirEntryEnd);
    Sub(f.partition.cache.view, EntryAddress(f.partition.g, f.dirEntryEnd), 32)
  }

  /** What spares the directory keeps the bytes of every slot in it. */
  lemma EntryKept(g: Geometry, v0: seq<byte>, ch0: seq<nat>, v1: seq<byte>, ch1: seq<nat>, pos: EntryPosition,
        dir: seq<nat>)
    requires Spared(g, v0, ch0, v1, ch1) && OnVolume(g, pos)
    requires pos.cluster == CLUSTER_ROOT || (IsChain(Table(g, v0), dir) && Disjoint(ch0, dir) && pos.cluster in dir)
    ensures EntryAddress(g, pos) + 32 <= |v0| == |v1|
    ensures Sub(v1, EntryAddress(g, pos), 32) == Sub(v0, EntryAddress(g, pos), 32)
  {
    hide Table, FileBytes, Mul, IsChain, Disjoint;
    SlotOnVolume(g, pos);
    if pos.cluster == CLUSTER_ROOT {
      RootSlotKept(g, v0, v1, EntryAddress(g, pos));
    } else {
      var k :| 0 <= k < |dir| && dir[k] == pos.cluster;
      var r := Mul(pos.sector, g.bps) + pos.offset * 32;
      ReadInCluster(g, v0, dir, k, r, 32);
      ReadInCluster(g, v1, dir, k, r, 32);
    }
  }

  lemma RootSlotKept(g: Geometry, v0: seq<byte>, v1: seq<byte>, at: nat)
    requires IsVolume(g, v0) && IsVolume(g, v1) && RootArea(g, v1) == RootArea(g, v0) && TableEnd(g) <= at
             && at + 32 <= DataLo(g)
    ensures DataLo(g) <= |v0| == |v1| && Sub(v1, at, 32) == Sub(v0, at, 32)
  {
    hide Mul;
    RootOnVolume(g);
    SubOfMiddle(v0, TableEnd(g), DataLo(g), at, 32);
    SubOfMiddle(v1, TableEnd(g), DataLo(g), at, 32);
  }

  lemma SyncedIsThere(f: File, time: nat, date: nat)
    requires f.partition.Valid() && OnVolume(f.partition.g, f.dirEntryEnd)
    ensures EntryAddress(f.partition.g, f.dirEntryEnd) + 32 <= |f.partition.cache.view|
    ensures Sub(f.EntrySynced(f.partition.cache.view, time, date), EntryAddress(f.partition.g, f.dirEntryEnd), 32)
         == Synced(EntryOf(f), f.filesize, f.startCluster, time, date)
  {
    hide Synced, Splice, Sub, Mul;
    SlotOnVolume(f.partition.g, f.dirEntryEnd);
    SubOfSplice(f.partition.cache.view, EntryAddress(f.partition.g, f.dirEntryEnd),
        Synced(EntryOf(f), f.filesize, f.startCluster, time, date));
  }

  lemma SparedFront(g: Geometry, v0: seq<byte>, ch0: seq<nat>, v1: seq<byte>, ch1: seq<nat>)
    requires Spared(g, v0, ch0, v1, ch1)
    ensures Mul(g.fatStart, g.bps) <= |v0| == |v1| && FrontArea(g, v1) == FrontArea(g, v0)
  {
    hide Mul;
    FrontOnVolume(g);
  }

  /** The updated entry lies behind the tables. */
  lemma FrontAfterSync(f: File, v: seq<byte>, time: nat, date: nat)
    requires IsVolume(f.partition.g, v) && OnVolume(f.partition.g, f.dirEntryEnd)
    ensures Mul(f.partition.g.fatStart, f.partition.g.bps) <= |v|
            && EntryAddress(f.partition.g, f.dirEntryEnd) + 32 <= |v|
    ensures FrontArea(f.partition.g, f.EntrySynced(v, time, date)) == FrontArea(f.partition.g, v)
  {
    hide Mul, Synced;
    FrontOnVolume(f.partition.g);
    SlotOnVolume(f.partition.g, f.dirEntryEnd);
  }

  /** Durability over a whole run: after the run and a close, the disc alone shows the file with the bytes of
      the abstract run. */
  method RunAndClose(f: File, ops: seq<Op>, time: nat, date: nat, ghost dir: seq<nat>, ghost m0: Machine,
        ghost lim: Limits)
    returns (seen: seq<Seen>)
    requires Ready(f) && Shown(f, m0) && LimitsOf(f, lim) && AllAllowed(ops, m0, lim) && InDirectory(f, dir)
    requires Final(m0, ops).dirty
    modifies f, f.partition, f.partition.cache.Repr
    ensures seen == Observed(m0, ops) && f.Stored() && f.Content() == Final(m0, ops).content && !f.inUse
    ensures |f.partition.cache.part| <= |f.partition.cache.disc.bytes|
            && f.partition.cache.Image() == f.partition.cache.view
    ensures Mul(f.partition.g.fatStart, f.partition.g.bps) <= |old(f.partition.cache.view)|
    ensures FrontArea(f.partition.g, f.partition.cache.Image()) == FrontArea(f.partition.g,
            old(f.partition.cache.view))
    ensures EntryOf(f) == Synced(old(EntryOf(f)), f.filesize, f.startCluster, time, date)
    ensures Shows(f.partition.g, f.partition.cache.Image(), f.dirEntryEnd, f.filesize, f.chain,
            Final(m0, ops).content)
  {
    hide Cache.Valid, Mul, Mod, Table, FileBytes, Closed, IsChain, FreeCount, Denotes, Patched, Spared, Allowed, Step,
        Shows;
    ghost var v0, ch0 := f.partition.cache.view, f.chain;
    seen := Run(f, ops, m0, lim);
    EntryStaysApart(f, v0, ch0, dir);
    EntryKept(f.partition.g, v0, ch0, f.partition.cache.view, f.chain, f.dirEntryEnd, dir);
    SyncedIsThere(f, time, date);
    SparedFront(f.partition.g, v0, ch0, f.partition.cache.view, f.chain);
    ghost var v := f.partition.cache.view;
    FrontAfterSync(f, v, time, date);
    var ret, errno := f.Close(time, date);
  }

  /** Mounts the disc afresh, from its own boot sector, and opens the file of the entry at `pos`: what is read
      then is what the disc shows, with nothing left of the cache it was written through. The disc may go on
      behind the partition. */
  method Remount(disc: Disc, startSector: nat, cacheSize: nat, pos: EntryPosition,
                 ghost g: Geometry, ghost size: nat, ghost ch: seq<nat>, ghost content: seq<byte>) returns (file: File)
    requires disc.reliable && disc.bps == g.bps && Mul(g.end, g.bps) <= |disc.bytes|
    requires Describes(disc.bytes, startSector, g)
    requires Shows(g, disc.bytes[..Mul(g.end, g.bps)], pos, size, ch, content)
             && Closed(Table(g, disc.bytes[..Mul(g.end, g.bps)]))
    requires if size == 0 then ch == [] else JustLongEnough(g, size, |ch|)
    requires !IsDirectory(Sub(disc.bytes[..Mul(g.end, g.bps)], EntryAddress(g, pos), 32))
    modifies disc
    ensures fresh(file) && file.partition.g == g && file.Valid()
    ensures file.filesize == size && file.chain == ch && file.Content() == content
  {
    hide Cache.Valid, Mul, Table, FileBytes, Closed, IsChain, Sub, SizeOf, StartOf, IsDirectory,
        BootSector.Consistent, Mountable, BootOf;
    DescribedSize(disc.bytes, startSector, g);
    var pt := Mount(disc, startSector, cacheSize, 8);
    SlotOnVolume(pt.g, pos);
    var sector := pt.g.ClusterToSector(pos.cluster) + pos.sector;
    var ok, e := pt.cache.ReadPartialSector(sector, pos.offset * DIR_ENTRY_DATA_SIZE, DIR_ENTRY_DATA_SIZE);
    var f, errno := File.Open(pt, ReadOnly, false, false, e, pos, false, ch);
    file := f;
  }

  lemma DescribedSize(image: seq<byte>, start: nat, g: Geometry)
    requires Describes(image, start, g)
    ensures var boot := BootOf(FirstSector(image, start, g.bps));
            g.bps == boot.bytesPerSector && g.end == start + boot.TotalSectors()
  {
    hide Mul, Div;
  }

  /** The whole way: run, close, mount the disc afresh, open. The file opened then has the bytes of the
      abstract run, read from the disc alone: boot sector, table, entry and clusters. */
  method RunCloseAndRemount(f: File, ops: seq<Op>, time: nat, date: nat, startSector: nat, cacheSize: nat,
                            ghost dir: seq<nat>, ghost m0: Machine, ghost lim: Limits)
    returns (seen: seq<Seen>, again: File)
    requires Ready(f) && Shown(f, m0) && LimitsOf(f, lim) && AllAllowed(ops, m0, lim) && InDirectory(f, dir)
    requires Final(m0, ops).dirty && !IsDirectory(EntryOf(f))
    requires Describes(f.partition.cache.view, startSector, f.partition.g)
    modifies f, f.partition, f.partition.cache.Repr
    ensures seen == Observed(m0, ops)
    ensures fresh(again) && again.Valid() && again.Content() == Final(m0, ops).content
  {
    hide Mul, Mod, Table, FileBytes, Closed, IsChain, FreeCount, Denotes, Patched, Spared, Allowed, Step, Shows, Inv,
         BootSector.Consistent, BootSector.Layout, IsDirectory, Synced, Mountable, BootOf, Describes;
    seen := RunAndClose(f, ops, time, date, dir, m0, lim);
    var start := f.startCluster;
    StartInTable(f.partition.g, f.partition.cache.view, start, f.chain);
    SyncedFields(f.partition.g, old(EntryOf(f)), f.filesize, start, time, date);
    FrontOnVolume(f.partition.g);
    DescribesFrame(old(f.partition.cache.view), f.partition.cache.Image(), startSector, f.partition.g);
    f.partition.cache.ImageIsPart();
    DescribesMore(f.partition.cache.Image(), f.partition.cache.disc.bytes, startSector, f.partition.g);
    again := Remount(f.partition.cache.disc, startSector, cacheSize, f.dirEntryEnd, f.partition.g, f.filesize,
        f.chain, Final(m0, ops).content);
  }
}
