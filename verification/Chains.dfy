/** Cluster chains in an allocation table, a value `t` with `t[c]` the cluster linked from `c`. */
module Chains {
  import opened Volume

  predicate InTable(t: seq<nat>, c: nat) {
    CLUSTER_FIRST <= c < |t|
  }

  /** Clusters linked one to the next, the last one to EOF. */
  predicate IsChain(t: seq<nat>, ch: seq<nat>) {
    && |ch| > 0
    && (forall i :: 0 <= i < |ch| ==> InTable(t, ch[i]))
    && (forall i :: 0 <= i < |ch| - 1 ==> t[ch[i]] == ch[i + 1])
    && t[ch[|ch| - 1]] == CLUSTER_EOF
  }

  /** The chain of a file: empty, or starting at the start cluster. */
  predicate ChainFrom(t: seq<nat>, start: nat, ch: seq<nat>) {
    if start == CLUSTER_FREE then ch == [] else IsChain(t, ch) && ch[0] == start
  }

  ghost predicate Disjoint(a: seq<nat>, b: seq<nat>) {
    forall i, j :: 0 <= i < |a| && 0 <= j < |b| ==> a[i] != b[j]
  }

  predicate TableOk(t: seq<nat>) {
    CLUSTER_FIRST < |t| <= CLUSTER_EOF
  }

  /** Every entry is FREE, EOF or a cluster of the table. */
  ghost predicate Closed(t: seq<nat>) {
    forall c: nat :: InTable(t, c) ==> t[c] == CLUSTER_FREE || t[c] == CLUSTER_EOF || InTable(t, t[c])
  }

  /** The link out of the `i`-th cluster. */
  lemma LinkOut(t: seq<nat>, ch: seq<nat>, i: nat)
    requires TableOk(t) && IsChain(t, ch) && i < |ch|
    ensures InTable(t, ch[i]) && t[ch[i]] != CLUSTER_FREE
    ensures t[ch[i]] == if i + 1 < |ch| then ch[i + 1] else CLUSTER_EOF
    ensures t[ch[i]] == CLUSTER_EOF <==> i + 1 == |ch|
  {
    if i + 1 < |ch| {
      assert InTable(t, ch[i + 1]);
    }
  }

  /** A chain does not come back to a cluster. */
  lemma {:induction false} NoReturn(t: seq<nat>, ch: seq<nat>, i: nat, j: nat)
    requires TableOk(t) && IsChain(t, ch) && i < j < |ch|
    ensures ch[i] != ch[j]
    decreases |ch| - j
  {
    LinkOut(t, ch, i);
    LinkOut(t, ch, j);
    if ch[i] == ch[j] {
      if j + 1 < |ch| {
        NoReturn(t, ch, i + 1, j + 1);
      }
    }
  }

  /** The entry of a cluster decides the rest: chains from the same cluster are the same. */
  lemma {:induction false} SameStartSameChain(t: seq<nat>, a: seq<nat>, b: seq<nat>)
    requires TableOk(t) && IsChain(t, a) && IsChain(t, b) && a[0] == b[0]
    ensures a == b
    decreases |a|
  {
    LinkOut(t, a, 0);
    LinkOut(t, b, 0);
    if |a| > 1 {
      SuffixIsChain(t, a, 1);
      SuffixIsChain(t, b, 1);
      SameStartSameChain(t, a[1..], b[1..]);
      assert a == [a[0]] + a[1..] && b == [b[0]] + b[1..];
    }
  }

  lemma SuffixIsChain(t: seq<nat>, ch: seq<nat>, n: nat)
    requires IsChain(t, ch) && n < |ch|
    ensures IsChain(t, ch[n..])
  {
    var s := ch[n..];
    forall i | 0 <= i < |s|
      ensures InTable(t, s[i])
    {
      assert s[i] == ch[n + i];
    }
    forall i | 0 <= i < |s| - 1
      ensures t[s[i]] == s[i + 1]
    {
      assert s[i] == ch[n + i] && s[i + 1] == ch[n + i + 1];
    }
  }

  /** A chain whose entries are not written stays a chain. */
  lemma ChainFrame(t: seq<nat>, t': seq<nat>, ch: seq<nat>)
    requires IsChain(t, ch) && |t'| == |t|
    requires forall i :: 0 <= i < |ch| ==> t'[ch[i]] == t[ch[i]]
    ensures IsChain(t', ch)
  {
  }

  /** Linking a free cluster at the tail appends it. */
  lemma LinkAtTail(t: seq<nat>, ch: seq<nat>, n: nat)
    requires TableOk(t) && IsChain(t, ch) && InTable(t, n) && t[n] == CLUSTER_FREE
    ensures IsChain(t[ch[|ch| - 1] := n][n := CLUSTER_EOF], ch + [n])
    ensures n !in ch
  {
    var tail := ch[|ch| - 1];
    var t', ch' := t[tail := n][n := CLUSTER_EOF], ch + [n];
    forall i | 0 <= i < |ch|
      ensures ch[i] != n && t'[ch[i]] == ch'[i + 1]
    {
      if i < |ch| - 1 {
        NoReturn(t, ch, i, |ch| - 1);
        assert t[ch[i]] == ch[i + 1];
      }
    }
  }

  /** A new chain of one cluster. */
  lemma LinkAlone(t: seq<nat>, n: nat)
    requires InTable(t, n)
    ensures IsChain(t[n := CLUSTER_EOF], [n])
  {
  }

  /** `t` with the clusters of `cs` free. */
  function Freed(t: seq<nat>, cs: seq<nat>): (t': seq<nat>)
    ensures |t'| == |t|
  {
    seq(|t|, c requires 0 <= c < |t| => if c in cs then CLUSTER_FREE else t[c])
  }

  /** Dropping the tail of a chain: the first `n` clusters remain a chain. */
  lemma TrimmedIsChain(t: seq<nat>, ch: seq<nat>, n: nat)
    requires TableOk(t) && IsChain(t, ch) && 0 < n <= |ch|
    ensures IsChain(Freed(t, ch[n..])[ch[n - 1] := CLUSTER_EOF], ch[..n])
  {
    var t' := Freed(t, ch[n..])[ch[n - 1] := CLUSTER_EOF];
    forall i | 0 <= i < n - 1
      ensures t'[ch[i]] == ch[i + 1]
    {
      NoReturn(t, ch, i, n - 1);
      KeptIsNotDropped(t, ch, n, i);
    }
  }

  lemma KeptIsNotDropped(t: seq<nat>, ch: seq<nat>, n: nat, i: nat)
    requires TableOk(t) && IsChain(t, ch) && i < n <= |ch|
    ensures ch[i] !in ch[n..]
  {
    if ch[i] in ch[n..] {
      var j :| 0 <= j < |ch[n..]| && ch[n..][j] == ch[i];
      NoReturn(t, ch, i, n + j);
    }
  }

  /** The number of free clusters below `n`. */
  function FreeBelow(t: seq<nat>, n: nat): nat
    requires n <= |t|
  {
    if n <= CLUSTER_FIRST then 0
    else FreeBelow(t, n - 1) + if t[n - 1] == CLUSTER_FREE then 1 else 0
  }

  function FreeCount(t: seq<nat>): nat {
    FreeBelow(t, |t|)
  }

  lemma {:induction false} FreeBelowBound(t: seq<nat>, n: nat)
    requires n <= |t|
    ensures FreeBelow(t, n) <= if n <= CLUSTER_FIRST then 0 else n - CLUSTER_FIRST
  {
    if n > CLUSTER_FIRST {
      FreeBelowBound(t, n - 1);
    }
  }

  /** Writing one entry changes the count by what it does to that entry. */
  lemma {:induction false} FreeBelowUpdate(t: seq<nat>, n: nat, c: nat, v: nat)
    requires n <= |t| && InTable(t, c)
    ensures FreeBelow(t[c := v], n) + (if c < n && t[c] == CLUSTER_FREE then 1 else 0)
         == FreeBelow(t, n) + (if c < n && v == CLUSTER_FREE then 1 else 0)
  {
    if n > CLUSTER_FIRST {
      FreeBelowUpdate(t, n - 1, c, v);
    }
  }

  lemma FreeCountUpdate(t: seq<nat>, c: nat, v: nat)
    requires InTable(t, c)
    ensures FreeCount(t[c := v]) + (if t[c] == CLUSTER_FREE then 1 else 0)
         == FreeCount(t) + (if v == CLUSTER_FREE then 1 else 0)
  {
    FreeBelowUpdate(t, |t|, c, v);
  }

  /** No free cluster exactly when the count is zero. */
  lemma {:induction false} FreeBelowZero(t: seq<nat>, n: nat)
    requires n <= |t|
    ensures FreeBelow(t, n) == 0 <==> forall c :: CLUSTER_FIRST <= c < n ==> t[c] != CLUSTER_FREE
  {
    if n > CLUSTER_FIRST {
      FreeBelowZero(t, n - 1);
    }
  }

  /** A used cluster leaves room in the count. */
  lemma UsedLeavesRoom(t: seq<nat>, c: nat)
    requires InTable(t, c) && t[c] != CLUSTER_FREE
    ensures FreeCount(t) < |t| - CLUSTER_FIRST
  {
    FreeCountUpdate(t, c, CLUSTER_FREE);
    FreeBelowBound(t[c := CLUSTER_FREE], |t|);
  }

  /** What clearLinks makes of a table: walk the links and free each cluster, until the walk leaves the
      table or meets a cluster that is free already. It ends on every closed table, also on a cycle,
      because each step has one used cluster less before it. */
  ghost function ClearFrom(t: seq<nat>, c: nat): (t': seq<nat>)
    requires TableOk(t) && Closed(t)
    ensures |t'| == |t|
    decreases |t| - FreeCount(t)
  {
    if !InTable(t, c) || t[c] == CLUSTER_FREE then t
    else
      FreeStep(t, c);
      ClearFrom(t[c := CLUSTER_FREE], t[c])
  }

  lemma FreeStep(t: seq<nat>, c: nat)
    requires TableOk(t) && Closed(t) && InTable(t, c) && t[c] != CLUSTER_FREE
    ensures FreeCount(t[c := CLUSTER_FREE]) == FreeCount(t) + 1 <= |t| - CLUSTER_FIRST
    ensures Closed(t[c := CLUSTER_FREE])
  {
    FreeCountUpdate(t, c, CLUSTER_FREE);
    UsedLeavesRoom(t, c);
  }

  /** How often the walk goes round. */
  ghost function ClearSteps(t: seq<nat>, c: nat): nat
    requires TableOk(t) && Closed(t)
    decreases |t| - FreeCount(t)
  {
    if !InTable(t, c) then 0
    else if t[c] == CLUSTER_FREE then 1
    else
      FreeStep(t, c);
      1 + ClearSteps(t[c := CLUSTER_FREE], t[c])
  }

  /** The walk runs into a cluster that is free already, as it does on a cycle. */
  ghost predicate RunsIntoFree(t: seq<nat>, c: nat)
    requires TableOk(t) && Closed(t)
    decreases |t| - FreeCount(t)
  {
    if !InTable(t, c) then false
    else if t[c] == CLUSTER_FREE then true
    else
      FreeStep(t, c);
      RunsIntoFree(t[c := CLUSTER_FREE], t[c])
  }

  /** Clearing only ever frees. */
  lemma {:induction false} ClearOnlyFrees(t: seq<nat>, c: nat, e: nat)
    requires TableOk(t) && Closed(t) && e < |t|
    ensures ClearFrom(t, c)[e] == t[e] || ClearFrom(t, c)[e] == CLUSTER_FREE
    ensures Closed(ClearFrom(t, c))
    decreases |t| - FreeCount(t)
  {
    if InTable(t, c) && t[c] != CLUSTER_FREE {
      FreeStep(t, c);
      ClearOnlyFrees(t[c := CLUSTER_FREE], t[c], e);
    }
  }

  /** The count after clearing: one per round, except for a last round on a cluster that was free. */
  lemma {:induction false} ClearCount(t: seq<nat>, c: nat)
    requires TableOk(t) && Closed(t)
    ensures FreeCount(ClearFrom(t, c)) + (if RunsIntoFree(t, c) then 1 else 0) == FreeCount(t) + ClearSteps(t, c)
    decreases |t| - FreeCount(t)
  {
    if InTable(t, c) && t[c] != CLUSTER_FREE {
      FreeStep(t, c);
      ClearCount(t[c := CLUSTER_FREE], t[c]);
    }
  }

  /** On a chain, clearing frees exactly the chain, in as many rounds as it has clusters. */
  lemma {:induction false} ClearChain(t: seq<nat>, ch: seq<nat>)
    requires TableOk(t) && Closed(t) && IsChain(t, ch)
    ensures ClearFrom(t, ch[0]) == Freed(t, ch) && ClearSteps(t, ch[0]) == |ch| && !RunsIntoFree(t, ch[0])
    decreases |ch|
  {
    var t1 := t[ch[0] := CLUSTER_FREE];
    LinkOut(t, ch, 0);
    FreeStep(t, ch[0]);
    if |ch| == 1 {
      assert Freed(t, ch) == t1;
    } else {
      HeadFreed(t, ch);
      ClearChain(t1, ch[1..]);
    }
  }

  lemma HeadFreed(t: seq<nat>, ch: seq<nat>)
    requires TableOk(t) && IsChain(t, ch) && |ch| > 1
    ensures IsChain(t[ch[0] := CLUSTER_FREE], ch[1..])
    ensures Freed(t[ch[0] := CLUSTER_FREE], ch[1..]) == Freed(t, ch)
  {
    SuffixIsChain(t, ch, 1);
    var rest := ch[1..];
    forall i | 0 <= i < |rest|
      ensures rest[i] != ch[0]
    {
      NoReturn(t, ch, 0, i + 1);
    }
    assert ch == [ch[0]] + rest;
  }

  /** Freeing a chain adds its length to the count. */
  lemma FreedCount(t: seq<nat>, ch: seq<nat>)
    requires TableOk(t) && Closed(t) && IsChain(t, ch)
    ensures FreeCount(Freed(t, ch)) == FreeCount(t) + |ch|
  {
    ClearChain(t, ch);
    ClearCount(t, ch[0]);
  }

  /** `r` is free, and from the hint `h` on, going round at the end of the table, no earlier one is. */
  ghost predicate FirstFreeFrom(t: seq<nat>, h: nat, r: nat) {
    && InTable(t, r) && t[r] == CLUSTER_FREE
    && (forall d: nat ::
          (if h <= r then h <= d < r else h <= d < |t| || CLUSTER_FIRST <= d < r) ==> t[d] != CLUSTER_FREE)
  }

  ghost predicate NoneFree(t: seq<nat>) {
    forall d: nat :: InTable(t, d) ==> t[d] != CLUSTER_FREE
  }

  /** The table after a link: `r` ends a chain and, if `c` is a cluster, is linked from it. */
  function LinkedTable(t: seq<nat>, c: nat, r: nat): (t': seq<nat>)
    requires InTable(t, r)
    ensures |t'| == |t|
  {
    (if InTable(t, c) then t[c := r] else t)[r := CLUSTER_EOF]
  }

  /** A link takes one free cluster, unless the cluster linked from was free itself. */
  lemma LinkCount(t: seq<nat>, c: nat, r: nat)
    requires InTable(t, r) && t[r] == CLUSTER_FREE && (InTable(t, c) ==> t[c] != CLUSTER_FREE)
    ensures FreeCount(LinkedTable(t, c, r)) == FreeCount(t) - 1
  {
    if InTable(t, c) {
      FreeCountUpdate(t, c, r);
      FreeCountUpdate(t[c := r], r, CLUSTER_EOF);
    } else {
      FreeCountUpdate(t, r, CLUSTER_EOF);
    }
  }

  /** The first free cluster from `c` to the end of the table, or the number behind it. */
  function FreeFrom(t: seq<nat>, c: nat): (r: nat)
    requires c <= |t|
    ensures c <= r <= |t| && (r < |t| ==> t[r] == CLUSTER_FREE) && forall d :: c <= d < r ==> t[d] != CLUSTER_FREE
    decreases |t| - c
  {
    if c == |t| || t[c] == CLUSTER_FREE then c else FreeFrom(t, c + 1)
  }

  /** The free cluster a search from the hint `h` comes to. */
  function NextFree(t: seq<nat>, h: nat): nat
    requires TableOk(t) && h < |t|
  {
    var r := FreeFrom(t, h);
    if r < |t| then r else FreeFrom(t, CLUSTER_FIRST)
  }

  lemma NextFreeIs(t: seq<nat>, h: nat, r: nat)
    requires TableOk(t) && CLUSTER_FIRST <= h < |t| && FirstFreeFrom(t, h, r)
    ensures NextFree(t, h) == r
  {
    var n := FreeFrom(t, h);
    if h <= r {
      assert h <= n <= r;
    } else {
      var m := FreeFrom(t, CLUSTER_FIRST);
      assert n == |t| && m == r;
    }
  }

  /** `t` with the clusters of `cs` in use. */
  function Used(t: seq<nat>, cs: seq<nat>): (t': seq<nat>)
    ensures |t'| == |t|
  {
    seq(|t|, c requires 0 <= c < |t| => if c in cs then CLUSTER_EOF else t[c])
  }

  function LastOr(h: nat, cs: seq<nat>): nat {
    if cs == [] then h else cs[|cs| - 1]
  }

  /** The clusters that `n` searches find one after the other, each from where the one before has ended. */
  function Draw(t: seq<nat>, h: nat, n: nat): (cs: seq<nat>)
    requires TableOk(t) && h < |t|
    ensures |cs| == n
  {
    if n == 0 then []
    else
      var cs := Draw(t, h, n - 1);
      cs + [if LastOr(h, cs) < |t| then NextFree(Used(t, cs), LastOr(h, cs)) else |t|]
  }

  ghost predicate Drawn(t: seq<nat>, h: nat, cs: seq<nat>) {
    cs == [] || (Drawn(t, h, cs[..|cs| - 1])
                 && FirstFreeFrom(Used(t, cs[..|cs| - 1]), LastOr(h, cs[..|cs| - 1]), cs[|cs| - 1]))
  }

  lemma {:induction false} DrawnIsDraw(t: seq<nat>, h: nat, cs: seq<nat>)
    requires TableOk(t) && CLUSTER_FIRST <= h < |t| && Drawn(t, h, cs)
    ensures cs == Draw(t, h, |cs|)
  {
    if cs != [] {
      var init := cs[..|cs| - 1];
      DrawnIsDraw(t, h, init);
      assert init != [] ==> FirstFreeFrom(Used(t, init[..|init| - 1]), LastOr(h, init[..|init| - 1]), init[|init| - 1]);
      NextFreeIs(Used(t, init), LastOr(h, init), cs[|cs| - 1]);
      assert cs == init + [cs[|cs| - 1]];
    }
  }

  /** The same clusters are free. */
  ghost predicate SameFree(t: seq<nat>, t': seq<nat>) {
    |t'| == |t| && forall c: nat :: InTable(t, c) ==> (t'[c] == CLUSTER_FREE <==> t[c] == CLUSTER_FREE)
  }

  /** From table `t0` and hint `h0` to `t1` and `h1` a chain has grown from `ch0` to `ch1` by the clusters
      searches from the hint find, and no other cluster has been taken. */
  ghost predicate Allocated(t0: seq<nat>, h0: nat, ch0: seq<nat>, t1: seq<nat>, h1: nat, ch1: seq<nat>) {
    && ch0 <= ch1 && Drawn(t0, h0, ch1[|ch0|..])
    && h1 == LastOr(h0, ch1[|ch0|..]) && SameFree(t1, Used(t0, ch1[|ch0|..]))
  }

  lemma AllocatedNot(t: seq<nat>, h: nat, ch: seq<nat>)
    ensures Allocated(t, h, ch, t, h, ch)
  {
  }

  lemma AllocatedOne(t: seq<nat>, h: nat, ch: seq<nat>, c: nat, r: nat)
    requires TableOk(t) && FirstFreeFrom(t, h, r) && (InTable(t, c) ==> t[c] != CLUSTER_FREE)
    ensures Allocated(t, h, ch, LinkedTable(t, c, r), r, ch + [r])
  {
    assert (ch + [r])[|ch|..] == [r] && [r][..0] == [];
    assert Used(t, []) == t;
  }

  lemma FirstFreeSame(t: seq<nat>, t': seq<nat>, h: nat, r: nat)
    requires SameFree(t, t') && CLUSTER_FIRST <= h && FirstFreeFrom(t, h, r)
    ensures FirstFreeFrom(t', h, r)
  {
  }

  lemma DrawnHint(t: seq<nat>, h: nat, cs: seq<nat>)
    requires CLUSTER_FIRST <= h && Drawn(t, h, cs)
    ensures CLUSTER_FIRST <= LastOr(h, cs)
  {
  }

  lemma {:induction false} DrawnMore(t0: seq<nat>, h: nat, a: seq<nat>, t1: seq<nat>, b: seq<nat>)
    requires CLUSTER_FIRST <= h && Drawn(t0, h, a) && SameFree(t1, Used(t0, a)) && Drawn(t1, LastOr(h, a), b)
    ensures Drawn(t0, h, a + b) && SameFree(Used(t1, b), Used(t0, a + b))
    decreases |b|
  {
    if b == [] {
      assert a + b == a;
    } else {
      var init, r := b[..|b| - 1], b[|b| - 1];
      DrawnMore(t0, h, a, t1, init);
      assert (a + b)[..|a + b| - 1] == a + init && (a + b)[|a + b| - 1] == r;
      DrawnHint(t0, h, a);
      DrawnHint(t1, LastOr(h, a), init);
      assert LastOr(h, a + init) == LastOr(LastOr(h, a), init);
      FirstFreeSame(Used(t1, init), Used(t0, a + init), LastOr(h, a + init), r);
    }
  }

  lemma AllocatedMore(t0: seq<nat>, h0: nat, ch0: seq<nat>, t1: seq<nat>, h1: nat, ch1: seq<nat>, t2: seq<nat>, h2: nat,
        ch2: seq<nat>)
    requires CLUSTER_FIRST <= h0 && Allocated(t0, h0, ch0, t1, h1, ch1) && Allocated(t1, h1, ch1, t2, h2, ch2)
    ensures Allocated(t0, h0, ch0, t2, h2, ch2)
  {
    var a, b := ch1[|ch0|..], ch2[|ch1|..];
    DrawnMore(t0, h0, a, t1, b);
    assert ch2[|ch0|..] == a + b;
    assert SameFree(t2, Used(t1, b));
  }

  lemma LinkKeepsClosed(t: seq<nat>, c: nat, r: nat)
    requires TableOk(t) && Closed(t) && InTable(t, r)
    ensures Closed(LinkedTable(t, c, r))
  {
  }

  /** Counting up `k` times, but not beyond `cap`. */
  function CountUp(n: nat, k: nat, cap: nat): nat {
    if n >= cap then n else if n + k <= cap then n + k else cap
  }

  /** Links of the table from `c` to `e`. */
  ghost predicate IsPath(t: seq<nat>, path: seq<nat>, c: nat, e: nat) {
    && |path| > 0 && path[0] == c && path[|path| - 1] == e
    && (forall i :: 0 <= i < |path| ==> InTable(t, path[i]))
    && (forall i :: 0 <= i < |path| - 1 ==> t[path[i]] == path[i + 1])
  }

  /** The walk from `c` comes to `e`. */
  ghost predicate Reaches(t: seq<nat>, c: nat, e: nat) {
    exists path :: IsPath(t, path, c, e)
  }

  /** Clearing frees exactly the clusters the walk comes to, on cyclic tables too. */
  lemma ClearFreesReached(t: seq<nat>, c: nat, e: nat)
    requires TableOk(t) && Closed(t) && InTable(t, c) && InTable(t, e)
    ensures ClearFrom(t, c)[e] == CLUSTER_FREE <==> t[e] == CLUSTER_FREE || Reaches(t, c, e)
  {
    if ClearFrom(t, c)[e] == CLUSTER_FREE && t[e] != CLUSTER_FREE {
      ClearedIsReached(t, c, e);
    }
    if t[e] == CLUSTER_FREE {
      ClearOnlyFrees(t, c, e);
    } else if Reaches(t, c, e) {
      var path :| IsPath(t, path, c, e);
      ReachedIsCleared(t, path, c, e);
    }
  }

  lemma {:induction false} ClearedIsReached(t: seq<nat>, c: nat, e: nat)
    requires TableOk(t) && Closed(t) && InTable(t, c) && InTable(t, e)
    requires ClearFrom(t, c)[e] == CLUSTER_FREE && t[e] != CLUSTER_FREE
    ensures Reaches(t, c, e)
    decreases |t| - FreeCount(t)
  {
    if c == e {
      assert IsPath(t, [c], c, e);
    } else {
      FreeStep(t, c);
      ClearedIsReached(t[c := CLUSTER_FREE], t[c], e);
      var path :| IsPath(t[c := CLUSTER_FREE], path, t[c], e);
      assert IsPath(t, [c] + path, c, e);
    }
  }

  /** A path that comes back to its start is cut short there; any other goes on without it. */
  lemma {:induction false} ReachedIsCleared(t: seq<nat>, path: seq<nat>, c: nat, e: nat)
    requires TableOk(t) && Closed(t) && IsPath(t, path, c, e) && t[e] != CLUSTER_FREE
    ensures ClearFrom(t, c)[e] == CLUSTER_FREE
    decreases |t| - FreeCount(t), |path|
  {
    PathIsUsed(t, path, c, e);
    FreeStep(t, c);
    var t1 := t[c := CLUSTER_FREE];
    if c == e {
      ClearOnlyFrees(t1, t[c], c);
    } else if j: nat :| 0 < j < |path| && path[j] == c {
      ReachedIsCleared(t, path[j..], c, e);
    } else {
      assert path[1] == t[path[0]];
      assert IsPath(t1, path[1..], t[c], e);
      ReachedIsCleared(t1, path[1..], t[c], e);
    }
  }

  lemma PathIsUsed(t: seq<nat>, path: seq<nat>, c: nat, e: nat)
    requires IsPath(t, path, c, e) && t[e] != CLUSTER_FREE
    ensures InTable(t, c) && t[c] != CLUSTER_FREE && (c != e ==> |path| > 1 && InTable(t, t[c]))
  {
    if c != e {
      assert t[path[0]] == path[1];
    }
  }

  /** The walk ends without meeting a freed cluster exactly if it is that of a chain. */
  lemma EndsIffChain(t: seq<nat>, c: nat)
    requires TableOk(t) && Closed(t) && InTable(t, c)
    ensures !RunsIntoFree(t, c) <==> exists ch :: IsChain(t, ch) && ch[0] == c
  {
    if !RunsIntoFree(t, c) {
      var ch := WalkIsChain(t, c);
      assert IsChain(t, ch) && ch[0] == c;
    }
    forall ch | IsChain(t, ch) && ch[0] == c
      ensures !RunsIntoFree(t, c)
    {
      ClearChain(t, ch);
    }
  }

  lemma {:induction false} WalkIsChain(t: seq<nat>, c: nat) returns (ch: seq<nat>)
    requires TableOk(t) && Closed(t) && InTable(t, c) && !RunsIntoFree(t, c)
    ensures IsChain(t, ch) && ch[0] == c
    decreases |t| - FreeCount(t)
  {
    ch := [c];
    if t[c] != CLUSTER_EOF {
      FreeStep(t, c);
      var t1 := t[c := CLUSTER_FREE];
      var rest := WalkIsChain(t1, t[c]);
      forall i | 0 <= i < |rest|
        ensures rest[i] != c
      {
        LinkOut(t1, rest, i);
      }
      ch := [c] + rest;
    }
  }

  /** No cluster of the table is left but those the walk from `c` comes to. */
  ghost predicate NothingElse(t: seq<nat>, c: nat) {
    forall e: nat :: InTable(t, e) && t[e] != CLUSTER_FREE ==> Reaches(t, c, e)
  }

  /** After clearLinks a counter that was right is right again exactly if a chain starts at `c`, or if the
      whole table is cleared and the counter has no room to go too high. Else it is one too high. */
  lemma CounterAfterClear(t: seq<nat>, c: nat, cap: nat)
    requires TableOk(t) && Closed(t) && InTable(t, c) && |t| - CLUSTER_FIRST <= cap
    ensures CountUp(FreeCount(t), ClearSteps(t, c), cap)
         == FreeCount(ClearFrom(t, c))
            + if (exists ch :: IsChain(t, ch) && ch[0] == c) || (cap == |t| - CLUSTER_FIRST && NothingElse(t, c)) then 0
              else 1
  {
    hide FreeCount, Reaches, ClearFrom, ClearSteps, RunsIntoFree;
    ClearCount(t, c);
    CountIsBounded(t);
    CountIsBounded(ClearFrom(t, c));
    ClearNeverTakes(t, c);
    EndsIffChain(t, c);
    AllCleared(t, c);
  }

  lemma AllCleared(t: seq<nat>, c: nat)
    requires TableOk(t) && Closed(t) && InTable(t, c)
    ensures FreeCount(ClearFrom(t, c)) == |t| - CLUSTER_FIRST <==> NothingElse(t, c)
  {
    hide Reaches, ClearFrom;
    FreeBelowAll(ClearFrom(t, c), |t|);
    forall e: nat | InTable(t, e)
      ensures ClearFrom(t, c)[e] == CLUSTER_FREE <==> t[e] == CLUSTER_FREE || Reaches(t, c, e)
    {
      ClearFreesReached(t, c, e);
    }
  }

  lemma {:induction false} FreeBelowAll(t: seq<nat>, n: nat)
    requires CLUSTER_FIRST <= n <= |t|
    ensures FreeBelow(t, n) == n - CLUSTER_FIRST <==> forall c :: CLUSTER_FIRST <= c < n ==> t[c] == CLUSTER_FREE
  {
    if n > CLUSTER_FIRST {
      FreeBelowAll(t, n - 1);
      FreeBelowBound(t, n - 1);
    }
  }

  lemma CountIsBounded(t: seq<nat>)
    requires TableOk(t)
    ensures FreeCount(t) <= |t| - CLUSTER_FIRST
  {
    FreeBelowBound(t, |t|);
  }

  lemma {:induction false} ClearNeverTakes(t: seq<nat>, c: nat)
    requires TableOk(t) && Closed(t)
    ensures FreeCount(ClearFrom(t, c)) >= FreeCount(t) && (InTable(t, c) ==> ClearSteps(t, c) > 0)
    decreases |t| - FreeCount(t)
  {
    if InTable(t, c) && t[c] != CLUSTER_FREE {
      FreeStep(t, c);
      ClearNeverTakes(t[c := CLUSTER_FREE], t[c]);
    }
  }

  /** A cycle of two clusters, and the counter ends one too high. */
  lemma CycleIsMiscounted()
    ensures var t := [0, 0, 3, 2, CLUSTER_EOF];
            TableOk(t) && Closed(t) && RunsIntoFree(t, 2) && !(exists ch :: IsChain(t, ch) && ch[0] == 2)
            && CountUp(FreeCount(t), ClearSteps(t, 2), 3) == 3 && FreeCount(ClearFrom(t, 2)) == 2
  {
    var t := [0, 0, 3, 2, CLUSTER_EOF];
    var t1, t2 := t[2 := 0], t[2 := 0][3 := 0];
    FreeStep(t, 2);
    FreeStep(t1, 3);
    assert ClearFrom(t2, 2) == t2 && ClearFrom(t1, 3) == t2 && ClearFrom(t, 2) == t2;
    assert ClearSteps(t2, 2) == 1 && ClearSteps(t1, 3) == 2 && ClearSteps(t, 2) == 3;
    NoneFreeIsZero(t);
    EndsIffChain(t, 2);
  }

  lemma NoneFreeIsZero(t: seq<nat>)
    ensures NoneFree(t) <==> FreeCount(t) == 0
  {
    FreeBelowZero(t, |t|);
  }

  /** The table after a chain has been cut down to its first `k` clusters. */
  function TrimmedTable(t: seq<nat>, ch: seq<nat>, k: nat): (t': seq<nat>)
    requires 0 < k <= |ch| && InTable(t, ch[k - 1])
    ensures |t'| == |t|
  {
    Freed(t, ch[k..])[ch[k - 1] := CLUSTER_EOF]
  }

  /** A cut writes no entry outside the chain. */
  lemma TrimmedElsewhere(t: seq<nat>, ch: seq<nat>, k: nat)
    requires 0 < k <= |ch| && InTable(t, ch[k - 1])
    ensures forall c: nat :: c < |t| && c !in ch ==> TrimmedTable(t, ch, k)[c] == t[c]
  {
    assert forall i :: 0 <= i < |ch[k..]| ==> ch[k..][i] == ch[k + i];
  }

  /** The clusters a file has given up are free. */
  ghost predicate Released(t: seq<nat>, ch0: seq<nat>, ch1: seq<nat>) {
    forall c: nat :: c in ch0 && c !in ch1 ==> c < |t| && t[c] == CLUSTER_FREE
  }

  lemma TrimReleases(t: seq<nat>, ch: seq<nat>, k: nat)
    requires IsChain(t, ch) && 0 < k <= |ch|
    ensures Released(TrimmedTable(t, ch, k), ch, ch[..k])
  {
    forall c: nat | c in ch && c !in ch[..k]
      ensures c < |t| && c in ch[k..] && c != ch[k - 1]
    {
      assert ch == ch[..k] + ch[k..];
      assert ch[..k][k - 1] == ch[k - 1];
      var i :| 0 <= i < |ch| && ch[i] == c;
      assert InTable(t, ch[i]);
    }
  }

  lemma FreedReleases(t: seq<nat>, ch: seq<nat>)
    requires IsChain(t, ch)
    ensures Released(Freed(t, ch), ch, [])
  {
    forall c: nat | c in ch
      ensures c < |t|
    {
      var i :| 0 <= i < |ch| && ch[i] == c;
      assert InTable(t, ch[i]);
    }
  }

  lemma FreedNone(t: seq<nat>, ch: seq<nat>)
    requires |ch| > 0 && InTable(t, ch[|ch| - 1]) && t[ch[|ch| - 1]] == CLUSTER_EOF
    ensures TrimmedTable(t, ch, |ch|) == t
  {
  }

  /** Cutting a chain: the part kept is a chain, the part dropped is free, nothing else changes, and the
      count grows by the clusters dropped. */
  lemma TrimEffect(t: seq<nat>, ch: seq<nat>, k: nat)
    requires TableOk(t) && Closed(t) && IsChain(t, ch) && 0 < k <= |ch|
    ensures IsChain(TrimmedTable(t, ch, k), ch[..k]) && Closed(TrimmedTable(t, ch, k))
    ensures k < |ch| ==> IsChain(t, ch[k..]) && Freed(t, ch[k..])[ch[k - 1]] == t[ch[k - 1]] != CLUSTER_FREE
    ensures FreeCount(TrimmedTable(t, ch, k)) == FreeCount(t) + |ch| - k
  {
    hide FreeCount;
    TrimmedIsChain(t, ch, k);
    LinkOut(t, ch, k - 1);
    if k < |ch| {
      SuffixIsChain(t, ch, k);
      KeptIsNotDropped(t, ch, k, k - 1);
      FreedCount(t, ch[k..]);
      FreeCountUpdate(Freed(t, ch[k..]), ch[k - 1], CLUSTER_EOF);
    } else {
      FreedNone(t, ch);
    }
  }

  /** Writing over a chain's clusters leaves disjoint chains as they are. */
  lemma OthersKept(t: seq<nat>, t': seq<nat>, ch: seq<nat>, other: seq<nat>)
    requires |t'| == |t| && IsChain(t, other) && Disjoint(ch, other)
    requires forall c: nat :: InTable(t, c) && c !in ch ==> t'[c] == t[c]
    ensures IsChain(t', other)
  {
    forall i | 0 <= i < |other|
      ensures t'[other[i]] == t[other[i]]
    {
      assert other[i] !in ch;
    }
  }
}
