/** The sector cache as values: what the pages, the disc and the view a client sees have to do with
    one another, and why each step of src/fat/cache.c keeps it so. The class in Cache.dfy takes these
    steps on real pages. */
module CacheModel {
  import opened Bytes
  import opened Arith

  const UINT_MAX := 0xFFFF_FFFF
  const CACHE_FREE := UINT_MAX

  /** bytes per sector, sectors per page, and the first sector after the partition */
  datatype Shape = Shape(bps: nat, spp: nat, end: nat) {
    predicate Ok() {
      bps > 0 && spp > 0 && end <= CACHE_FREE
    }
  }

  datatype PageVal = PageVal(sector: nat, count: nat, lastAccess: nat, dirty: bool, data: seq<byte>) {
    predicate Free() {
      sector == CACHE_FREE
    }
    predicate Holds(s: int) {
      sector <= s < sector + count
    }
  }

  function Lo(sh: Shape, p: PageVal): nat {
    Mul(p.sector, sh.bps)
  }

  function Len(sh: Shape, p: PageVal): nat {
    Mul(p.count, sh.bps)
  }

  function Hi(sh: Shape, p: PageVal): nat {
    Lo(sh, p) + Len(sh, p)
  }

  /** A page is free and empty, or it carries an aligned run of sectors exactly as the view has them. */
  ghost predicate PageInv(sh: Shape, view: seq<byte>, p: PageVal) {
    && sh.Ok()
    && |p.data| == Mul(sh.spp, sh.bps)
    && p.lastAccess <= UINT_MAX
    && (if p.Free() then p.count == 0 && !p.dirty
        else
          && Mod(p.sector, sh.spp) == 0
          && p.sector < sh.end
          && p.count == Min(p.sector + sh.spp, sh.end) - p.sector
          && Hi(sh, p) <= |view| && Len(sh, p) <= |p.data|
          && Sub(p.data, 0, Len(sh, p)) == Sub(view, Lo(sh, p), Len(sh, p)))
  }

  /** The disc may lag behind the view only under a dirty page. */
  ghost predicate DirtyCovers(sh: Shape, pages: seq<PageVal>, b: nat) {
    exists i :: 0 <= i < |pages| && pages[i].dirty && Lo(sh, pages[i]) <= b < Hi(sh, pages[i])
  }

  ghost predicate Inv(sh: Shape, pages: seq<PageVal>, disc: seq<byte>, view: seq<byte>) {
    && sh.Ok()
    && |disc| == |view| == Mul(sh.end, sh.bps)
    && (forall i :: 0 <= i < |pages| ==> PageInv(sh, view, pages[i]))
    && (forall i, j :: 0 <= i < j < |pages| && !pages[i].Free() ==> pages[i].sector != pages[j].sector)
    && (forall b :: 0 <= b < |view| && view[b] != disc[b] ==> DirtyCovers(sh, pages, b))
  }

  /** The page that holds a sector holds the aligned run around it, up to the end of the partition. */
  lemma PageIs(sh: Shape, view: seq<byte>, p: PageVal, s: nat)
    requires PageInv(sh, view, p) && p.Holds(s)
    ensures p.sector == s / sh.spp * sh.spp && p.sector + p.count == Min(p.sector + sh.spp, sh.end)
  {
    hide Mul;
    DivMod(p.sector, sh.spp);
    DivModUnique(Div(p.sector, sh.spp), sh.spp, s - p.sector);
    DivModAreQuotientAndRemainder(s, sh.spp);
    MulIsProduct(s / sh.spp, sh.spp);
  }

  lemma AlignedBefore(spp: nat, p: nat, pn: nat, q: nat)
    requires spp > 0 && Mod(p, spp) == 0 && Mod(q, spp) == 0 && pn <= spp
    requires Div(p, spp) < Div(q, spp)
    ensures p + pn <= q
  {
    DivMod(p, spp);
    DivMod(q, spp);
    MulMono(Div(p, spp) + 1, Div(q, spp), spp);
    MulSucc(Div(p, spp), spp);
  }

  /** Aligned runs of at most a page that start at different sectors lie apart. */
  lemma RunsApart(spp: nat, p: nat, pn: nat, q: nat, qn: nat)
    requires spp > 0 && Mod(p, spp) == 0 && Mod(q, spp) == 0 && pn <= spp && qn <= spp
    requires p != q
    ensures p + pn <= q || q + qn <= p
  {
    if Div(p, spp) < Div(q, spp) {
      AlignedBefore(spp, p, pn, q);
    } else if Div(q, spp) < Div(p, spp) {
      AlignedBefore(spp, q, qn, p);
    } else {
      DivMod(p, spp);
      DivMod(q, spp);
    }
  }

  /** Aligned runs of at most a page that share a byte start at the same sector. */
  lemma SharedByte(sh: Shape, p: nat, pn: nat, q: nat, qn: nat, b: nat)
    requires sh.spp > 0 && Mod(p, sh.spp) == 0 && Mod(q, sh.spp) == 0 && pn <= sh.spp && qn <= sh.spp
    requires Mul(p, sh.bps) <= b < Mul(p, sh.bps) + Mul(pn, sh.bps)
    requires Mul(q, sh.bps) <= b < Mul(q, sh.bps) + Mul(qn, sh.bps)
    ensures p == q
  {
    if p != q {
      RunsApart(sh.spp, p, pn, q, qn);
      if p + pn <= q {
        MulApart(p, pn, q, sh.bps);
      } else {
        MulApart(q, qn, p, sh.bps);
      }
    }
  }

  /** Two different pages lie apart. */
  lemma PagesApart(sh: Shape, pages: seq<PageVal>, disc: seq<byte>, view: seq<byte>, i: nat, j: nat)
    requires Inv(sh, pages, disc, view)
    requires i < |pages| && j < |pages| && i != j
    ensures pages[i].Free() || pages[j].Free()
            || Hi(sh, pages[i]) <= Lo(sh, pages[j]) || Hi(sh, pages[j]) <= Lo(sh, pages[i])
  {
    var p, q := pages[i], pages[j];
    assert PageInv(sh, view, p) && PageInv(sh, view, q);
    if !p.Free() && !q.Free() {
      RunsApart(sh.spp, p.sector, p.count, q.sector, q.count);
      if p.sector + p.count <= q.sector {
        MulApart(p.sector, p.count, q.sector, sh.bps);
      } else {
        MulApart(q.sector, q.count, p.sector, sh.bps);
      }
    }
  }

  /** Two different pages never share a byte. */
  lemma PagesDisjoint(sh: Shape, pages: seq<PageVal>, disc: seq<byte>, view: seq<byte>, i: nat, j: nat, b: int)
    requires Inv(sh, pages, disc, view)
    requires i < |pages| && j < |pages| && i != j
    requires Lo(sh, pages[i]) <= b < Hi(sh, pages[i])
    ensures !(Lo(sh, pages[j]) <= b < Hi(sh, pages[j]))
  {
    PagesApart(sh, pages, disc, view, i, j);
    assert PageInv(sh, view, pages[i]) && PageInv(sh, view, pages[j]);
  }

  /** Reading a view: the page's byte where a page holds it, the disc's byte everywhere else. */
  lemma ViewIsPageElseDisc(sh: Shape, pages: seq<PageVal>, disc: seq<byte>, view: seq<byte>, b: nat)
    requires Inv(sh, pages, disc, view) && b < |view|
    ensures forall i :: 0 <= i < |pages| && Lo(sh, pages[i]) <= b < Hi(sh, pages[i])
              ==> b - Lo(sh, pages[i]) < |pages[i].data| && pages[i].data[b - Lo(sh, pages[i])] == view[b]
    ensures (forall i :: 0 <= i < |pages| ==> !(Lo(sh, pages[i]) <= b < Hi(sh, pages[i]))) ==> disc[b] == view[b]
  {
    forall i | 0 <= i < |pages| && Lo(sh, pages[i]) <= b < Hi(sh, pages[i])
      ensures b - Lo(sh, pages[i]) < |pages[i].data| && pages[i].data[b - Lo(sh, pages[i])] == view[b]
    {
      var p := pages[i];
      assert PageInv(sh, view, p);
      assert Sub(p.data, 0, Len(sh, p))[b - Lo(sh, p)] == Sub(view, Lo(sh, p), Len(sh, p))[b - Lo(sh, p)];
    }
  }

  /** Once no page is dirty, the disc is the view. */
  lemma CleanMeansEqual(sh: Shape, pages: seq<PageVal>, disc: seq<byte>, view: seq<byte>)
    requires Inv(sh, pages, disc, view)
    requires forall i :: 0 <= i < |pages| ==> !pages[i].dirty
    ensures disc == view
  {
    forall b | 0 <= b < |view|
      ensures view[b] == disc[b]
    {
      assert view[b] != disc[b] ==> DirtyCovers(sh, pages, b);
    }
  }

  /** Under a clean page the disc has the view's bytes. */
  lemma CleanByteIsDisc(sh: Shape, pages: seq<PageVal>, disc: seq<byte>, view: seq<byte>, i: nat, b: nat)
    requires Inv(sh, pages, disc, view) && i < |pages| && !pages[i].dirty
    requires Lo(sh, pages[i]) <= b < Hi(sh, pages[i]) && b < |view|
    ensures disc[b] == view[b]
  {
    if view[b] != disc[b] {
      assert DirtyCovers(sh, pages, b);
      var j :| 0 <= j < |pages| && pages[j].dirty && Lo(sh, pages[j]) <= b < Hi(sh, pages[j]);
      PagesDisjoint(sh, pages, disc, view, i, j, b);
    }
  }

  /** Clean pages equal the disc. */
  lemma CleanPageIsDisc(sh: Shape, pages: seq<PageVal>, disc: seq<byte>, view: seq<byte>, i: nat)
    requires Inv(sh, pages, disc, view) && i < |pages| && !pages[i].dirty && !pages[i].Free()
    ensures Hi(sh, pages[i]) <= |disc| && Len(sh, pages[i]) <= |pages[i].data|
    ensures Sub(pages[i].data, 0, Len(sh, pages[i])) == Sub(disc, Lo(sh, pages[i]), Len(sh, pages[i]))
  {
    var p := pages[i];
    assert PageInv(sh, view, p);
    forall b | Lo(sh, p) <= b < Hi(sh, p)
      ensures disc[b] == view[b]
    {
      CleanByteIsDisc(sh, pages, disc, view, i, b);
    }
    assert Sub(disc, Lo(sh, p), Len(sh, p)) == Sub(view, Lo(sh, p), Len(sh, p));
  }

  /** A run of sectors inside a page, in the page and in the view. */
  lemma PageRun(sh: Shape, view: seq<byte>, p: PageVal, s: nat, n: nat)
    requires PageInv(sh, view, p) && p.Holds(s) && s + n <= p.sector + p.count
    ensures !p.Free()
    ensures Lo(sh, p) + Mul(s - p.sector, sh.bps) == Mul(s, sh.bps)
    ensures Mul(s, sh.bps) + Mul(n, sh.bps) <= Hi(sh, p) <= |view|
    ensures Mul(s - p.sector, sh.bps) + Mul(n, sh.bps) <= Len(sh, p) <= |p.data|
    ensures Sub(p.data, Mul(s - p.sector, sh.bps), Mul(n, sh.bps)) == Sub(view, Mul(s, sh.bps), Mul(n, sh.bps))
  {
    hide Mul;
    var k := s - p.sector;
    Distrib(p.sector, k, sh.bps);
    Distrib(k, n, sh.bps);
    MulMono(k + n, p.count, sh.bps);
    SubSub(p.data, 0, Len(sh, p), Mul(k, sh.bps), Mul(n, sh.bps));
    SubSub(view, Lo(sh, p), Len(sh, p), Mul(k, sh.bps), Mul(n, sh.bps));
  }

  /** Part of a sector inside a page, in the page and in the view. */
  lemma PagePart(sh: Shape, view: seq<byte>, p: PageVal, s: nat, off: nat, len: nat)
    requires PageInv(sh, view, p) && p.Holds(s) && off + len <= sh.bps
    ensures !p.Free()
    ensures Lo(sh, p) + Mul(s - p.sector, sh.bps) == Mul(s, sh.bps)
    ensures Mul(s, sh.bps) + sh.bps <= Hi(sh, p) <= |view|
    ensures Mul(s - p.sector, sh.bps) + sh.bps <= Len(sh, p) <= |p.data|
    ensures Sub(p.data, Mul(s - p.sector, sh.bps) + off, len) == Sub(view, Mul(s, sh.bps) + off, len)
  {
    PageRun(sh, view, p, s, 1);
    assert Mul(1, sh.bps) == sh.bps;
    SubSub(p.data, Mul(s - p.sector, sh.bps), sh.bps, off, len);
    SubSub(view, Mul(s, sh.bps), sh.bps, off, len);
  }

  lemma DirtyKept(sh: Shape, pages: seq<PageVal>, pages': seq<PageVal>, b: nat)
    requires |pages'| == |pages| && DirtyCovers(sh, pages, b)
    requires forall j :: 0 <= j < |pages| && pages[j].dirty && Lo(sh, pages[j]) <= b < Hi(sh, pages[j])
               ==> pages'[j].dirty && pages'[j].sector == pages[j].sector && pages'[j].count == pages[j].count
    ensures DirtyCovers(sh, pages', b)
  {
    var j :| 0 <= j < |pages| && pages[j].dirty && Lo(sh, pages[j]) <= b < Hi(sh, pages[j]);
    assert pages'[j].dirty && Lo(sh, pages'[j]) <= b < Hi(sh, pages'[j]);
  }

  /** Changing when a page was last used changes nothing else. */
  lemma TouchKeepsInv(sh: Shape, pages: seq<PageVal>, disc: seq<byte>, view: seq<byte>, i: nat, t: nat)
    requires Inv(sh, pages, disc, view) && i < |pages| && t <= UINT_MAX
    ensures Inv(sh, pages[i := pages[i].(lastAccess := t)], disc, view)
  {
    var pages' := pages[i := pages[i].(lastAccess := t)];
    assert PageInv(sh, view, pages[i]);
    forall b | 0 <= b < |view| && view[b] != disc[b]
      ensures DirtyCovers(sh, pages', b)
    {
      DirtyKept(sh, pages, pages', b);
    }
  }

  /** Writing a dirty page back moves the disc towards the view and leaves the view alone. */
  lemma WriteBackKeepsInv(sh: Shape, pages: seq<PageVal>, disc: seq<byte>, view: seq<byte>, i: nat)
    requires Inv(sh, pages, disc, view) && i < |pages| && !pages[i].Free()
    ensures Hi(sh, pages[i]) <= |disc| && Len(sh, pages[i]) <= |pages[i].data|
    ensures Inv(sh, pages[i := pages[i].(dirty := false)],
                Splice(disc, Lo(sh, pages[i]), Sub(pages[i].data, 0, Len(sh, pages[i]))), view)
  {
    hide Mul, Div;
    var p := pages[i];
    var pages' := pages[i := p.(dirty := false)];
    assert PageInv(sh, view, p);
    var disc' := Splice(disc, Lo(sh, p), Sub(view, Lo(sh, p), Len(sh, p)));
    forall b | 0 <= b < |view| && view[b] != disc'[b]
      ensures DirtyCovers(sh, pages', b)
    {
      assert !(Lo(sh, p) <= b < Hi(sh, p)) && disc'[b] == disc[b];
      DirtyKept(sh, pages, pages', b);
    }
  }

  /** A write-back that fails half-way loses nothing: the page stays dirty and still has the data. */
  lemma FailedWriteBackKeepsInv(sh: Shape, pages: seq<PageVal>, disc: seq<byte>, view: seq<byte>, i: nat,
        junk: seq<byte>)
    requires Inv(sh, pages, disc, view) && i < |pages| && pages[i].dirty
    requires |junk| == Len(sh, pages[i])
    ensures Hi(sh, pages[i]) <= |disc|
    ensures Inv(sh, pages, Splice(disc, Lo(sh, pages[i]), junk), view)
  {
    var p := pages[i];
    assert PageInv(sh, view, p);
    var disc' := Splice(disc, Lo(sh, p), junk);
    forall b | 0 <= b < |view| && view[b] != disc'[b]
      ensures DirtyCovers(sh, pages, b)
    {
      if Lo(sh, p) <= b < Hi(sh, p) {
        assert pages[i].dirty;
      } else {
        assert disc'[b] == disc[b];
      }
    }
  }

  /** The sectors a page is filled with when `s` is not cached. */
  function Base(sh: Shape, s: nat): nat
    requires sh.Ok()
  {
    Mul(Div(s, sh.spp), sh.spp)
  }

  function Next(sh: Shape, s: nat): nat
    requires sh.Ok()
  {
    Min(Base(sh, s) + sh.spp, sh.end)
  }

  /** The bytes of that run. */
  function RunLo(sh: Shape, s: nat): nat
    requires sh.Ok()
  {
    Mul(Base(sh, s), sh.bps)
  }

  function RunLen(sh: Shape, s: nat): nat
    requires sh.Ok() && s < sh.end
  {
    BaseFacts(sh, s);
    Mul(Next(sh, s) - Base(sh, s), sh.bps)
  }

  lemma BaseFacts(sh: Shape, s: nat)
    requires sh.Ok() && s < sh.end
    ensures Base(sh, s) <= s < Next(sh, s) <= sh.end
    ensures Mod(Base(sh, s), sh.spp) == 0 && Next(sh, s) - Base(sh, s) <= sh.spp
  {
    DivMod(s, sh.spp);
    DivModUnique(Div(s, sh.spp), sh.spp, 0);
  }

  lemma RunFacts(sh: Shape, s: nat)
    requires sh.Ok() && s < sh.end
    ensures RunLo(sh, s) + RunLen(sh, s) <= Mul(sh.end, sh.bps)
    ensures RunLen(sh, s) <= Mul(sh.spp, sh.bps)
  {
    BaseFacts(sh, s);
    var base, next := Base(sh, s), Next(sh, s);
    Distrib(base, next - base, sh.bps);
    MulMono(next, sh.end, sh.bps);
    MulMono(next - base, sh.spp, sh.bps);
  }

  /** A page that shares a byte with the aligned run of `s` starts where the run starts. */
  lemma RunHitsPage(sh: Shape, view: seq<byte>, p: PageVal, s: nat, b: nat)
    requires PageInv(sh, view, p) && !p.Free() && s < sh.end
    requires Lo(sh, p) <= b < Hi(sh, p) && RunLo(sh, s) <= b < RunLo(sh, s) + RunLen(sh, s)
    ensures p.sector == Base(sh, s)
  {
    BaseFacts(sh, s);
    SharedByte(sh, p.sector, p.count, Base(sh, s), Next(sh, s) - Base(sh, s), b);
  }

  lemma NoPageStartsThere(sh: Shape, view: seq<byte>, p: PageVal, s: nat)
    requires PageInv(sh, view, p) && s < sh.end && !p.Holds(s)
    ensures p.Free() || p.sector != Base(sh, s)
  {
    BaseFacts(sh, s);
  }

  /** No page holds `s`: then no page overlaps the run that would be loaded for `s`, so the disc has it
      as the view does. */
  lemma UncachedRunIsDisc(sh: Shape, pages: seq<PageVal>, disc: seq<byte>, view: seq<byte>, s: nat)
    requires Inv(sh, pages, disc, view) && s < sh.end
    requires forall i :: 0 <= i < |pages| ==> !pages[i].Holds(s)
    ensures RunLo(sh, s) + RunLen(sh, s) <= |view|
    ensures Sub(disc, RunLo(sh, s), RunLen(sh, s)) == Sub(view, RunLo(sh, s), RunLen(sh, s))
    ensures forall i :: 0 <= i < |pages| && !pages[i].Free() ==> pages[i].sector != Base(sh, s)
  {
    RunFacts(sh, s);
    forall i | 0 <= i < |pages| && !pages[i].Free()
      ensures pages[i].sector != Base(sh, s)
    {
      NoPageStartsThere(sh, view, pages[i], s);
    }
    forall b | RunLo(sh, s) <= b < RunLo(sh, s) + RunLen(sh, s)
      ensures disc[b] == view[b]
    {
      if disc[b] != view[b] {
        assert DirtyCovers(sh, pages, b);
        var j :| 0 <= j < |pages| && pages[j].dirty && Lo(sh, pages[j]) <= b < Hi(sh, pages[j]);
        RunHitsPage(sh, view, pages[j], s, b);
      }
    }
  }

  /** Loading the run around `s` into a clean page keeps the invariant. */
  lemma LoadKeepsInv(sh: Shape, pages: seq<PageVal>, disc: seq<byte>, view: seq<byte>, s: nat, i: nat, q: PageVal)
    requires Inv(sh, pages, disc, view) && s < sh.end && i < |pages| && !pages[i].dirty
    requires forall k :: 0 <= k < |pages| ==> !pages[k].Holds(s)
    requires q.sector == Base(sh, s) && q.count == Next(sh, s) - Base(sh, s) && !q.dirty && q.lastAccess <= UINT_MAX
    requires |q.data| == Mul(sh.spp, sh.bps)
    requires RunLo(sh, s) + RunLen(sh, s) <= |disc| && RunLen(sh, s) <= |q.data|
    requires Sub(q.data, 0, RunLen(sh, s)) == Sub(disc, RunLo(sh, s), RunLen(sh, s))
    ensures Inv(sh, pages[i := q], disc, view) && q.Holds(s)
  {
    BaseFacts(sh, s);
    UncachedRunIsDisc(sh, pages, disc, view, s);
    var pages' := pages[i := q];
    assert PageInv(sh, view, q);
    forall b | 0 <= b < |view| && view[b] != disc[b]
      ensures DirtyCovers(sh, pages', b)
    {
      DirtyKept(sh, pages, pages', b);
    }
  }

  /** The page stored into has what the new view has. */
  lemma StoredPageInv(sh: Shape, view: seq<byte>, p: PageVal, off: nat, d: seq<byte>)
    requires PageInv(sh, view, p) && !p.Free() && off + |d| <= Len(sh, p)
    ensures PageInv(sh, Splice(view, Lo(sh, p) + off, d), p.(data := Splice(p.data, off, d), dirty := true))
  {
    SpliceSub(p.data, 0, Len(sh, p), off, d);
    SpliceSub(view, Lo(sh, p), Len(sh, p), off, d);
  }

  /** A page that does not overlap the bytes stored keeps its invariant. */
  lemma OtherPageInv(sh: Shape, view: seq<byte>, q: PageVal, at: nat, d: seq<byte>)
    requires PageInv(sh, view, q) && at + |d| <= |view|
    requires q.Free() || at + |d| <= Lo(sh, q) || Hi(sh, q) <= at
    ensures PageInv(sh, Splice(view, at, d), q)
  {
    if !q.Free() {
      SubOutside(view, at, d, Lo(sh, q), Len(sh, q));
    }
  }

  /** Storing bytes in a page and marking it dirty changes exactly those bytes of the view. */
  lemma StoreKeepsInv(sh: Shape, pages: seq<PageVal>, disc: seq<byte>, view: seq<byte>, i: nat, off: nat, d: seq<byte>)
    requires Inv(sh, pages, disc, view) && i < |pages| && !pages[i].Free() && off + |d| <= Len(sh, pages[i])
    ensures Lo(sh, pages[i]) + off + |d| <= |view| && off + |d| <= |pages[i].data|
    ensures Inv(sh, pages[i := pages[i].(data := Splice(pages[i].data, off, d), dirty := true)],
                disc, Splice(view, Lo(sh, pages[i]) + off, d))
  {
    hide Mul, Splice, Sub;
    var p := pages[i];
    assert PageInv(sh, view, p);
    StoredPageInv(sh, view, p, off, d);
    var p' := p.(data := Splice(p.data, off, d), dirty := true);
    var pages', view' := pages[i := p'], Splice(view, Lo(sh, p) + off, d);
    forall j | 0 <= j < |pages| && j != i
      ensures PageInv(sh, view', pages[j])
    {
      PagesApart(sh, pages, disc, view, i, j);
      OtherPageInv(sh, view, pages[j], Lo(sh, p) + off, d);
    }
    forall b | 0 <= b < |view| && view'[b] != disc[b]
      ensures DirtyCovers(sh, pages', b)
    {
      StoreDirty(sh, pages, disc, view, i, Lo(sh, p) + off, d, p', b);
    }
  }

  lemma StoreDirty(sh: Shape, pages: seq<PageVal>, disc: seq<byte>, view: seq<byte>, i: nat, at: nat, d: seq<byte>,
                   p': PageVal, b: nat)
    requires Inv(sh, pages, disc, view) && i < |pages|
    requires Lo(sh, pages[i]) <= at && at + |d| <= Hi(sh, pages[i]) <= |view|
    requires b < |view| && Splice(view, at, d)[b] != disc[b]
    requires p'.dirty && p'.sector == pages[i].sector && p'.count == pages[i].count
    ensures DirtyCovers(sh, pages[i := p'], b)
  {
    var pages' := pages[i := p'];
    if at <= b < at + |d| {
      assert pages'[i].dirty && Lo(sh, pages'[i]) <= b < Hi(sh, pages'[i]);
    } else {
      assert Splice(view, at, d)[b] == view[b];
      DirtyKept(sh, pages, pages', b);
    }
  }

  function EmptyPages(n: nat, size: nat): (r: seq<PageVal>)
    ensures |r| == n && forall i :: 0 <= i < n ==> r[i] == PageVal(CACHE_FREE, 0, 0, false, Zeros(size))
  {
    seq(n, i => PageVal(CACHE_FREE, 0, 0, false, Zeros(size)))
  }

  /** What invalidate makes of a page. */
  function Forgotten(p: PageVal): PageVal {
    p.(sector := CACHE_FREE, count := 0, lastAccess := 0, dirty := false)
  }

  /** With every page forgotten, the view is the disc. */
  lemma AllFreeInv(sh: Shape, pages: seq<PageVal>, disc: seq<byte>)
    requires sh.Ok() && |disc| == Mul(sh.end, sh.bps)
    requires forall i :: 0 <= i < |pages| ==> pages[i] == Forgotten(pages[i]) && |pages[i].data| == Mul(sh.spp, sh.bps)
    ensures Inv(sh, pages, disc, disc)
  {
  }

  /** A new cache is such a cache. */
  lemma EmptyInv(sh: Shape, n: nat, disc: seq<byte>)
    requires sh.Ok() && |disc| == Mul(sh.end, sh.bps)
    ensures Inv(sh, EmptyPages(n, Mul(sh.spp, sh.bps)), disc, disc)
  {
    AllFreeInv(sh, EmptyPages(n, Mul(sh.spp, sh.bps)), disc);
  }
}
