/** The write-back, least-recently-used sector cache of src/fat/cache.c. Its clients see `view`, a flat
    array of bytes; pages, evictions and the disc behind it do not show. */
module SectorCache {
  import opened Bytes
  import opened Arith
  import opened CacheModel

  /** The block device. Reads succeed; a write may fail, leaving anything in the sectors it was to
      write, unless the device is reliable. `failures` counts the writes that have failed. */
  class Disc {
    const bps: nat
    const reliable: bool
    var bytes: seq<byte>
    ghost var failures: nat

    constructor (bps: nat, reliable: bool, bytes: seq<byte>)
      ensures this.bps == bps && this.reliable == reliable && this.bytes == bytes
    {
      this.bps, this.reliable, this.bytes, failures := bps, reliable, bytes, 0;
    }

    method ReadSectors(sector: nat, num: nat, buf: array<byte>)
      requires Mul(sector, bps) + Mul(num, bps) <= |bytes| && Mul(num, bps) <= buf.Length
      modifies buf
      ensures buf[..] == Splice(old(buf[..]), 0, Sub(bytes, Mul(sector, bps), Mul(num, bps)))
    {
      CopyIn(buf, 0, Sub(bytes, Mul(sector, bps), Mul(num, bps)));
    }

    method WriteSectors(sector: nat, num: nat, d: seq<byte>) returns (ok: bool)
      requires Mul(sector, bps) + |d| <= |bytes| && |d| == Mul(num, bps)
      modifies this
      ensures reliable ==> ok
      ensures failures == old(failures) + if ok then 0 else 1
      ensures ok ==> bytes == Splice(old(bytes), Mul(sector, bps), d)
      ensures !ok ==> exists junk: seq<byte> :: |junk| == |d| && bytes == Splice(old(bytes), Mul(sector, bps), junk)
    {
      ok := true;
      var written := d;
      if !reliable {
        ok, written := *, *;
        if ok || |written| != |d| {
          written := d;
        }
      }
      bytes, failures := Splice(bytes, Mul(sector, bps), written), failures + if ok then 0 else 1;
    }
  }

  /** memcpy into a buffer */
  method CopyIn(buf: array<byte>, at: nat, d: seq<byte>)
    requires at + |d| <= buf.Length
    modifies buf
    ensures buf[..] == Splice(old(buf[..]), at, d)
  {
    forall k | 0 <= k < |d| {
      buf[at + k] := d[k];
    }
  }

  class Page {
    var sector: nat
    var count: nat
    var lastAccess: nat
    var dirty: bool
    const cache: array<byte>

    constructor (size: nat)
      ensures fresh(cache) && Val() == PageVal(CACHE_FREE, 0, 0, false, Zeros(size))
    {
      sector, count, lastAccess, dirty := CACHE_FREE, 0, 0, false;
      cache := new byte[size](_ => 0);
      new;
      assert cache[..] == Zeros(size);
    }

    function Val(): PageVal
      reads this, cache
    {
      PageVal(sector, count, lastAccess, dirty, cache[..])
    }
  }

  class Cache {
    const disc: Disc
    const sh: Shape
    const pages: seq<Page>
    var accessCounter: nat
    ghost var snap: seq<PageVal>
    ghost var view: seq<byte>
    ghost var part: seq<byte>
    ghost const behind: seq<byte>
    ghost const Repr: set<object>

    ghost predicate Shaped()
      reads this
    {
      && sh.bps == disc.bps
      && this in Repr && disc in Repr
      && |pages| >= 2
      && (forall i :: 0 <= i < |pages| ==> pages[i] in Repr && pages[i].cache in Repr)
      && (forall i, j :: 0 <= i < j < |pages| ==> pages[i] != pages[j] && pages[i].cache != pages[j].cache)
    }

    ghost predicate Mirrored()
      requires Shaped()
      reads this, Repr
    {
      |snap| == |pages| && forall i :: 0 <= i < |pages| ==> snap[i] == pages[i].Val()
    }

    ghost predicate Valid()
      reads this, Repr
    {
      && Shaped()
      && accessCounter <= UINT_MAX
      && Mirrored()
      && disc.bytes == part + behind
      && Inv(sh, snap, part, view)
    }

    /** The disc up to the end of the partition. */
    ghost function Image(): seq<byte>
      requires |part| <= |disc.bytes|
      reads this, disc
    {
      disc.bytes[..|part|]
    }

    lemma ImageIsPart()
      requires Valid()
      ensures |part| == |view| <= |disc.bytes| && Image() == part
    {
      hide Mul, Div;
      assert (part + behind)[..|part|] == part;
    }

    /** A new cache has empty pages and shows the disc as it is, up to the end of the partition. */
    constructor (numberOfPages: nat, sectorsPerPage: nat, disc: Disc, endOfPartition: nat)
      requires disc.bps > 0 && endOfPartition <= CACHE_FREE && Mul(endOfPartition, disc.bps) <= |disc.bytes|
      ensures Valid() && this.disc == disc && sh.bps == disc.bps && sh.end == endOfPartition
      ensures view == disc.bytes[..Mul(endOfPartition, disc.bps)] && fresh(Repr - {disc})
      ensures |pages| == Max(numberOfPages, 2) && sh.spp == Max(sectorsPerPage, 8)
    {
      var n := if numberOfPages < 2 then 2 else numberOfPages;
      var spp := if sectorsPerPage < 8 then 8 else sectorsPerPage;
      var entries, owned := NewPages(n, Mul(spp, disc.bps));
      ghost var size := Mul(endOfPartition, disc.bps);
      EmptyInv(Shape(disc.bps, spp, endOfPartition), n, disc.bytes[..size]);
      assert disc.bytes == disc.bytes[..size] + disc.bytes[size..];
      this.disc := disc;
      sh := Shape(disc.bps, spp, endOfPartition);
      pages := entries;
      accessCounter := 0;
      snap := EmptyPages(n, Mul(spp, disc.bps));
      view, part, behind := disc.bytes[..size], disc.bytes[..size], disc.bytes[size..];
      Repr := {this, disc} + owned;
    }

    static method NewPages(n: nat, size: nat) returns (entries: seq<Page>, ghost owned: set<object>)
      ensures |entries| == n && fresh(owned)
      ensures forall i :: 0 <= i < n ==> entries[i] in owned && entries[i].cache in owned
      ensures forall i :: 0 <= i < n ==> entries[i].Val() == PageVal(CACHE_FREE, 0, 0, false, Zeros(size))
      ensures forall i, j :: 0 <= i < j < n ==> entries[i] != entries[j] && entries[i].cache != entries[j].cache
    {
      entries, owned := [], {};
      while |entries| < n
        invariant |entries| <= n && fresh(owned)
        invariant forall i :: 0 <= i < |entries| ==> entries[i] in owned && entries[i].cache in owned
        invariant forall i :: 0 <= i < |entries| ==> entries[i].Val() == PageVal(CACHE_FREE, 0, 0, false, Zeros(size))
        invariant forall i, j ::
                    0 <= i < j < |entries| ==> entries[i] != entries[j] && entries[i].cache != entries[j].cache
      {
        var p := new Page(size);
        entries, owned := entries + [p], owned + {p, p.cache};
      }
    }

    /** The time of access has moved on. */
    ghost predicate Ticked(before: nat)
      reads this
    {
      accessCounter == (before + 1) % 0x1_0000_0000
    }

    method AccessTime() returns (t: nat)
      requires accessCounter <= UINT_MAX
      modifies this`accessCounter
      ensures t == accessCounter == (old(accessCounter) + 1) % (UINT_MAX + 1) <= UINT_MAX
    {
      accessCounter := (accessCounter + 1) % (UINT_MAX + 1);
      t := accessCounter;
    }

    /** The scan of getPage: the page that holds `sector`, else the page to give up, which is the first
        free page if there is one and else one used least recently. */
    method Scan(sector: nat) returns (hit: nat, oldUsed: nat, foundFree: bool)
      requires Valid() && sector < sh.end
      ensures hit <= |pages| && (hit < |pages| ==> snap[hit].Holds(sector))
      ensures hit == |pages| ==> forall k :: 0 <= k < |snap| ==> !snap[k].Holds(sector)
      ensures hit == |pages| ==>
                oldUsed < |pages|
                && if foundFree then snap[oldUsed].Free() && forall k :: 0 <= k < oldUsed ==> !snap[k].Free()
                   else forall k :: 0 <= k < |pages| ==>
                          !snap[k].Free() && snap[oldUsed].lastAccess <= snap[k].lastAccess
    {
      foundFree, oldUsed := false, 0;
      var oldAccess := UINT_MAX;
      for i := 0 to |pages|
        invariant forall k :: 0 <= k < i ==> !snap[k].Holds(sector)
        invariant oldUsed < |pages| && (foundFree ==> oldUsed < i && snap[oldUsed].Free())
        invariant foundFree ==> forall k :: 0 <= k < oldUsed ==> !snap[k].Free()
        invariant !foundFree ==> forall k :: 0 <= k < i ==> !snap[k].Free() && oldAccess <= snap[k].lastAccess
        invariant foundFree || oldAccess == UINT_MAX || oldAccess == snap[oldUsed].lastAccess
      {
        var p := pages[i];
        assert snap[i] == p.Val() && PageInv(sh, view, snap[i]);
        if p.sector <= sector < p.sector + p.count {
          return i, oldUsed, foundFree;
        }
        if !foundFree && (p.sector == CACHE_FREE || p.lastAccess < oldAccess) {
          if p.sector == CACHE_FREE {
            foundFree := true;
          }
          oldUsed := i;
          oldAccess := p.lastAccess;
        }
      }
      hit := |pages|;
    }

    /** The disc write of getPage and of flush for page `i`. */
    method WriteBack(i: nat) returns (ok: bool)
      requires Valid() && i < |pages| && !snap[i].Free() && snap[i].dirty
      modifies Repr
      ensures Valid() && view == old(view) && (disc.reliable ==> ok)
      ensures disc.failures == old(disc.failures) + if ok then 0 else 1
      ensures snap == if ok then old(snap)[i := old(snap)[i].(dirty := false)] else old(snap)
      ensures accessCounter == old(accessCounter)
    {
      var p := pages[i];
      assert snap[i] == p.Val();
      assert PageInv(sh, view, snap[i]);
      ghost var v := snap[i];
      WriteBackKeepsInv(sh, snap, part, view, i);
      ghost var was := part;
      ok := disc.WriteSectors(p.sector, p.count, p.cache[..Mul(p.count, disc.bps)]);
      if ok {
        p.dirty := false;
        snap := snap[i := v.(dirty := false)];
        SpliceLeft(was, behind, Lo(sh, v), Sub(v.data, 0, Len(sh, v)));
        part := Splice(was, Lo(sh, v), Sub(v.data, 0, Len(sh, v)));
      } else {
        ghost var junk :| |junk| == Len(sh, v) && disc.bytes == Splice(was + behind, Lo(sh, v), junk);
        FailedWriteBackKeepsInv(sh, snap, was, view, i, junk);
        SpliceLeft(was, behind, Lo(sh, v), junk);
        part := Splice(was, Lo(sh, v), junk);
      }
    }

    method Touch(i: nat)
      requires Valid() && i < |pages|
      modifies Repr
      ensures Valid() && view == old(view) && Ticked(old(accessCounter)) && disc.failures == old(disc.failures)
      ensures snap == old(snap)[i := old(snap)[i].(lastAccess := accessCounter)]
    {
      assert snap[i] == pages[i].Val();
      var t := AccessTime();
      pages[i].lastAccess := t;
      TouchKeepsInv(sh, snap, part, view, i, t);
      snap := snap[i := snap[i].(lastAccess := t)];
    }

    /** Reads `count` sectors into page `i` and makes it the page of those, used just now. */
    method Fill(i: nat, sector: nat, count: nat)
      requires Shaped() && Mirrored() && accessCounter <= UINT_MAX && i < |pages|
      requires Mul(sector, sh.bps) + Mul(count, sh.bps) <= |disc.bytes| && Mul(count, sh.bps) <= |snap[i].data|
      modifies this`accessCounter, this`snap, pages[i], pages[i].cache
      ensures Mirrored() && Ticked(old(accessCounter)) && accessCounter <= UINT_MAX
      ensures snap == old(snap)[i := PageVal(sector, count, accessCounter, old(snap)[i].dirty,
                  Splice(old(snap)[i].data, 0, Sub(disc.bytes, Mul(sector, sh.bps), Mul(count, sh.bps))))]
    {
      hide Splice, Sub, Mul, Div;
      var p := pages[i];
      assert snap[i] == p.Val();
      disc.ReadSectors(sector, count, p.cache);
      p.sector := sector;
      p.count := count;
      var t := AccessTime();
      p.lastAccess := t;
      snap := snap[i := p.Val()];
    }

    /** The load of getPage: page `i`, which is clean, is filled with the run around `s`. */
    method Load(i: nat, s: nat)
      requires Valid() && i < |pages| && s < sh.end && !snap[i].dirty
      requires forall k :: 0 <= k < |snap| ==> !snap[k].Holds(s)
      modifies Repr
      ensures Valid() && view == old(view) && Ticked(old(accessCounter)) && disc.failures == old(disc.failures)
      ensures snap[i].Holds(s) && snap == old(snap)[i := snap[i]]
      ensures snap[i].lastAccess == accessCounter && !snap[i].dirty
    {
      hide Splice, Sub, Mul, Div;
      assert PageInv(sh, view, snap[i]);
      RunFacts(sh, s);
      BaseFacts(sh, s);
      var sector := Mul(Div(s, sh.spp), sh.spp);
      var nextPage := sector + sh.spp;
      if nextPage > sh.end {
        nextPage := sh.end;
      }
      SubLeft(part, behind, Mul(sector, sh.bps), Mul(nextPage - sector, sh.bps));
      SubOfSplice(snap[i].data, 0, Sub(part, Mul(sector, sh.bps), Mul(nextPage - sector, sh.bps)));
      ghost var before := snap;
      Fill(i, sector, nextPage - sector);
      LoadKeepsInv(sh, before, part, view, s, i, snap[i]);
    }

    /** Makes sure some page holds `sector` and returns it. What clients see does not change. On a miss
        only the victim is replaced, on a hit only the time of last use. */
    method GetPage(sector: nat) returns (entry: Page?, ghost k: nat)
      requires Valid() && sector < sh.end
      modifies Repr
      ensures Valid() && view == old(view)
      ensures disc.reliable ==> entry != null
      ensures disc.failures == old(disc.failures) + if entry == null then 1 else 0
      ensures entry != null ==>
                k < |pages| && entry == pages[k] && snap[k].Holds(sector) && snap == old(snap)[k := snap[k]]
      ensures entry != null ==>
                if old(snap)[k].Holds(sector) then snap[k] == old(snap)[k].(lastAccess := accessCounter)
                else snap[k].lastAccess == accessCounter && !snap[k].dirty
                     && if old(snap)[k].Free() then forall j :: 0 <= j < k ==> !old(snap)[j].Free()
                        else forall j :: 0 <= j < |pages| ==>
                               !old(snap)[j].Free() && old(snap)[k].lastAccess <= old(snap)[j].lastAccess
      ensures entry != null ==> Ticked(old(accessCounter))
    {
      var hit, oldUsed, foundFree := Scan(sector);
      if hit < |pages| {
        Touch(hit);
        return pages[hit], hit;
      }
      assert snap[oldUsed] == pages[oldUsed].Val();
      if !foundFree && pages[oldUsed].dirty {
        var ok := WriteBack(oldUsed);
        if !ok {
          return null, 0;
        }
      }
      assert PageInv(sh, view, snap[oldUsed]);
      Load(oldUsed, sector);
      return pages[oldUsed], oldUsed;
    }

    /** The bytes and the dirty flag of one page change, and no other page. */
    method Poke(p: Page, ghost k: nat, off: nat, d: seq<byte>)
      requires Shaped() && Mirrored() && k < |pages| && p == pages[k] && off + |d| <= p.cache.Length
      modifies this`snap, p, p.cache
      ensures Mirrored() && snap == old(snap)[k := old(snap)[k].(data := Splice(old(snap)[k].data, off, d),
                  dirty := true)]
    {
      CopyIn(p.cache, off, d);
      p.dirty := true;
      snap := snap[k := p.Val()];
    }

    /** Stores bytes at offset `off` of a page, the `k`-th, and marks it dirty. */
    method Store(p: Page, ghost k: nat, off: nat, d: seq<byte>)
      requires Valid() && k < |pages| && p == pages[k] && !snap[k].Free()
      requires off + |d| <= Len(sh, snap[k])
      modifies Repr
      ensures Lo(sh, old(snap)[k]) + off + |d| <= |old(view)| && disc.failures == old(disc.failures)
      ensures Valid() && view == Splice(old(view), Lo(sh, old(snap)[k]) + off, d)
      ensures |snap| == |old(snap)| && snap[k].sector == old(snap)[k].sector && snap[k].count == old(snap)[k].count
    {
      hide Splice, Mul, Sub;
      assert snap[k] == p.Val();
      StoreKeepsInv(sh, snap, part, view, k, off, d);
      Poke(p, k, off, d);
      view := Splice(view, Lo(sh, old(snap)[k]) + off, d);
    }

    method ReadPartialSector(sector: nat, offset: nat, size: nat) returns (ok: bool, d: seq<byte>)
      requires Valid() && sector < sh.end
      modifies Repr
      ensures Valid() && view == old(view)
      ensures disc.reliable ==> (ok <==> offset + size <= sh.bps)
      ensures disc.failures == old(disc.failures) + if !ok && offset + size <= sh.bps then 1 else 0
      ensures ok ==> Mul(sector, sh.bps) + offset + size <= |view| && d == Sub(view, Mul(sector, sh.bps) + offset, size)
    {
      hide Splice, Mul, Sub;
      if offset + size > sh.bps {
        return false, [];
      }
      var entry, k := GetPage(sector);
      if entry == null {
        return false, [];
      }
      assert snap[k] == entry.Val();
      PagePart(sh, view, snap[k], sector, offset, size);
      var sec := sector - entry.sector;
      ok, d := true, Sub(entry.cache[..], Mul(sec, sh.bps) + offset, size);
    }

    method WritePartialSector(buffer: seq<byte>, sector: nat, offset: nat) returns (ok: bool)
      requires Valid() && sector < sh.end
      modifies Repr
      ensures Valid() && (disc.reliable ==> (ok <==> offset + |buffer| <= sh.bps))
      ensures disc.failures == old(disc.failures) + if !ok && offset + |buffer| <= sh.bps then 1 else 0
      ensures ok ==> Mul(sector, sh.bps) + offset + |buffer| <= |old(view)|
                     && view == Splice(old(view), Mul(sector, sh.bps) + offset, buffer)
      ensures !ok ==> view == old(view)
    {
      hide Splice, Mul, Sub;
      if offset + |buffer| > sh.bps {
        return false;
      }
      var entry, k := GetPage(sector);
      if entry == null {
        return false;
      }
      assert snap[k] == entry.Val();
      PagePart(sh, view, snap[k], sector, offset, |buffer|);
      var sec := sector - entry.sector;
      Store(entry, k, Mul(sec, sh.bps) + offset, buffer);
      ok := true;
    }

    /** Writes `buffer` into a sector and zeros the rest of the sector. */
    method EraseWritePartialSector(buffer: seq<byte>, sector: nat, offset: nat) returns (ok: bool)
      requires Valid() && sector < sh.end
      modifies Repr
      ensures Valid() && (disc.reliable ==> (ok <==> offset + |buffer| <= sh.bps))
      ensures disc.failures == old(disc.failures) + if !ok && offset + |buffer| <= sh.bps then 1 else 0
      ensures ok ==> Mul(sector, sh.bps) + sh.bps <= |old(view)| && offset + |buffer| <= sh.bps
                     && view == Splice(old(view), Mul(sector, sh.bps), Splice(Zeros(sh.bps), offset, buffer))
      ensures !ok ==> view == old(view)
    {
      hide Splice, Mul, Sub;
      if offset + |buffer| > sh.bps {
        return false;
      }
      var entry, k := GetPage(sector);
      if entry == null {
        return false;
      }
      assert snap[k] == entry.Val();
      PagePart(sh, view, snap[k], sector, offset, |buffer|);
      var sec := sector - entry.sector;
      EraseStore(entry, k, Mul(sec, sh.bps), offset, buffer);
      ok := true;
    }

    method EraseStore(p: Page, ghost k: nat, start: nat, offset: nat, d: seq<byte>)
      requires Valid() && k < |pages| && p == pages[k] && !snap[k].Free()
      requires start + sh.bps <= Len(sh, snap[k]) && offset + |d| <= sh.bps
      modifies Repr
      ensures Lo(sh, old(snap)[k]) + start + sh.bps <= |old(view)| && disc.failures == old(disc.failures)
      ensures Valid() && view == Splice(old(view), Lo(sh, old(snap)[k]) + start, Splice(Zeros(sh.bps), offset, d))
    {
      hide Splice, Mul, Sub;
      ghost var at := Lo(sh, snap[k]) + start;
      Store(p, k, start, Zeros(sh.bps));
      Store(p, k, start + offset, d);
      EraseThenWrite(old(view), at, sh.bps, offset, d);
    }

    /** One step of readSectors: as many of `num` sectors as the page that holds `sector` has. */
    method ReadRun(sector: nat, num: nat) returns (ok: bool, n: nat, d: seq<byte>)
      requires Valid() && 0 < num && sector + num <= sh.end
      modifies Repr
      ensures Valid() && view == old(view) && (disc.reliable ==> ok)
      ensures disc.failures == old(disc.failures) + if ok then 0 else 1
      ensures ok ==> 0 < n <= num && Mul(sector, sh.bps) + Mul(n, sh.bps) <= |view|
      ensures ok ==> d == Sub(view, Mul(sector, sh.bps), Mul(n, sh.bps))
    {
      hide Splice, Mul, Sub;
      var entry, k := GetPage(sector);
      if entry == null {
        return false, 0, [];
      }
      assert snap[k] == entry.Val();
      var sec := sector - entry.sector;
      n := entry.count - sec;
      if n > num {
        n := num;
      }
      PageRun(sh, view, snap[k], sector, n);
      ok, d := true, Sub(entry.cache[..], Mul(sec, sh.bps), Mul(n, sh.bps));
    }

    method ReadSectors(sector: nat, numSectors: nat) returns (ok: bool, dest: seq<byte>)
      requires Valid() && sector + numSectors <= sh.end
      modifies Repr
      ensures Valid() && view == old(view) && (disc.reliable ==> ok)
      ensures disc.failures == old(disc.failures) + if ok then 0 else 1
      ensures Mul(sector, sh.bps) + Mul(numSectors, sh.bps) <= |view|
      ensures ok ==> dest == Sub(view, Mul(sector, sh.bps), Mul(numSectors, sh.bps))
    {
      var s, num := sector, numSectors;
      dest := [];
      RunFits(sh, sector, numSectors);
      ghost var n := 0;
      while num > 0
        invariant s == sector + n && n + num == numSectors && disc.failures == old(disc.failures)
        invariant Valid() && view == old(view)
        invariant Mul(n, sh.bps) <= Mul(numSectors, sh.bps) && dest == Sub(view, Mul(sector, sh.bps), Mul(n, sh.bps))
      {
        var more, m, d := ReadRun(s, num);
        if !more {
          return false, dest;
        }
        ReadStep(view, sector, n, m, sh.bps);
        MulMono(n + m, numSectors, sh.bps);
        dest := dest + d;
        s, num, n := s + m, num - m, n + m;
      }
      ok := true;
    }

    /** One step of writeSectors, from `src` on in the buffer. */
    method WriteRun(sector: nat, num: nat, buffer: seq<byte>, src: nat) returns (ok: bool, n: nat)
      requires Valid() && 0 < num && sector + num <= sh.end && src + Mul(num, sh.bps) <= |buffer|
      modifies Repr
      ensures Valid() && (disc.reliable ==> ok) && disc.failures == old(disc.failures) + if ok then 0 else 1
      ensures ok ==>
                0 < n <= num && src + Mul(n, sh.bps) <= |buffer| && Mul(sector, sh.bps) + Mul(n, sh.bps) <= |old(view)|
      ensures ok ==> view == Splice(old(view), Mul(sector, sh.bps), Sub(buffer, src, Mul(n, sh.bps)))
      ensures !ok ==> view == old(view)
    {
      hide Splice, Mul, Sub;
      var entry, k := GetPage(sector);
      if entry == null {
        return false, 0;
      }
      assert snap[k] == entry.Val();
      var sec := sector - entry.sector;
      n := entry.count - sec;
      if n > num {
        n := num;
      }
      PageRun(sh, view, snap[k], sector, n);
      MulMono(n, num, sh.bps);
      Store(entry, k, Mul(sec, sh.bps), Sub(buffer, src, Mul(n, sh.bps)));
      ok := true;
    }

    /** Writes whole sectors; if the disc fails on the way, the first `n` of them have been written. */
    method WriteSectors(sector: nat, numSectors: nat, buffer: seq<byte>) returns (ok: bool, ghost n: nat)
      requires Valid() && sector + numSectors <= sh.end && |buffer| == Mul(numSectors, sh.bps)
      modifies Repr
      ensures Valid() && (disc.reliable ==> ok) && (ok ==> n == numSectors)
      ensures disc.failures == old(disc.failures) + if ok then 0 else 1
      ensures Mul(n, sh.bps) <= |buffer| && Mul(sector, sh.bps) + Mul(n, sh.bps) <= |old(view)|
      ensures view == Splice(old(view), Mul(sector, sh.bps), buffer[..Mul(n, sh.bps)])
    {
      hide Splice, Mul, Sub;
      var s, num, src := sector, numSectors, 0;
      n := 0;
      RunFits(sh, sector, numSectors);
      SpliceNothing(view, Mul(sector, sh.bps), buffer[..0]);
      MulZero(sh.bps);
      while num > 0
        invariant s == sector + n && n + num == numSectors && disc.failures == old(disc.failures)
        invariant Valid() && src == Mul(n, sh.bps) && src + Mul(num, sh.bps) == |buffer|
        invariant view == Splice(old(view), Mul(sector, sh.bps), buffer[..src])
      {
        var more, m := WriteRun(s, num, buffer, src);
        if !more {
          return false, n;
        }
        Distrib(sector, n, sh.bps);
        Distrib(n, m, sh.bps);
        Distrib(m, num - m, sh.bps);
        SpliceMore(old(view), Mul(sector, sh.bps), buffer, src, Mul(m, sh.bps));
        src := src + Mul(m, sh.bps);
        s, num, n := s + m, num - m, n + m;
      }
      ok := true;
    }

    method ReadLittleEndianValue(sector: nat, offset: nat, numBytes: nat) returns (ok: bool, value: nat)
      requires Valid() && sector < sh.end
      modifies Repr
      ensures Valid() && view == old(view)
      ensures disc.reliable ==> (ok <==> offset + numBytes <= sh.bps && numBytes in {1, 2, 4})
      ensures !ok && offset + numBytes <= sh.bps && numBytes in {1, 2, 4} ==> disc.failures > old(disc.failures)
      ensures ok ==> numBytes in {1, 2, 4} && Mul(sector, sh.bps) + offset + numBytes <= |view|
      ensures ok ==> value == LeValue(Sub(view, Mul(sector, sh.bps) + offset, numBytes))
    {
      var d;
      value := 0;
      ok, d := ReadPartialSector(sector, offset, numBytes);
      if !ok || !(numBytes == 1 || numBytes == 2 || numBytes == 4) {
        return false, 0;
      }
      value := LeValue(d);
    }

    method WriteLittleEndianValue(value: nat, sector: nat, offset: nat, size: nat) returns (ok: bool)
      requires Valid() && sector < sh.end
      modifies Repr
      ensures Valid() && (disc.reliable ==> (ok <==> offset + size <= sh.bps && size in {1, 2, 4}))
      ensures !ok && offset + size <= sh.bps && size in {1, 2, 4} ==> disc.failures > old(disc.failures)
      ensures ok ==> size in {1, 2, 4} && Mul(sector, sh.bps) + offset + size <= |old(view)|
      ensures ok ==> view == Splice(old(view), Mul(sector, sh.bps) + offset, LeBytes(value, size))
      ensures !ok ==> view == old(view)
    {
      if !(size == 1 || size == 2 || size == 4) {
        return false;
      }
      ok := WritePartialSector(LeBytes(value, size), sector, offset);
    }

    /** Writes every dirty page back. After a flush that succeeds the disc is the view, up to the end of the
        partition. */
    method Flush() returns (ok: bool)
      requires Valid()
      modifies Repr
      ensures Valid() && view == old(view) && (disc.reliable ==> ok)
      ensures disc.failures == old(disc.failures) + if ok then 0 else 1
      ensures ok ==> part == view && |part| <= |disc.bytes| && Image() == view
                     && forall k :: 0 <= k < |snap| ==> !snap[k].dirty
    {
      for i := 0 to |pages|
        invariant Valid() && view == old(view) && disc.failures == old(disc.failures)
        invariant forall k :: 0 <= k < i ==> !snap[k].dirty
      {
        assert snap[i] == pages[i].Val() && PageInv(sh, view, snap[i]);
        if pages[i].dirty {
          ok := WriteBack(i);
          if !ok {
            return false;
          }
        }
      }
      CleanMeansEqual(sh, snap, part, view);
      ImageIsPart();
      ok := true;
    }

    /** Flushes and then forgets every page; if the flush fails the unwritten data is gone from the view. */
    method Invalidate()
      requires Valid()
      modifies Repr
      ensures Valid() && view == part && forall k :: 0 <= k < |snap| ==> snap[k].Free()
      ensures disc.reliable || disc.failures == old(disc.failures) ==> view == old(view)
    {
      var _ := Flush();
      assert forall k :: 0 <= k < |snap| ==> PageInv(sh, view, snap[k]);
      ForgetAll();
      AllFreeInv(sh, snap, part);
      view := part;
    }

    method ForgetAll()
      requires Shaped() && Mirrored() && forall k :: 0 <= k < |snap| ==> |snap[k].data| == Mul(sh.spp, sh.bps)
      modifies this`snap, pages
      ensures Mirrored() && forall k :: 0 <= k < |snap| ==>
                snap[k] == Forgotten(snap[k]) && |snap[k].data| == Mul(sh.spp, sh.bps)
    {
      hide Mul;
      for i := 0 to |pages|
        invariant Mirrored() && forall k :: 0 <= k < |snap| ==> |snap[k].data| == Mul(sh.spp, sh.bps)
        invariant forall k :: 0 <= k < i ==> snap[k] == Forgotten(snap[k])
      {
        Forget(i);
      }
    }

    method Forget(i: nat)
      requires Shaped() && Mirrored() && i < |pages|
      modifies this`snap, pages[i]
      ensures Mirrored() && snap == old(snap)[i := Forgotten(old(snap)[i])]
    {
      pages[i].sector, pages[i].lastAccess, pages[i].count, pages[i].dirty := CACHE_FREE, 0, 0, false;
      snap := snap[i := pages[i].Val()];
    }
  }

  lemma EraseThenWrite(v: seq<byte>, at: nat, n: nat, off: nat, d: seq<byte>)
    requires at + n <= |v| && off + |d| <= n
    ensures Splice(Splice(v, at, Zeros(n)), at + off, d) == Splice(v, at, Splice(Zeros(n), off, d))
  {
  }

  lemma RunFits(sh: Shape, sector: nat, num: nat)
    requires sector + num <= sh.end
    ensures Mul(sector, sh.bps) + Mul(num, sh.bps) <= Mul(sh.end, sh.bps)
  {
    Distrib(sector, num, sh.bps);
    MulMono(sector + num, sh.end, sh.bps);
  }

  lemma ReadStep(v: seq<byte>, sector: nat, n: nat, m: nat, bps: nat)
    requires Mul(sector, bps) + Mul(n, bps) <= |v| && Mul(sector + n, bps) + Mul(m, bps) <= |v|
    ensures Mul(sector, bps) + Mul(n + m, bps) <= |v|
    ensures Sub(v, Mul(sector, bps), Mul(n, bps)) + Sub(v, Mul(sector + n, bps), Mul(m, bps)) == Sub(v,
            Mul(sector, bps), Mul(n + m, bps))
  {
    Distrib(sector, n, bps);
    Distrib(n, m, bps);
    SubConcat(v, Mul(sector, bps), Mul(n, bps), Mul(m, bps));
  }
}
