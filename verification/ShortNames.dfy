/** Short names in directory entries (src/fat/directory.c). */
module ShortNames {
  import opened Bytes
  import opened DirEntry
  import opened LongNames
  import opened DirItems

  /** The checksum loop of addEntry and getNextEntry. */
  method AliasChecksum(e: Entry) returns (chkSum: byte)
    ensures chkSum == Checksum(e, 11)
  {
    chkSum := 0;
    for i := 0 to 11
      invariant chkSum == Checksum(e, i)
    {
      chkSum := ((if chkSum as int % 2 == 1 then 0x80 else 0) + chkSum as int / 2 + e[i] as int) % 256;
    }
  }

  lemma FieldHead(s: seq<Ucs2>, e: Entry, at: nat, n: nat, lower: bool)
    requires 0 < n && at + n <= 32 && e[at] != ' ' as int
    ensures var c: Ucs2 := (if lower then ToLower(e[at]) else e[at]) as int;
            s + [c] + Field(e, at + 1, n - 1, lower) == s + Field(e, at, n, lower)
  {
    hide ToLower;
  }

  lemma FieldEnds(s: seq<Ucs2>, e: Entry, at: nat, n: nat, lower: bool)
    requires at + n <= 32 && (n == 0 || e[at] == ' ' as int)
    ensures s + Field(e, at, n, lower) == s
  {
  }

  /** One of the copying loops of entryGetAlias: up to a space, and at most `n` characters. */
  method CopyField(e: Entry, at: nat, n: nat, lower: bool) returns (s: seq<Ucs2>)
    requires at + n <= 32
    ensures s == Field(e, at, n, lower)
  {
    hide Field, ToLower;
    s := [];
    var i := 0;
    while i < n && e[at + i] != ' ' as int
      invariant i <= n && s + Field(e, at + i, n - i, lower) == Field(e, at, n, lower)
    {
      FieldHead(s, e, at + i, n - i, lower);
      var c := e[at + i];
      s := s + [(if lower then ToLower(c) else c) as int];
      i := i + 1;
    }
    FieldEnds(s, e, at + i, n - i, lower);
  }

  /** The name of a short entry; what is copied ends at a zero, as every string does. */
  method EntryGetAlias(e: Entry) returns (ok: bool, destName: seq<Ucs2>)
    ensures destName == AliasName(e) && (ok <==> destName != [])
  {
    destName := [];
    if e[NAME] != DIR_ENTRY_FREE {
      if e[NAME] == '.' as int {
        destName := ['.' as int];
        if e[NAME + 1] == '.' as int {
          destName := destName + ['.' as int];
        }
      } else {
        destName := CopyField(e, NAME, 8, e[CASE_INFO] as int / 0x08 % 2 == 1);
        if e[EXTENSION] != ' ' as int {
          var ext := CopyField(e, EXTENSION, 3, e[CASE_INFO] as int / 0x10 % 2 == 1);
          destName := destName + ['.' as int] + ext;
        }
      }
      AliasCopyIs(e, destName);
      destName := UntilZero(destName);
    }
    ok := destName != [];
  }

  lemma AliasCopyIs(e: Entry, s: seq<Ucs2>)
    requires !IsFree(e)
    requires s == if e[NAME] == '.' as int then if e[NAME + 1] == '.' as int then ['.' as int] + ['.' as int]
             else ['.' as int]
                  else
                    var base := Field(e, NAME, 8, e[CASE_INFO] as int / 0x08 % 2 == 1);
                    if e[EXTENSION] == ' ' as int then base
                    else base + ['.' as int] + Field(e, EXTENSION, 3, e[CASE_INFO] as int / 0x10 % 2 == 1)
    ensures s == AliasCopy(e)
  {
  }

  /** A short name in two parts, as createAlias makes them. */
  predicate IsShortName(base: seq<byte>, ext: seq<byte>) {
    && 0 < |base| <= 8 && |ext| <= 3 && base[0] != DIR_ENTRY_FREE
    && (forall i :: 0 <= i < |base| ==> base[i] != 0 && base[i] != ' ' as int && base[i] != '.' as int)
    && (forall i :: 0 <= i < |ext| ==> ext[i] != 0 && ext[i] != ' ' as int)
  }

  function Joined(base: seq<byte>, ext: seq<byte>): seq<byte> {
    base + if ext == [] then [] else ['.' as int] + ext
  }

  /** The eleven bytes of a short name: both parts, padded with spaces. */
  ghost predicate Packed(e: Entry, base: seq<byte>, ext: seq<byte>) {
    && |base| <= 8 && |ext| <= 3
    && (forall k :: 0 <= k < 8 ==> e[k] == if k < |base| then base[k] else ' ' as int)
    && (forall k :: EXTENSION <= k < ATTRIBUTES ==>
          e[k] == if k - EXTENSION < |ext| then ext[k - EXTENSION] else ' ' as int)
  }

  /** Puts both parts of a short name into the entry. */
  method PackAlias(e0: Entry, alias: seq<byte>, ghost base: seq<byte>, ghost ext: seq<byte>) returns (e: Entry)
    requires IsShortName(base, ext) && alias == Joined(base, ext)
    ensures Packed(e, base, ext) && e[ATTRIBUTES..] == e0[ATTRIBUTES..]
  {
    e := e0;
    var i := 0;
    while i < 8 && i < |alias| && alias[i] != '.' as int
      invariant i <= |base| && (forall k :: 0 <= k < i ==> e[k] == base[k]) && e[ATTRIBUTES..] == e0[ATTRIBUTES..]
    {
      e := e[i := alias[i]];
      i := i + 1;
    }
    var j := i;
    while j < 8
      invariant i <= j <= 8 && (forall k :: 0 <= k < j ==> e[k] == if k < |base| then base[k] else ' ' as int)
                && e[ATTRIBUTES..] == e0[ATTRIBUTES..]
    {
      e := e[j := ' ' as int];
      j := j + 1;
    }
    e := PackExtension(e, alias, i, base, ext);
  }

  method PackExtension(e0: Entry, alias: seq<byte>, i0: nat, ghost base: seq<byte>, ghost ext: seq<byte>)
    returns (e: Entry)
    requires |ext| <= 3 && alias == Joined(base, ext) && i0 == |base|
    ensures e[..8] == e0[..8] && e[ATTRIBUTES..] == e0[ATTRIBUTES..]
    ensures forall k ::
              EXTENSION <= k < ATTRIBUTES ==> e[k] == if k - EXTENSION < |ext| then ext[k - EXTENSION] else ' ' as int
  {
    e := e0;
    var i, j := i0, 8;
    if i < |alias| && alias[i] == '.' as int {
      i := i + 1;
      while i < |alias| && j < 11
        invariant i == |base| + 1 + (j - 8) && 8 <= j <= 8 + |ext|
        invariant forall k :: EXTENSION <= k < j ==> e[k] == ext[k - EXTENSION]
        invariant e[..8] == e0[..8] && e[ATTRIBUTES..] == e0[ATTRIBUTES..]
      {
        assert alias[i] == ext[j - 8];
        e := e[j := alias[i]];
        i := i + 1;
        j := j + 1;
      }
    }
    while j < 11
      invariant 8 + |ext| <= j <= 11
      invariant forall k ::
                  EXTENSION <= k < j ==> e[k] == if k - EXTENSION < |ext| then ext[k - EXTENSION] else ' ' as int
      invariant e[..8] == e0[..8] && e[ATTRIBUTES..] == e0[ATTRIBUTES..]
    {
      e := e[j := ' ' as int];
      j := j + 1;
    }
  }

  /** A field that was padded with spaces is read back without them, in small letters if that is asked for. */
  lemma {:induction false} FieldIs(e: Entry, at: nat, n: nat, s: seq<byte>, lower: bool)
    requires at + n <= 32 && |s| <= n
    requires forall k :: at <= k < at + n ==> e[k] == if k - at < |s| then s[k - at] else ' ' as int
    requires forall k :: 0 <= k < |s| ==> s[k] != ' ' as int
    ensures |Field(e, at, n, lower)| == |s|
    ensures forall k :: 0 <= k < |s| ==>
              Field(e, at, n, lower)[k] as int == if lower && 65 <= s[k] <= 90 then s[k] as int + 32 else s[k] as int
    decreases n
  {
    if n > 0 && s != [] {
      FieldIs(e, at + 1, n - 1, s[1..], lower);
      assert s == [s[0]] + s[1..];
    }
  }

  /** A short name is read back as it was packed; bit 3 of byte 12 asks for small letters before the dot, bit 4
      behind it. */
  lemma ShortNameRoundTrip(e: Entry, base: seq<byte>, ext: seq<byte>)
    requires IsShortName(base, ext) && Packed(e, base, ext)
    ensures var name, dot := AliasName(e), |base|;
            && |name| == dot + (if ext == [] then 0 else 1 + |ext|)
            && (forall k :: 0 <= k < dot ==>
                  name[k] as int == base[k] as int + if e[12] as int / 8 % 2 == 1 && 65 <= base[k] <= 90 then 32 else 0)
            && (ext != [] ==> name[dot] == '.' as int)
            && forall k :: 0 <= k < |ext| ==>
                 name[dot + 1 + k] as int
                     == ext[k] as int + if e[12] as int / 16 % 2 == 1 && 65 <= ext[k] <= 90 then 32 else 0
    ensures e[12] as int / 8 % 2 == 0 && e[12] as int / 16 % 2 == 0 ==> AliasName(e) == Joined(base, ext)
  {
    hide Field, UntilZero;
    FieldIs(e, NAME, 8, base, e[CASE_INFO] as int / 0x08 % 2 == 1);
    FieldIs(e, EXTENSION, 3, ext, e[CASE_INFO] as int / 0x10 % 2 == 1);
    assert e[NAME] == base[0];
    NoZeroInside(AliasCopy(e));
  }

  /** The names of the two entries for the directory itself and the one above, and of a deleted entry. */
  lemma SpecialNames(e: Entry)
    ensures e[0] == '.' as int ==> AliasName(e) == if e[1] == '.' as int then ['.' as int, '.' as int] else ['.' as int]
    ensures e[0] == 0xE5 ==> AliasName(e) == []
  {
    if e[0] == '.' as int {
      NoZeroInside(AliasCopy(e));
    }
  }

  lemma {:induction false} NoZeroInside(s: seq<Ucs2>)
    requires forall i :: 0 <= i < |s| ==> s[i] != 0
    ensures UntilZero(s) == s
    decreases |s|
  {
    if s != [] {
      NoZeroInside(s[1..]);
    }
  }
}
