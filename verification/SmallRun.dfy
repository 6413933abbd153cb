/** A run on the small volume, mounted from its bytes: a client that keeps to what is allowed can do this. */
module SmallRun {
  import opened Bytes
  import opened Arith
  import opened Volume
  import opened FatCodec
  import opened Chains
  import opened FileData
  import opened Growth
  import opened DirEntry
  import opened FatFile
  import opened FileRuns
  import opened SmallVolume
  import opened SectorCache
  import opened Failures

  lemma FirstStep(op: Op, ops: seq<Op>, m: Machine, lim: Limits)
    requires lim.bpc > 0
    ensures AllAllowed([op] + ops, m, lim) <==> Allowed(op, m, lim) && AllAllowed(ops, Step(m, op).0, lim)
    ensures Observed(m, [op] + ops) == [Step(m, op).1] + Observed(Step(m, op).0, ops)
    ensures Final(m, [op] + ops) == Final(Step(m, op).0, ops)
  {
    hide Step, Allowed;
    assert ([op] + ops)[1..] == ops;
  }

  lemma RunNothing(m: Machine, lim: Limits)
    requires lim.bpc > 0
    ensures AllAllowed([], m, lim) && Observed(m, []) == [] && Final(m, []) == m
  {
  }

  /** Writes a byte behind the first cluster, goes back over it and reads it. */
  lemma WriteThenRead(m: Machine, lim: Limits)
    requires |m.content| == 1024 && m.cursor == 0 && 1024 <= lim.room && lim.bps == lim.bpc == 512
    ensures var ops := [Seek(600, SEEK_SET), Write([7]), Seek(-1, SEEK_CUR), Read(1)];
            AllAllowed(ops, m, lim) && Observed(m, ops) == [Returned(600), Returned(1), Returned(600), Got([7])]
            && |Final(m, ops).content| == 1024 && Final(m, ops).cursor == 601
            && Final(m, ops).dirty && Final(m, ops).content[600] == 7
  {
    hide Patched;
    var m1 := Step(m, Seek(600, SEEK_SET)).0;
    var m2 := Step(m1, Write([7])).0;
    var m3 := Step(m2, Seek(-1, SEEK_CUR)).0;
    SeekGoes(m, 600, SEEK_SET, 0);
    WriteStores(m1, [7]);
    SeekGoes(m2, -1, SEEK_CUR, m2.cursor);
    ReadGets(m3, 1);
    assert Step(m3, Read(1)).1.d == [7];
    FirstStep(Read(1), [], m3, lim);
    FirstStep(Seek(-1, SEEK_CUR), [Read(1)], m2, lim);
    FirstStep(Write([7]), [Seek(-1, SEEK_CUR), Read(1)], m1, lim);
    FirstStep(Seek(600, SEEK_SET), [Write([7]), Seek(-1, SEEK_CUR), Read(1)], m, lim);
    assert Observed(m3, [Read(1)]) == [Got([7])] && [Read(1)] + [] == [Read(1)];
    assert Observed(m2, [Seek(-1, SEEK_CUR), Read(1)]) == [Returned(600), Got([7])];
    assert Observed(m1, [Write([7]), Seek(-1, SEEK_CUR), Read(1)]) == [Returned(1), Returned(600), Got([7])];
  }

  /** Cuts the file before the cursor, grows it over the cursor again, and reads a zero there. */
  lemma CutThenRead(m: Machine, lim: Limits)
    requires |m.content| == 1024 && m.cursor == 601 && 1024 <= lim.room && lim.bps == lim.bpc == 512
    ensures var ops := [Truncate(600), Truncate(1024), Read(423)];
            AllAllowed(ops, m, lim) && Observed(m, ops) == [Returned(0), Returned(0), Got(Zeros(423))]
  {
    hide Patched, Mod, Div, Mul, AllAllowed, Observed, Final;
    var m1 := Step(m, Truncate(600)).0;
    var m2 := Step(m1, Truncate(1024)).0;
    TruncateSets(m, 600);
    TruncateSets(m1, 1024);
    ReadGets(m2, 423);
    assert Step(m2, Read(423)).1.d == Zeros(423);
    DivModUnique(1, 512, 89);
    DivModUnique(1, 512, 87);
    Products();
    RunNothing(Step(m2, Read(423)).0, lim);
    assert [Truncate(600)] + ([Truncate(1024)] + ([Read(423)] + [])) == [Truncate(600), Truncate(1024), Read(423)];
    assert [Truncate(1024)] + ([Read(423)] + []) == [Truncate(1024), Read(423)] && [Read(423)] + [] == [Read(423)];
    FirstStep(Read(423), [], m2, lim);
    FirstStep(Truncate(1024), [Read(423)], m1, lim);
    FirstStep(Truncate(600), [Truncate(1024), Read(423)], m, lim);
    assert Observed(m2, [Read(423)]) == [Got(Zeros(423))];
    assert Observed(m1, [Truncate(1024), Read(423)]) == [Returned(0), Got(Zeros(423))];
  }

  /** What a fresh handle on the small volume shows. */
  lemma SmallShown(f: File)
    requires OnSmall(f) && f.currentPosition == 0 && f.partition.firstFree == 2
    ensures var m := Machine(f.Content(), 0, false, false, 0);
            Ready(f) && Shown(f, m) && LimitsOf(f, Limits(f.Capacity(), 512, 512)) && f.Capacity() >= 1024
            && |m.content| == 1024
  {
    hide Mul, Div, Mod, Table, FreeCount, FileBytes, Closed, IsChain;
    SmallRoom(f);
    Products();
  }

  /** Mounts the volume, opens its file, and does all of that. */
  method WriteCutAndRead() returns (first: seq<Seen>, second: seq<Seen>)
    ensures first == [Returned(600), Returned(1), Returned(600), Got([7])]
    ensures second == [Returned(0), Returned(0), Got(Zeros(423))]
  {
    hide Mul, Div, Mod, Cache.Valid, Image, Table, FileBytes, Closed, IsChain, FreeCount, Denotes, Spared, Step,
        Allowed, AllAllowed, Observed, Final;
    var f := OpenSmall(false);
    SmallShown(f);
    ghost var m, lim := Machine(f.Content(), 0, false, false, 0), Limits(f.Capacity(), 512, 512);
    WriteThenRead(m, lim);
    first := Run(f, [Seek(600, SEEK_SET), Write([7]), Seek(-1, SEEK_CUR), Read(1)], m, lim);
    ghost var m' := Final(m, [Seek(600, SEEK_SET), Write([7]), Seek(-1, SEEK_CUR), Read(1)]);
    CutThenRead(m', lim);
    second := Run(f, [Truncate(600), Truncate(1024), Read(423)], m', lim);
  }

  /** The entry of the file is in the fixed root directory, and the volume says where everything is. */
  lemma SmallIsWhole(f: File)
    requires OnSmall(f) && f.partition.cache.view == Image(false) && f.dirEntryEnd == SLOT
    ensures InDirectory(f, []) && !IsDirectory(EntryOf(f)) && Describes(f.partition.cache.view, 0, f.partition.g)
  {
    hide Mul, Div, Mod, Image, Table, FileBytes, Closed, IsChain, Sub, IsDirectory;
    SmallIsDescribed(false);
    SmallHasFile(false);
    SmallIsOk(false);
    Products();
  }

  /** Writes a byte, closes the file, mounts the disc afresh and opens the file again: the byte is there. */
  method WriteAndRemount(time: nat, date: nat) returns (again: File)
    ensures again.Valid() && again.filesize == 1024 && again.Content()[600] == 7
  {
    hide Mul, Div, Mod, Cache.Valid, Image, Table, FileBytes, Closed, IsChain, FreeCount, Denotes, Spared, Step,
        Allowed, AllAllowed, Observed, Final, Describes, IsDirectory;
    var f := OpenSmall(false);
    SmallShown(f);
    SmallIsWhole(f);
    ghost var m, lim := Machine(f.Content(), 0, false, false, 0), Limits(f.Capacity(), 512, 512);
    WriteThenRead(m, lim);
    var seen;
    seen, again := RunCloseAndRemount(f, [Seek(600, SEEK_SET), Write([7]), Seek(-1, SEEK_CUR), Read(1)], time, date,
        0, 8, [], m, lim);
  }
}
