/** kernel/disk.c: the file system calls over the current directory and the listing position, and
    what two or three of them do together. */
module DiskFrontEnd {
  import opened Bytes
  import opened FatTable
  import opened FatVolume
  import opened FatTree
  import opened FatGrowth
  import opened FatNames
  import opened FatDriver
  import opened DiskBytes

  // ----- Listing

  predicate IsRemoved(rec: Rec) { rec[0] == 0xE5 }

  /** `list_files` stops at the end of the log, and at a record whose readable name is empty. */
  predicate ListStops(log: seq<Rec>, i: nat) {
    i >= |log| || NameOf(log[i]) == []
  }

  /** The first record from `i` on that is not skipped as removed. */
  function Scan(log: seq<Rec>, i: nat): (k: nat)
    requires i <= |log|
    ensures i <= k <= |log|
    decreases |log| - i
  {
    if ListStops(log, i) || !IsRemoved(log[i]) then i else Scan(log, i + 1)
  }

  lemma {:induction false} ScanIs(log: seq<Rec>, i: nat)
    requires i <= |log|
    ensures var k := Scan(log, i);
            && (ListStops(log, k) || !IsRemoved(log[k]))
            && forall m :: i <= m < k ==> !ListStops(log, m) && IsRemoved(log[m])
    decreases |log| - i
  {
    hide NameOf;
    if !ListStops(log, i) && IsRemoved(log[i]) { ScanIs(log, i + 1); }
  }

  /** What repeated calls return before -1. */
  function Listing(log: seq<Rec>, i: nat): seq<nat>
    requires i <= |log|
    decreases |log| - i
  {
    var k := Scan(log, i);
    if ListStops(log, k) then [] else [k] + Listing(log, k + 1)
  }

  /** Where repeated calls from `i` on end. */
  function FirstStop(log: seq<Rec>, i: nat): (k: nat)
    requires i <= |log|
    ensures i <= k <= |log|
    decreases |log| - i
  {
    if ListStops(log, i) then i else FirstStop(log, i + 1)
  }

  lemma {:induction false} FirstStopIs(log: seq<Rec>, i: nat)
    requires i <= |log|
    ensures var k := FirstStop(log, i); ListStops(log, k) && forall m :: i <= m < k ==> !ListStops(log, m)
    decreases |log| - i
  {
    hide NameOf;
    if !ListStops(log, i) { FirstStopIs(log, i + 1); }
  }

  lemma ListingStep(log: seq<Rec>, i: nat)
    requires i <= |log|
    ensures var k := Scan(log, i);
            if ListStops(log, k) then Listing(log, i) == []
            else k < |log| && Listing(log, i) == [k] + Listing(log, k + 1)
  {
    hide NameOf, Scan;
  }

  lemma StopStep(log: seq<Rec>, i: nat)
    requires i <= |log|
    ensures var k := Scan(log, i);
            if ListStops(log, k) then FirstStop(log, i) == k
            else k < |log| && FirstStop(log, i) == FirstStop(log, k + 1)
  {
    hide NameOf, Scan, FirstStop;
    var k := Scan(log, i);
    ScanIs(log, i);
    FirstStopIs(log, i);
    if !ListStops(log, k) {
      FirstStopIs(log, k + 1);
      SameStop(log, FirstStop(log, i), FirstStop(log, k + 1), k + 1);
    }
  }

  lemma SameStop(log: seq<Rec>, m: nat, n: nat, from: nat)
    requires ListStops(log, m) && ListStops(log, n) && m >= from && n >= from
    requires forall x :: from <= x < m ==> !ListStops(log, x)
    requires forall x :: from <= x < n ==> !ListStops(log, x)
    ensures m == n
  {
    hide ListStops;
  }

  predicate NoStop(log: seq<Rec>, i: nat, k: nat) {
    forall m :: i <= m < k ==> !ListStops(log, m)
  }

  predicate Listed(log: seq<Rec>, i: nat, k: nat) {
    i <= k < |log| && NoStop(log, i, k + 1) && !IsRemoved(log[k])
  }

  /** The listing holds exactly the indices of the records that are not removed and come before
      the first stop, each once and in order. */
  lemma {:induction false} ListingExact(log: seq<Rec>, i: nat)
    requires i <= |log|
    ensures forall k: nat :: k in Listing(log, i) <==> Listed(log, i, k)
    ensures forall a, b :: 0 <= a < b < |Listing(log, i)| ==> Listing(log, i)[a] < Listing(log, i)[b]
    decreases |log| - i
  {
    hide NameOf, NoStop, ListStops, Scan, Listing, Listed;
    var k := Scan(log, i);
    ListingStep(log, i);
    if ListStops(log, k) {
      forall m: nat ensures !Listed(log, i, m) { NoneListed(log, i, m); }
    } else {
      ListingExact(log, k + 1);
      var all, rest := Listing(log, i), Listing(log, k + 1);
      forall m: nat ensures m in all <==> Listed(log, i, m) {
        assert m in all <==> m == k || m in rest;
        BeyondScan(log, i, m);
      }
      forall a, b | 0 <= a < b < |all| ensures all[a] < all[b] {
        assert rest[b - 1] in rest;
        BeyondScan(log, i, rest[b - 1]);
      }
    }
  }

  lemma NoneListed(log: seq<Rec>, i: nat, m: nat)
    requires i <= |log| && ListStops(log, Scan(log, i))
    ensures !Listed(log, i, m)
  {
    hide NameOf, Scan;
    ScanIs(log, i);
    if m >= Scan(log, i) { assert ListStops(log, Scan(log, i)); }
  }

  /** Which records are listed after a scan that found record `k`. */
  lemma BeyondScan(log: seq<Rec>, i: nat, m: nat)
    requires i <= |log| && !ListStops(log, Scan(log, i))
    ensures var k := Scan(log, i);
            k < |log| && (Listed(log, i, m) <==> m == k || Listed(log, k + 1, m)) && (Listed(log, k + 1, m) ==> m > k)
  {
    hide NameOf, Scan;
    var k := Scan(log, i);
    ScanIs(log, i);
    if m > k {
      assert NoStop(log, i, k + 1);
      assert NoStop(log, i, m + 1) <==> NoStop(log, k + 1, m + 1);
    }
  }

  /** A decoded name starts with 0xE5 exactly when the record is marked as removed. */
  lemma RemovedName(rec: Rec)
    requires NameOf(rec) != []
    ensures NameOf(rec)[0] == 0xE5 <==> IsRemoved(rec)
  {
    var s := Strip(rec[..8]);
    assert |s| > 0 ==> s[0] == rec[..8][0];
    assert |s| == 0 ==> rec[..8][0] == SPACE;
  }

  /** The name of a record is what `readFileName` gives back of the name it was made with. */
  lemma NameGiven(name: seq<Byte>, e: Entry, rec: Rec)
    requires |name| >= 12 && e.name == Encoded(name) && Holds(rec, e)
    ensures NameOf(rec) == CStr(Decoded(Encoded(name)) + [0])
  {
    hide Encoded, CStr, Strip;
    var d := Decoded(rec[..11]);
    assert rec[..11][..8] == rec[..8] && rec[..11][8..11] == rec[8..11];
    assert d == Decoded(rec);
    CStrTerminated(d, d + [0]);
  }

  /** A file or directory is listed under the name it was made with exactly when that is storable. */
  lemma ListedName(name: seq<Byte>, e: Entry, rec: Rec)
    requires |name| >= 12 && e.name == Encoded(name) && Holds(rec, e)
    ensures NameOf(rec) == CStr(name) <==> Storable(name)
  {
    hide Encoded, CStr, Storable, Decoded, NameOf, Holds;
    NameGiven(name, e, rec);
    NameRoundTrip(name);
  }

  /** Names that keep a file out of the listing: one that starts with 0xE5, and the empty one, behind
      which no record is listed. */
  lemma UnlistedNames()
    ensures var removed: seq<Byte> := [0xE5] + Zeros(11); |removed| >= 12 && removed[0] == 0xE5 && !BlankName(removed)
    ensures Zeros(12)[0] != 0xE5 && BlankName(Zeros(12))
  {
    var removed: seq<Byte> := [0xE5] + Zeros(11);
    assert BaseLen(removed) > 0;
    EmptyIsBlank();
  }

  lemma EmptyIsBlank()
    ensures BlankName(Zeros(12))
  {
    assert BaseLen(Zeros(12)) == 0;
  }

  /** No record from one with an empty name on is listed. */
  lemma HiddenBehind(log: seq<Rec>, log': seq<Rec>, i: nat)
    requires i < |log| <= |log'| && log'[..|log|] == log && NameOf(log[i]) == []
    ensures forall k :: i <= k ==> k !in Listing(log', 0)
  {
    hide NameOf, Listing;
    ListingExact(log', 0);
    assert log'[i] == log'[..|log|][i];
    assert ListStops(log', i);
  }

  /** The first `size` bytes of `got` are those of `content`; all of them exactly when `content` is
      shorter than 65536 bytes. */
  predicate Returned(content: seq<Byte>, got: seq<Byte>, size: nat) {
    && size == |content| % 0x1_0000 && size <= |content| && size <= |got|
    && got[..size] == content[..size]
    && (got[..size] == content <==> |content| < 0x1_0000)
  }

  /** There are free clusters enough for a file of `size` bytes and, if it needs one, for its directory. */
  ghost predicate Fits(v: Vol, spc: nat, d: nat, size: nat) {
    && spc >= 1 && |v.data| == |v.fat| && HasChain(v.fat, d)
    && |FreeSet(v)| >= ClustersFor(spc, size) + (if DirFull(v, d) then 1 else 0)
  }

  class FileSystem {
    const drv: Driver
    var currentCluster: nat
    var fileInd: nat

    ghost predicate Valid()
      reads this, drv
    {
      drv.Good() && currentCluster in drv.dirs && HasChain(drv.V().fat, currentCluster)
      && fileInd <= |CurrentLog()|
    }

    /** The records of the current directory. */
    ghost function CurrentLog(): seq<Rec>
      requires drv.Ready() && HasChain(drv.V().fat, currentCluster)
      reads this, drv
    {
      Log(Records(drv.V(), currentCluster))
    }

    constructor (drv: Driver)
      requires drv.Good()
      ensures Valid() && this.drv == drv && currentCluster == drv.g.root && fileInd == 0
    {
      hide FsOK, Mirrored, VolOf, Records, Log, CrashSafe, Geometry.First, Geometry.End;
      FsRoot(drv.V(), drv.g.spc, drv.g.root, drv.dirs);
      this.drv, currentCluster, fileInd := drv, drv.g.root, 0;
    }

    /** Reads record `ind` of the current directory. Inside the chain this changes nothing; just past
        its end it appends exactly one zeroed cluster, unless the volume is full. */
    method Lookup(ind: nat) returns (ok: bool, entry: Meta)
      requires Valid()
      modifies drv`disk, drv`seen, drv.buf
      ensures old(drv.seen) <= drv.seen
      ensures Valid() && CurrentLog() == old(CurrentLog()) && (!ok ==> Full(drv.V()))
      ensures ok ==> ind < |Records(drv.V(), currentCluster)| && entry == MetaOf(Records(drv.V(), currentCluster)[ind])
      ensures ok ==> if ind < |CurrentLog()| then entry == MetaOf(CurrentLog()[ind]) else entry.name == []
      ensures ok ==> entry.fstCluster == TargetOf(Records(drv.V(), currentCluster)[ind])
      ensures ind < |Records(old(drv.V()), currentCluster)| ==> ok && drv.V() == old(drv.V())
      ensures ind == |Records(old(drv.V()), currentCluster)| ==>
                Tried(old(drv.V()), drv.g.spc, currentCluster, ok, drv.V())
      ensures OnlyGrown(old(drv.V()), drv.g.spc, currentCluster, drv.V())
    {
      hide Full, Geometry.First, Geometry.End, FsOK, Mirrored, VolOf, CrashSafe, Grown, Flat, RecordsOf, ClusterIx, MetaOf, ChainOf,
        EndIndex, Tried, TargetOf;
      ghost var v := drv.V();
      FsFacts(v, drv.g.spc, drv.g.root, drv.dirs, currentCluster);
      ghost var s := ChainOf(v.fat, currentCluster);
      if ind < |Records(v, currentCluster)| { RecordPlace(v, drv.g.spc, currentCluster, s, ind); }
      ghost var s';
      ok, entry, s' := drv.GetMetadataFileFromDirectory(currentCluster, ind, s);
      LookupDone(v, drv.g.spc, drv.g.root, drv.dirs, currentCluster, s, ind, drv.V(), s');
      if ok { MetaBytes(Records(drv.V(), currentCluster)[ind]); }
      if ind == |Records(v, currentCluster)| {
        TriedIs(v, drv.g.spc, drv.g.root, drv.dirs, currentCluster, s, ind, ok, drv.V(), s');
      }
    }

    /** The index of the next listed record and its name, or -1. The disk changes exactly if the scan
        runs through a directory that fills its chain. */
    method ListFiles() returns (ok: bool, r: int, name: seq<Byte>)
      requires Valid()
      modifies this`fileInd, drv`disk, drv`seen, drv.buf
      ensures old(drv.seen) <= drv.seen
      ensures Valid() && CurrentLog() == old(CurrentLog())
      ensures ok ==>
                var log, k := old(CurrentLog()), Scan(old(CurrentLog()), old(fileInd));
                if ListStops(log, k) then r == -1 && fileInd == 0
                else r == k && name == NameOf(log[k]) && fileInd == k + 1
      ensures Ends(old(drv.V()), drv.g.spc, currentCluster, Scan(old(CurrentLog()), old(fileInd)), ok, drv.V())
    {
      hide Full, Geometry.First, Geometry.End, FsOK, Mirrored, VolOf, CrashSafe, Records, Log, NameOf, Tried;
      ghost var log, v := CurrentLog(), drv.V();
      LogFits(v, currentCluster);
      while true
        invariant old(drv.seen) <= drv.seen
        invariant Valid() && CurrentLog() == log && old(fileInd) <= fileInd && drv.V() == v
        invariant Scan(log, old(fileInd)) == Scan(log, fileInd)
        decreases |log| - fileInd
      {
        var entry;
        ok, entry := Lookup(fileInd);
        r, name := 0, [];
        if !ok { return; }
        if |entry.name| == 0 {
          fileInd := 0;
          r := -1;
          return;
        }
        RemovedName(log[fileInd]);
        if entry.name[0] != 0xE5 {
          name := entry.name;
          fileInd := fileInd + 1;
          r := fileInd - 1;
          return;
        }
        fileInd := fileInd + 1;
      }
    }

    /** Calling `list_files` from position 0 until it returns -1. */
    method ListAll() returns (ok: bool, found: seq<nat>, names: seq<seq<Byte>>)
      requires Valid() && fileInd == 0
      modifies this`fileInd, drv`disk, drv`seen, drv.buf
      ensures old(drv.seen) <= drv.seen
      ensures Valid() && CurrentLog() == old(CurrentLog())
      ensures ok ==> found == Listing(CurrentLog(), 0) && fileInd == 0 && |names| == |found|
      ensures ok ==> forall i :: 0 <= i < |found| ==> found[i] < |CurrentLog()| && names[i] == NameOf(CurrentLog()[found[i]])
      ensures Ends(old(drv.V()), drv.g.spc, currentCluster, FirstStop(old(CurrentLog()), 0), ok, drv.V())
    {
      hide Full, Geometry.First, Geometry.End, FsOK, Mirrored, VolOf, CrashSafe, Records, Log, NameOf, Listing, Scan,
        ListStops, HasChain, FirstStop, Tried;
      ghost var log, v := CurrentLog(), drv.V();
      found, names := [], [];
      while true
        invariant old(drv.seen) <= drv.seen
        invariant Valid() && CurrentLog() == log && drv.V() == v
        invariant found + Listing(log, fileInd) == Listing(log, 0) && FirstStop(log, fileInd) == FirstStop(log, 0)
        invariant |names| == |found|
        invariant forall i :: 0 <= i < |found| ==> found[i] < |log| && names[i] == NameOf(log[found[i]])
        decreases |log| - fileInd
      {
        var r, name;
        ListingStep(log, fileInd);
        StopStep(log, fileInd);
        ScanEnds(v, currentCluster, fileInd);
        ok, r, name := ListFiles();
        if !ok { return; }
        if r == -1 { return; }
        found, names := found + [r], names + [name];
      }
    }

    /** Makes the directory that record `ind` leads to the current one. */
    method ChangeDirectory(ind: nat) returns (ok: bool)
      requires Valid()
      modifies this, drv`disk, drv`seen, drv.buf
      ensures old(drv.seen) <= drv.seen
      ensures drv.Good() && (!ok ==> Valid() && currentCluster == old(currentCluster) && Full(drv.V()))
      ensures HasChain(drv.V().fat, old(currentCluster))
      ensures OnlyGrown(old(drv.V()), drv.g.spc, old(currentCluster), drv.V())
      ensures ok ==>
                && fileInd == 0 && ind < |Records(drv.V(), old(currentCluster))|
                && currentCluster == TargetOf(Records(drv.V(), old(currentCluster))[ind])
      ensures ok && currentCluster in drv.dirs ==> Valid()
      ensures ind < |old(CurrentLog())| ==>
                && ok && drv.V() == old(drv.V()) && currentCluster == TargetOf(old(CurrentLog())[ind])
                && (var rec := old(CurrentLog())[ind];
                    if [rec[20], rec[21], rec[26], rec[27]] == [0, 0, 0, 0] then currentCluster == 2
                    else currentCluster == U16(rec, 20) * 0x1_0000 + U16(rec, 26))
    {
      hide Full, Geometry.First, Geometry.End, FsOK, Mirrored, VolOf, CrashSafe, Log, MetaOf, ChainOf, FatSafe, TailFree, Logs, NoPred,
        Records, Tried, TargetOf, U16;
      LogFits(drv.V(), currentCluster);
      var entry;
      ok, entry := Lookup(ind);
      if !ok { return; }
      if ind < |CurrentLog()| {
        MetaBytes(CurrentLog()[ind]);
        TargetField(CurrentLog()[ind]);
      }
      if entry.fstCluster in drv.dirs { FsFacts(drv.V(), drv.g.spc, drv.g.root, drv.dirs, entry.fstCluster); }
      currentCluster := entry.fstCluster;
      fileInd := 0;
    }

    /** `mid` and `mid'` are the volumes after the parent's record and after ".". */
    method MakeDirectory(name: seq<Byte>)
      returns (ok: bool, ghost c: nat, ghost rec: Rec, ghost dot: Rec, ghost dotdot: Rec, ghost mid: Vol, ghost mid': Vol)
      requires Valid() && |name| >= 12
      modifies drv, drv.buf
      ensures old(drv.seen) <= drv.seen
      ensures drv.Good() && (if ok then Valid() else Full(drv.V()) && Spared(old(drv.V()), drv.V()))
      ensures ok <==> |FreeSet(old(drv.V()))| >= 1 + (if DirFull(old(drv.V()), currentCluster) then 1 else 0)
      ensures AppendTrail(old(drv.V()), drv.g.spc, currentCluster, old(drv.seen), drv.seen)
      ensures ok ==> drv.dirs == old(drv.dirs) + {c} && c !in old(drv.dirs) && HasChain(drv.V().fat, c)
      ensures ok ==> 2 <= c < drv.g.N() && old(drv.V()).fat[c] == 0
      ensures ok ==>
                && Appended(Marked(old(drv.V()), c, ZeroCluster(drv.g.spc)), drv.g.spc, currentCluster, rec, mid)
                && Appended(mid, drv.g.spc, c, dot, mid') && Appended(mid', drv.g.spc, c, dotdot, drv.V())
      ensures ok ==> Holds(rec, Entry(Encoded(name), 16, c, 0)) && CurrentLog() == old(CurrentLog()) + [rec]
      ensures ok ==> Holds(dot, Entry(DotName(), 16, c, 0)) && Holds(dotdot, Entry(DotDotName(), 16, currentCluster, 0))
      ensures ok ==> Log(Records(drv.V(), c)) == [dot, dotdot]
      ensures ok ==> NameOf(dot) == [0x2E] && NameOf(dotdot) == [0x2E, 0x2E]
      ensures ok ==> IsDir(dot) && TargetOf(dot) == c && IsDir(dotdot) && TargetOf(dotdot) == currentCluster
      ensures ok ==> rec[11] == dot[11] == dotdot[11] == 0x10 && TargetOf(rec) == c
    {
      hide Full, Geometry.First, Geometry.End, FsOK, Mirrored, VolOf, CrashSafe, Log, Appended, Holds, Records, ChainOf,
        AppendTrail, Spared, FreeSet, DirFull, NameOf, IsDir, TargetOf;
      ok, c, rec, dot, dotdot, mid, mid' := drv.Mkdir(currentCluster, name);
      if ok {
        HeldTarget(rec, Entry(Encoded(name), 16, c, 0));
        HeldTarget(dot, Entry(DotName(), 16, c, 0));
        HeldTarget(dotdot, Entry(DotDotName(), 16, currentCluster, 0));
      }
    }

    /** Copies the file of record `ind` to `buffer`; `e` is the chain from its first cluster on. */
    method ReadFile(ind: nat, buffer: array<Byte>, ghost rec: Rec, ghost e: seq<nat>)
      returns (ok: bool, size: nat, ghost e': seq<nat>)
      requires Valid() && HasRecord(drv.V(), currentCluster, ind, rec)
      requires IsChain(drv.V().fat, e) && e[0] == MetaOf(rec).fstCluster
      requires buffer != drv.buf && U32(rec, 28) <= buffer.Length
      modifies drv`disk, drv`seen, drv.buf, buffer
      ensures old(drv.seen) <= drv.seen
      ensures Valid() && CurrentLog() == old(CurrentLog()) && size == U32(rec, 28) && (!ok ==> Full(drv.V()))
      ensures Grown(old(drv.V()), drv.g.spc, e, drv.V(), e') && SameTree(old(drv.V()), drv.V(), drv.dirs)
      ensures |e| >= ClustersFor(drv.g.spc, size) ==> ok && drv.V() == old(drv.V())
      ensures ok ==> |e'| == Max(|e|, ClustersFor(drv.g.spc, size))
      ensures ok ==> InVol(drv.V(), e') && size <= |Content(drv.V(), e')| && buffer[..size] == Content(drv.V(), e')[..size]
      ensures ok && SectorsFor(size) <= Times(|e|, drv.g.spc) ==>
                && InVol(old(drv.V()), e) && size <= |Content(old(drv.V()), e)| && buffer[..size] == Content(old(drv.V()), e)[..size]
                && if SectorsFor(size) == Times(|e|, drv.g.spc)
                   then |e'| == |e| + 1 && ExtendedBy(old(drv.V()), drv.g.spc, e[|e| - 1], e'[|e|], drv.V())
                   else drv.V() == old(drv.V())
    {
      hide Full, Geometry.First, Geometry.End, FsOK, Mirrored, VolOf, CrashSafe, Tried, ChainOf, FatSafe, TailFree, Records, Log,
        Grown, Content, NameOf, Cluster, U32, ExtendedBy, SectorsFor, Times, ClustersFor, SameTree, HasChain;
      ghost var v := drv.V();
      LogFits(v, currentCluster);
      var entry;
      ok, entry := Lookup(ind);
      size := entry.size;
      ok, e' := drv.ReadFile(entry.fstCluster, buffer, entry.size, e);
      SameLog(v, drv.V(), drv.dirs, currentCluster);
      GoodFat(drv.V(), drv.g.spc, drv.g.root, drv.dirs);
      if |e'| == |e| { GrownSame(v, drv.g.spc, e, drv.V(), e'); }
      if ok && SectorsFor(size) <= Times(|e|, drv.g.spc) { CoveredRead(v, drv.g.spc, e, drv.V(), e', size); }
    }

    method WriteFile(content: seq<Byte>, name: seq<Byte>)
      returns (ok: bool, ghost fs: seq<nat>, ghost built: Vol, ghost rec: Rec)
      requires Valid() && |name| >= 12
      modifies drv`disk, drv`seen, drv.buf
      ensures old(drv.seen) <= drv.seen
      ensures drv.Good() && (if ok then Valid() else Full(drv.V()) && Spared(old(drv.V()), drv.V()))
      ensures ok <==> Fits(old(drv.V()), drv.g.spc, currentCluster, |content|)
      ensures AppendTrail(old(drv.V()), drv.g.spc, currentCluster, old(drv.seen), drv.seen)
      ensures ok ==> FileWritten(old(drv.V()), drv.g.spc, currentCluster, name, content, fs, built, rec, drv.V())
      ensures ok ==> OnDisk(drv.g, drv.disk, fs, content)
      ensures ok ==> rec[11] == 0 && rec[28] == |content| % 0x100 && rec[29] == |content| / 0x100 % 0x100 && rec[30] == rec[31] == 0
      ensures ok ==> |fs| > 0 && LowestFree(old(drv.V()), fs[0])
      ensures ok ==> fs[0] !in drv.dirs && CurrentLog() == old(CurrentLog()) + [rec]
      ensures ok && !Live(rec) ==> Orphan(drv.V(), drv.dirs, fs[0])
    {
      hide Full, Geometry.First, Geometry.End, FsOK, Mirrored, VolOf, CrashSafe, Log, Appended, Holds, Records, ChainOf, Content, Built,
        FileWritten, Orphan, Live, AppendTrail, Spared, FreeSet, DirFull, LowestFree, OnDisk;
      ghost var v := drv.V();
      ok, fs, built, rec := drv.WriteFile(currentCluster, name, content);
      if ok {
        WrittenLog(v, drv.g.spc, currentCluster, name, content, fs, built, rec, drv.V());
        WrittenOnDisk(v, drv.g, drv.disk, currentCluster, name, content, fs, built, rec);
        WrittenBytes(v, drv.g.spc, currentCluster, name, content, fs, built, rec, drv.V());
      }
    }

    /** Removes record `ind`, whatever it is; `p` is what `removeFATChain` visits, `mid` the volume once the
        record is marked. See `RemoveEntryFromDirectory`. */
    method RemoveDirectory(ind: nat, ghost rec: Rec, ghost p: seq<nat>) returns (ghost mid: Vol)
      requires Valid() && InDirectory(drv.V(), currentCluster, ind, rec)
      requires FreeRun(drv.V().fat, p) && p[0] == Cluster(rec)
      modifies drv, drv.buf
      ensures old(drv.seen) <= drv.seen && drv.dirs == old(drv.dirs) - NewDirs(rec)
      ensures drv.Ready() && Mirrored(drv.g, drv.disk)
      ensures drv.V() == Freed(mid, p) && Tombed(old(drv.V()), drv.g.spc, currentCluster, ind, mid)
      ensures Removable(old(drv.V()), old(drv.dirs), currentCluster, ind, rec) ==>
                && Valid() && IsChain(old(drv.V()).fat, p)
                && Removed(old(drv.V()), drv.g.spc, currentCluster, ind, drv.V())
                && CurrentLog() == old(CurrentLog())[ind := Tombstone(rec)]
      ensures HasRecord(old(drv.V()), currentCluster, ind, rec) && !Live(rec) && IsChain(old(drv.V()).fat, p) ==>
                (CrashSafe(drv.V(), drv.g.spc, drv.g.root) <==> NoPred(old(drv.V()).fat, p[0]) && !Led(old(drv.V()), drv.g.root, p[0]))
      ensures HasRecord(old(drv.V()), currentCluster, ind, rec) && FreeSlot(old(drv.V()).fat, p[0]) ==>
                && Valid() && drv.V() == SetFat(mid, 0, 0)
                && CurrentLog() == old(CurrentLog())[ind := Tombstone(rec)]
    {
      hide Geometry.First, Geometry.End, FsOK, Mirrored, VolOf, CrashSafe, ChainOf, FatSafe, Cluster, Freed, IsChain, EndIndex,
        Orphan, Live, Removed, Tombed, Records, Log, Led, NoPred, NewDirs, HasChain;
      ghost var v, dirs := drv.V(), drv.dirs;
      mid := drv.RemoveEntryFromDirectory(currentCluster, ind, rec, p);
      if HasRecord(v, currentCluster, ind, rec) {
        if Removable(v, dirs, currentCluster, ind, rec) { RemovedLog(v, drv.g.spc, drv.g.root, dirs, currentCluster, ind, rec, drv.V()); }
        if FreeSlot(v.fat, p[0]) { ClearedLog(v, drv.g.spc, drv.g.root, dirs, currentCluster, ind, rec, mid); }
      }
    }

    // ----- Calls together

    /** `write_file` followed by `read_file` on the record it appended, which is record `ind`: the
        read cannot fail, returns the bytes written (as many as the stored size says), and leaves the
        disk as the write left it: the final volume is the one that holds the new file. */
    method WriteThenRead(content: seq<Byte>, name: seq<Byte>, ind: nat, out: array<Byte>)
      returns (ok: bool, size: nat, ghost fs: seq<nat>, ghost built: Vol, ghost rec: Rec)
      requires Valid() && |name| >= 12 && ind == |CurrentLog()|
      requires out != drv.buf && |content| % 0x1_0000 <= out.Length
      modifies drv`disk, drv`seen, drv.buf, out
      ensures old(drv.seen) <= drv.seen
      ensures drv.Good() && (if ok then Valid() else Full(drv.V()) && Spared(old(drv.V()), drv.V()))
      ensures ok <==> Fits(old(drv.V()), drv.g.spc, currentCluster, |content|)
      ensures ok ==> FileWritten(old(drv.V()), drv.g.spc, currentCluster, name, content, fs, built, rec, drv.V())
      ensures ok ==> Returned(content, out[..], size)
    {
      hide Full, Geometry.First, Geometry.End, FsOK, Mirrored, VolOf, CrashSafe, Log, Appended, Records, ChainOf, Content, Built, Grown,
        FileWritten, HasRecord, MetaOf, IsChain, U32, ClustersFor, InVol, HasChain, Live, Orphan, Spared, Fits, AppendTrail, LowestFree;
      size := 0;
      ghost var v0 := drv.V();
      ok, fs, built, rec := WriteFile(content, name);
      if !ok { return; }
      AfterWrite(v0, drv.g.spc, currentCluster, ind, name, content, fs, built, rec, drv.V());
      size := ReadBack(content, ind, out, rec, fs);
      assert out[..][..size] == out[..size] && content[..|content|] == content;
    }

    /** Reading a file whose chain has a cluster to spare cannot fail and changes nothing on the disk. */
    method ReadBack(ghost content: seq<Byte>, ind: nat, out: array<Byte>, ghost rec: Rec, ghost fs: seq<nat>) returns (size: nat)
      requires Valid() && HasRecord(drv.V(), currentCluster, ind, rec)
      requires IsChain(drv.V().fat, fs) && fs[0] == MetaOf(rec).fstCluster
      requires out != drv.buf && U32(rec, 28) <= out.Length && U32(rec, 28) <= |content|
      requires ClustersFor(drv.g.spc, U32(rec, 28)) <= |fs|
      requires InVol(drv.V(), fs) && |content| <= |Content(drv.V(), fs)| && Content(drv.V(), fs)[..|content|] == content
      modifies drv`disk, drv`seen, drv.buf, out
      ensures old(drv.seen) <= drv.seen
      ensures Valid() && size == U32(rec, 28) && out[..size] == content[..size] && drv.disk == old(drv.disk)
    {
      hide Geometry.First, Geometry.End, FsOK, Mirrored, VolOf, CrashSafe, Log, Records, ChainOf, Content, Grown,
        HasRecord, MetaOf, IsChain, U32, ClustersFor, SameTree, SectorsFor, Times, ExtendedBy;
      ghost var v, d := drv.V(), drv.disk;
      var ok;
      ghost var fs';
      ok, size, fs' := ReadFile(ind, out, rec, fs);
      VolDeterminesDisk(drv.g, d, drv.disk);
      GrownSame(v, drv.g.spc, fs, v, fs');
      PrefixOf(Content(v, fs), content, size);
    }

    /** `write_file` followed by `remove_directory` on the record it appended: every FAT entry is what
        it was, except that the chain of a directory that was full has one free cluster more; and so is the
        contents of every cluster that was in use, but for the one that got the record. */
    method WriteThenRemove(content: seq<Byte>, name: seq<Byte>, ind: nat)
      returns (ok: bool, ghost fs: seq<nat>, ghost rec: Rec)
      requires Valid() && |name| >= 12 && ind == |CurrentLog()|
      modifies drv, drv.buf
      ensures old(drv.seen) <= drv.seen
      ensures drv.Good() && (if ok then Valid() && drv.dirs == old(drv.dirs) else Full(drv.V()) && Spared(old(drv.V()), drv.V()))
      ensures ok <==> Fits(old(drv.V()), drv.g.spc, currentCluster, |content|)
      ensures ok ==> Conserved(old(drv.V()), drv.g.spc, currentCluster, drv.V())
      ensures ok ==> CurrentLog() == old(CurrentLog()) + [Tombstone(rec)] && |fs| > 0 && LowestFree(old(drv.V()), fs[0])
      ensures ok ==> Cluster(rec) == fs[0] < drv.g.N() && drv.V().fat[fs[0]] == 0
    {
      hide Full, Geometry.First, Geometry.End, FsOK, Mirrored, VolOf, CrashSafe, Log, Appended, Records, ChainOf, Content, Built,
        FileWritten, HasRecord, MetaOf, Cluster, IsChain, U32, ClustersFor, InVol, HasChain, Cleared, Removed, Conserved, NewDirs, Live, Orphan,
        Spared, Fits, AppendTrail, LowestFree, Tombed, FreeSlot, Led, NoPred, Freed;
      ghost var v := drv.V();
      FsFacts(v, drv.g.spc, drv.g.root, drv.dirs, currentCluster);
      ghost var built;
      ok, fs, built, rec := WriteFile(content, name);
      if !ok { return; }
      ghost var v1 := drv.V();
      AfterWrite(v, drv.g.spc, currentCluster, ind, name, content, fs, built, rec, v1);
      RemoveReady(v1, drv.g.spc, drv.g.root, drv.dirs, currentCluster, ind, rec, fs);
      ghost var mid := RemoveDirectory(ind, rec, fs);
      assert drv.dirs == old(drv.dirs);
      WrittenRemoved(v, drv.g.spc, drv.g.root, drv.dirs, currentCluster, ind, name, content, fs, built, rec, v1, mid, drv.V());
      assert (old(CurrentLog()) + [rec])[ind := Tombstone(rec)] == old(CurrentLog()) + [Tombstone(rec)];
    }

    /** The same, and then `remove_directory` on that record once more: its cluster is free, so the driver
        goes on to cluster 0 and clears entry 0. From then on it would go from cluster 0 to cluster 0 for
        ever: a third removal does not end. */
    method RemoveTwice(content: seq<Byte>, name: seq<Byte>, ind: nat) returns (ok: bool)
      requires Valid() && |name| >= 12 && ind == |CurrentLog()| && drv.V().fat[0] >= EOC
      modifies drv, drv.buf
      ensures drv.Good() && (ok ==> Valid())
      ensures ok <==> Fits(old(drv.V()), drv.g.spc, currentCluster, |content|)
      ensures ok ==> |CurrentLog()| == ind + 1 && drv.V().fat[0] == 0
      ensures ok ==> !FreeEnds(drv.V().fat, Cluster(CurrentLog()[ind]))
    {
      hide Full, Geometry.First, Geometry.End, FsOK, Mirrored, VolOf, CrashSafe, Log, Records, ChainOf, HasRecord, Cluster, IsChain,
        HasChain, Removed, Conserved, NewDirs, Live, Orphan, Spared, Fits, LowestFree, Tombed, Led, NoPred, Freed, FreeRun;
      ghost var v := drv.V();
      ghost var fs, rec;
      ok, fs, rec := WriteThenRemove(content, name, ind);
      if !ok { return; }
      ghost var v1, gone := drv.V(), Tombstone(rec);
      GoneRecord(rec);
      FreedAgain(v, drv.g.spc, currentCluster, v1, fs[0]);
      LogRecord(v1, currentCluster, ind, gone);
      FreeClusterEnds(v1.fat, fs[0]);
      ghost var mid := RemoveDirectory(ind, gone, [fs[0], 0]);
      GoneRecord(gone);
      TombedFat(v1, drv.g.spc, currentCluster, ind, mid);
      FreeClusterEnds(drv.V().fat, fs[0]);
    }

    /** File A is written and removed, file B is written, and A's record is removed once more: B has got
        A's first cluster, so B is freed although its record is live. If the directory is the root, the
        volume is no longer crash-safe. */
    method RemoveReused(contentA: seq<Byte>, nameA: seq<Byte>, contentB: seq<Byte>, nameB: seq<Byte>, ind: nat)
      returns (ok: bool, ghost recB: Rec, ghost v1: Vol)
      requires Valid() && |nameA| >= 12 && |nameB| >= 12 && nameB[0] != 0xE5 && ind == |CurrentLog()|
      modifies drv, drv.buf
      ensures drv.Ready() && (ok ==> HasChain(drv.V().fat, currentCluster))
      ensures ok <==> Fits(old(drv.V()), drv.g.spc, currentCluster, |contentA|) && Fits(v1, drv.g.spc, currentCluster, |contentB|)
      ensures Fits(old(drv.V()), drv.g.spc, currentCluster, |contentA|) ==> Conserved(old(drv.V()), drv.g.spc, currentCluster, v1)
      ensures ok ==> |CurrentLog()| == ind + 2 && CurrentLog()[ind + 1] == recB && Live(recB)
      ensures ok ==> Cluster(recB) < drv.g.N() && drv.V().fat[Cluster(recB)] == 0
      ensures ok && currentCluster == drv.g.root ==> !CrashSafe(drv.V(), drv.g.spc, drv.g.root)
    {
      hide Full, Geometry.First, Geometry.End, FsOK, Mirrored, VolOf, CrashSafe, Log, Records, ChainOf, HasRecord, Cluster, IsChain,
        HasChain, Removed, Conserved, NewDirs, Live, Orphan, Spared, Fits, LowestFree, Tombed, Led, NoPred, Freed, FreeRun, FreeSlot,
        Appended, Content, Built, FileWritten, MetaOf, U32, ClustersFor, InVol, AppendTrail;
      recB := seq(32, _ => 0);
      ghost var v := drv.V();
      ghost var fsA, fsB, recA, built;
      ok, fsA, recA := WriteThenRemove(contentA, nameA, ind);
      v1 := drv.V();
      if !ok { return; }
      ghost var gone := Tombstone(recA);
      GoneRecord(recA);
      FreedAgain(v, drv.g.spc, currentCluster, v1, fsA[0]);
      ok, fsB, built, recB := WriteFile(contentB, nameB);
      if !ok { return; }
      ghost var v2 := drv.V();
      SameLowest(v1, fsA[0], fsB[0]);
      AfterWrite(v1, drv.g.spc, currentCluster, ind + 1, nameB, contentB, fsB, built, recB, v2);
      LogRecord(v2, currentCluster, ind, gone);
      LogRecord(v2, currentCluster, ind + 1, recB);
      ghost var dirs := drv.dirs;
      SafeRun(v2, drv.g.spc, drv.g.root, dirs, fsB);
      ghost var mid := RemoveDirectory(ind, gone, fsB);
      ReusedDone(v2, drv.g.spc, drv.g.root, dirs, currentCluster, ind, gone, recB, fsB, mid, drv.V());
    }

    /** `write_file` followed by a whole listing: the new record `ind` is listed exactly when the name
        does not start with 0xE5, is not blank, and no earlier record has an empty name. */
    method WriteThenList(content: seq<Byte>, name: seq<Byte>, ind: nat)
      returns (ok: bool, found: seq<nat>, names: seq<seq<Byte>>)
      requires Valid() && fileInd == 0 && |name| >= 12 && ind == |CurrentLog()|
      modifies this`fileInd, drv`disk, drv`seen, drv.buf
      ensures drv.Good() && (if ok then Valid() else Full(drv.V()))
      ensures DirSpared(old(drv.V()), currentCluster, drv.V())
      ensures old(drv.seen) <= drv.seen && (ok ==> fileInd == 0)
      ensures ok ==> |CurrentLog()| == ind + 1 && CurrentLog()[..ind] == old(CurrentLog()) && found == Listing(CurrentLog(), 0)
      ensures ok ==> (NameOf(CurrentLog()[ind]) == [] <==> BlankName(name))
      ensures ok ==> (ind in found <==> name[0] != 0xE5 && !BlankName(name) && NoStop(old(CurrentLog()), 0, ind))
    {
      hide Full, Geometry.First, Geometry.End, FsOK, Mirrored, VolOf, CrashSafe, Log, Appended, Records, ChainOf, Content, Built,
        FileWritten, HasRecord, MetaOf, NameOf, IsChain, U32, ClustersFor, InVol, HasChain, Live, Orphan, BlankName, Listing, FirstStop,
        NoStop, IsRemoved, Spared, Fits, AppendTrail, LowestFree, DirSpared, Ends, FatSafe;
      found, names := [], [];
      ghost var v0, log := drv.V(), CurrentLog();
      ghost var fs, built, rec;
      FsFacts(v0, drv.g.spc, drv.g.root, drv.dirs, currentCluster);
      ok, fs, built, rec := WriteFile(content, name);
      ghost var v1 := drv.V();
      if !ok {
        SparedDir(v0, drv.g.spc, currentCluster, v1);
        return;
      }
      WrittenSpared(v0, drv.g.spc, currentCluster, name, content, fs, built, rec, v1);
      AfterWrite(v0, drv.g.spc, currentCluster, ind, name, content, fs, built, rec, v1);
      FsFacts(v1, drv.g.spc, drv.g.root, drv.dirs, currentCluster);
      ok, found, names := ListAll();
      EndsSpared(v1, drv.g.spc, currentCluster, FirstStop(log + [rec], 0), ok, drv.V());
      DirSparedTrans(v0, v1, drv.V(), currentCluster);
      WhenListed(log, rec, name);
    }

    /** After a file with an empty name, neither it nor any later one is listed. */
    method WriteUnnamed(content: seq<Byte>, content': seq<Byte>, name: seq<Byte>, ind: nat)
      returns (ok: bool, found: seq<nat>, names: seq<seq<Byte>>)
      requires Valid() && fileInd == 0 && |name| >= 12 && ind == |CurrentLog()|
      modifies this`fileInd, drv`disk, drv`seen, drv.buf
      ensures drv.Good() && (if ok then Valid() else Full(drv.V()))
      ensures DirSpared(old(drv.V()), currentCluster, drv.V())
      ensures old(drv.seen) <= drv.seen
      ensures ok ==> |CurrentLog()| == ind + 2 && ind !in found && ind + 1 !in found
    {
      hide Full, Geometry.First, Geometry.End, FsOK, Mirrored, VolOf, CrashSafe, Log, Records, ChainOf, NameOf, HasChain, BlankName,
        Listing, FirstStop, DirSpared;
      ghost var v0 := drv.V();
      ok, found, names := WriteThenList(content, Zeros(12), ind);
      if !ok { return; }
      ghost var log, v1 := CurrentLog(), drv.V();
      EmptyIsBlank();
      ok, found, names := WriteThenList(content', name, ind + 1);
      DirSparedTrans(v0, v1, drv.V(), currentCluster);
      if !ok { return; }
      HiddenBehind(log, CurrentLog(), ind);
    }

    /** `make_directory`, then `change_directory` into the new directory; its whole listing, which is "." and
        ".."; and `change_directory` to the one listed as "..": the current directory is the one before.
        `ind` is the index of the new record. */
    method MakeEnterLeave(name: seq<Byte>, ind: nat) returns (ok: bool, found: seq<nat>, names: seq<seq<Byte>>)
      requires Valid() && |name| >= 12 && ind == |CurrentLog()|
      modifies this, drv, drv.buf
      ensures old(drv.seen) <= drv.seen
      ensures drv.Good() && (ok ==> Valid() && currentCluster == old(currentCluster))
      ensures ok ==> found == [0, 1] && names == [[0x2E], [0x2E, 0x2E]]
      ensures !ok ==> Full(drv.V()) && Spared(old(drv.V()), drv.V())
    {
      hide Full, Geometry.First, Geometry.End, FsOK, Mirrored, VolOf, CrashSafe, Log, Records, ChainOf, HasChain, Appended,
        Holds, MetaOf, FatSafe, TailFree, NoPred, Logs, Spared, FreeSet, DirFull, AppendTrail, OnlyGrown, NameOf, TargetOf, IsDir, Listing,
        FirstStop, U16;
      found, names := [], [];
      ghost var c, rec, dot, dotdot, mid, mid';
      var here := currentCluster;
      FsFacts(drv.V(), drv.g.spc, drv.g.root, drv.dirs, here);
      ok, c, rec, dot, dotdot, mid, mid' := MakeDirectory(name);
      if !ok { return; }
      FsFacts(drv.V(), drv.g.spc, drv.g.root, drv.dirs, c);
      HeldTarget(rec, Entry(Encoded(name), 16, c, 0));
      ok := ChangeDirectory(ind);
      ghost var v := drv.V();
      DotListing(v, drv.g.spc, c, dot, dotdot);
      ok, found, names := ListAll();
      assert names == [[0x2E], [0x2E, 0x2E]];
      ok := ChangeDirectory(found[1]);
    }

    /** `change_directory` into a directory whose record 1 has a cluster field of zero, as other systems write
        ".." in a directory of the root, and then into that record: the current directory is the root. */
    method EnterLeaveRoot(ind: nat, ghost c: nat)
      requires Valid() && currentCluster == drv.g.root == 2 && ind < |CurrentLog()| && TargetOf(CurrentLog()[ind]) == c
      requires c in drv.dirs && HasChain(drv.V().fat, c) && |Log(Records(drv.V(), c))| > 1
      requires forall b :: b in {20, 21, 26, 27} ==> Log(Records(drv.V(), c))[1][b] == 0
      modifies this, drv`disk, drv`seen, drv.buf
      ensures Valid() && currentCluster == drv.g.root && fileInd == 0 && drv.V() == old(drv.V())
    {
      hide Full, Geometry.First, Geometry.End, FsOK, Mirrored, VolOf, CrashSafe, Log, Records, ChainOf, HasChain, TargetOf, OnlyGrown, U16;
      ghost var dotdot := Log(Records(drv.V(), c))[1];
      TargetField(dotdot);
      assert dotdot[20] == 0 && dotdot[21] == 0 && dotdot[26] == 0 && dotdot[27] == 0;
      FsRoot(drv.V(), drv.g.spc, drv.g.root, drv.dirs);
      var ok := ChangeDirectory(ind);
      ok := ChangeDirectory(1);
    }
  }

  /** Every cluster that is in use and not one of directory `d` is as it was, and `d` may have grown. */
  ghost predicate DirSpared(v: Vol, d: nat, w: Vol) {
    && HasChain(v.fat, d) && HasChain(w.fat, d)
    && (var own := Members(ChainOf(v.fat, d));
        SparedBut(v, w, own, own) && forall c :: c in ChainOf(w.fat, d) ==> c in own || !InUse(v, c))
  }

  lemma DirSparedTrans(v: Vol, v1: Vol, w: Vol, d: nat)
    requires DirSpared(v, d, v1) && DirSpared(v1, d, w)
    ensures DirSpared(v, d, w)
  {
    hide ChainOf, HasChain, InUse;
    var own, own1 := Members(ChainOf(v.fat, d)), Members(ChainOf(v1.fat, d));
    SparedTrans(v, v1, w, own, own, own1, own1);
  }

  lemma SparedDir(v: Vol, spc: nat, d: nat, w: Vol)
    requires Spared(v, w) && Shape(v, spc) && |v.fat| <= EOC && HasChain(v.fat, d)
    ensures DirSpared(v, d, w)
  {
    hide ChainOf, IsChain, Content;
    SparedChain(v, spc, w, {}, {}, ChainOf(v.fat, d));
    ChainOfIs(w.fat, ChainOf(v.fat, d));
    SparedMore(v, w, Members(ChainOf(v.fat, d)), Members(ChainOf(v.fat, d)));
  }

  lemma WrittenSpared(v: Vol, spc: nat, d: nat, name: seq<Byte>, content: seq<Byte>, fs: seq<nat>, built: Vol, rec: Rec, v1: Vol)
    requires FileWritten(v, spc, d, name, content, fs, built, rec, v1) && |v.fat| <= EOC
    ensures DirSpared(v, d, v1)
  {
    hide FileWritten, Appended, Built, DirSpared, Records, ChainOf;
    WrittenParts(v, spc, d, name, content, fs, built, rec, v1);
    BuiltSpared(v, spc, fs, built);
    BuiltShape(v, spc, fs, built);
    SparedDir(v, spc, d, built);
    AppendedSpared(built, spc, d, rec, v1);
    DirSparedTrans(v, built, v1, d);
  }

  lemma BuiltShape(v: Vol, spc: nat, fs: seq<nat>, built: Vol)
    requires Built(v, spc, fs, built)
    ensures Shape(v, spc)
  {}

  lemma AppendedSpared(v: Vol, spc: nat, d: nat, rec: Rec, v': Vol)
    requires spc >= 1 && Appended(v, spc, d, rec, v') && |v.fat| <= EOC
    ensures DirSpared(v, d, v')
  {
    hide Records, Log, TailFree, EndIndex, ClusterIx, ChainOf;
    var s, s', j := ChainOf(v.fat, d), ChainOf(v'.fat, d), ClusterIx(spc, EndIndex(Records(v, d)));
    forall i | 0 <= i < |s'| ensures s'[i] in s || !InUse(v, s'[i]) {
      if i < |s| { assert s'[..|s|][i] == s[i]; }
    }
    forall c | InUse(v, c) ensures InUse(v', c) && (c !in s ==> v'.fat[c] == v.fat[c] && v'.data[c] == v.data[c]) {
      UseKept(v, s, v', s', j, c);
    }
  }

  /** A cluster in use stays so, and is as it was if it is none of the directory's. */
  lemma UseKept(v: Vol, s: seq<nat>, v': Vol, s': seq<nat>, j: nat, c: int)
    requires |v.data| == |v.fat| == |v'.fat| == |v'.data| && IsChain(v'.fat, s') && 0 < |s| <= |s'| && j < |s'| && InUse(v, c)
    requires forall i :: 0 <= i < |s'| ==> s'[i] in s || !InUse(v, s'[i])
    requires forall x :: 0 <= x < |v.fat| && x !in s'[|s| - 1..] ==> v'.fat[x] == v.fat[x]
    requires forall x :: 0 <= x < |v.data| && x != s'[j] ==> v'.data[x] == v.data[x]
    ensures InUse(v', c) && (c !in s ==> v'.fat[c] == v.fat[c] && v'.data[c] == v.data[c])
  {
    if c in s' {
      var i :| 0 <= i < |s'| && s'[i] == c;
      ChainAllocated(v'.fat, s', i);
    } else {
      assert forall x :: x in s'[|s| - 1..] ==> x in s';
    }
  }

  lemma EndsSpared(v: Vol, spc: nat, d: nat, k: nat, ok: bool, v': Vol)
    requires Shape(v, spc) && |v.fat| <= EOC && HasChain(v.fat, d) && Ends(v, spc, d, k, ok, v')
    ensures DirSpared(v, d, v') && (!ok ==> Full(v'))
  {
    hide Records, ChainOf, Full, Extended;
    if v' == v {
      SparedRefl(v, spc);
      SparedDir(v, spc, d, v);
    } else {
      var s, s' := ChainOf(v.fat, d), ChainOf(v'.fat, d);
      ExtendedSpared(v, spc, s[|s| - 1], s'[|s|]);
      var own := Members(s);
      SparedTrans(v, v, v', own, own, {s[|s| - 1]}, {});
      forall i | 0 <= i < |s'| ensures s'[i] in s || !InUse(v, s'[i]) {
        if i < |s| { assert s'[..|s|][i] == s[i]; }
      }
    }
  }

  /** The FAT of `v'` is that of `v`, except that the chain of `d` has one cluster more if its records filled
      it; and every cluster in use holds what it held, but for the one with room for a record of `d`. */
  ghost predicate Conserved(v: Vol, spc: nat, d: nat, v': Vol) {
    && spc >= 1 && |v.data| == |v.fat| == |v'.fat| == |v'.data| && HasChain(v.fat, d) && HasChain(v'.fat, d)
    && (var s, s' := ChainOf(v.fat, d), ChainOf(v'.fat, d);
        if DirFull(v, d) then Linked(v.fat, s, v'.fat, s') else v'.fat == v.fat && s' == s)
    && (forall c :: InUse(v, c) && c !in SlotCluster(v, spc, d) ==> v'.data[c] == v.data[c])
    && v'.boot == v.boot && v'.spare == v.spare
  }

  /** `fat'` is `fat` with one free cluster, marked as the end, appended to the chain `s`. */
  predicate Linked(fat: seq<nat>, s: seq<nat>, fat': seq<nat>, s': seq<nat>) {
    && 0 < |s| < |s'| == |s| + 1 && s == s'[..|s|] && s[|s| - 1] < |fat| && s'[|s|] < |fat| && fat[s'[|s|]] == 0
    && fat' == fat[s'[|s|] := MARK][s[|s| - 1] := s'[|s|]]
  }

  lemma LogFits(v: Vol, d: nat)
    requires |v.data| == |v.fat| && HasChain(v.fat, d)
    ensures |Log(Records(v, d))| <= |Records(v, d)|
  {}

  lemma FsRoot(v: Vol, spc: nat, root: nat, dirs: set<nat>)
    requires FsOK(v, spc, root, dirs)
    ensures root in dirs && HasChain(v.fat, root)
  {}

  /** Nothing differs but that the chain of `d` may have been extended, by zeroed clusters. */
  ghost predicate OnlyGrown(v: Vol, spc: nat, d: nat, v': Vol) {
    HasChain(v.fat, d) && HasChain(v'.fat, d) && Grown(v, spc, ChainOf(v.fat, d), v', ChainOf(v'.fat, d))
  }

  /** The chain of `d` was extended by one zeroed cluster. */
  ghost predicate Lengthened(v: Vol, spc: nat, d: nat, v': Vol) {
    && HasChain(v.fat, d) && HasChain(v'.fat, d)
    && (var s, s' := ChainOf(v.fat, d), ChainOf(v'.fat, d);
        |s'| == |s| + 1 && s == s'[..|s|] && ExtendedBy(v, spc, s[|s| - 1], s'[|s|], v'))
  }

  /** What a look just past the end of the chain of `d` does. */
  ghost predicate Tried(v: Vol, spc: nat, d: nat, ok: bool, v': Vol) {
    && (ok <==> !Full(v))
    && if ok then v' != v && Lengthened(v, spc, d, v') else v' == v
  }

  /** A listing of directory `d` that comes to its end, or to a result, at index `k`: it fails or changes
      the disk only if `k` is just past the last record that the chain has room for. */
  ghost predicate Ends(v: Vol, spc: nat, d: nat, k: nat, ok: bool, v': Vol)
    requires |v.data| == |v.fat| && HasChain(v.fat, d)
  {
    if k < |Records(v, d)| then ok && v' == v else Tried(v, spc, d, ok, v')
  }

  lemma TriedIs(v: Vol, spc: nat, root: nat, dirs: set<nat>, d: nat, s: seq<nat>, i: nat, ok: bool, v': Vol, s': seq<nat>)
    requires spc >= 1 && FsOK(v, spc, root, dirs) && FsOK(v', spc, root, dirs) && d in dirs
    requires HasChain(v.fat, d) && s == ChainOf(v.fat, d) && Grown(v, spc, s, v', s') && i == |Records(v, d)|
    requires if ok then |s'| == Max(|s|, ClusterIx(spc, i) + 1) else |s| <= |s'| <= ClusterIx(spc, i) && Full(v')
    requires HasChain(v'.fat, d) && s' == ChainOf(v'.fat, d)
    ensures Tried(v, spc, d, ok, v')
  {
    hide FsOK, Records, FatSafe, ChainOf, Full, ClusterIx;
    FsFacts(v, spc, root, dirs, d);
    FsFacts(v', spc, root, dirs, d);
    EndCluster(v, spc, d, s);
    if ok {
      GrownOnce(v, spc, s, v', s');
      NotFull(v, s'[|s|]);
    } else {
      GrownSame(v, spc, s, v', s');
    }
  }

  lemma NotFull(v: Vol, c: nat)
    requires 2 <= c < |v.fat| && v.fat[c] == 0
    ensures !Full(v)
  {}

  /** A scan that does not stop returns a record inside the chain. */
  lemma ScanEnds(v: Vol, d: nat, i: nat)
    requires |v.data| == |v.fat| && HasChain(v.fat, d) && i <= |Log(Records(v, d))|
    ensures !ListStops(Log(Records(v, d)), Scan(Log(Records(v, d)), i)) ==>
              Scan(Log(Records(v, d)), i) < |Records(v, d)|
  {
    hide NameOf, Scan;
    LogFits(v, d);
  }

  lemma LookupDone(v: Vol, spc: nat, root: nat, dirs: set<nat>, d: nat, s: seq<nat>, i: nat, v': Vol, s': seq<nat>)
    requires spc >= 1 && FsOK(v, spc, root, dirs) && FsOK(v', spc, root, dirs) && d in dirs
    requires HasChain(v.fat, d) && s == ChainOf(v.fat, d) && Grown(v, spc, s, v', s')
    ensures HasChain(v'.fat, d) && s' == ChainOf(v'.fat, d) && Log(Records(v', d)) == Log(Records(v, d))
    ensures InVol(v', s') && RecordsOf(Flat(v', s')) == Records(v', d)
    ensures i < |Log(Records(v, d))| && i < |Records(v', d)| ==> Records(v', d)[i] == Log(Records(v, d))[i]
    ensures |Log(Records(v, d))| <= i < |Records(v', d)| ==> MetaOf(Records(v', d)[i]).name == []
    ensures |s'| == |s| ==> v' == v
  {
    hide FsOK, Flat, RecordsOf, EndIndex, MetaOf, Log, TailFree, FatSafe;
    FsFacts(v, spc, root, dirs, d);
    FsFacts(v', spc, root, dirs, d);
    GrownEnd(v, spc, d, s, v', s');
    if i < |Records(v', d)| { RecordAt(Records(v', d), i); }
  }

  /** Records before the end of a directory are those of its log; those behind have no name. */
  lemma RecordAt(recs: seq<Rec>, i: nat)
    requires TailFree(recs) && i < |recs|
    ensures if i < |Log(recs)| then recs[i] == Log(recs)[i] else MetaOf(recs[i]).name == []
  {
    hide EndIndex;
    var n := EndIndex(recs);
    if n <= i {
      assert recs[i] == recs[n..][i - n];
      Unnamed(recs[i]);
    }
  }

  lemma Unnamed(rec: Rec)
    requires rec[0] == 0
    ensures MetaOf(rec).name == []
  {}

  /** An index up to the number of records needs at most one cluster more than there are. */
  lemma IndexBound(v: Vol, spc: nat, d: nat, s: seq<nat>, i: nat)
    requires spc >= 1 && Shape(v, spc) && HasChain(v.fat, d) && s == ChainOf(v.fat, d) && i <= |Records(v, d)|
    ensures ClusterIx(spc, i) <= |s| && (i < |Records(v, d)| ==> ClusterIx(spc, i) < |s|)
  {
    hide ClusterIx, SectorIx, Flat;
    FlatLength(v, spc, s);
    RecordIx(spc, i);
    TimesMono(|s|, ClusterIx(spc, i), spc);
  }

  // ----- Proof steps

  lemma RemovedLog(v: Vol, spc: nat, root: nat, dirs: set<nat>, d: nat, i: nat, rec: Rec, v': Vol)
    requires spc >= 1 && FsOK(v, spc, root, dirs) && d in dirs && HasRecord(v, d, i, rec) && Removed(v, spc, d, i, v')
    ensures |v'.data| == |v'.fat| && HasChain(v'.fat, d) && Log(Records(v', d)) == Log(Records(v, d))[i := Tombstone(rec)]
    ensures ChainOf(v'.fat, d) == ChainOf(v.fat, d)
  {
    hide FsOK, Records, EndIndex, ClusterIx, FatSafe, ChainOf;
    FsFacts(v, spc, root, dirs, d);
    LogReplace(Records(v, d), i, Tombstone(rec));
  }

  lemma ClearedLog(v: Vol, spc: nat, root: nat, dirs: set<nat>, d: nat, i: nat, rec: Rec, mid: Vol)
    requires spc >= 1 && FsOK(v, spc, root, dirs) && d in dirs && HasRecord(v, d, i, rec) && Tombed(v, spc, d, i, mid)
    ensures |mid.data| == |mid.fat| && HasChain(SetFat(mid, 0, 0).fat, d)
    ensures Log(Records(SetFat(mid, 0, 0), d)) == Log(Records(v, d))[i := Tombstone(rec)]
  {
    hide FsOK, Records, EndIndex, ClusterIx, FatSafe, ChainOf, IsHead;
    FsFacts(v, spc, root, dirs, d);
    LogReplace(Records(v, d), i, Tombstone(rec));
    ChainKept(mid, SetFat(mid, 0, 0), spc, ChainOf(mid.fat, d));
  }

  lemma LogRecord(v: Vol, d: nat, i: nat, rec: Rec)
    requires |v.data| == |v.fat| && HasChain(v.fat, d) && i < |Log(Records(v, d))| && rec == Log(Records(v, d))[i]
    ensures HasRecord(v, d, i, rec) && InDirectory(v, d, i, rec)
  {
    hide Records, HasChain;
  }

  lemma SafeRun(v: Vol, spc: nat, root: nat, dirs: set<nat>, s: seq<nat>)
    requires FsOK(v, spc, root, dirs) && IsChain(v.fat, s)
    ensures FreeRun(v.fat, s)
  {
    hide TreeOK, Records;
    ChainRun(v.fat, s);
  }

  lemma GoneRecord(rec: Rec)
    ensures Cluster(Tombstone(rec)) == Cluster(rec) && !Live(Tombstone(rec)) && NewDirs(Tombstone(rec)) == {}
    ensures Tombstone(Tombstone(rec)) == Tombstone(rec)
  {}

  /** Writing and removing a file leaves its first cluster the lowest free one. */
  lemma FreedAgain(v: Vol, spc: nat, d: nat, v1: Vol, c: nat)
    requires Conserved(v, spc, d, v1) && LowestFree(v, c) && v1.fat[c] == 0
    ensures LowestFree(v1, c) && v1.fat[0] == v.fat[0]
  {
    hide Records, EndIndex, ClusterIx, SlotCluster, ChainOf;
    var s := ChainOf(v.fat, d);
    assert 2 <= s[|s| - 1];
  }

  lemma SameLowest(v: Vol, a: nat, b: nat)
    requires LowestFree(v, a) && LowestFree(v, b)
    ensures a == b
  {}

  /** The record of the freed file is still there and live. */
  lemma ReusedDone(v: Vol, spc: nat, root: nat, dirs: set<nat>, d: nat, i: nat, gone: Rec, rec: Rec, fs: seq<nat>, mid: Vol, v': Vol)
    requires spc >= 1 && FsOK(v, spc, root, dirs) && d in dirs && IsChain(v.fat, fs) && fs[0] == Cluster(rec)
    requires HasRecord(v, d, i, gone) && Tombstone(gone) == gone && HasRecord(v, d, i + 1, rec) && Live(rec)
    requires Tombed(v, spc, d, i, mid) && v' == Freed(mid, fs)
    requires CrashSafe(v', spc, root) ==> !Led(v, root, fs[0])
    ensures |v'.data| == |v'.fat| && HasChain(v'.fat, d) && Log(Records(v', d)) == Log(Records(v, d))
    ensures fs[0] < |v'.fat| && v'.fat[fs[0]] == 0
    ensures d == root ==> !CrashSafe(v', spc, root)
  {
    hide FsOK, Records, Log, FatSafe, Cluster, CrashSafe, Live, ClusterIx, ChainOf, Led;
    FsFacts(v, spc, root, dirs, d);
    LiveTarget(v, spc, root, dirs, d, i + 1, rec);
    RemovedIs(v, spc, root, dirs, d, i, mid, fs, v');
    RemovedLog(v, spc, root, dirs, d, i, gone, v');
    if d == root { RootLeads(v, root, i + 1, rec); }
  }

  lemma LiveTarget(v: Vol, spc: nat, root: nat, dirs: set<nat>, d: nat, i: nat, rec: Rec)
    requires FsOK(v, spc, root, dirs) && d in dirs && HasRecord(v, d, i, rec) && Live(rec)
    ensures IsHead(v.fat, Cluster(rec)) && d != Cluster(rec)
  {
    hide FsOK, Records, Log, FatSafe, Cluster, Live;
    FsParts(v, spc, root, dirs);
    FsFacts(v, spc, root, dirs, d);
    FsTree(v, spc, root, dirs);
    var t := Logs(v, dirs);
    assert LiveAt(t, d, i);
    assert IsTarget(t, Cluster(rec));
    assert Known(t, Cluster(rec));
  }

  lemma RootLeads(v: Vol, root: nat, i: nat, rec: Rec)
    requires HasRecord(v, root, i, rec) && Live(rec)
    ensures Led(v, root, Cluster(rec))
  {
    hide Records, Log, Cluster, Live, HasChain;
    assert ReachPath(v, root, [root], []);
    assert LeadsTo(v, root, [root], [], i, Cluster(rec));
  }

  lemma RemoveReady(v: Vol, spc: nat, root: nat, dirs: set<nat>, d: nat, i: nat, rec: Rec, fs: seq<nat>)
    requires FsOK(v, spc, root, dirs) && HasRecord(v, d, i, rec) && IsChain(v.fat, fs)
    ensures InDirectory(v, d, i, rec) && FreeRun(v.fat, fs)
  {
    hide FsOK, Records, Log;
    SafeRun(v, spc, root, dirs, fs);
    LogFits(v, d);
    LogRecordIn(v, d, i);
  }

  lemma LogRecordIn(v: Vol, d: nat, i: nat)
    requires |v.data| == |v.fat| && HasChain(v.fat, d) && i < |Log(Records(v, d))|
    ensures i < |Records(v, d)| && Log(Records(v, d))[i] == Records(v, d)[i]
  {
    hide Records;
  }

  lemma SameLog(v: Vol, v': Vol, dirs: set<nat>, d: nat)
    requires SameTree(v, v', dirs) && d in dirs
    ensures |v.data| == |v.fat| && |v'.data| == |v'.fat| && HasChain(v.fat, d) && HasChain(v'.fat, d)
    ensures Log(Records(v', d)) == Log(Records(v, d))
  {
    hide Records, Log;
    assert Logs(v', dirs)[d] == Logs(v, dirs)[d];
  }

  lemma WrittenRecord(name: seq<Byte>, c: nat, n: nat, rec: Rec)
    requires |name| >= 12 && c != 0 && Holds(rec, Entry(Encoded(name), 0, c, n))
    ensures (Live(rec) <==> name[0] != 0xE5) && (IsRemoved(rec) <==> name[0] == 0xE5) && NewDirs(rec) == {}
    ensures Cluster(rec) == c == MetaOf(rec).fstCluster && U32(rec, 28) == n % 0x1_0000
  {
    hide NameOf, U32;
    assert rec[0] == rec[..11][0] == Encoded(name)[0];
    assert BaseLen(name) > 0 ==> Encoded(name)[0] == name[0] && name[0] != DOT && name[0] != 0;
    assert BaseLen(name) == 0 ==> Encoded(name)[0] == SPACE && (name[0] == 0 || name[0] == DOT);
  }

  lemma WrittenOnDisk(v: Vol, g: Geometry, disk: seq<Sector>, d: nat, name: seq<Byte>, content: seq<Byte>,
                      fs: seq<nat>, built: Vol, rec: Rec)
    requires g.Valid() && |disk| == g.size && FileWritten(v, g.spc, d, name, content, fs, built, rec, VolOf(g, disk))
    ensures OnDisk(g, disk, fs, content)
  {
    hide VolOf, Content, OnDisk, Records, Log, Built, Appended, Holds, Geometry.First, Geometry.End;
    ContentOnDisk(g, disk, fs);
    OnDiskPrefix(g, disk, fs, Content(VolOf(g, disk), fs), content);
  }

  lemma WrittenBytes(v: Vol, spc: nat, d: nat, name: seq<Byte>, content: seq<Byte>, fs: seq<nat>, built: Vol, rec: Rec, v': Vol)
    requires FileWritten(v, spc, d, name, content, fs, built, rec, v') && |v'.fat| <= EOC
    ensures rec[11] == 0 && rec[28] == |content| % 0x100 && rec[29] == |content| / 0x100 % 0x100 && rec[30] == rec[31] == 0
  {
    hide Content, Records, Log, Built, Appended, Holds, Encoded;
    HeldBytes(rec, Entry(Encoded(name), 0, fs[0], |content|));
  }

  lemma TargetField(rec: Rec)
    ensures if [rec[20], rec[21], rec[26], rec[27]] == [0, 0, 0, 0] then TargetOf(rec) == 2
            else TargetOf(rec) == U16(rec, 20) * 0x1_0000 + U16(rec, 26)
  {
    var f := [rec[20], rec[21], rec[26], rec[27]];
    assert f[0] == rec[20] && f[1] == rec[21] && f[2] == rec[26] && f[3] == rec[27];
    if rec[20] == 0 && rec[21] == 0 && rec[26] == 0 && rec[27] == 0 { assert f == [0, 0, 0, 0]; }
  }

  lemma WrittenLog(v: Vol, spc: nat, d: nat, name: seq<Byte>, content: seq<Byte>,
                   fs: seq<nat>, built: Vol, rec: Rec, v': Vol)
    requires FileWritten(v, spc, d, name, content, fs, built, rec, v')
    ensures |v.data| == |v.fat| && |v'.data| == |v'.fat|
    ensures HasChain(v.fat, d) && HasChain(v'.fat, d) && Log(Records(v', d)) == Log(Records(v, d)) + [rec]
  {
    hide Log, Records, Content, Holds;
  }

  lemma AfterWrite(v: Vol, spc: nat, d: nat, ind: nat, name: seq<Byte>, content: seq<Byte>,
                   fs: seq<nat>, built: Vol, rec: Rec, v': Vol)
    requires FileWritten(v, spc, d, name, content, fs, built, rec, v') && ind == |Log(Records(v, d))|
    ensures NewDirs(rec) == {} && (Live(rec) <==> name[0] != 0xE5) && (IsRemoved(rec) <==> name[0] == 0xE5)
    ensures (NameOf(rec) == [] <==> BlankName(name))
    ensures HasRecord(v', d, ind, rec) && IsChain(v'.fat, fs) && fs[0] == Cluster(rec) == MetaOf(rec).fstCluster
    ensures U32(rec, 28) == |content| % 0x1_0000
    ensures ClustersFor(spc, |content| % 0x1_0000) <= |fs| && InVol(v', fs)
    ensures |content| <= |Content(v', fs)| && Content(v', fs)[..|content|] == content
  {
    hide Built, Records, Log, TailFree, Content, Holds, EndIndex, ClusterIx, NameOf, MetaOf, U32, Cluster, BlankName, Encoded, ChainOf,
      ClustersFor, Live, IsRemoved, NewDirs;
    WrittenRecord(name, fs[0], |content|, rec);
    WrittenName(name, fs[0], |content|, rec);
    ClustersMono(spc, |content| % 0x1_0000, |content|);
  }

  lemma WrittenName(name: seq<Byte>, c: nat, n: nat, rec: Rec)
    requires |name| >= 12 && Holds(rec, Entry(Encoded(name), 0, c, n))
    ensures NameOf(rec) == [] <==> BlankName(name)
  {
    hide Holds, NameOf, BlankName, Encoded, Decoded, CStr;
    NameGiven(name, Entry(Encoded(name), 0, c, n), rec);
    GivenBackEmpty(name);
  }

  /** When the last record of a log is listed. */
  lemma WhenListed(log: seq<Rec>, rec: Rec, name: seq<Byte>)
    requires |name| >= 12 && (NameOf(rec) == [] <==> BlankName(name)) && (IsRemoved(rec) <==> name[0] == 0xE5)
    ensures |log| in Listing(log + [rec], 0) <==> name[0] != 0xE5 && !BlankName(name) && NoStop(log, 0, |log|)
  {
    hide NameOf, BlankName, Listing, IsRemoved;
    var all, n := log + [rec], |log|;
    ListingExact(all, 0);
    assert forall m :: 0 <= m < n ==> all[m] == log[m] && (ListStops(all, m) <==> ListStops(log, m));
    assert ListStops(all, n) <==> NameOf(rec) == [];
    assert NoStop(all, 0, n + 1) <==> NoStop(log, 0, n) && !ListStops(all, n);
  }

  lemma PrefixOf(a: seq<Byte>, b: seq<Byte>, n: nat)
    requires |b| <= |a| && a[..|b|] == b && n <= |b|
    ensures a[..n] == b[..n]
  {
    assert a[..n] == a[..|b|][..n];
  }

  lemma ClustersMono(spc: nat, a: nat, b: nat)
    requires spc >= 1 && a <= b
    ensures ClustersFor(spc, a) <= ClustersFor(spc, b)
  {
    var x, y := SectorsFor(a), SectorsFor(b);
    TimesSplit(x, spc);
    TimesSplit(y, spc);
    TimesMono(y / spc, x / spc, spc);
  }

  lemma HeldTarget(rec: Rec, e: Entry)
    requires Holds(rec, e) && e.fstCluster != 0
    ensures TargetOf(rec) == e.fstCluster && rec[11] == e.attr
  {
    MetaBytes(rec);
  }

  /** The listing of a directory that holds "." and ".." only, which never changes the disk. */
  lemma DotListing(v: Vol, spc: nat, c: nat, dot: Rec, dotdot: Rec)
    requires spc >= 1 && Shape(v, spc) && HasChain(v.fat, c) && Log(Records(v, c)) == [dot, dotdot]
    requires NameOf(dot) == [0x2E] && NameOf(dotdot) == [0x2E, 0x2E]
    ensures Listing([dot, dotdot], 0) == [0, 1] && FirstStop([dot, dotdot], 0) < |Records(v, c)|
  {
    hide NameOf, Records, EndIndex;
    var log := [dot, dotdot];
    RoomFor(v, spc, c);
    LogFits(v, c);
    LogEnd(Records(v, c));
    RemovedName(dot);
    RemovedName(dotdot);
    assert Scan(log, 0) == 0 && Scan(log, 1) == 1 && Scan(log, 2) == 2;
    assert Listing(log, 2) == [];
    assert Listing(log, 1) == [1];
  }

  lemma ConservedIs(v: Vol, spc: nat, d: nat, ind: nat, name: seq<Byte>, content: seq<Byte>,
                    fs: seq<nat>, built: Vol, rec: Rec, v1: Vol, mid: Vol, v2: Vol)
    requires FileWritten(v, spc, d, name, content, fs, built, rec, v1) && |v.fat| <= EOC
    requires ind == |Log(Records(v, d))| && Tombed(v1, spc, d, ind, mid) && v2 == Freed(mid, fs)
    requires HasChain(v2.fat, d) && ChainOf(v2.fat, d) == ChainOf(v1.fat, d)
    ensures Conserved(v, spc, d, v2)
  {
    hide Records, Log, TailFree, ClusterIx, Holds, Content, ChainOf, Flat, Cleared, Freed, FileWritten, Tombed, EndIndex, Built, Appended;
    WrittenParts(v, spc, d, name, content, fs, built, rec, v1);
    BuiltRecords(v, spc, fs, built, d);
    EndBound(built, spc, d);
    TombedFat(v1, spc, d, ind, mid);
    LogEnd(Records(v, d));
    ConservedFat(v, spc, d, fs, built, rec, v1, v2, mid, ind);
    ConservedData(v, spc, d, fs, built, rec, v1, mid, ind);
    FreedData(mid, fs);
  }

  lemma WrittenRemoved(v: Vol, spc: nat, root: nat, dirs: set<nat>, d: nat, ind: nat, name: seq<Byte>, content: seq<Byte>,
                       fs: seq<nat>, built: Vol, rec: Rec, v1: Vol, mid: Vol, v2: Vol)
    requires spc >= 1 && FileWritten(v, spc, d, name, content, fs, built, rec, v1) && |v.fat| <= EOC && |fs| > 0
    requires FsOK(v1, spc, root, dirs) && d in dirs && HasRecord(v1, d, ind, rec) && fs[0] < |v1.fat|
    requires ind == |Log(Records(v, d))| && Tombed(v1, spc, d, ind, mid) && v2 == Freed(mid, fs) && Removed(v1, spc, d, ind, v2)
    ensures Conserved(v, spc, d, v2) && fs[0] < |v2.fat| && v2.fat[fs[0]] == 0
  {
    hide Records, Log, Removed, FileWritten, FsOK, Conserved, ChainOf, HasRecord;
    RemovedLog(v1, spc, root, dirs, d, ind, rec, v2);
    ConservedIs(v, spc, d, ind, name, content, fs, built, rec, v1, mid, v2);
    assert fs[0] in fs;
  }

  lemma WrittenParts(v: Vol, spc: nat, d: nat, name: seq<Byte>, content: seq<Byte>, fs: seq<nat>, built: Vol, rec: Rec, v1: Vol)
    requires FileWritten(v, spc, d, name, content, fs, built, rec, v1)
    ensures spc >= 1 && Built(v, spc, fs, built) && Appended(built, spc, d, rec, v1) && IsChain(v1.fat, fs) && HasChain(v.fat, d)
    ensures |v.data| == |v.fat| == |v1.fat| == |v1.data| == |built.fat| && Shape(built, spc)
  {
    hide Records, Log, TailFree, ClusterIx, Holds, Content, ChainOf;
  }

  lemma LogEnd(recs: seq<Rec>)
    ensures |Log(recs)| == EndIndex(recs)
  {}

  lemma FreedData(v: Vol, s: seq<nat>)
    ensures Freed(v, s).data == v.data && Freed(v, s).boot == v.boot && Freed(v, s).spare == v.spare && |Freed(v, s).fat| == |v.fat|
  {}

  lemma ConservedFat(v: Vol, spc: nat, d: nat, fs: seq<nat>, built: Vol, rec: Rec, v1: Vol, v2: Vol, mid: Vol, ind: nat)
    requires spc >= 1 && Built(v, spc, fs, built) && Appended(built, spc, d, rec, v1) && |v.fat| <= EOC && HasChain(v.fat, d)
    requires HasChain(built.fat, d) && ChainOf(built.fat, d) == ChainOf(v.fat, d) && Records(built, d) == Records(v, d)
    requires IsChain(v1.fat, fs) && mid.fat == v1.fat && v2 == Freed(mid, fs)
    requires ClusterIx(spc, EndIndex(Records(built, d))) <= |ChainOf(built.fat, d)|
    ensures DirFull(v, d) ==> Linked(v.fat, ChainOf(v.fat, d), v2.fat, ChainOf(v1.fat, d))
    ensures !DirFull(v, d) ==> v2.fat == v.fat && ChainOf(v1.fat, d) == ChainOf(v.fat, d)
  {
    hide Records, Log, TailFree, ClusterIx, Holds, Content, ChainOf, Flat, EndIndex;
    var s, s' := ChainOf(v.fat, d), ChainOf(v1.fat, d);
    RoomOrNot(built, spc, d);
    forall i | 0 <= i < |s| ensures s[i] !in fs { ChainAllocated(v.fat, s, i); }
    forall i | 0 <= i < |fs| ensures built.fat[fs[i]] != 0 { ChainAllocated(built.fat, fs, i); }
    if DirFull(v, d) {
      var x, last := s'[|s|], s[|s| - 1];
      assert s'[|s| - 1..] == [last, x];
      ChainAllocated(v1.fat, s', |s| - 1);
      LinkedIs(v.fat, fs, built.fat, v1.fat, x, last);
    } else {
      assert v2.fat == v.fat;
    }
  }

  lemma LinkedIs(fat: seq<nat>, fs: seq<nat>, built: seq<nat>, fat1: seq<nat>, x: nat, last: nat)
    requires |fat| == |built| == |fat1| && x < |fat| && last < |fat| && x != last && last !in fs
    requires forall c :: 0 <= c < |fat| && c !in fs ==> built[c] == fat[c]
    requires forall i :: 0 <= i < |fs| ==> fs[i] < |fat| && fat[fs[i]] == 0 && built[fs[i]] != 0
    requires forall c :: 0 <= c < |fat| && c !in [last, x] ==> fat1[c] == built[c]
    requires fat1[x] == MARK && fat1[last] == x && built[x] == 0
    ensures fat[x] == 0 && Cleared(fat1, fs) == fat[x := MARK][last := x]
  {
    assert x !in fs;
  }

  /** A directory is full exactly when its next record belongs to the cluster after its last. */
  lemma RoomOrNot(v: Vol, spc: nat, d: nat)
    requires spc >= 1 && Shape(v, spc) && HasChain(v.fat, d)
    ensures DirFull(v, d) <==> ClusterIx(spc, EndIndex(Records(v, d))) == |ChainOf(v.fat, d)|
  {
    hide Records, ClusterIx, EndIndex;
    var n := EndIndex(Records(v, d));
    EndCluster(v, spc, d, ChainOf(v.fat, d));
    IndexBound(v, spc, d, ChainOf(v.fat, d), n);
  }

  lemma ConservedData(v: Vol, spc: nat, d: nat, fs: seq<nat>, built: Vol, rec: Rec, v1: Vol, mid: Vol, ind: nat)
    requires spc >= 1 && Built(v, spc, fs, built) && Appended(built, spc, d, rec, v1) && |v.fat| <= EOC && HasChain(v.fat, d)
    requires HasChain(built.fat, d) && ChainOf(built.fat, d) == ChainOf(v.fat, d) && Records(built, d) == Records(v, d)
    requires Tombed(v1, spc, d, ind, mid) && ind == EndIndex(Records(v, d))
    ensures forall c :: InUse(v, c) && c !in SlotCluster(v, spc, d) ==> mid.data[c] == v.data[c]
    ensures mid.boot == v.boot && mid.spare == v.spare && mid.fat == v1.fat && |mid.data| == |v.data|
  {
    hide Records, Log, TailFree, ClusterIx, Holds, Content, ChainOf, Flat, EndIndex, IsHead, HasChain;
    var s, s', j := ChainOf(v.fat, d), ChainOf(v1.fat, d), ClusterIx(spc, ind);
    if j < |s| {
      assert s'[j] == s'[..|s|][j] == s[j];
    } else {
      assert built.fat[s'[j]] == 0;
      assert !InUse(v, s'[j]);
    }
  }

  lemma EndBound(v: Vol, spc: nat, d: nat)
    requires spc >= 1 && Shape(v, spc) && HasChain(v.fat, d)
    ensures ClusterIx(spc, EndIndex(Records(v, d))) <= |ChainOf(v.fat, d)|
  {
    hide Records, ClusterIx;
    IndexBound(v, spc, d, ChainOf(v.fat, d), EndIndex(Records(v, d)));
  }
}
