/** kernel/fat32.c: the driver, which reaches the disk one sector at a time through the one shared
    buffer `diskBuffer`. `fail` halts the machine: such a path returns `ok == false` and its callers
    stop at once. */
module FatDriver {
  import opened Bytes
  import opened FatTable
  import opened FatVolume
  import opened FatTree
  import opened FatGrowth
  import opened FatNames

  /** `FAT32_entry` as `getMetadataFileFromDirectory` fills it in: a readable name. */
  datatype Meta = Meta(name: seq<Byte>, attr: Byte, fstCluster: nat, size: nat)

  /** The C string that `readFileName` leaves for a record. */
  function NameOf(rec: Rec): seq<Byte> { CStr(Decoded(rec)) }

  /** What a record says. A first cluster of zero stands for the root, cluster 2. */
  function MetaOf(rec: Rec): Meta {
    Meta(NameOf(rec), rec[11], if Cluster(rec) == 0 then 2 else Cluster(rec), U32(rec, 28))
  }

  /** The cluster a record leads to, read off its bytes: the root, cluster 2, if they are all zero. */
  function TargetOf(rec: Rec): nat {
    if rec[20] == 0 && rec[21] == 0 && rec[26] == 0 && rec[27] == 0 then 2
    else rec[26] as int + 0x100 * (rec[27] as int) + 0x1_0000 * (rec[20] as int) + 0x100_0000 * (rec[21] as int)
  }

  /** Every field of a record, byte by byte. */
  lemma MetaBytes(rec: Rec)
    ensures MetaOf(rec).fstCluster == TargetOf(rec) && MetaOf(rec).attr == rec[11]
    ensures MetaOf(rec).size == LittleEndian(rec[28..32])
  {
    hide NameOf, U32;
    ReadsFour(rec, 28);
  }

  /** No cluster is free: the only reason for the driver to fail. */
  predicate Full(v: Vol) {
    forall c :: 2 <= c < |v.fat| ==> v.fat[c] != 0
  }

  lemma FullCount(v: Vol)
    ensures Full(v) <==> |FreeSet(v)| == 0
  {
    if |FreeSet(v)| == 0 {
      forall c | 2 <= c < |v.fat| ensures v.fat[c] != 0 { assert c !in FreeSet(v); }
    } else {
      var c :| c in FreeSet(v);
    }
  }

  /** The records of directory `d` fill its chain. */
  ghost predicate DirFull(v: Vol, d: nat)
    requires |v.data| == |v.fat| && HasChain(v.fat, d)
  {
    EndIndex(Records(v, d)) == |Records(v, d)|
  }

  /** What `addFileToDirectory` does: it fails only if both the directory and the volume are full, and then
      changes nothing; otherwise the record `rec` of the entry is appended, with the old bytes of its slot
      where the entry has none. No write on the way touches anything in use elsewhere. */
  ghost predicate AppendOutcome(v: Vol, spc: nat, d: nat, entry: Entry, ok: bool, rec: Rec, v': Vol, before: set<Vol>, after: set<Vol>) {
    && spc >= 1 && |v.data| == |v.fat| && HasChain(v.fat, d) && AppendTrail(v, spc, d, before, after)
    && (ok <==> !(DirFull(v, d) && Full(v)))
    && if ok then Holds(rec, entry) && RecordBytes(rec, entry) && RestKept(rec, SlotOf(v, d)) && Appended(v, spc, d, rec, v') && AppendSpared(v, spc, d, v')
       else v' == v && after == before
  }

  predicate SectorIs(v: Vol, c: nat, t: nat, sec: seq<Byte>) {
    c < |v.data| && t < |v.data[c]| && sec == v.data[c][t]
  }

  class Driver {
    const g: Geometry
    const buf: array<Byte>           // diskBuffer
    var disk: seq<Sector>

    ghost var dirs: set<nat>         // first clusters of the directories
    ghost var seen: set<Vol>         // the volume after every sector write so far

    ghost predicate Ready()
      reads this
    {
      g.Valid() && |disk| == g.size && buf.Length == 512
    }

    ghost function V(): Vol
      requires Ready()
      reads this
    {
      VolOf(g, disk)
    }

    /** Stopping after any write so far leaves a crash-safe volume. */
    ghost predicate AllSafe()
      reads this
    {
      forall v :: v in seen ==> CrashSafe(v, g.spc, g.root)
    }

    ghost predicate Good()
      reads this
    {
      Ready() && Mirrored(g, disk) && FsOK(V(), g.spc, g.root, dirs) && AllSafe()
    }

    constructor (g: Geometry, disk: seq<Sector>, ghost dirs: set<nat>)
      requires g.Valid() && |disk| == g.size && Mirrored(g, disk)
      requires FsOK(VolOf(g, disk), g.spc, g.root, dirs)
      ensures Good() && this.g == g && this.disk == disk && this.dirs == dirs && seen == {}
      ensures fresh(buf)
    {
      this.g, this.disk, this.dirs, this.seen := g, disk, dirs, {};
      buf := new Byte[512](_ => 0);
    }

    // ----- Disk primitives

    method ReadDiskSector(lba: nat)
      requires Ready() && lba < |disk|
      modifies buf
      ensures buf[..] == disk[lba]
    {
      forall i | 0 <= i < 512 { buf[i] := disk[lba][i]; }
    }

    method WriteDiskSector(lba: nat)
      requires Ready() && lba < |disk|
      modifies this`disk, this`seen
      ensures Ready() && disk == old(disk)[lba := buf[..]] && seen == old(seen) + {V()}
    {
      disk := disk[lba := buf[..]];
      seen := seen + {V()};
    }

    /** `((uint32_t *) diskBuffer)[k] = w` */
    method StoreWord(k: nat, w: nat)
      requires buf.Length == 512 && k < 128 && w < 0x1_0000_0000
      modifies buf
      ensures buf[..] == PutWord(old(buf[..]), k, w)
    {
      StoreU32(4 * k, w);
    }

    // ----- The FAT

    /** Writes the buffer, which holds the sector of entry `c` with that entry set to `w`, to every
        FAT copy, copy 0 first. */
    method UpdateEveryFat(sectorFirstFat: nat, ghost c: nat, ghost w: nat)
      requires Ready() && Mirrored(g, disk) && c < g.N() && w < 0x1_0000_0000
      requires sectorFirstFat == g.fatLBA + c / 128 < |disk|
      requires buf[..] == PutWord(disk[sectorFirstFat], c % 128, w)
      modifies this`disk, this`seen
      ensures Ready() && Mirrored(g, disk) && V() == SetFat(old(V()), c, w) && seen == old(seen) + {V()}
      ensures EntryOnDisk(g, disk, c, w)
    {
      hide EntryOnDisk, Geometry.First, Geometry.End, VolOf, FatSector, CopySector, FatEntry, PutWord, Word;
      ghost var d0, t := disk, c / 128;
      FatSectorBounds(g, 0, t);
      for i := 0 to g.nfats
        invariant Ready()
        invariant i == 0 ==> disk == d0 && seen == old(seen)
        invariant i > 0 ==> V() == SetFat(VolOf(g, d0), c, w) && seen == old(seen) + {V()}
        invariant forall a, u :: 0 <= a < g.nfats && 0 <= u < g.spf ==>
                    CopySector(g, disk, a, u) == if a < i && u == t then buf[..] else CopySector(g, d0, a, u)
      {
        ghost var d := disk;
        FatSectorBounds(g, i, t);
        CopyAddress(g, i, t);
        if i == 0 { WriteFatCopy0(g, d, c, w); } else { WriteOtherCopy(g, d, i, t, buf[..]); }
        WriteDiskSector(sectorFirstFat + i * g.spf);
        forall a, u | 0 <= a < g.nfats && 0 <= u < g.spf
          ensures CopySector(g, disk, a, u) == if a == i && u == t then buf[..] else CopySector(g, d, a, u)
        {
          CopyAfterWrite(g, d, disk, i, t, buf[..], a, u);
        }
      }
      FatOnDisk(g, disk, c);
    }

    method AllocateFreeCluster(lastCluster: nat) returns (ok: bool, cluster: nat)
      requires Good()
      requires lastCluster != 0 ==> 2 <= lastCluster < g.N() && V().fat[lastCluster] >= EOC
      modifies this`disk, this`seen, buf
      ensures old(seen) <= seen
      ensures Good()
      ensures !ok ==> disk == old(disk) && Full(V())
      ensures ok ==> 2 <= cluster < g.N() && old(V()).fat[cluster] == 0
      ensures ok ==> forall c :: 2 <= c < cluster ==> old(V()).fat[c] != 0
      ensures ok ==> V() == if lastCluster == 0 then Marked(old(V()), cluster, ZeroCluster(g.spc))
                            else Extended(old(V()), g.spc, lastCluster, cluster)
      ensures ok ==> EntryOnDisk(g, disk, cluster, 0x0FFF_FFFF) && (lastCluster != 0 ==> EntryOnDisk(g, disk, lastCluster, cluster))
      ensures !ok ==> seen == old(seen)
      ensures Trail(old(V()), old(seen), seen, LinkOf(lastCluster), {})
    {
      hide EntryOnDisk, Trail, SparedBut, Geometry.First, Geometry.End, FsOK, Mirrored, Shape, VolOf, CrashSafe, PutWord, EOC;
      ghost var v := V();
      TrailNone(v, seen, LinkOf(lastCluster), {});
      var indexSector := g.fatLBA;
      var clusterIndex := 2;
      while indexSector < g.fatLBA + g.spf
        invariant old(seen) <= seen
        invariant disk == old(disk) && seen == old(seen)
        invariant 2 <= clusterIndex <= g.N() && indexSector == g.fatLBA + clusterIndex / 128
        invariant forall c :: 2 <= c < clusterIndex ==> v.fat[c] != 0
        decreases g.N() - clusterIndex
      {
        FatWord(g, disk, clusterIndex);
        ReadDiskSector(indexSector);
        if Word(buf[..], clusterIndex % 128) == 0 {
          cluster := clusterIndex;
          ClaimCluster(indexSector, cluster);
          if lastCluster != 0 {
            TrailMore(v, old(seen), seen, {}, {}, {lastCluster}, {});
            ghost var before := seen;
            LinkTo(lastCluster, cluster, v);
            TrailJoin(v, old(seen), before, seen, {lastCluster}, {});
            FatOnDisk(g, disk, lastCluster);
          }
          FatOnDisk(g, disk, cluster);
          return true, cluster;
        }
        clusterIndex := clusterIndex + 1;
        if clusterIndex % 128 == 0 {
          indexSector := indexSector + 1;
        }
      }
      return false, 0;
    }

    /** The last part of `allocateFreeCluster`: the chain end is pointed at the new cluster. */
    method LinkTo(lastCluster: nat, cluster: nat, ghost v: Vol)
      requires Good() && FsOK(v, g.spc, g.root, dirs) && Shape(v, g.spc) && |v.fat| == g.N()
      requires 2 <= cluster < g.N() && v.fat[cluster] == 0
      requires 2 <= lastCluster < g.N() && v.fat[lastCluster] >= EOC
      requires V() == Marked(v, cluster, ZeroCluster(g.spc))
      modifies this`disk, this`seen, buf
      ensures old(seen) <= seen && Trail(v, old(seen), seen, {lastCluster}, {})
      ensures Good() && V() == Extended(v, g.spc, lastCluster, cluster)
    {
      hide Trail, SparedBut, Geometry.First, Geometry.End, FsOK, Mirrored, Shape, VolOf, CrashSafe, PutWord, EOC;
      FatWord(g, disk, lastCluster);
      var sector := g.fatLBA + lastCluster / 128;
      ReadDiskSector(sector);
      StoreWord(lastCluster % 128, cluster);
      UpdateEveryFat(sector, lastCluster, cluster);
      ExtendStep(v, g.spc, g.root, dirs, lastCluster, cluster);
      ExtendedSpared(v, g.spc, lastCluster, cluster);
      TrailOne(v, old(seen), V(), seen, {lastCluster}, {});
    }

    /** The first part of `allocateFreeCluster`: the free cluster is marked and then wiped. */
    method ClaimCluster(indexSector: nat, cluster: nat)
      requires Good() && 2 <= cluster < g.N() && V().fat[cluster] == 0
      requires indexSector == g.fatLBA + cluster / 128 < |disk| && buf[..] == disk[indexSector]
      modifies this`disk, this`seen, buf
      ensures old(seen) <= seen
      ensures Trail(old(V()), old(seen), seen, {}, {})
      ensures Good() && V() == Marked(old(V()), cluster, ZeroCluster(g.spc))
    {
      hide Trail, SparedBut, Geometry.First, Geometry.End, FsOK, Mirrored, DataSector, VolOf, PutWord, CrashSafe;
      ghost var v := V();
      StoreWord(cluster % 128, MARK);
      UpdateEveryFat(indexSector, cluster, MARK);
      MarkedIs(v, g.spc, cluster);
      MarkedSpared(v, g.spc, cluster, v.data[cluster]);
      TrailOne(v, old(seen), V(), seen, {}, {});
      for i := 0 to 512
        modifies buf
        invariant forall b :: 0 <= b < i ==> buf[b] == 0
      {
        buf[i] := 0;
      }
      assert buf[..] == ZeroSector();
      ghost var cl: seq<Sector> := v.data[cluster];
      MarkStep(v, g.spc, g.root, dirs, cluster, cl);
      for i := 0 to g.spc
        invariant old(seen) <= seen && Trail(v, old(seen), seen, {}, {})
        invariant Ready() && Mirrored(g, disk) && AllSafe() && buf[..] == ZeroSector()
        invariant |cl| == g.spc && V() == Marked(v, cluster, cl)
        invariant FsOK(V(), g.spc, g.root, dirs)
        invariant forall t :: 0 <= t < i ==> cl[t] == ZeroSector()
      {
        DataSectorBounds(g, cluster, i);
        WriteData(g, disk, cluster, i, buf[..]);
        ghost var before := seen;
        WriteDiskSector(DataSector(g, cluster, i));
        cl := cl[i := ZeroSector()];
        assert V() == Marked(v, cluster, cl);
        MarkedSpared(v, g.spc, cluster, cl);
        TrailAdd(v, old(seen), before, V(), {}, {});
        MarkStep(v, g.spc, g.root, dirs, cluster, cl);
      }
      assert cl == ZeroCluster(g.spc);
    }

    /** The cluster after `cluster`, which is first appended when there is none. */
    method NextCluster(cluster: nat) returns (ok: bool, next: nat)
      requires Good() && 2 <= cluster < g.N() && V().fat[cluster] != 0
      modifies this`disk, this`seen, buf
      ensures old(seen) <= seen
      ensures Trail(old(V()), old(seen), seen, {cluster}, {}) && (!ok ==> seen == old(seen))
      ensures EntryOnDisk(g, old(disk), cluster, old(V()).fat[cluster])
      ensures old(V()).fat[cluster] < 0x0FFF_FFF8 ==> seen == old(seen)
      ensures Good()
      ensures old(V()).fat[cluster] < 0x0FFF_FFF8 ==> ok && next == V().fat[cluster] && disk == old(disk)
      ensures !ok ==> disk == old(disk) && Full(V())
      ensures ok && old(V()).fat[cluster] >= 0x0FFF_FFF8 ==> ExtendedBy(old(V()), g.spc, cluster, next, V())
    {
      hide EntryOnDisk, Trail, Full, Geometry.First, Geometry.End, FsOK, Mirrored, VolOf;
      TrailNone(V(), seen, {cluster}, {});
      FatWord(g, disk, cluster);
      FatOnDisk(g, disk, cluster);
      ReadDiskSector(g.fatLBA + cluster / 128);
      next := Word(buf[..], cluster % 128);
      if next >= EOC {
        ok, next := AllocateFreeCluster(cluster);
        return;
      }
      ok := true;
    }

    // ----- Reading

    /** `nextCluster` seen from a loop that entered with volume `v` and chain `s`, has grown the
        chain to `s1` and stands at its `j`-th member. */
    method StepChain(cluster: nat, ghost v: Vol, ghost s: seq<nat>, ghost s1: seq<nat>, ghost j: nat)
      returns (ok: bool, next: nat, ghost s2: seq<nat>)
      requires Good() && Grown(v, g.spc, s, V(), s1) && j < |s1| && s1[j] == cluster
      modifies this`disk, this`seen, buf
      ensures old(seen) <= seen
      ensures Trail(old(V()), old(seen), seen, {cluster}, {}) && (!ok ==> seen == old(seen))
      ensures s2 == s1 ==> seen == old(seen)
      ensures Good() && Grown(v, g.spc, s, V(), s2)
      ensures s2 == s1 ==> disk == old(disk)
      ensures s2 != s1 ==> s2 == s1 + [next] && ExtendedBy(old(V()), g.spc, cluster, next, V())
      ensures ok ==> j + 1 < |s2| == Max(|s1|, j + 2) && next == s2[j + 1]
      ensures !ok ==> disk == old(disk) && s2 == s1 && j + 1 == |s1| && Full(V())
    {
      hide Trail, Full, Geometry.First, Geometry.End, FsOK, Mirrored, VolOf, Grown, CrashSafe, ExtendedBy, IsChain, FatSafe, Shape, InVol;
      ghost var v1 := V();
      GoodFat(v1, g.spc, g.root, dirs);
      GrownChain(v, g.spc, s, v1, s1, j);
      ok, next := NextCluster(cluster);
      s2 := s1;
      if ok {
        s2 := FollowChain(v, g.spc, s, v1, s1, j, V(), next);
      }
    }

    /** Follows a chain `steps` times, extending it where it ends. */
    method WalkChain(first: nat, steps: nat, ghost s: seq<nat>)
      returns (ok: bool, cluster: nat, ghost s': seq<nat>)
      requires Good() && IsChain(V().fat, s) && s[0] == first
      modifies this`disk, this`seen, buf
      ensures old(seen) <= seen
      ensures Good() && Grown(old(V()), g.spc, s, V(), s')
      ensures ok ==> steps < |s'| == Max(|s|, steps + 1) && cluster == s'[steps]
      ensures !ok ==> |s| <= |s'| <= steps && Full(V())
    {
      hide Full, Geometry.First, Geometry.End, FsOK, Mirrored, VolOf, Grown, CrashSafe, ExtendedBy;
      cluster := first;
      ghost var v := V();
      s' := s;
      GrownRefl(v, g.spc, s);
      for i := 0 to steps
        invariant old(seen) <= seen
        invariant Good() && Grown(v, g.spc, s, V(), s')
        invariant i < |s'| == Max(|s|, i + 1) && cluster == s'[i]
      {
        ok, cluster, s' := StepChain(cluster, v, s, s', i);
        if !ok { return; }
      }
      ok := true;
    }

    /** Brings the sector of record `index` of a directory into the buffer; walks, and if need be
        extends, the chain of the directory. */
    method GetToDirEl(dirCluster: nat, index: nat, ghost s: seq<nat>)
      returns (ok: bool, record: nat, sector: nat, ghost s': seq<nat>)
      requires Good() && IsChain(V().fat, s) && s[0] == dirCluster
      modifies this`disk, this`seen, buf
      ensures old(seen) <= seen
      ensures Good() && Grown(old(V()), g.spc, s, V(), s')
      ensures !ok ==> |s| <= |s'| <= ClusterIx(g.spc, index) && Full(V())
      ensures ok ==> ClusterIx(g.spc, index) < |s'| == Max(|s|, ClusterIx(g.spc, index) + 1)
      ensures ok ==> record == index % 16 * 32
      ensures ok ==> 2 <= s'[ClusterIx(g.spc, index)] < g.N()
      ensures ok ==> sector == DataSector(g, s'[ClusterIx(g.spc, index)], SectorIx(g.spc, index)) < |disk|
      ensures ok ==> SectorIs(V(), s'[ClusterIx(g.spc, index)], SectorIx(g.spc, index), buf[..])
      ensures ok ==> InVol(V(), s') && index < |RecordsOf(Flat(V(), s'))|
      ensures ok ==> buf[record..record + 32] == RecordsOf(Flat(V(), s'))[index]
    {
      hide Full, Geometry.First, Geometry.End, FsOK, Mirrored, VolOf, Grown, DataSector, Flat, IsChain, FatSafe, CrashSafe, RecordsOf, Slot, ClusterIx, SectorIx;
      var indexCluster, indexSector := ClusterIx(g.spc, index), SectorIx(g.spc, index);
      var cluster;
      ghost var v := V();
      record, sector := 0, 0;
      ok, cluster, s' := WalkChain(dirCluster, indexCluster, s);
      if !ok { return; }
      GrownChain(v, g.spc, s, V(), s', indexCluster);
      DataSectorBounds(g, cluster, indexSector);
      sector := DataSector(g, cluster, indexSector);
      ReadDiskSector(sector);
      record := index % 16 * 32;
      ClusterSector(g, disk, cluster, indexSector);
      RecordInChain(V(), g.spc, s', index);
      assert buf[record..record + 32] == buf[..][record..record + 32];
    }

    /** `indexSector++`, and on to the next cluster when this one is used up: the step that the
        loops of `readFile`, `writeFile` and `addFileToDirectory` share. `v` and `s` are the volume
        and the chain at the start of such a loop, `s1` is the chain by now. */
    method NextSector(cluster: nat, indexSector: nat, ghost v: Vol, ghost s: seq<nat>, ghost s1: seq<nat>, ghost j: nat)
      returns (ok: bool, cluster': nat, indexSector': nat, ghost s2: seq<nat>, ghost j2: nat)
      requires Good() && Grown(v, g.spc, s, V(), s1) && j < |s1| && s1[j] == cluster && indexSector < g.spc
      modifies this`disk, this`seen, buf
      ensures old(seen) <= seen
      ensures Trail(old(V()), old(seen), seen, {cluster}, {}) && (!ok ==> seen == old(seen))
      ensures s2 == s1 ==> seen == old(seen)
      ensures Good() && Grown(v, g.spc, s, V(), s2)
      ensures s2 == s1 ==> disk == old(disk)
      ensures s2 != s1 ==> s2 == s1 + [cluster'] && ExtendedBy(old(V()), g.spc, cluster, cluster', V())
      ensures ok ==> j <= j2 <= j + 1 && j2 < |s2| == Max(|s1|, j2 + 1) && cluster' == s2[j2] && indexSector' < g.spc
      ensures ok && j2 != j ==> indexSector' == 0
      ensures ok ==> SectorNo(g.spc, j2, indexSector') == SectorNo(g.spc, j, indexSector) + 1
      ensures !ok ==> disk == old(disk) && s2 == s1 && j + 1 == |s1| && indexSector + 1 == g.spc && Full(V())
    {
      hide Trail, Full, Geometry.First, Geometry.End, FsOK, Mirrored, VolOf, Grown, CrashSafe, ExtendedBy, SectorNo;
      SectorNoNext(g.spc, j, indexSector);
      TrailNone(V(), seen, {cluster}, {});
      ok, cluster', indexSector', s2, j2 := true, cluster, indexSector + 1, s1, j;
      if indexSector' >= g.spc {
        indexSector' := 0;
        ok, cluster', s2 := StepChain(cluster, v, s, s1, j);
        j2 := j + 1;
      }
    }

    /** The metadata of record `index` of the directory with chain `s`. */
    method GetMetadataFileFromDirectory(dirCluster: nat, index: nat, ghost s: seq<nat>)
      returns (ok: bool, entry: Meta, ghost s': seq<nat>)
      requires Good() && IsChain(V().fat, s) && s[0] == dirCluster
      modifies this`disk, this`seen, buf
      ensures old(seen) <= seen
      ensures Good() && Grown(old(V()), g.spc, s, V(), s')
      ensures !ok ==> |s| <= |s'| <= ClusterIx(g.spc, index) && Full(V())
      ensures ok ==> |s'| == Max(|s|, ClusterIx(g.spc, index) + 1)
      ensures ok ==> InVol(V(), s') && index < |RecordsOf(Flat(V(), s'))| && entry == MetaOf(RecordsOf(Flat(V(), s'))[index])
      ensures ok ==>
                var rec := RecordsOf(Flat(V(), s'))[index];
                entry.fstCluster == TargetOf(rec) && entry.attr == rec[11] && entry.size == LittleEndian(rec[28..32])
    {
      hide Full, Geometry.First, Geometry.End, FsOK, Mirrored, VolOf, CrashSafe, Grown, Flat, RecordsOf, DataSector, ClusterIx,
        SectorIx, CStr, Decoded, U16, U32, IsChain, TargetOf, LittleEndian;
      var record, sector;
      entry := Meta([], 0, 0, 0);
      ok, record, sector, s' := GetToDirEl(dirCluster, index, s);
      if !ok { return; }
      var raw: Rec := buf[record..record + 32];
      var name := new Byte[13](_ => 0);
      ReadFileName(raw, name);
      NameOfBuffer(raw, name[..]);
      var fstCluster := U16(raw, 20) * 0x1_0000 + U16(raw, 26);
      if fstCluster == 0 {
        fstCluster := 2;
      }
      entry := Meta(CStr(name[..]), raw[11], fstCluster, U32(raw, 28));
      MetaBytes(raw);
    }

    /** Copies `bufferSize` bytes of a chain to `buffer`. */
    method ReadFile(fileCluster: nat, buffer: array<Byte>, bufferSize: nat, ghost s: seq<nat>)
      returns (ok: bool, ghost s': seq<nat>)
      requires Good() && IsChain(V().fat, s) && s[0] == fileCluster
      requires buffer != buf && bufferSize <= buffer.Length
      modifies this`disk, this`seen, buf, buffer
      ensures old(seen) <= seen
      ensures Good() && Grown(old(V()), g.spc, s, V(), s') && SameTree(old(V()), V(), dirs)
      ensures forall i :: bufferSize <= i < buffer.Length ==> buffer[i] == old(buffer[i])
      ensures ok ==> |s'| == Max(|s|, ClustersFor(g.spc, bufferSize))
      ensures !ok ==> |s| < ClustersFor(g.spc, bufferSize) && Full(V())
      ensures ok ==> InVol(V(), s') && bufferSize <= |Content(V(), s')| && buffer[..bufferSize] == Content(V(), s')[..bufferSize]
    {
      hide Full, Geometry.First, Geometry.End, FsOK, Mirrored, VolOf, Grown, DataSector, BytesOf, Flat, Content, SectorNo, CrashSafe, FatSafe, Shape, ExtendedBy, Times, SameTree;
      var indexSector: nat, bufferIndex: nat, left: nat, cluster := 0, 0, bufferSize, fileCluster;
      SameTreeRefl(V(), g.spc, g.root, dirs);
      SectorNoNext(g.spc, 0, 0);
      ghost var v, j: nat, k: nat := V(), 0, 0;
      s' := s;
      GrownRefl(v, g.spc, s);
      GrownChain(v, g.spc, s, v, s, 0);
      while left != 0
        invariant old(seen) <= seen
        invariant Good() && Grown(v, g.spc, s, V(), s') && InVol(V(), s') && SameTree(v, V(), dirs)
        invariant bufferIndex + left == bufferSize
        invariant j < |s'| == Max(|s|, j + 1) && cluster == s'[j] && indexSector < g.spc && k == SectorNo(g.spc, j, indexSector)
        invariant Progress(bufferSize, bufferIndex, left, k)
        invariant bufferIndex <= |Content(V(), s')| && buffer[..bufferIndex] == Content(V(), s')[..bufferIndex]
        invariant buffer[bufferSize..] == old(buffer[bufferSize..])
      {
        var copySize := if left >= 512 then 512 else left;
        GrownChain(v, g.spc, s, V(), s', j);
        ReadChunk(cluster, indexSector, buffer, bufferIndex, copySize, bufferSize, s', j);
        bufferIndex := bufferIndex + copySize;
        left := left - copySize;
        ghost var v1, s1, c1 := V(), s', cluster;
        FailsOnlyShort(g.spc, bufferSize, bufferIndex, left, k, j, indexSector);
        ok, cluster, indexSector, s', j := NextSector(cluster, indexSector, v, s, s', j);
        if !ok { return; }
        k := k + 1;
        StepContent(v1, g.spc, g.root, dirs, s1, c1, cluster, V(), s', bufferIndex);
        SameTreeTrans(v, v1, V(), dirs);
      }
      ProgressDone(bufferSize, bufferIndex, k);
      SectorNoSplit(g.spc, j, indexSector);
      ok := true;
    }

    /** One turn of the loop of `readFile`: the next `n` bytes of the chain `s`. */
    method ReadChunk(cluster: nat, indexSector: nat, buffer: array<Byte>, at: nat, n: nat, ghost end: nat,
                     ghost s: seq<nat>, ghost j: nat)
      requires Ready() && Shape(V(), g.spc) && InVol(V(), s) && j < |s| && s[j] == cluster
      requires 2 <= cluster < g.N() && indexSector < g.spc && n <= 512 && at == 512 * SectorNo(g.spc, j, indexSector)
      requires buffer != buf && at + n <= end <= buffer.Length
      requires at <= |Content(V(), s)| && buffer[..at] == Content(V(), s)[..at]
      modifies buf, buffer
      ensures at + n <= |Content(V(), s)| && buffer[..at + n] == Content(V(), s)[..at + n]
      ensures buffer[end..] == old(buffer[end..])
    {
      hide Geometry.First, Geometry.End, VolOf, DataSector, BytesOf, Flat, Content, SectorNo, Shape;
      DataSectorBounds(g, cluster, indexSector);
      ReadDiskSector(DataSector(g, cluster, indexSector));
      ClusterSector(g, disk, cluster, indexSector);
      ContentSector(V(), g.spc, s, j, indexSector, n);
      CopyOut(buffer, at, n, end);
      ContentJoin(buffer[..], Content(V(), s), at, n);
    }

    /** `buffer[at + i] = diskBuffer[i]` for `i < n`. */
    method CopyOut(buffer: array<Byte>, at: nat, n: nat, ghost end: nat)
      requires buffer != buf && n <= buf.Length && at + n <= end <= buffer.Length
      modifies buffer
      ensures buffer[..at] == old(buffer[..at]) && buffer[at..at + n] == buf[..n]
      ensures buffer[end..] == old(buffer[end..])
    {
      for i := 0 to n
        invariant buffer[..at] == old(buffer[..at]) && buffer[at..at + i] == buf[..i]
        invariant buffer[end..] == old(buffer[end..])
      {
        buffer[at + i] := buf[i];
      }
    }

    // ----- Directories

    /** The search loop of `addFileToDirectory`: leaves the sector of the first record with a zero
        first byte in the buffer. */
    method FindSlot(dirCluster: nat, ghost s: seq<nat>, ghost n: nat)
      returns (ok: bool, sector: nat, indexRecord: nat, ghost s': seq<nat>, ghost j: nat, ghost t: nat)
      requires Good() && dirCluster in dirs && HasChain(V().fat, dirCluster) && s == ChainOf(V().fat, dirCluster)
      requires n == EndIndex(Records(V(), dirCluster))
      modifies this`disk, this`seen, buf
      ensures old(seen) <= seen
      ensures !ok || s' == s ==> seen == old(seen)
      ensures ok && s' != s ==> Trail(old(V()), old(seen), seen, {s[|s| - 1]}, {})
      ensures Good()
      ensures !ok ==> disk == old(disk) && Full(V()) && n == |Records(V(), dirCluster)|
      ensures ok ==> Grown(old(V()), g.spc, s, V(), s') && j < |s'| == Max(|s|, j + 1)
      ensures ok ==> s'[..|s|] == s
      ensures ok && s' == s ==> V() == old(V())
      ensures ok ==> s' == s || (|s'| == |s| + 1 && ExtendedBy(old(V()), g.spc, s[|s| - 1], s'[|s|], V()))
      ensures ok ==> Slot(g.spc, j, t, indexRecord, n) && 2 <= s'[j] < g.N()
      ensures ok ==> sector == DataSector(g, s'[j], t) < |disk| && SectorIs(V(), s'[j], t, buf[..])
      ensures ok ==> buf[32 * indexRecord] == 0
    {
      hide Trail, Full, Geometry.First, Geometry.End, FsOK, Mirrored, VolOf, Grown, CrashSafe, ExtendedBy, SectorNo, DataSector, EndIndex, Records, ChainOf,
        TailFree, FatSafe;
      ghost var v := V();
      FsFacts(v, g.spc, g.root, dirs, dirCluster);
      var cluster, indexSector: nat := dirCluster, 0;
      ok, indexRecord, s', j := true, 0, s, 0;
      GrownRefl(v, g.spc, s);
      SectorNoNext(g.spc, 0, 0);
      sector := LoadSector(cluster, indexSector, v, s, s', j);
      SlotByte(v, g.spc, s, V(), s', j, indexSector, indexRecord, 0, n);
      while buf[32 * indexRecord] != 0
        invariant old(seen) <= seen
        invariant s' == s ==> seen == old(seen)
        invariant s' != s ==> Trail(v, old(seen), seen, {s[|s| - 1]}, {})
        invariant Good() && Grown(v, g.spc, s, V(), s') && j < |s'| == Max(|s|, j + 1) && cluster == s'[j]
        invariant indexSector < g.spc && indexRecord < 16 && Position(g.spc, j, indexSector, indexRecord) <= n
        invariant 2 <= cluster < g.N() && sector == DataSector(g, cluster, indexSector) < |disk|
        invariant SectorIs(V(), cluster, indexSector, buf[..])
        invariant buf[32 * indexRecord] == 0 <==> Position(g.spc, j, indexSector, indexRecord) == n
        invariant s' == s ==> disk == old(disk)
        invariant s' != s ==> Position(g.spc, j, indexSector, indexRecord) == n && |s'| == |s| + 1
        invariant s' != s ==> ExtendedBy(v, g.spc, s[|s| - 1], s'[|s|], V())
        decreases n - Position(g.spc, j, indexSector, indexRecord)
      {
        indexRecord := indexRecord + 1;
        if indexRecord >= 16 {
          indexRecord := 0;
          RecordCount(v, g.spc, dirCluster, s);
          ghost var j0, t0 := j, indexSector;
          assert s' == s && cluster == s[j0];
          ok, sector, cluster, indexSector, s', j := NextDirSector(cluster, indexSector, v, s, j);
          if !ok {
            LastPosition(g.spc, j0, t0);
            t := 0;
            return;
          }
        }
        SlotByte(v, g.spc, s, V(), s', j, indexSector, indexRecord, Position(g.spc, j, indexSector, indexRecord), n);
      }
      t := indexSector;
      GrownPrefix(v, g.spc, s, V(), s');
    }

    method NextDirSector(cluster: nat, indexSector: nat, ghost v: Vol, ghost s: seq<nat>, ghost j: nat)
      returns (ok: bool, sector: nat, cluster': nat, indexSector': nat, ghost s': seq<nat>, ghost j2: nat)
      requires Good() && V() == v && Grown(v, g.spc, s, v, s) && j < |s| && s[j] == cluster && indexSector < g.spc
      modifies this`disk, this`seen, buf
      ensures old(seen) <= seen
      ensures Trail(old(V()), old(seen), seen, {cluster}, {}) && (!ok ==> seen == old(seen))
      ensures s' == s ==> seen == old(seen)
      ensures Good() && Grown(v, g.spc, s, V(), s')
      ensures s' == s ==> disk == old(disk)
      ensures !ok ==> disk == old(disk) && Full(V()) && j + 1 == |s| && indexSector + 1 == g.spc
      ensures ok ==> j2 < |s'| == Max(|s|, j2 + 1) && cluster' == s'[j2] && indexSector' < g.spc
      ensures s' != s ==> j + 1 == |s|
      ensures ok && s' != s ==> j2 == |s| && indexSector' == 0 && |s'| == |s| + 1
      ensures ok && s' != s ==> ExtendedBy(v, g.spc, s[|s| - 1], s'[|s|], V())
      ensures ok ==> SectorNo(g.spc, j2, indexSector') == SectorNo(g.spc, j, indexSector) + 1
      ensures ok ==> 2 <= cluster' < g.N() && sector == DataSector(g, cluster', indexSector') < |disk|
      ensures ok ==> SectorIs(V(), cluster', indexSector', buf[..]) && FatSafe(V().fat)
    {
      hide Trail, Full, Geometry.First, Geometry.End, FsOK, Mirrored, VolOf, Grown, CrashSafe, ExtendedBy, SectorNo, DataSector, FatSafe;
      sector := 0;
      ok, cluster', indexSector', s', j2 := NextSector(cluster, indexSector, v, s, s, j);
      if !ok { return; }
      sector := LoadSector(cluster', indexSector', v, s, s', j2);
    }

    /** The record of `entry` is stored at record `k` of the buffer. */
    method StoreEntry(k: nat, entry: Entry)
      requires buf.Length == 512 && k < 16 && EntryOK(entry)
      modifies buf
      ensures forall b :: 0 <= b < 512 && !(32 * k <= b < 32 * k + 32) ==> buf[b] == old(buf[b])
      ensures RecordBytes(RecIn(buf[..], k), entry)
      ensures Holds(RecIn(buf[..], k), entry) && RestKept(RecIn(buf[..], k), RecIn(old(buf[..]), k))
    {
      hide PutU16, PutU32, U32, RecIn, Holds, RestKept, RecordBytes;
      var record := 32 * k;
      ghost var before := buf[..];
      StoreName(record, entry.name);
      buf[record + 11] := entry.attr;
      StoreU16(record + 20, entry.fstCluster / 0x1_0000);
      StoreU16(record + 26, entry.fstCluster % 0x1_0000);
      StoreU32(record + 28, entry.size % 0x1_0000);
      RecordFields(buf[..], k);
      HoldsIs(RecIn(buf[..], k), entry);
      HeldBytes(RecIn(buf[..], k), entry);
      RestIs(before, buf[..], k);
    }

    method StoreName(record: nat, name: seq<Byte>)
      requires buf.Length == 512 && record + 11 <= 512 && |name| == 11
      modifies buf
      ensures forall b :: 0 <= b < 512 ==> buf[b] == if record <= b < record + 11 then name[b - record] else old(buf[b])
    {
      for i := 0 to 11
        invariant forall b :: 0 <= b < 512 ==> buf[b] == if record <= b < record + i then name[b - record] else old(buf[b])
      {
        buf[record + i] := name[i];
      }
    }

    method StoreU16(o: nat, w: nat)
      requires buf.Length == 512 && o + 2 <= 512 && w < 0x1_0000
      modifies buf
      ensures buf[..] == PutU16(old(buf[..]), o, w)
    {
      buf[o] := w % 0x100;
      buf[o + 1] := w / 0x100;
    }

    method StoreU32(o: nat, w: nat)
      requires buf.Length == 512 && o + 4 <= 512 && w < 0x1_0000_0000
      modifies buf
      ensures buf[..] == PutU32(old(buf[..]), o, w)
    {
      buf[o] := w % 0x100;
      buf[o + 1] := w / 0x100 % 0x100;
      buf[o + 2] := w / 0x1_0000 % 0x100;
      buf[o + 3] := w / 0x100_0000;
    }

    method AddFileToDirectory(dirCluster: nat, entry: Entry) returns (ok: bool, ghost rec: Rec)
      requires Good() && dirCluster in dirs && EntryOK(entry)
      requires LiveEntry(entry) ==>
                 Attachable(V(), dirs, g.root, dirCluster, entry.fstCluster, entry.attr / 16 % 2 == 1)
      modifies this`disk, this`seen, buf
      ensures Good() && old(seen) <= seen && (!ok ==> disk == old(disk))
      ensures AppendOutcome(old(V()), g.spc, dirCluster, entry, ok, rec, V(), old(seen), seen)
    {
      hide AppendTrail, AppendSpared, Full, Geometry.First, Geometry.End, FsOK, Mirrored, VolOf, CrashSafe, SectorNo, DataSector, EndIndex,
        Records, ChainOf, Appended, Attachable, Position, Cluster, Grown, ExtendedBy, FatSafe, TailFree, RestKept, SlotOf, HasChain, Trail, PutSector, RecIn, Live, IsDir, Holds, RecordBytes;
      ghost var v := V();
      FsFacts(v, g.spc, g.root, dirs, dirCluster);
      ghost var s, n := ChainOf(v.fat, dirCluster), EndIndex(Records(v, dirCluster));
      var sector, indexRecord;
      ghost var s', j, t;
      rec := seq(32, _ => 0);
      ok, sector, indexRecord, s', j, t := FindSlot(dirCluster, s, n);
      if !ok {
        AppendTrailNone(v, g.spc, dirCluster, seen);
        return;
      }
      ghost var mid, before := V(), seen;
      if LiveEntry(entry) && s' != s {
        AttachKept(v, g.spc, g.root, dirs, s[|s| - 1], s'[|s|], mid, dirCluster, entry.fstCluster, entry.attr / 16 % 2 == 1);
      }
      GoodFat(mid, g.spc, g.root, dirs);
      SlotRecord(v, g.spc, s, mid, s', j, t, indexRecord, n);
      StoreEntry(indexRecord, entry);
      rec := RecIn(buf[..], indexRecord);
      HeldEntry(buf[..], indexRecord, entry);
      WriteData(g, disk, s'[j], t, buf[..]);
      WriteDiskSector(sector);
      AppendDone(v, g.spc, g.root, dirs, dirCluster, s, mid, s', j, t, indexRecord, n, buf[..], V(), old(seen), before, seen);
    }

    method LoadSector(cluster: nat, indexSector: nat, ghost v: Vol, ghost s: seq<nat>, ghost s': seq<nat>, ghost j: nat)
      returns (sector: nat)
      requires Good() && Grown(v, g.spc, s, V(), s') && j < |s'| && cluster == s'[j] && indexSector < g.spc
      modifies buf
      ensures 2 <= cluster < g.N() && sector == DataSector(g, cluster, indexSector) < |disk|
      ensures SectorIs(V(), cluster, indexSector, buf[..]) && FatSafe(V().fat) && InVol(V(), s')
    {
      hide Geometry.First, Geometry.End, Mirrored, VolOf, Grown, DataSector, CrashSafe;
      GoodFat(V(), g.spc, g.root, dirs);
      GrownChain(v, g.spc, s, V(), s', j);
      DataSectorBounds(g, cluster, indexSector);
      sector := DataSector(g, cluster, indexSector);
      ReadDiskSector(sector);
      ClusterSector(g, disk, cluster, indexSector);
    }

    /** `mid` and `mid'` are the volumes after the parent's record and after ".". */
    method Mkdir(dirCluster: nat, directoryName: seq<Byte>)
      returns (ok: bool, ghost c: nat, ghost rec: Rec, ghost dot: Rec, ghost dotdot: Rec, ghost mid: Vol, ghost mid': Vol)
      requires Good() && dirCluster in dirs && |directoryName| >= 12
      modifies this, buf
      ensures old(seen) <= seen
      ensures Good() && (!ok ==> Full(V()) && Spared(old(V()), V()))
      ensures HasChain(old(V()).fat, dirCluster) && AppendTrail(old(V()), g.spc, dirCluster, old(seen), seen)
      ensures ok <==> |FreeSet(old(V()))| >= 1 + (if DirFull(old(V()), dirCluster) then 1 else 0)
      ensures ok ==> 2 <= c < g.N() && old(V()).fat[c] == 0 && dirs == old(dirs) + {c} && c !in old(dirs)
      ensures ok ==> Holds(rec, Entry(Encoded(directoryName), 16, c, 0))
      ensures ok ==> Holds(dot, Entry(DotName(), 16, c, 0)) && Holds(dotdot, Entry(DotDotName(), 16, dirCluster, 0))
      ensures ok ==> NameOf(dot) == [0x2E] && NameOf(dotdot) == [0x2E, 0x2E]
      ensures ok ==> IsDir(dot) && TargetOf(dot) == c && IsDir(dotdot) && TargetOf(dotdot) == dirCluster
      ensures ok ==>
                && Appended(Marked(old(V()), c, ZeroCluster(g.spc)), g.spc, dirCluster, rec, mid)
                && Appended(mid, g.spc, c, dot, mid') && Appended(mid', g.spc, c, dotdot, V())
      ensures ok ==> HasChain(V().fat, c) && Log(Records(V(), c)) == [dot, dotdot] && TailFree(Records(V(), c))
      ensures ok ==> HasChain(V().fat, dirCluster) && HasChain(old(V()).fat, dirCluster)
      ensures ok ==> Log(Records(V(), dirCluster)) == Log(Records(old(V()), dirCluster)) + [rec]
    {
      hide Trail, AppendTrail, AppendSpared, Full, Geometry.First, Geometry.End, FsOK, Mirrored, VolOf, CrashSafe, Appended, Records, Log, TailFree, Attachable,
        Holds, FatSafe, Encoded, ChainOf, HasChain, DirFull, FreeSet, Spared, Marked;
      ghost var v := V();
      FullCount(v);
      rec, dot, dotdot, mid, mid' := seq(32, _ => 0), seq(32, _ => 0), seq(32, _ => 0), v, v;
      FsFacts(v, g.spc, g.root, dirs, dirCluster);
      var fstCluster;
      ok, fstCluster := AllocateFreeCluster(0);
      c := fstCluster;
      ghost var before := seen;
      AppendTrailMore(v, g.spc, dirCluster, old(seen), seen);
      if !ok {
        SparedRefl(v, g.spc);
        return;
      }
      ghost var v1 := V();
      AdoptNew(v, g.spc, g.root, dirs, dirCluster, c);
      TookOne(v, g.spc, c, dirCluster);
      dirs := dirs + {c};
      var name := new Byte[13](_ => 0);
      WriteFileName(name, directoryName);
      ok, rec := AddFileToDirectory(dirCluster, Entry(name[..11], 16, fstCluster, 0));
      BuiltThenAppend(v, g.spc, [c], v1, dirCluster, old(seen), before, seen);
      if ok { BuiltThenSpared(v, g.spc, [c], v1, dirCluster, V()); }
      if !ok { return; }
      mid := V();
      before := seen;
      OneAppend(v1, g.spc, g.root, dirs, dirCluster, c, rec, mid);
      RoomFor(mid, g.spc, c);
      ok, dot := AddFileToDirectory(fstCluster, Entry(DotName(), 16, fstCluster, 0));
      mid' := V();
      OwnAppend(v, g.spc, dirCluster, mid, c, mid', old(seen), before, seen);
      before := seen;
      OneAppend(mid, g.spc, g.root, dirs, c, dirCluster, dot, mid');
      RoomFor(mid', g.spc, c);
      ok, dotdot := AddFileToDirectory(fstCluster, Entry(DotDotName(), 16, dirCluster, 0));
      NewChain(mid, g.spc, c, dot, mid');
      OwnAppend(v, g.spc, dirCluster, mid', c, V(), old(seen), before, seen);
      NewDirectory(v1, g.spc, g.root, dirs, dirCluster, c, rec, mid, dot, mid', dotdot, V());
      DotRecords(dot, c, dotdot, dirCluster);
    }

    /** `built` is the volume when the file is complete and not yet in its directory. */
    method WriteFile(dirCluster: nat, filename: seq<Byte>, buffer: seq<Byte>)
      returns (ok: bool, ghost fs: seq<nat>, ghost built: Vol, ghost rec: Rec)
      requires Good() && dirCluster in dirs && |filename| >= 12
      modifies this`disk, this`seen, buf
      ensures old(seen) <= seen
      ensures Good() && (!ok ==> Full(V()) && Spared(old(V()), V()))
      ensures HasChain(old(V()).fat, dirCluster) && AppendTrail(old(V()), g.spc, dirCluster, old(seen), seen)
      ensures ok <==> |FreeSet(old(V()))| >= ClustersFor(g.spc, |buffer|) + (if DirFull(old(V()), dirCluster) then 1 else 0)
      ensures ok ==> FileWritten(old(V()), g.spc, dirCluster, filename, buffer, fs, built, rec, V()) && fs[0] !in dirs
      ensures ok && !Live(rec) ==> Orphan(V(), dirs, fs[0])
      ensures ok ==> |fs| > 0 && LowestFree(old(V()), fs[0])
    {
      hide Trail, AppendTrail, AppendSpared, Full, Geometry.First, Geometry.End, FsOK, Mirrored, VolOf, CrashSafe, Appended, Records, Log, TailFree, Attachable,
        Holds, FatSafe, Encoded, ChainOf, HasChain, Content, Flat, Built, Orphan, DirFull, FreeSet, Spared, ClustersFor, LowestFree;
      ghost var v := V();
      FsFacts(v, g.spc, g.root, dirs, dirCluster);
      rec := seq(32, _ => 0);
      var fileCluster;
      ok, fileCluster, fs := WriteContents(buffer);
      built := V();
      ghost var before := seen;
      AppendTrailMore(v, g.spc, dirCluster, old(seen), seen);
      if !ok { return; }
      TookChain(v, g.spc, fs, built, dirCluster);
      AttachFile(v, g.spc, g.root, dirs, dirCluster, fs, built);
      var name := new Byte[13](_ => 0);
      WriteFileName(name, filename);
      ok, rec := AddFileToDirectory(dirCluster, Entry(name[..11], 0, fileCluster, |buffer|));
      BuiltThenAppend(v, g.spc, fs, built, dirCluster, old(seen), before, seen);
      if !ok { return; }
      FileListed(v, g.spc, g.root, dirs, dirCluster, fs, built, rec, V());
      HeldFirst(rec, Entry(name[..11], 0, fileCluster, |buffer|));
      if !Live(rec) { UnlistedOrphan(built, g.spc, g.root, dirs, dirCluster, fs, rec, V()); }
    }

    /** The part of `writeFile` before the file gets its directory record. */
    method WriteContents(buffer: seq<Byte>) returns (ok: bool, first: nat, ghost fs: seq<nat>)
      requires Good()
      modifies this`disk, this`seen, buf
      ensures old(seen) <= seen && Trail(old(V()), old(seen), seen, {}, {})
      ensures Good() && (!ok ==> Full(V())) && Spared(old(V()), V())
      ensures ok <==> |FreeSet(old(V()))| >= ClustersFor(g.spc, |buffer|)
      ensures ok ==> Built(old(V()), g.spc, fs, V()) && |fs| == ClustersFor(g.spc, |buffer|) && fs[0] == first
      ensures ok ==> IsChain(V().fat, fs) && Orphan(V(), dirs, first) && SameTree(old(V()), V(), dirs) && LowestFree(old(V()), first)
      ensures ok ==> InVol(V(), fs) && |buffer| <= |Content(V(), fs)| && Content(V(), fs)[..|buffer|] == buffer
    {
      hide Trail, Full, Geometry.First, Geometry.End, FsOK, Mirrored, VolOf, CrashSafe, FatSafe, FileSoFar, SectorNo, Spared, FreeSet,
        ClustersFor, Progress, LowestFree, Orphan, SameTree, Built, IsChain, InVol, Content;
      ghost var v := V();
      var indexSector: nat, bufferIndex: nat, left: nat := 0, 0, |buffer|;
      ok, first := AllocateFreeCluster(0);
      var cluster := first;
      fs := [first];
      if !ok {
        GoodFat(v, g.spc, g.root, dirs);
        SparedRefl(v, g.spc);
        FullCount(v);
        AtLeastOne(g.spc, |buffer|);
        return;
      }
      LowestIs(v, first);
      FileStart(v, g.spc, g.root, dirs, first, buffer);
      SectorNoNext(g.spc, 0, 0);
      ProgressStart(|buffer|);
      ghost var j: nat, k: nat := 0, 0;
      while left != 0
        invariant old(seen) <= seen && Trail(v, old(seen), seen, {}, {})
        invariant Good() && FileSoFar(v, g.spc, dirs, first, buffer, bufferIndex, fs, V())
        invariant j + 1 == |fs| && cluster == fs[j] && indexSector < g.spc && k == SectorNo(g.spc, j, indexSector)
        invariant Progress(|buffer|, bufferIndex, left, k) && bufferIndex + left == |buffer|
      {
        var copySize := if left >= 512 then 512 else left;
        ghost var before := seen;
        ProgressStep(|buffer|, bufferIndex, left, k);
        ok, cluster, indexSector, fs, j := WriteTurn(cluster, indexSector, buffer, bufferIndex, copySize, left - copySize, v, first, fs, j, k);
        TrailJoin(v, old(seen), before, seen, {}, {});
        if !ok { return; }
        left := left - copySize;
        bufferIndex := bufferIndex + copySize;
        k := k + 1;
      }
      ProgressDone(|buffer|, bufferIndex, k);
      SectorNoSplit(g.spc, j, indexSector);
      ClustersDone(g.spc, |buffer|, k, j);
      GoodFat(V(), g.spc, g.root, dirs);
      FileComplete(v, g.spc, dirs, first, buffer, fs, V());
    }

    /** One turn of the loop of `writeFile`: a chunk, and on to the next sector. */
    method WriteTurn(cluster: nat, indexSector: nat, buffer: seq<Byte>, bufferIndex: nat, copySize: nat, ghost left: nat, ghost v: Vol,
                     ghost first: nat, ghost fs: seq<nat>, ghost j: nat, ghost k: nat)
      returns (ok: bool, cluster': nat, indexSector': nat, ghost fs': seq<nat>, ghost j2: nat)
      requires Good() && FileSoFar(v, g.spc, dirs, first, buffer, bufferIndex, fs, V())
      requires j + 1 == |fs| && cluster == fs[j] && indexSector < g.spc && k == SectorNo(g.spc, j, indexSector)
      requires bufferIndex == 512 * k && copySize <= 512 && bufferIndex + copySize <= |buffer|
      requires Progress(|buffer|, bufferIndex + copySize, left, k + 1)
      modifies this`disk, this`seen, buf
      ensures old(seen) <= seen && Trail(v, old(seen), seen, {}, {}) && Good()
      ensures !ok ==> Full(V()) && Spared(v, V()) && |FreeSet(v)| < ClustersFor(g.spc, |buffer|)
      ensures ok ==> FileSoFar(v, g.spc, dirs, first, buffer, bufferIndex + copySize, fs', V())
      ensures ok ==> j2 + 1 == |fs'| && cluster' == fs'[j2] && indexSector' < g.spc && k + 1 == SectorNo(g.spc, j2, indexSector')
    {
      hide Trail, Full, Geometry.First, Geometry.End, FsOK, Mirrored, VolOf, CrashSafe, FatSafe, Content, Built, Orphan, SameTree,
        ExtendedBy, SectorNo, Grown, Spared, FreeSet, ClustersFor, Progress, SparedBut;
      WriteChunk(cluster, indexSector, buffer[bufferIndex..bufferIndex + copySize], buffer[..bufferIndex], v, fs, j);
      assert buffer[..bufferIndex] + buffer[bufferIndex..bufferIndex + copySize] == buffer[..bufferIndex + copySize];
      ghost var v1, before := V(), seen;
      GoodFat(v1, g.spc, g.root, dirs);
      GrownRefl(v1, g.spc, fs);
      FailsOnlyShort(g.spc, |buffer|, bufferIndex + copySize, left, k, j, indexSector);
      ok, cluster', indexSector', fs', j2 := NextSector(cluster, indexSector, v1, fs, fs, j);
      GrewTrail(v, g.spc, fs, v1, cluster, old(seen), before, seen);
      if !ok {
        BuiltTook(v, g.spc, fs, v1);
        FullCount(v1);
        return;
      }
      FileStep(v, g.spc, g.root, dirs, v1, fs, cluster, cluster', V(), fs', bufferIndex + copySize);
    }

    /** One turn of the loop of `writeFile`: `chunk` goes where the bytes `done` end. */
    method WriteChunk(cluster: nat, indexSector: nat, chunk: seq<Byte>, ghost done: seq<Byte>,
                      ghost v: Vol, ghost fs: seq<nat>, ghost j: nat)
      requires Good() && Built(v, g.spc, fs, V()) && IsChain(V().fat, fs) && Orphan(V(), dirs, fs[0]) && SameTree(v, V(), dirs)
      requires j < |fs| && fs[j] == cluster && indexSector < g.spc && |chunk| <= 512
      requires |done| == 512 * SectorNo(g.spc, j, indexSector) && |done| <= |Content(V(), fs)|
      requires Content(V(), fs)[..|done|] == done
      modifies this`disk, this`seen, buf
      ensures old(seen) <= seen
      ensures Trail(v, old(seen), seen, {}, {})
      ensures Good() && Built(v, g.spc, fs, V()) && IsChain(V().fat, fs) && Orphan(V(), dirs, fs[0]) && SameTree(v, V(), dirs)
      ensures |done + chunk| <= |Content(V(), fs)| && Content(V(), fs)[..|done + chunk|] == done + chunk
    {
      hide Trail, SparedBut, Geometry.First, Geometry.End, FsOK, Mirrored, VolOf, CrashSafe, FatSafe, Content, Built, Orphan, SameTree,
        SectorNo, DataSector;
      ghost var v1 := V();
      GoodFat(v1, g.spc, g.root, dirs);
      DataSectorBounds(g, cluster, indexSector);
      var sector := DataSector(g, cluster, indexSector);
      ReadDiskSector(sector);
      for i := 0 to |chunk|
        modifies buf
        invariant forall b :: 0 <= b < i ==> buf[b] == chunk[b]
      {
        buf[i] := chunk[i];
      }
      assert buf[..][..|chunk|] == chunk;
      WriteData(g, disk, cluster, indexSector, buf[..]);
      WriteDiskSector(sector);
      FileWrite(v, g.spc, g.root, dirs, v1, fs, j, indexSector, buf[..], done, chunk);
      WroteTrail(v, g.spc, fs, V(), old(seen), seen);
    }

    // ----- Removing

    /** Clears every entry that it visits, in every FAT copy, from `cluster` on, and no other: on a chain
        exactly its members. Crash-safe after every write if nothing leads to the chain. */
    method RemoveFATChain(cluster: nat, ghost p: seq<nat>)
      requires Ready() && Mirrored(g, disk) && FreeRun(V().fat, p) && p[0] == cluster
      modifies this`disk, this`seen, buf
      ensures Ready() && Mirrored(g, disk) && V() == Freed(old(V()), p) && seen == old(seen) + FreeTrail(old(V()), p)
      ensures forall i :: 0 <= i < |p| ==> EntryOnDisk(g, disk, p[i], 0)
      ensures old(Good()) && IsChain(old(V()).fat, p) && Orphan(old(V()), dirs, cluster) ==>
                Good() && SameTree(old(V()), V(), dirs)
      decreases |p|
    {
      hide EntryOnDisk, Geometry.First, Geometry.End, FsOK, Mirrored, VolOf, CrashSafe, Orphan, Freed, SameTree, IsChain;
      ghost var v := V();
      var newCluster := FreeHead(cluster);
      FreedStep(v, p);
      ghost var v1 := V();
      ghost var safe := old(Good()) && IsChain(v.fat, p) && Orphan(v, dirs, cluster);
      if safe { FreeStep(v, g.spc, g.root, dirs, p); }
      if newCluster < EOC {
        RemoveFATChain(newCluster, p[1..]);
        if safe { SameTreeTrans(v, v1, V(), dirs); }
      }
      forall i | 0 <= i < |p| ensures EntryOnDisk(g, disk, p[i], 0) {
        FreedEntry(v, p, i);
        FatOnDisk(g, disk, p[i]);
      }
    }

    /** The part of `removeFATChain` before the recursive call. */
    method FreeHead(cluster: nat) returns (newCluster: nat)
      requires Ready() && Mirrored(g, disk) && cluster < g.N()
      modifies this`disk, this`seen, buf
      ensures Ready() && Mirrored(g, disk) && V() == SetFat(old(V()), cluster, 0) && seen == old(seen) + {V()}
      ensures newCluster == old(V()).fat[cluster]
    {
      hide Geometry.First, Geometry.End, Mirrored, VolOf, PutWord;
      FatWord(g, disk, cluster);
      var sector := g.fatLBA + cluster / 128;
      ReadDiskSector(sector);
      newCluster := Word(buf[..], cluster % 128);
      StoreWord(cluster % 128, 0);
      UpdateEveryFat(sector, cluster, 0);
    }

    /** Marks record `index`, whatever it is, and clears what `removeFATChain` visits from its cluster on
        (`p`); `mid` is the volume in between. The record may lie anywhere in the chain of the directory.
        A live record, or one whose chain nothing leads to, is removed safely; a record that is not live
        leaves a crash-safe volume exactly if no cluster and nothing reachable leads to its chain; one
        whose cluster is free costs entry 0. */
    method RemoveEntryFromDirectory(dirCluster: nat, index: nat, ghost rec: Rec, ghost p: seq<nat>) returns (ghost mid: Vol)
      requires Good() && dirCluster in dirs && InDirectory(V(), dirCluster, index, rec)
      requires FreeRun(V().fat, p) && p[0] == Cluster(rec)
      modifies this, buf
      ensures old(seen) <= seen && dirs == old(dirs) - NewDirs(rec)
      ensures Ready() && Mirrored(g, disk) && V() == Freed(mid, p) && Tombed(old(V()), g.spc, dirCluster, index, mid)
      ensures Removable(old(V()), old(dirs), dirCluster, index, rec) ==>
                && Good() && dirCluster in dirs && IsChain(old(V()).fat, p)
                && Removed(old(V()), g.spc, dirCluster, index, V())
      ensures HasRecord(old(V()), dirCluster, index, rec) && !Live(rec) && IsChain(old(V()).fat, p) ==>
                (CrashSafe(V(), g.spc, g.root) <==> NoPred(old(V()).fat, p[0]) && !Led(old(V()), g.root, p[0]))
      ensures HasRecord(old(V()), dirCluster, index, rec) && FreeSlot(old(V()).fat, p[0]) ==>
                Good() && dirs == old(dirs) && V() == SetFat(mid, 0, 0)
    {
      hide Geometry.First, Geometry.End, FsOK, Mirrored, VolOf, CrashSafe, FatSafe, Orphan, ClusterIx, SectorIx, Cluster, ChainOf,
        Removed, Tombed, Records, Log, SameTree, Led, NoPred, IsChain, Freed, FreeTrail, Live, IsDir, HasChain, IsHead, Logs, HasRecord;
      ghost var v, dirs0 := V(), dirs;
      InChain(v, g.spc, g.root, dirs, dirCluster, index, rec);
      var fstCluster;
      fstCluster, mid := MarkRemoved(dirCluster, index, v, rec);
      TombedFat(v, g.spc, dirCluster, index, mid);
      ghost var logged := HasRecord(v, dirCluster, index, rec);
      if !logged { BlankNotLive(v, g.spc, g.root, dirs, dirCluster, index, rec); }
      dirs := dirs - NewDirs(rec);
      if logged { SafeNow(mid, g.spc, g.root, dirs); }
      if Removable(v, dirs0, dirCluster, index, rec) { RemovableChain(v, g.spc, g.root, dirs0, dirCluster, index, rec, p); }
      RemoveFATChain(fstCluster, p);
      if Removable(v, dirs0, dirCluster, index, rec) {
        RemovedIs(v, g.spc, g.root, dirs0, dirCluster, index, mid, p, V());
      }
      if logged && !Live(rec) && IsChain(v.fat, p) {
        assert dirs == dirs0;
        MarkedLed(v, g.spc, g.root, dirs0, dirCluster, index, rec, mid, p[0]);
        FreedCrashSafe(mid, g.spc, g.root, p);
      }
      if logged && FreeSlot(v.fat, p[0]) {
        FreeSlotCleared(v, g.spc, g.root, dirs0, dirCluster, index, rec, mid, p);
      }
    }

    /** The first half of `removeEntryFromDirectory`: the record is marked, its chain still allocated. */
    method MarkRemoved(dirCluster: nat, index: nat, ghost v: Vol, ghost rec: Rec) returns (fstCluster: nat, ghost mid: Vol)
      requires Good() && v == V() && dirCluster in dirs && InDirectory(v, dirCluster, index, rec)
      requires ClusterIx(g.spc, index) < |ChainOf(v.fat, dirCluster)| && IsChain(v.fat, ChainOf(v.fat, dirCluster))
      modifies this`disk, this`seen, buf
      ensures Ready() && Mirrored(g, disk) && V() == mid && old(seen) <= seen && fstCluster == Cluster(rec)
      ensures Tombed(v, g.spc, dirCluster, index, mid)
      ensures HasRecord(v, dirCluster, index, rec) ==>
                && AllSafe() && FsOK(mid, g.spc, g.root, dirs - NewDirs(rec))
                && (Live(rec) || Orphan(v, dirs, Cluster(rec)) ==>
                      Orphan(mid, dirs - NewDirs(rec), Cluster(rec)) && dirCluster != Cluster(rec))
    {
      hide Geometry.First, Geometry.End, FsOK, Mirrored, VolOf, CrashSafe, FatSafe, Orphan, DataSector, Tombed, Log,
        Grown, ClusterIx, SectorIx, Cluster, ChainOf, EndIndex, RecordsOf, Flat, Live, NewDirs;
      var ok, record, sector;
      ghost var s, s' := ChainOf(v.fat, dirCluster), [];
      ok, record, sector, s' := GetToDirEl(dirCluster, index, s);
      GrownSame(v, g.spc, s, V(), s');
      fstCluster := U16(buf[..], record + 20) * 0x1_0000 + U16(buf[..], record + 26);
      ClusterField(buf[..], index % 16, rec);
      buf[record] := 0xE5;
      ghost var sec: Sector := buf[..];
      WriteData(g, disk, s[ClusterIx(g.spc, index)], SectorIx(g.spc, index), sec);
      WriteDiskSector(sector);
      mid := V();
      TombedIs(v, g.spc, g.root, dirs, dirCluster, index, sec, mid);
      if HasRecord(v, dirCluster, index, rec) { RemoveStep(v, g.spc, g.root, dirs, dirCluster, index, sec, mid); }
    }
  }

  // ----- Proof steps of writeFile and mkdir

  /** The directories read the same in both volumes. */
  ghost predicate SameTree(v: Vol, v': Vol, dirs: set<nat>) {
    DirsOK(v, dirs) && DirsOK(v', dirs) && Logs(v', dirs) == Logs(v, dirs)
  }

  lemma SameTreeRefl(v: Vol, spc: nat, root: nat, dirs: set<nat>)
    requires FsOK(v, spc, root, dirs)
    ensures SameTree(v, v, dirs)
  {}

  lemma SameTreeTrans(v: Vol, v1: Vol, v2: Vol, dirs: set<nat>)
    requires SameTree(v, v1, dirs) && SameTree(v1, v2, dirs)
    ensures SameTree(v, v2, dirs)
  {
    hide DirsOK;
  }

  /** `v'` is `v` with a new file in directory `d`: its bytes lie on the chain `fs` of clusters that
      were free, as many as the loop of `writeFile` steps through; `built` differs from `v` in those
      clusters alone; then the record `rec` was appended to the log of `d`. */
  ghost predicate FileWritten(v: Vol, spc: nat, d: nat, name: seq<Byte>, content: seq<Byte>,
                              fs: seq<nat>, built: Vol, rec: Rec, v': Vol) {
    && spc >= 1 && |name| >= 12
    && Built(v, spc, fs, built) && |fs| == ClustersFor(spc, |content|)
    && Holds(rec, Entry(Encoded(name), 0, fs[0], |content|))
    && Appended(built, spc, d, rec, v')
    && IsChain(v'.fat, fs) && InVol(v', fs)
    && |content| <= |Content(v', fs)| && Content(v', fs)[..|content|] == content
    && HasChain(v.fat, d) && Log(Records(v', d)) == Log(Records(v, d)) + [rec]
  }

  predicate LowestFree(v: Vol, c: nat) {
    2 <= c < |v.fat| && v.fat[c] == 0 && forall k :: 2 <= k < c ==> v.fat[k] != 0
  }

  lemma LowestIs(v: Vol, c: nat)
    requires 2 <= c < |v.fat| && v.fat[c] == 0 && forall k :: 2 <= k < c ==> v.fat[k] != 0
    ensures LowestFree(v, c)
  {}

  lemma SparedRefl(v: Vol, spc: nat)
    requires Shape(v, spc)
    ensures Spared(v, v)
  {}

  lemma AtLeastOne(spc: nat, size: nat)
    requires spc >= 1
    ensures ClustersFor(spc, size) >= 1
  {}

  lemma ClustersDone(spc: nat, size: nat, k: nat, j: nat)
    requires spc >= 1 && k == SectorsFor(size) && k / spc == j
    ensures ClustersFor(spc, size) == j + 1
  {}

  lemma BuiltTook(v: Vol, spc: nat, fs: seq<nat>, v': Vol)
    requires Built(v, spc, fs, v') && FatSafe(v'.fat)
    ensures Spared(v, v') && |FreeSet(v)| == |FreeSet(v')| + |fs|
  {
    hide Built, FreeSet, Spared;
    SafeLength(v'.fat);
    BuiltSpared(v, spc, fs, v');
    BuiltCount(v, spc, fs, v');
  }

  /** After the contents are written: how many clusters are left, and whether the directory is full. */
  lemma TookChain(v: Vol, spc: nat, fs: seq<nat>, built: Vol, d: nat)
    requires Built(v, spc, fs, built) && |v.fat| <= EOC && HasChain(v.fat, d)
    ensures |v.data| == |v.fat| && |built.data| == |built.fat| && HasChain(built.fat, d)
    ensures DirFull(built, d) <==> DirFull(v, d)
    ensures (|FreeSet(v)| == |fs| <==> Full(built)) && |FreeSet(v)| >= |fs|
  {
    hide Records, FreeSet, Full, EndIndex;
    BuiltRecords(v, spc, fs, built, d);
    BuiltCount(v, spc, fs, built);
    FullCount(built);
  }

  /** The same after one cluster was taken for a new directory. */
  lemma TookOne(v: Vol, spc: nat, c: nat, d: nat)
    requires Shape(v, spc) && FatSafe(v.fat) && 2 <= c < |v.fat| && v.fat[c] == 0 && HasChain(v.fat, d)
    ensures var v1 := Marked(v, c, ZeroCluster(spc));
            && |v1.data| == |v1.fat| && HasChain(v1.fat, d) && Spared(v, v1) && Built(v, spc, [c], v1) && (DirFull(v1, d) <==> DirFull(v, d))
            && (|FreeSet(v)| == 1 <==> Full(v1)) && |FreeSet(v)| >= 1
  {
    hide Records, FreeSet, Full, EndIndex, FatSafe;
    SafeLength(v.fat);
    BuiltStart(v, spc, c);
    BuiltSpared(v, spc, [c], Marked(v, c, ZeroCluster(spc)));
    TookChain(v, spc, [c], Marked(v, c, ZeroCluster(spc)), d);
  }

  /** A chain has room for sixteen records at least. */
  lemma RoomFor(v: Vol, spc: nat, d: nat)
    requires spc >= 1 && Shape(v, spc) && HasChain(v.fat, d) && |Log(Records(v, d))| < 16
    ensures !DirFull(v, d)
  {
    hide EndIndex, Records;
    RecordCount(v, spc, d, ChainOf(v.fat, d));
    TimesMono(1, |ChainOf(v.fat, d)|, spc);
    assert Times(0, spc) == 0;
  }

  lemma GrownPrefix(v: Vol, spc: nat, s: seq<nat>, v': Vol, s': seq<nat>)
    requires Grown(v, spc, s, v', s')
    ensures |s| <= |s'| && s'[..|s|] == s
  {}

  lemma HeldEntry(sec: Sector, k: nat, e: Entry)
    requires k < 16 && EntryOK(e) && Holds(RecIn(sec, k), e)
    ensures sec[32 * k] != 0 && Cluster(RecIn(sec, k)) == e.fstCluster
    ensures (Live(RecIn(sec, k)) <==> LiveEntry(e)) && (IsDir(RecIn(sec, k)) <==> e.attr / 16 % 2 == 1)
  {
    hide Cluster;
    HeldFirst(RecIn(sec, k), e);
  }

  /** All that the write which completes an append brings about. */
  lemma AppendDone(v: Vol, spc: nat, root: nat, dirs: set<nat>, d: nat, s: seq<nat>, mid: Vol, s': seq<nat>,
                   j: nat, t: nat, k: nat, n: nat, sec: Sector, v': Vol, a: set<Vol>, b: set<Vol>, e: set<Vol>)
    requires spc >= 1 && FsOK(v, spc, root, dirs) && FsOK(mid, spc, root, dirs) && d in dirs
    requires HasChain(v.fat, d) && s == ChainOf(v.fat, d) && |v.data| == |v.fat| && n == EndIndex(Records(v, d))
    requires Grown(v, spc, s, mid, s') && j < |s'| == Max(|s|, j + 1) && |s'| <= |s| + 1 && Slot(spc, j, t, k, n)
    requires s'[j] < |mid.data| && t < |mid.data[s'[j]]| && sec[32 * k] != 0
    requires forall x :: 0 <= x < 512 && !(32 * k <= x < 32 * k + 32) ==> sec[x] == mid.data[s'[j]][t][x]
    requires Live(RecIn(sec, k)) ==> Attachable(mid, dirs, root, d, Cluster(RecIn(sec, k)), IsDir(RecIn(sec, k)))
    requires if s' == s then b == a
             else ExtendedBy(v, spc, s[|s| - 1], s'[|s|], mid) && Trail(v, a, b, {s[|s| - 1]}, {})
    requires v' == PutSector(mid, s'[j], t, sec) && e == b + {v'}
    ensures FsOK(v', spc, root, dirs) && CrashSafe(v', spc, root) && Appended(v, spc, d, RecIn(sec, k), v')
    ensures AppendTrail(v, spc, d, a, e) && AppendSpared(v, spc, d, v')
    ensures DirFull(v, d) ==> !Full(v)
  {
    hide FsOK, EndIndex, Records, ChainOf, Appended, Attachable, Grown, ExtendedBy, Trail, AppendTrail, AppendSpared, FatSafe,
      TailFree, HasChain, CrashSafe, Cluster, Live, IsDir;
    GoodFat(v, spc, root, dirs);
    GoodFat(mid, spc, root, dirs);
    GrownPrefix(v, spc, s, mid, s');
    if s' == s { GrownSame(v, spc, s, mid, s'); }
    AppendTrailIs(v, spc, d, s, mid, s', j, t, k, n, sec, a, b);
    FinishAppend(v, spc, root, dirs, d, s, mid, s', j, t, k, n, sec);
    SafeLength(v.fat);
    if DirFull(v, d) { AppendedFull(v, spc, d, RecIn(sec, k), v'); }
    SafeNow(v', spc, root, dirs);
  }

  /** The record of a full directory goes to a new cluster. */
  lemma AppendedFull(v: Vol, spc: nat, d: nat, rec: Rec, v': Vol)
    requires spc >= 1 && Appended(v, spc, d, rec, v') && DirFull(v, d) && |v.fat| < EOC
    ensures !Full(v)
  {
    hide Records, Log, TailFree, EndIndex, ClusterIx, ChainOf;
    EndCluster(v, spc, d, ChainOf(v.fat, d));
    var s, s' := ChainOf(v.fat, d), ChainOf(v'.fat, d);
    assert v.fat[s'[|s|]] == 0;
  }

  /** The index just past the last record lies in the cluster after the last. */
  lemma EndCluster(v: Vol, spc: nat, d: nat, s: seq<nat>)
    requires spc >= 1 && Shape(v, spc) && HasChain(v.fat, d) && s == ChainOf(v.fat, d)
    ensures ClusterIx(spc, |Records(v, d)|) == |s|
  {
    RecordCount(v, spc, d, s);
    SectorNoSplit(spc, |s|, 0);
  }

  /** The last record of the last sector of a cluster comes before the first of the next cluster. */
  lemma LastPosition(spc: nat, j: nat, t: nat)
    ensures t + 1 == spc ==> Position(spc, j, t, 15) + 1 == Position(spc, j + 1, 0, 0)
  {
    SectorNoNext(spc, j, t);
  }

  function LinkOf(last: nat): set<nat> { if last == 0 then {} else {last} }

  lemma AppendTrailNone(v: Vol, spc: nat, d: nat, seen: set<Vol>)
    requires spc >= 1 && |v.data| == |v.fat| && HasChain(v.fat, d)
    ensures AppendTrail(v, spc, d, seen, seen)
  {}

  lemma AppendTrailMore(v: Vol, spc: nat, d: nat, a: set<Vol>, b: set<Vol>)
    requires spc >= 1 && |v.data| == |v.fat| && HasChain(v.fat, d) && Trail(v, a, b, {}, {})
    ensures AppendTrail(v, spc, d, a, b)
  {
    hide Trail, EndLink, SlotCluster;
    TrailMore(v, a, b, {}, {}, EndLink(v, spc, d), SlotCluster(v, spc, d));
  }

  lemma WroteTrail(v: Vol, spc: nat, fs: seq<nat>, v1: Vol, a: set<Vol>, b: set<Vol>)
    requires Built(v, spc, fs, v1) && b == a + {v1}
    ensures Trail(v, a, b, {}, {})
  {
    hide Trail, SparedBut, Built;
    BuiltSpared(v, spc, fs, v1);
    TrailOne(v, a, v1, b, {}, {});
  }

  /** The file's own clusters were not in use. */
  lemma GrewTrail(v: Vol, spc: nat, fs: seq<nat>, v1: Vol, c: nat, a: set<Vol>, b: set<Vol>, d: set<Vol>)
    requires Trail(v, a, b, {}, {}) && Built(v, spc, fs, v1) && c in fs && Trail(v1, b, d, {c}, {})
    ensures Trail(v, a, d, {}, {})
  {
    hide Trail, SparedBut;
    BuiltSpared(v, spc, fs, v1);
    TrailThen(v, v1, a, b, d, {}, {}, {c}, {});
  }

  lemma BuiltThenAppend(v: Vol, spc: nat, fs: seq<nat>, built: Vol, d: nat, a: set<Vol>, b: set<Vol>, e: set<Vol>)
    requires spc >= 1 && Built(v, spc, fs, built) && |v.fat| <= EOC && HasChain(v.fat, d) && HasChain(built.fat, d)
    requires AppendTrail(v, spc, d, a, b) && AppendTrail(built, spc, d, b, e)
    ensures AppendTrail(v, spc, d, a, e)
  {
    hide Trail, SparedBut, EndLink, SlotCluster, Records;
    BuiltRecords(v, spc, fs, built, d);
    SameAppendTrail(v, built, spc, d);
    BuiltSpared(v, spc, fs, built);
    var links, clusters := EndLink(v, spc, d), SlotCluster(v, spc, d);
    SparedMore(v, built, links, clusters);
    TrailThen(v, built, a, b, e, links, clusters, links, clusters);
  }

  lemma BuiltThenSpared(v: Vol, spc: nat, fs: seq<nat>, built: Vol, d: nat, w: Vol)
    requires spc >= 1 && Built(v, spc, fs, built) && |v.fat| <= EOC && HasChain(v.fat, d) && HasChain(built.fat, d)
    requires AppendSpared(built, spc, d, w)
    ensures AppendSpared(v, spc, d, w)
  {
    hide SparedBut, EndLink, SlotCluster, Records;
    BuiltRecords(v, spc, fs, built, d);
    SameAppendTrail(v, built, spc, d);
    BuiltSpared(v, spc, fs, built);
    var links, clusters := EndLink(v, spc, d), SlotCluster(v, spc, d);
    SparedMore(v, built, links, clusters);
    SparedTrans(v, built, w, links, clusters, links, clusters);
  }

  /** A record appended to a directory on a cluster that was not in use. */
  lemma OwnAppend(v: Vol, spc: nat, d: nat, w: Vol, c: nat, x: Vol, a: set<Vol>, b: set<Vol>, e: set<Vol>)
    requires spc >= 1 && |v.data| == |v.fat| && HasChain(v.fat, d) && |w.data| == |w.fat| && HasChain(w.fat, c)
    requires AppendTrail(v, spc, d, a, b) && AppendSpared(v, spc, d, w)
    requires AppendTrail(w, spc, c, b, e) && AppendSpared(w, spc, c, x) && ChainOf(w.fat, c) == [c] && !InUse(v, c)
    ensures AppendTrail(v, spc, d, a, e) && AppendSpared(v, spc, d, x)
  {
    var links, clusters := EndLink(v, spc, d), SlotCluster(v, spc, d);
    var links1, clusters1 := EndLink(w, spc, c), SlotCluster(w, spc, c);
    assert forall k :: k in links1 || k in clusters1 ==> k == c;
    hide *;
    hide EndLink, SlotCluster;
    assert Trail(v, a, b, links, clusters) && SparedBut(v, w, links, clusters);
    TrailThen(v, w, a, b, e, links, clusters, links1, clusters1);
    SparedTrans(v, w, x, links, clusters, links1, clusters1);
  }

  lemma NewChain(v: Vol, spc: nat, c: nat, rec: Rec, v': Vol)
    requires spc >= 1 && Appended(v, spc, c, rec, v') && ChainOf(v.fat, c) == [c] && Log(Records(v, c)) == []
    ensures ChainOf(v'.fat, c) == [c]
  {
    hide Records, ChainOf, TailFree, ClusterIx, EndIndex;
    FirstCluster(spc);
    assert EndIndex(Records(v, c)) == |Log(Records(v, c))|;
  }

  lemma FirstCluster(spc: nat)
    requires spc >= 1
    ensures ClusterIx(spc, 0) == 0
  {}

  lemma SparedMore(v: Vol, w: Vol, links: set<nat>, clusters: set<nat>)
    requires Spared(v, w)
    ensures SparedBut(v, w, links, clusters)
  {}

  /** `cur` is `v` with the first `n` bytes of a file on the chain `fs`, which nothing leads to yet. */
  ghost predicate FileSoFar(v: Vol, spc: nat, dirs: set<nat>, first: nat, buffer: seq<Byte>, n: nat, fs: seq<nat>, cur: Vol) {
    && Built(v, spc, fs, cur) && IsChain(cur.fat, fs) && fs[0] == first && Orphan(cur, dirs, first) && SameTree(v, cur, dirs)
    && InVol(cur, fs) && n <= |buffer| && n <= |Content(cur, fs)| && Content(cur, fs)[..n] == buffer[..n]
  }

  lemma FileStart(v: Vol, spc: nat, root: nat, dirs: set<nat>, c: nat, buffer: seq<Byte>)
    requires FsOK(v, spc, root, dirs) && 2 <= c < |v.fat| && v.fat[c] == 0
    ensures |v.data| == |v.fat|
    ensures FileSoFar(v, spc, dirs, c, buffer, 0, [c], Marked(v, c, ZeroCluster(spc)))
  {
    hide TreeOK, FatSafe, Records, Content;
    MarkFs(v, spc, root, dirs, c, ZeroCluster(spc));
    BuiltStart(v, spc, c);
  }

  lemma FileComplete(v: Vol, spc: nat, dirs: set<nat>, first: nat, buffer: seq<Byte>, fs: seq<nat>, cur: Vol)
    requires FileSoFar(v, spc, dirs, first, buffer, |buffer|, fs, cur) && FatSafe(cur.fat)
    ensures Built(v, spc, fs, cur) && IsChain(cur.fat, fs) && fs[0] == first && Orphan(cur, dirs, first) && SameTree(v, cur, dirs)
    ensures InVol(cur, fs) && |buffer| <= |Content(cur, fs)| && Content(cur, fs)[..|buffer|] == buffer
    ensures Spared(v, cur) && |FreeSet(v)| == |FreeSet(cur)| + |fs|
  {
    hide Built, Orphan, SameTree, Content, Spared, FreeSet, FatSafe;
    BuiltTook(v, spc, fs, cur);
    assert buffer[..|buffer|] == buffer;
  }

  lemma FileWrite(v: Vol, spc: nat, root: nat, dirs: set<nat>, v1: Vol, fs: seq<nat>, j: nat, t: nat, sec: Sector,
                  done: seq<Byte>, chunk: seq<Byte>)
    requires FsOK(v1, spc, root, dirs) && Built(v, spc, fs, v1) && IsChain(v1.fat, fs)
    requires Orphan(v1, dirs, fs[0]) && SameTree(v, v1, dirs)
    requires j < |fs| && t < spc && |chunk| <= 512 && sec[..|chunk|] == chunk
    requires |done| == 512 * SectorNo(spc, j, t) && |done| <= |Content(v1, fs)| && Content(v1, fs)[..|done|] == done
    ensures var v' := PutSector(v1, fs[j], t, sec);
            && FsOK(v', spc, root, dirs) && CrashSafe(v', spc, root)
            && Built(v, spc, fs, v') && IsChain(v'.fat, fs) && Orphan(v', dirs, fs[0]) && SameTree(v, v', dirs)
            && |done + chunk| <= |Content(v', fs)| && Content(v', fs)[..|done + chunk|] == done + chunk
  {
    hide TreeOK, Records, Content, Built, SectorNo;
    GoodFat(v1, spc, root, dirs);
    WriteOrphanFs(v1, spc, root, dirs, fs, j, t, sec);
    BuiltWrite(v, spc, fs, v1, j, t, sec);
    assert (done + chunk)[..|done|] == done && (done + chunk)[|done|..] == chunk;
    ContentPut(v1, spc, fs, j, t, sec, done + chunk, |chunk|);
  }

  lemma FileStep(v: Vol, spc: nat, root: nat, dirs: set<nat>, v1: Vol, fs: seq<nat>, cluster: nat, next: nat,
                 v2: Vol, fs': seq<nat>, n: nat)
    requires FsOK(v1, spc, root, dirs) && FsOK(v2, spc, root, dirs) && Built(v, spc, fs, v1) && IsChain(v1.fat, fs)
    requires Orphan(v1, dirs, fs[0]) && SameTree(v, v1, dirs) && cluster in fs && n <= |Content(v1, fs)|
    requires fs' == fs ==> v2 == v1
    requires fs' != fs ==> fs' == fs + [next] && ExtendedBy(v1, spc, cluster, next, v2)
    ensures Built(v, spc, fs', v2) && IsChain(v2.fat, fs') && Orphan(v2, dirs, fs[0]) && SameTree(v, v2, dirs)
    ensures InVol(v2, fs') && n <= |Content(v2, fs')| && Content(v2, fs')[..n] == Content(v1, fs)[..n]
  {
    hide TreeOK, Records, Content;
    StepContent(v1, spc, root, dirs, fs, cluster, next, v2, fs', n);
    if fs' != fs {
      BuiltGrow(v, spc, fs, v1, cluster, next, v2);
      ExtendFs(v1, spc, root, dirs, cluster, next);
    }
  }

  lemma AttachFile(v: Vol, spc: nat, root: nat, dirs: set<nat>, d: nat, fs: seq<nat>, built: Vol)
    requires FsOK(built, spc, root, dirs) && d in dirs && |fs| > 0 && Orphan(built, dirs, fs[0])
    ensures Attachable(built, dirs, root, d, fs[0], false) && fs[0] !in dirs
  {}

  lemma FileListed(v: Vol, spc: nat, root: nat, dirs: set<nat>, d: nat, fs: seq<nat>, built: Vol, rec: Rec, v': Vol)
    requires spc >= 1 && FsOK(v, spc, root, dirs) && FsOK(built, spc, root, dirs) && d in dirs
    requires IsChain(built.fat, fs) && Orphan(built, dirs, fs[0]) && SameTree(v, built, dirs)
    requires Appended(built, spc, d, rec, v')
    ensures IsChain(v'.fat, fs) && InVol(built, fs) && InVol(v', fs) && Content(v', fs) == Content(built, fs)
    ensures HasChain(v'.fat, d) && HasChain(v.fat, d) && Log(Records(v', d)) == Log(Records(v, d)) + [rec]
  {
    hide TreeOK, Records, Log, TailFree, Flat;
    FsFacts(v, spc, root, dirs, d);
    FsFacts(built, spc, root, dirs, d);
    AppendedKeeps(built, spc, d, rec, v', fs);
  }

  lemma HeldFirst(rec: Rec, e: Entry)
    requires EntryOK(e) && Holds(rec, e)
    ensures rec[0] == e.name[0] != 0
  {
    assert rec[0] == rec[..11][0];
  }

  /** A record that is not live does not count as leading to its chain. */
  lemma UnlistedOrphan(built: Vol, spc: nat, root: nat, dirs: set<nat>, d: nat, fs: seq<nat>, rec: Rec, v': Vol)
    requires spc >= 1 && FsOK(built, spc, root, dirs) && FsOK(v', spc, root, dirs) && d in dirs
    requires IsChain(built.fat, fs) && Orphan(built, dirs, fs[0]) && Appended(built, spc, d, rec, v')
    requires !Live(rec) && rec[0] != 0
    ensures Orphan(v', dirs, fs[0])
  {
    hide FsOK, TreeOK, Records, Log, TailFree, Flat, FatSafe, EndIndex, ChainOf, Appended, Live;
    FsParts(built, spc, root, dirs);
    FsParts(v', spc, root, dirs);
    FsFacts(built, spc, root, dirs, d);
    FsFacts(v', spc, root, dirs, d);
    AppendedKeeps(built, spc, d, rec, v', fs);
    StillHead(built, spc, d, rec, v', fs[0]);
    AppendedLogs(built, spc, root, dirs, d, rec, v');
    FsTree(built, spc, root, dirs);
    TreeAppend(Logs(built, dirs), root, d, rec);
  }

  lemma FsTree(v: Vol, spc: nat, root: nat, dirs: set<nat>)
    requires FsOK(v, spc, root, dirs)
    ensures DirsOK(v, dirs) && TreeOK(Logs(v, dirs), root)
  {
    hide TreeOK, Records, FatSafe;
  }

  lemma AppendedLogs(v: Vol, spc: nat, root: nat, dirs: set<nat>, d: nat, rec: Rec, v': Vol)
    requires spc >= 1 && FsOK(v, spc, root, dirs) && FsOK(v', spc, root, dirs) && d in dirs && Appended(v, spc, d, rec, v')
    ensures DirsOK(v, dirs) && DirsOK(v', dirs) && d in Logs(v, dirs)
    ensures Logs(v', dirs) == Logs(v, dirs)[d := Logs(v, dirs)[d] + [rec]]
  {
    hide FsOK, Records, Log, TailFree, FatSafe, EndIndex, ChainOf, Appended;
    FsParts(v, spc, root, dirs);
    FsParts(v', spc, root, dirs);
    forall e | e in dirs
      ensures Log(Records(v', e)) == if e == d then Log(Records(v, d)) + [rec] else Log(Records(v, e))
    {
      if e != d {
        OneAppend(v, spc, root, dirs, d, e, rec, v');
      } else {
        AppendedLog(v, spc, d, rec, v');
      }
    }
  }

  lemma AppendedLog(v: Vol, spc: nat, d: nat, rec: Rec, v': Vol)
    requires spc >= 1 && Appended(v, spc, d, rec, v')
    ensures |v.data| == |v.fat| && |v'.data| == |v'.fat| && HasChain(v.fat, d) && HasChain(v'.fat, d)
    ensures Log(Records(v', d)) == Log(Records(v, d)) + [rec]
  {
    hide Records, Log, TailFree, EndIndex, ChainOf;
  }

  lemma StillHead(v: Vol, spc: nat, d: nat, rec: Rec, v': Vol, h: nat)
    requires spc >= 1 && Appended(v, spc, d, rec, v') && NoPred(v.fat, h) && HasChain(v'.fat, d) && h !in ChainOf(v'.fat, d)
    requires h < EOC
    ensures NoPred(v'.fat, h)
  {
    hide Records, Log, TailFree, EndIndex, ChainOf, Shape;
    var s' := ChainOf(v'.fat, d);
    forall a | 2 <= a < |v'.fat| ensures v'.fat[a] != h {
      if a in s' {
        var k :| 0 <= k < |s'| && s'[k] == a;
        ChainAllocated(v'.fat, s', k);
      } else {
        assert forall x :: x in s'[|ChainOf(v.fat, d)| - 1..] ==> x in s';
      }
    }
  }

  function DotName(): seq<Byte> { [0x2E] + Spaces(10) }

  function DotDotName(): seq<Byte> { [0x2E, 0x2E] + Spaces(9) }

  /** The records of a new directory are called "." and ".." and lead to it and to its parent. */
  lemma DotRecords(dot: Rec, c: nat, dotdot: Rec, parent: nat)
    requires Holds(dot, Entry(DotName(), 16, c, 0)) && Holds(dotdot, Entry(DotDotName(), 16, parent, 0)) && c != 0 && parent != 0
    ensures NameOf(dot) == [0x2E] && NameOf(dotdot) == [0x2E, 0x2E]
    ensures IsDir(dot) && TargetOf(dot) == c && IsDir(dotdot) && TargetOf(dotdot) == parent
    ensures dot[0] == 0x2E && dotdot[0] == 0x2E
  {
    hide Strip;
    MetaBytes(dot);
    MetaBytes(dotdot);
    SpaceName(dot, [0x2E]);
    SpaceName(dotdot, [0x2E, 0x2E]);
  }

  /** A short name padded with spaces reads as that name. */
  lemma SpaceName(rec: Rec, name: seq<Byte>)
    requires 0 < |name| <= 8 && 0 !in name && name[|name| - 1] != 0x20 && rec[..11] == name + Spaces(11 - |name|)
    ensures NameOf(rec) == name
  {
    hide Strip, CStr;
    var base := rec[..8];
    assert forall i :: 0 <= i < 11 ==> rec[i] == rec[..11][i];
    assert base == name + Spaces(8 - |name|);
    StripSpaces(name, 8 - |name|);
    StripNothing(name);
    assert Decoded(rec) == name;
    CStrWhole(name);
  }

  lemma StripNothing(s: seq<Byte>)
    requires |s| > 0 && s[|s| - 1] != 0x20
    ensures Strip(s) == s
  {}

  lemma CStrWhole(s: seq<Byte>)
    requires 0 !in s
    ensures CStr(s) == s
  {
    assert s + [] == s;
    CStrAppend(s, []);
  }

  /** A fresh zeroed cluster may serve as a new directory under `d`. */
  lemma AdoptNew(v: Vol, spc: nat, root: nat, dirs: set<nat>, d: nat, c: nat)
    requires FsOK(v, spc, root, dirs) && d in dirs && 2 <= c < |v.fat| && v.fat[c] == 0
    ensures |v.data| == |v.fat| && c !in dirs
    ensures var v1 := Marked(v, c, ZeroCluster(spc));
            && FsOK(v1, spc, root, dirs + {c}) && Attachable(v1, dirs + {c}, root, d, c, true)
            && HasChain(v.fat, d) && HasChain(v1.fat, d) && Log(Records(v1, d)) == Log(Records(v, d))
            && HasChain(v1.fat, c) && Log(Records(v1, c)) == [] && ChainOf(v1.fat, c) == [c]
  {
    hide TreeOK, FatSafe, Records, Log, EndIndex;
    var v1 := Marked(v, c, ZeroCluster(spc));
    FsFacts(v, spc, root, dirs, d);
    MarkFs(v, spc, root, dirs, c, ZeroCluster(spc));
    BlankDirectory(v1, spc, c);
    ChainOfIs(v1.fat, [c]);
    AdoptFs(v1, spc, root, dirs, c);
    assert Logs(v1, dirs)[d] == Logs(v, dirs)[d];
    assert Logs(v1, dirs + {c})[c] == [];
  }

  lemma NewDirectory(v1: Vol, spc: nat, root: nat, dirs: set<nat>, d: nat, c: nat, rec: Rec, mid: Vol, dot: Rec, mid': Vol,
                     dotdot: Rec, v': Vol)
    requires spc >= 1 && d in dirs && c in dirs && d != c
    requires FsOK(v1, spc, root, dirs) && FsOK(mid, spc, root, dirs) && FsOK(mid', spc, root, dirs) && FsOK(v', spc, root, dirs)
    requires Appended(v1, spc, d, rec, mid) && Appended(mid, spc, c, dot, mid') && Appended(mid', spc, c, dotdot, v')
    requires HasChain(v1.fat, c) && Log(Records(v1, c)) == [] && HasChain(v1.fat, d)
    ensures HasChain(v'.fat, c) && Log(Records(v', c)) == [dot, dotdot] && TailFree(Records(v', c))
    ensures HasChain(v'.fat, d) && Log(Records(v', d)) == Log(Records(v1, d)) + [rec]
  {
    hide FsOK, Records, Log, TailFree, EndIndex, ChainOf, Appended;
    OneAppend(v1, spc, root, dirs, d, c, rec, mid);
    OneAppend(mid, spc, root, dirs, c, d, dot, mid');
    OneAppend(mid', spc, root, dirs, c, d, dotdot, v');
  }

  /** Appending to directory `d`, seen from `d` and from another directory `c`. */
  lemma OneAppend(v: Vol, spc: nat, root: nat, dirs: set<nat>, d: nat, c: nat, rec: Rec, v': Vol)
    requires spc >= 1 && FsOK(v, spc, root, dirs) && FsOK(v', spc, root, dirs) && d in dirs && c in dirs && c != d
    requires Appended(v, spc, d, rec, v')
    ensures |v.data| == |v.fat| && |v'.data| == |v'.fat|
    ensures HasChain(v.fat, d) && HasChain(v'.fat, d) && HasChain(v.fat, c) && HasChain(v'.fat, c)
    ensures Log(Records(v', d)) == Log(Records(v, d)) + [rec] && TailFree(Records(v', d))
    ensures Records(v', c) == Records(v, c) && ChainOf(v'.fat, c) == ChainOf(v.fat, c)
  {
    hide FsOK, Records, Log, TailFree, EndIndex, ChainOf;
    FsFacts(v, spc, root, dirs, d);
    FsFacts(v, spc, root, dirs, c);
    FsFacts(v', spc, root, dirs, c);
    AppendedOther(v, spc, d, rec, v', c);
  }

  lemma NameOfBuffer(rec: Rec, name: seq<Byte>)
    requires |Decoded(rec)| < |name| && name[..|Decoded(rec)|] == Decoded(rec) && name[|Decoded(rec)|] == 0
    ensures CStr(name) == NameOf(rec)
  {
    CStrTerminated(Decoded(rec), name);
  }

  // ----- Proof steps of removal

  /** The volumes that `removeFATChain` leaves after each entry it clears. */
  ghost function FreeTrail(v: Vol, p: seq<nat>): set<Vol>
    decreases |p|
  {
    if |p| == 0 || p[0] >= |v.fat| then {} else {SetFat(v, p[0], 0)} + FreeTrail(SetFat(v, p[0], 0), p[1..])
  }

  lemma FreedStep(v: Vol, p: seq<nat>)
    requires FreeRun(v.fat, p)
    ensures p[0] < |v.fat| && (v.fat[p[0]] < EOC <==> |p| > 1)
    ensures var v' := SetFat(v, p[0], 0);
            && (|p| > 1 ==> v.fat[p[0]] == p[1] && FreeRun(v'.fat, p[1..]))
            && Freed(v, p) == (if |p| > 1 then Freed(v', p[1..]) else v')
            && (|p| == 1 ==> FreeTrail(v', p[1..]) == {})
  {
    hide Cleared;
    ClearedStep(v.fat, p);
  }

  lemma FreedEntry(v: Vol, p: seq<nat>, i: nat)
    requires FreeRun(v.fat, p) && i < |p|
    ensures p[i] < |v.fat| && Freed(v, p).fat[p[i]] == 0
  {
    RunInTable(v.fat, p, i);
    assert p[i] in p;
  }

  lemma ClearedStep(fat: seq<nat>, p: seq<nat>)
    requires |p| > 0 && p[0] < |fat|
    ensures Cleared(fat, p) == Cleared(fat[p[0] := 0], p[1..])
    ensures |p| == 1 ==> Cleared(fat, p) == fat[p[0] := 0]
  {
    assert p == [p[0]] + p[1..];
    assert forall c :: c in p <==> c == p[0] || c in p[1..];
  }

  lemma FreeStep(v: Vol, spc: nat, root: nat, dirs: set<nat>, s: seq<nat>)
    requires FsOK(v, spc, root, dirs) && IsChain(v.fat, s) && Orphan(v, dirs, s[0])
    ensures var v' := SetFat(v, s[0], 0);
            && FsOK(v', spc, root, dirs) && CrashSafe(v', spc, root) && SameTree(v, v', dirs)
            && (|s| > 1 ==> IsChain(v'.fat, s[1..]) && Orphan(v', dirs, s[1]))
  {
    hide TreeOK, Records;
    FreeFs(v, spc, root, dirs, s);
  }

  /** `rec` is record `i` of the chain of directory `d`, in its log or behind it. */
  ghost predicate InDirectory(v: Vol, d: nat, i: nat, rec: Rec) {
    |v.data| == |v.fat| && HasChain(v.fat, d) && i < |Records(v, d)| && rec == Records(v, d)[i]
  }

  /** `rec` is record `i` of the log of directory `d`. */
  ghost predicate HasRecord(v: Vol, d: nat, i: nat, rec: Rec) {
    |v.data| == |v.fat| && HasChain(v.fat, d) && i < |Log(Records(v, d))| && rec == Log(Records(v, d))[i]
  }

  /** Removing the record harms nobody: it is live, or nothing else leads to its chain. */
  ghost predicate Removable(v: Vol, dirs: set<nat>, d: nat, i: nat, rec: Rec) {
    HasRecord(v, d, i, rec) && (Live(rec) || Orphan(v, dirs, Cluster(rec)))
  }

  /** Cluster `c` is free and entry 0 holds an end mark, as a formatted volume has it. */
  predicate FreeSlot(fat: seq<nat>, c: nat) {
    0 < c < |fat| && fat[c] == 0 && fat[0] >= EOC
  }

  function Tombstone(rec: Rec): Rec { rec[0 := 0xE5] }

  /** `mid` is `v` with record `i` of directory `d` marked as removed; no other record of any chain, and no
      other cluster, differs. */
  ghost predicate Tombed(v: Vol, spc: nat, d: nat, i: nat, mid: Vol)
    requires spc >= 1
  {
    && Shape(v, spc) && Shape(mid, spc) && mid.fat == v.fat && mid.boot == v.boot && mid.spare == v.spare
    && HasChain(v.fat, d) && i < |Records(v, d)| && ClusterIx(spc, i) < |ChainOf(v.fat, d)|
    && Records(mid, d) == Records(v, d)[i := Tombstone(Records(v, d)[i])]
    && (forall c :: 0 <= c < |v.data| && c != ChainOf(v.fat, d)[ClusterIx(spc, i)] ==> mid.data[c] == v.data[c])
    && (forall h :: IsHead(v.fat, h) && h != d ==> Records(mid, h) == Records(v, h))
  }

  /** `v'` is `v` with record `i` of directory `d` marked as removed, apart from the FAT. */
  ghost predicate Removed(v: Vol, spc: nat, d: nat, i: nat, v': Vol)
    requires spc >= 1
  {
    && Shape(v, spc) && Shape(v', spc) && |v'.fat| == |v.fat|
    && HasChain(v.fat, d) && HasChain(v'.fat, d) && ChainOf(v'.fat, d) == ChainOf(v.fat, d)
    && i < |Records(v, d)| && ClusterIx(spc, i) < |ChainOf(v.fat, d)|
    && Records(v', d) == Records(v, d)[i := Tombstone(Records(v, d)[i])]
    && (forall c :: 0 <= c < |v.data| && c != ChainOf(v.fat, d)[ClusterIx(spc, i)] ==> v'.data[c] == v.data[c])
    && v'.boot == v.boot && v'.spare == v.spare
  }

  lemma RecordPlace(v: Vol, spc: nat, d: nat, s: seq<nat>, i: nat)
    requires spc >= 1 && Shape(v, spc) && HasChain(v.fat, d) && s == ChainOf(v.fat, d) && i < |Records(v, d)|
    ensures ClusterIx(spc, i) < |s| && Slot(spc, ClusterIx(spc, i), SectorIx(spc, i), i % 16, i)
  {
    hide ClusterIx, SectorIx, Flat;
    FlatLength(v, spc, s);
    RecordIx(spc, i);
    TimesMono(|s|, ClusterIx(spc, i), spc);
  }

  lemma InChain(v: Vol, spc: nat, root: nat, dirs: set<nat>, d: nat, i: nat, rec: Rec)
    requires spc >= 1 && FsOK(v, spc, root, dirs) && d in dirs && InDirectory(v, d, i, rec)
    ensures ClusterIx(spc, i) < |ChainOf(v.fat, d)| && IsChain(v.fat, ChainOf(v.fat, d))
  {
    hide Records, ClusterIx, FsOK;
    FsFacts(v, spc, root, dirs, d);
    RecordPlace(v, spc, d, ChainOf(v.fat, d), i);
  }

  /** Records behind the log are not live. */
  lemma BlankNotLive(v: Vol, spc: nat, root: nat, dirs: set<nat>, d: nat, i: nat, rec: Rec)
    requires FsOK(v, spc, root, dirs) && d in dirs && InDirectory(v, d, i, rec) && !HasRecord(v, d, i, rec)
    ensures !Live(rec) && NewDirs(rec) == {}
  {
    hide Records, EndIndex, FsOK;
    FsFacts(v, spc, root, dirs, d);
    var recs := Records(v, d);
    assert recs[EndIndex(recs)..][i - EndIndex(recs)] == rec;
  }

  lemma GrownSame(v: Vol, spc: nat, s: seq<nat>, v': Vol, s': seq<nat>)
    requires Grown(v, spc, s, v', s') && |s'| == |s|
    ensures v' == v && s' == s
  {}

  lemma ClusterField(sec: Sector, k: nat, rec: Rec)
    requires k < 16 && RecIn(sec, k) == rec
    ensures U16(sec, 32 * k + 20) * 0x1_0000 + U16(sec, 32 * k + 26) == Cluster(rec)
  {
    RecordFields(sec, k);
  }

  lemma TombedIs(v: Vol, spc: nat, root: nat, dirs: set<nat>, d: nat, i: nat, sec: Sector, mid: Vol)
    requires spc >= 1 && FsOK(v, spc, root, dirs) && d in dirs && HasChain(v.fat, d)
    requires |v.data| == |v.fat| && i < |Records(v, d)| && ClusterIx(spc, i) < |ChainOf(v.fat, d)|
    requires sec == v.data[ChainOf(v.fat, d)[ClusterIx(spc, i)]][SectorIx(spc, i)][32 * (i % 16) := 0xE5]
    requires mid == PutSector(v, ChainOf(v.fat, d)[ClusterIx(spc, i)], SectorIx(spc, i), sec)
    ensures Tombed(v, spc, d, i, mid)
  {
    hide FsOK, EndIndex, Flat, ChainOf, ClusterIx, SectorIx, Cluster, FatSafe;
    FsFacts(v, spc, root, dirs, d);
    var s := ChainOf(v.fat, d);
    RecordPlace(v, spc, d, s, i);
    RecordInChain(v, spc, s, i);
    assert RecIn(sec, i % 16) == Tombstone(Records(v, d)[i]);
    DirPut(v, spc, d, ClusterIx(spc, i), SectorIx(spc, i), i % 16, i, sec);
  }

  lemma TombedFat(v: Vol, spc: nat, d: nat, i: nat, mid: Vol)
    requires spc >= 1 && Tombed(v, spc, d, i, mid)
    ensures mid.fat == v.fat
  {}

  lemma RemoveStep(v: Vol, spc: nat, root: nat, dirs: set<nat>, d: nat, i: nat, sec: Sector, mid: Vol)
    requires spc >= 1 && FsOK(v, spc, root, dirs) && d in dirs
    requires i < |Log(Records(v, d))| && ClusterIx(spc, i) < |ChainOf(v.fat, d)|
    requires sec == v.data[ChainOf(v.fat, d)[ClusterIx(spc, i)]][SectorIx(spc, i)][32 * (i % 16) := 0xE5]
    requires mid == PutSector(v, ChainOf(v.fat, d)[ClusterIx(spc, i)], SectorIx(spc, i), sec)
    ensures var rec := Log(Records(v, d))[i];
            && FsOK(mid, spc, root, dirs - NewDirs(rec)) && CrashSafe(mid, spc, root)
            && (Live(rec) || Orphan(v, dirs, Cluster(rec)) ==>
                  Orphan(mid, dirs - NewDirs(rec), Cluster(rec)) && d != Cluster(rec))
  {
    hide FsOK, EndIndex, Flat, Orphan, ChainOf, ClusterIx, SectorIx, Cluster;
    FsFacts(v, spc, root, dirs, d);
    var s := ChainOf(v.fat, d);
    RecordPlace(v, spc, d, s, i);
    RecordInChain(v, spc, s, i);
    assert RecIn(sec, i % 16) == Tombstone(Records(v, d)[i]);
    RemoveFs(v, spc, root, dirs, d, ClusterIx(spc, i), SectorIx(spc, i), i % 16, i, sec);
  }

  lemma RunIsChain(fat: seq<nat>, p: seq<nat>)
    requires FreeRun(fat, p) && HasChain(fat, p[0]) && |fat| <= EOC
    ensures IsChain(fat, p)
  {
    ChainRun(fat, ChainOf(fat, p[0]));
    RunUnique(fat, p, ChainOf(fat, p[0]));
  }

  /** The chain of a removable record is a whole chain, and not that of its directory. */
  lemma RemovableChain(v: Vol, spc: nat, root: nat, dirs: set<nat>, d: nat, i: nat, rec: Rec, p: seq<nat>)
    requires FsOK(v, spc, root, dirs) && d in dirs && Removable(v, dirs, d, i, rec) && FreeRun(v.fat, p) && p[0] == Cluster(rec)
    ensures IsChain(v.fat, p) && NoPred(v.fat, p[0]) && d != p[0]
  {
    hide FsOK, Records, Log, Cluster, IsChain, FatSafe, Live;
    FsParts(v, spc, root, dirs);
    FsFacts(v, spc, root, dirs, d);
    FsTree(v, spc, root, dirs);
    var t := Logs(v, dirs);
    if Live(rec) {
      assert LiveAt(t, d, i);
      assert IsTarget(t, p[0]);
      assert Known(t, p[0]);
    }
    RunIsChain(v.fat, p);
  }

  lemma RemovedIs(v: Vol, spc: nat, root: nat, dirs: set<nat>, d: nat, i: nat, mid: Vol, p: seq<nat>, v': Vol)
    requires spc >= 1 && FsOK(v, spc, root, dirs) && d in dirs && Tombed(v, spc, d, i, mid) && v' == Freed(mid, p)
    requires IsChain(v.fat, p) && NoPred(v.fat, p[0]) && d != p[0]
    ensures Removed(v, spc, d, i, v')
  {
    hide FsOK, FatSafe, Records, ClusterIx, Cleared, ChainOf;
    FsFacts(v, spc, root, dirs, d);
    ChainOfIs(v.fat, ChainOf(v.fat, d));
    FreedChain(mid, spc, p, d);
  }

  lemma FreedChain(v: Vol, spc: nat, s: seq<nat>, h: nat)
    requires Shape(v, spc) && FatSafe(v.fat) && IsChain(v.fat, s) && NoPred(v.fat, s[0]) && IsHead(v.fat, h) && h != s[0]
    ensures HasChain(Freed(v, s).fat, h) && ChainOf(Freed(v, s).fat, h) == ChainOf(v.fat, h)
    ensures Records(Freed(v, s), h) == Records(v, h)
  {
    hide Flat, Records, FatSafe;
    var r := ChainOf(v.fat, h);
    SafeUnique(v.fat);
    SafeLength(v.fat);
    forall i | 0 <= i < |r| ensures r[i] !in s {
      forall j | 0 <= j < |s| ensures r[i] != s[j] { HeadsDisjoint(v.fat, r, s, i, j); }
    }
    ChainKept(v, Freed(v, s), spc, r);
  }

  /** Marking a record that is not live does not change what leads where. */
  lemma MarkedLed(v: Vol, spc: nat, root: nat, dirs: set<nat>, d: nat, i: nat, rec: Rec, mid: Vol, c: nat)
    requires spc >= 1 && FsOK(v, spc, root, dirs) && FsOK(mid, spc, root, dirs) && d in dirs
    requires Tombed(v, spc, d, i, mid) && HasRecord(v, d, i, rec) && !Live(rec)
    ensures Led(mid, root, c) <==> Led(v, root, c)
  {
    hide FsOK, Records, Log, Cluster, Led, ClusterIx, ChainOf, TailFree, EndIndex, Logs, FatSafe;
    FsParts(v, spc, root, dirs);
    FsParts(mid, spc, root, dirs);
    MarkedLogs(v, spc, root, dirs, d, i, rec, mid);
    var t, u := Logs(v, dirs), Logs(mid, dirs);
    assert forall e, k :: LiveAt(t, e, k) <==> LiveAt(u, e, k);
    if Led(v, root, c) { SameLed(v, mid, spc, root, dirs, c); }
    if Led(mid, root, c) { SameLed(mid, v, spc, root, dirs, c); }
  }

  lemma MarkedLogs(v: Vol, spc: nat, root: nat, dirs: set<nat>, d: nat, i: nat, rec: Rec, mid: Vol)
    requires spc >= 1 && FsOK(v, spc, root, dirs) && FsOK(mid, spc, root, dirs) && d in dirs
    requires Tombed(v, spc, d, i, mid) && HasRecord(v, d, i, rec)
    ensures DirsOK(v, dirs) && DirsOK(mid, dirs)
    ensures var t := Logs(v, dirs);
            d in t && i < |t[d]| && t[d][i] == rec && (var log: seq<Rec> := t[d][i := Tombstone(rec)]; Logs(mid, dirs) == t[d := log])
  {
    hide FsOK, Records, EndIndex, Cluster, ChainOf, ClusterIx, FatSafe, TailFree;
    FsParts(v, spc, root, dirs);
    FsParts(mid, spc, root, dirs);
    FsFacts(v, spc, root, dirs, d);
    LogReplace(Records(v, d), i, Tombstone(rec));
    forall e | e in dirs
      ensures Log(Records(mid, e)) == if e == d then Log(Records(v, d))[i := Tombstone(rec)] else Log(Records(v, e))
    {
      FsFacts(v, spc, root, dirs, e);
    }
  }

  /** The record of a free cluster is not live, and removing it clears entry 0 and nothing else. */
  lemma FreeSlotCleared(v: Vol, spc: nat, root: nat, dirs: set<nat>, d: nat, i: nat, rec: Rec, mid: Vol, p: seq<nat>)
    requires spc >= 1 && FsOK(v, spc, root, dirs) && d in dirs && HasRecord(v, d, i, rec) && Tombed(v, spc, d, i, mid)
    requires FreeRun(v.fat, p) && p[0] == Cluster(rec) && FreeSlot(v.fat, p[0]) && FsOK(mid, spc, root, dirs - NewDirs(rec))
    ensures NewDirs(rec) == {} && dirs - NewDirs(rec) == dirs && Freed(mid, p) == SetFat(mid, 0, 0)
    ensures FsOK(SetFat(mid, 0, 0), spc, root, dirs) && CrashSafe(SetFat(mid, 0, 0), spc, root) && CrashSafe(mid, spc, root)
    ensures FreeTrail(mid, p) == {mid, SetFat(mid, 0, 0)}
  {
    hide FsOK, Records, Log, Cluster, FatSafe, Live, ChainOf, ClusterIx;
    FsParts(v, spc, root, dirs);
    FsFacts(v, spc, root, dirs, d);
    FreeClusterEnds(v.fat, p[0]);
    RunUnique(v.fat, p, [p[0], 0]);
    if Live(rec) {
      var t := Logs(v, dirs);
      assert LiveAt(t, d, i);
      assert IsTarget(t, p[0]);
      assert Known(t, p[0]);
      NoChainOnFree(v.fat, p[0]);
      assert false;
    }
    assert dirs - NewDirs(rec) == dirs;
    ClearLowFs(mid, spc, root, dirs);
    TwoCleared(mid, p[0]);
  }

  lemma TwoCleared(v: Vol, c: nat)
    requires 0 < c < |v.fat| && v.fat[c] == 0
    ensures Freed(v, [c, 0]) == SetFat(v, 0, 0) && FreeTrail(v, [c, 0]) == {v, SetFat(v, 0, 0)}
  {
    assert v.fat[c := 0] == v.fat;
    assert Cleared(v.fat, [c, 0]) == v.fat[0 := 0];
    assert [c, 0][1..] == [0] && [0][1..] == [];
    assert SetFat(v, c, 0) == v;
    assert FreeTrail(v, [0]) == {SetFat(v, 0, 0)};
  }

  lemma ProgressStart(size: nat)
    ensures Progress(size, 0, size, 0)
  {}

  /** After `k` sectors, `bufferIndex` bytes are done and `left` remain. */
  predicate Progress(size: nat, bufferIndex: nat, left: nat, k: nat) {
    bufferIndex + left == size && (if left == 0 then k == SectorsFor(size) else bufferIndex == 512 * k)
  }

  lemma ProgressStep(size: nat, bufferIndex: nat, left: nat, k: nat)
    requires Progress(size, bufferIndex, left, k) && left > 0
    ensures var n := if left >= 512 then 512 else left;
            Progress(size, bufferIndex + n, left - n, k + 1) && bufferIndex + n <= size && bufferIndex == 512 * k
  {}

  /** If the cluster is used up, the transfer of `size` bytes needs a further one. */
  lemma FailsOnlyShort(spc: nat, size: nat, bufferIndex: nat, left: nat, k: nat, j: nat, t: nat)
    requires t < spc && k == SectorNo(spc, j, t) && Progress(size, bufferIndex, left, k + 1)
    ensures t + 1 == spc ==> j + 1 < ClustersFor(spc, size)
  {
    var x := SectorsFor(size);
    TimesSplit(x, spc);
    TimesMono(x / spc, j, spc);
  }

  lemma ProgressDone(size: nat, bufferIndex: nat, k: nat)
    requires Progress(size, bufferIndex, 0, k)
    ensures k == SectorsFor(size)
  {}

  /** One step of a transfer loop leaves the bytes that were there. */
  lemma StepContent(v: Vol, spc: nat, root: nat, dirs: set<nat>, s: seq<nat>, cluster: nat, next: nat,
                    v': Vol, s': seq<nat>, n: nat)
    requires FsOK(v, spc, root, dirs) && FsOK(v', spc, root, dirs) && IsChain(v.fat, s)
    requires s' == s ==> v' == v
    requires s' != s ==> s' == s + [next] && ExtendedBy(v, spc, cluster, next, v') && cluster in s
    ensures InVol(v, s) && InVol(v', s') && |Content(v, s)| <= |Content(v', s')|
    ensures n <= |Content(v, s)| ==> Content(v', s')[..n] == Content(v, s)[..n]
    ensures SameTree(v, v', dirs)
  {
    hide Content, TreeOK, Records;
    GrownRefl(v, spc, s);
    if s' != s {
      ExtendFs(v, spc, root, dirs, cluster, next);
      ChainEnd(v.fat, s, cluster);
      GrowStep(v, spc, s, v, s, next);
    }
    GrownContent(v, spc, s, v', s');
    if n <= |Content(v, s)| {
      assert Content(v', s')[..n] == Content(v', s')[..|Content(v, s)|][..n];
    }
  }

  lemma RecordFields(sec: Sector, k: nat)
    requires k < 16
    ensures forall i :: 0 <= i < 32 ==> RecIn(sec, k)[i] == sec[32 * k + i]
    ensures U16(RecIn(sec, k), 20) == U16(sec, 32 * k + 20) && U16(RecIn(sec, k), 26) == U16(sec, 32 * k + 26)
    ensures U32(RecIn(sec, k), 28) == U32(sec, 32 * k + 28)
  {}

  lemma HoldsIs(rec: Rec, e: Entry)
    requires EntryOK(e) && (forall i :: 0 <= i < 11 ==> rec[i] == e.name[i]) && rec[11] == e.attr
    requires U16(rec, 20) == e.fstCluster / 0x1_0000 && U16(rec, 26) == e.fstCluster % 0x1_0000
    requires U32(rec, 28) == e.size % 0x1_0000
    ensures Holds(rec, e)
  {
    assert rec[..11] == e.name;
  }

  lemma RestIs(before: Sector, after: Sector, k: nat)
    requires k < 16
    requires forall b :: 32 * k + 12 <= b < 32 * k + 20 || 32 * k + 22 <= b < 32 * k + 26 ==> after[b] == before[b]
    ensures RestKept(RecIn(after, k), RecIn(before, k))
  {
    RecordFields(after, k);
    RecordFields(before, k);
  }

  lemma RecordCount(v: Vol, spc: nat, d: nat, s: seq<nat>)
    requires Shape(v, spc) && HasChain(v.fat, d) && s == ChainOf(v.fat, d)
    ensures |Records(v, d)| == Position(spc, |s|, 0, 0)
  {
    FlatLength(v, spc, s);
  }

  lemma SafeNow(v: Vol, spc: nat, root: nat, dirs: set<nat>)
    requires FsOK(v, spc, root, dirs)
    ensures CrashSafe(v, spc, root)
  {}

  lemma GoodFat(v: Vol, spc: nat, root: nat, dirs: set<nat>)
    requires FsOK(v, spc, root, dirs)
    ensures FatSafe(v.fat) && Shape(v, spc)
  {}

  lemma GrownChain(v: Vol, spc: nat, s: seq<nat>, v': Vol, s': seq<nat>, j: nat)
    requires Grown(v, spc, s, v', s') && j < |s'|
    ensures InVol(v', s') && IsChain(v'.fat, s') && Shape(v', spc)
    ensures 2 <= s'[j] < |v'.fat| && v'.fat[s'[j]] != 0 && (j + 1 < |s'| ==> v'.fat[s'[j]] == s'[j + 1])
  {
    ChainAllocated(v'.fat, s', j);
  }

  lemma ClusterSector(g: Geometry, disk: seq<Sector>, c: nat, t: nat)
    requires g.Valid() && |disk| == g.size && 2 <= c < g.N() && t < g.spc && DataSector(g, c, t) < g.size
    ensures disk[DataSector(g, c, t)] == VolOf(g, disk).data[c][t]
  {
    hide DataSector;
    assert VolOf(g, disk).data[c] == ClusterAt(g, disk, c);
  }

  /** Record `i` of a chain is found by the driver's index arithmetic. */
  lemma RecordInChain(v: Vol, spc: nat, s: seq<nat>, i: nat)
    requires spc >= 1 && Shape(v, spc) && InVol(v, s) && ClusterIx(spc, i) < |s|
    ensures i < |RecordsOf(Flat(v, s))|
    ensures RecordsOf(Flat(v, s))[i] == RecIn(v.data[s[ClusterIx(spc, i)]][SectorIx(spc, i)], i % 16)
    ensures Slot(spc, ClusterIx(spc, i), SectorIx(spc, i), i % 16, i)
  {
    hide Flat, SectorNo, ClusterIx, SectorIx;
    RecordIx(spc, i);
    FlatAt(v, spc, s, ClusterIx(spc, i), SectorIx(spc, i));
  }

  lemma ContentSector(v: Vol, spc: nat, s: seq<nat>, j: nat, t: nat, n: nat)
    requires Shape(v, spc) && InVol(v, s) && j < |s| && t < spc && n <= 512
    ensures 512 * SectorNo(spc, j, t) + 512 <= |Content(v, s)|
    ensures Content(v, s)[512 * SectorNo(spc, j, t)..512 * SectorNo(spc, j, t) + n] == v.data[s[j]][t][..n]
  {
    hide Flat, BytesOf, SectorNo;
    FlatAt(v, spc, s, j, t);
    SectorBytes(Flat(v, s), SectorNo(spc, j, t), n);
  }

  lemma SectorBytes(secs: seq<Sector>, x: nat, n: nat)
    requires x < |secs| && n <= 512
    ensures 512 * x + 512 <= |BytesOf(secs)| && BytesOf(secs)[512 * x..512 * x + n] == secs[x][..n]
  {
    var b := BytesOf(secs);
    forall i | 0 <= i < n ensures b[512 * x..512 * x + n][i] == secs[x][..n][i] {
      assert (512 * x + i) / 512 == x && (512 * x + i) % 512 == i;
    }
  }

  lemma ContentJoin(b: seq<Byte>, c: seq<Byte>, at: nat, n: nat)
    requires at + n <= |b| && at + n <= |c| && b[..at] == c[..at] && b[at..at + n] == c[at..at + n]
    ensures b[..at + n] == c[..at + n]
  {
    assert b[..at + n] == b[..at] + b[at..at + n] && c[..at + n] == c[..at] + c[at..at + n];
  }

  /** Where entry `c` is found on the disk. */
  lemma FatWord(g: Geometry, disk: seq<Sector>, c: nat)
    requires g.Valid() && |disk| == g.size && c < g.N()
    ensures g.fatLBA + c / 128 < g.size && VolOf(g, disk).fat[c] == Word(disk[g.fatLBA + c / 128], c % 128)
    ensures g.N() < EOC < MARK < 0x1_0000_0000
  {
    LayoutOrder(g);
    assert VolOf(g, disk).fat[c] == FatEntry(g, disk, c);
  }

  lemma MarkedIs(v: Vol, spc: nat, c: nat)
    requires Shape(v, spc) && c < |v.fat|
    ensures SetFat(v, c, MARK) == Marked(v, c, v.data[c]) && |v.data[c]| == spc
  {
    assert v.data[c := v.data[c]] == v.data;
  }

  lemma CopyAddress(g: Geometry, i: nat, t: nat)
    ensures g.fatLBA + t + i * g.spf == FatSector(g, i, t)
  {
    TimesIs(i, g.spf);
  }

  lemma CopyAfterWrite(g: Geometry, d: seq<Sector>, d': seq<Sector>, i: nat, t: nat, sec: Sector, a: nat, u: nat)
    requires g.Valid() && |d| == g.size && i < g.nfats && t < g.spf && FatSector(g, i, t) < g.size
    requires d' == d[FatSector(g, i, t) := sec] && a < g.nfats && u < g.spf
    ensures CopySector(g, d', a, u) == if a == i && u == t then sec else CopySector(g, d, a, u)
  {
    hide FatSector;
    FatSectorBounds(g, a, u);
    if FatSector(g, a, u) == FatSector(g, i, t) { FatSectorInjective(g, a, u, i, t); }
  }

  lemma MarkStep(v: Vol, spc: nat, root: nat, dirs: set<nat>, c: nat, cluster: seq<Sector>)
    requires FsOK(v, spc, root, dirs) && 2 <= c < |v.fat| && v.fat[c] == 0 && |cluster| == spc
    ensures |v.data| == |v.fat| && FsOK(Marked(v, c, cluster), spc, root, dirs)
    ensures CrashSafe(Marked(v, c, cluster), spc, root)
  {
    hide FatSafe, Records, TreeOK;
    MarkFs(v, spc, root, dirs, c, cluster);
  }

  lemma ExtendStep(v: Vol, spc: nat, root: nat, dirs: set<nat>, last: nat, c: nat)
    requires FsOK(v, spc, root, dirs) && 2 <= c < |v.fat| && v.fat[c] == 0
    requires 2 <= last < |v.fat| && v.fat[last] >= EOC
    ensures |v.data| == |v.fat| && FsOK(Extended(v, spc, last, c), spc, root, dirs)
    ensures CrashSafe(Extended(v, spc, last, c), spc, root)
  {
    hide FatSafe, Records, TreeOK;
    ExtendFs(v, spc, root, dirs, last, c);
  }
}
