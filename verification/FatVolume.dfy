/** What a disk means: sector addresses, the volume read off a disk, and the sectors, bytes and
    records of a cluster chain. */
module FatVolume {
  import opened Bytes
  import opened FatTable

  // ----- Layout

  /** `FAT32_Metadata`, with the number of sectors of the disk. */
  datatype Geometry = Geometry(spc: nat, root: nat, fatLBA: nat, spf: nat, nfats: nat, size: nat) {

    /** Number of entries of a FAT copy. */
    function N(): nat { 128 * spf }

    /** `fstClusterLBA`. */
    function First(): nat { fatLBA + Times(nfats, spf) }

    /** First sector after the data area. */
    function End(): nat { First() + if spf == 0 then 0 else Times(N() - 2, spc) }

    /** The data area covers every cluster number the FAT can hold, and sector numbers fit the
        28 bits that the ATA commands carry. */
    predicate Valid() {
      1 <= spc && 1 <= spf && 1 <= nfats && N() < EOC && End() <= size <= 0x1000_0000
    }
  }

  /** Sector `t` of FAT copy `i`. */
  function FatSector(g: Geometry, i: nat, t: nat): nat {
    g.fatLBA + Times(i, g.spf) + t
  }

  /** Sector `t` of cluster `c`. */
  function DataSector(g: Geometry, c: nat, t: nat): nat
    requires 2 <= c
  {
    g.First() + Times(c - 2, g.spc) + t
  }

  lemma FatSectorBounds(g: Geometry, i: nat, t: nat)
    requires g.Valid() && i < g.nfats && t < g.spf
    ensures g.fatLBA <= FatSector(g, i, t) < g.First() <= g.size
    ensures if i == 0 then FatSector(g, i, t) == g.fatLBA + t else FatSector(g, i, t) >= g.fatLBA + g.spf
  {
    TimesMono(i, g.nfats, g.spf);
    TimesMono(0, i, g.spf);
  }

  lemma DataSectorBounds(g: Geometry, c: nat, t: nat)
    requires g.Valid() && 2 <= c < g.N() && t < g.spc
    ensures g.First() <= DataSector(g, c, t) < g.End() <= g.size
  {
    TimesMono(c - 2, g.N() - 2, g.spc);
  }

  /** Boot area, FAT area, data area and spare area follow each other. */
  lemma LayoutOrder(g: Geometry)
    requires g.Valid()
    ensures g.fatLBA + g.spf <= g.First() <= g.End() <= g.size
  {
    TimesMono(0, g.nfats, g.spf);
  }

  /** Different (copy, sector) pairs lie at different places. */
  lemma FatSectorInjective(g: Geometry, i: nat, t: nat, i': nat, t': nat)
    requires g.Valid() && t < g.spf && t' < g.spf && FatSector(g, i, t) == FatSector(g, i', t')
    ensures i == i' && t == t'
  {
    TimesUnique(i, t, i', t', g.spf);
  }

  /** Different (cluster, sector) pairs lie at different places, all outside the FAT area. */
  lemma DataSectorInjective(g: Geometry, c: nat, t: nat, c': nat, t': nat)
    requires g.Valid() && 2 <= c && 2 <= c' && t < g.spc && t' < g.spc
    requires DataSector(g, c, t) == DataSector(g, c', t')
    ensures c == c' && t == t'
  {
    TimesUnique(c - 2, t, c' - 2, t', g.spc);
  }

  /** No sector belongs to both areas. */
  lemma AreasDisjoint(g: Geometry, i: nat, t: nat, c: nat, u: nat)
    requires g.Valid() && i < g.nfats && t < g.spf && 2 <= c < g.N() && u < g.spc
    ensures FatSector(g, i, t) < DataSector(g, c, u) < g.size
  {
    FatSectorBounds(g, i, t);
    DataSectorBounds(g, c, u);
  }

  // ----- The volume on a disk

  /** FAT copy 0, the clusters, and the sectors that belong to neither. */
  datatype Vol = Vol(fat: seq<nat>, data: seq<seq<Sector>>, boot: seq<Sector>, spare: seq<Sector>)

  predicate Shape(v: Vol, spc: nat) {
    && |v.data| == |v.fat|
    && (forall c :: 0 <= c < |v.data| ==> |v.data[c]| == spc)
  }

  function ZeroCluster(spc: nat): (r: seq<Sector>)
    ensures |r| == spc && forall t :: 0 <= t < spc ==> r[t] == ZeroSector()
  {
    seq(spc, _ => ZeroSector())
  }

  function FatEntry(g: Geometry, disk: seq<Sector>, c: nat): nat
    requires g.Valid() && |disk| == g.size && c < g.N()
  {
    FatSectorBounds(g, 0, c / 128);
    Word(disk[g.fatLBA + c / 128], c % 128)
  }

  function ClusterAt(g: Geometry, disk: seq<Sector>, c: nat): (r: seq<Sector>)
    requires g.Valid() && |disk| == g.size && c < g.N()
    ensures |r| == g.spc
  {
    if c < 2 then ZeroCluster(g.spc)
    else seq(g.spc, t requires 0 <= t < g.spc => DataSectorBounds(g, c, t); disk[DataSector(g, c, t)])
  }

  function VolOf(g: Geometry, disk: seq<Sector>): (v: Vol)
    requires g.Valid() && |disk| == g.size
    ensures |v.fat| == g.N() && Shape(v, g.spc)
    ensures forall c :: 0 <= c < g.N() ==> v.fat[c] == FatEntry(g, disk, c)
    ensures forall c :: 0 <= c < g.N() ==> v.data[c] == ClusterAt(g, disk, c)
  {
    LayoutOrder(g);
    Vol(seq(g.N(), c requires 0 <= c < g.N() => FatEntry(g, disk, c)),
        seq(g.N(), c requires 0 <= c < g.N() => ClusterAt(g, disk, c)),
        disk[..g.fatLBA], disk[g.End()..])
  }

  function CopySector(g: Geometry, disk: seq<Sector>, i: nat, t: nat): Sector
    requires g.Valid() && |disk| == g.size && i < g.nfats && t < g.spf
  {
    FatSectorBounds(g, i, t);
    disk[FatSector(g, i, t)]
  }

  /** Every FAT copy equals copy 0, sector for sector. */
  ghost predicate Mirrored(g: Geometry, disk: seq<Sector>)
    requires g.Valid() && |disk| == g.size
  {
    forall i, t {:trigger CopySector(g, disk, i, t)} :: 0 <= i < g.nfats && 0 <= t < g.spf ==>
      CopySector(g, disk, i, t) == CopySector(g, disk, 0, t)
  }

  /** With mirrored FATs the volume loses nothing: it determines the disk. */
  lemma VolDeterminesDisk(g: Geometry, d: seq<Sector>, e: seq<Sector>)
    requires g.Valid() && |d| == g.size && |e| == g.size
    requires Mirrored(g, d) && Mirrored(g, e) && VolOf(g, d) == VolOf(g, e)
    ensures d == e
  {
    hide FatSector, DataSector, Geometry.First, Geometry.End;
    LayoutOrder(g);
    var v, w := VolOf(g, d), VolOf(g, e);
    forall l | 0 <= l < g.size ensures d[l] == e[l] {
      if l < g.fatLBA {
        assert v.boot[l] == w.boot[l];
      } else if l < g.First() {
        SameFatArea(g, d, e, l);
      } else if l < g.End() {
        SameDataArea(g, d, e, l);
      } else {
        assert v.spare[l - g.End()] == w.spare[l - g.End()];
      }
    }
  }

  lemma SameDataArea(g: Geometry, d: seq<Sector>, e: seq<Sector>, l: nat)
    requires g.Valid() && |d| == g.size && |e| == g.size && VolOf(g, d).data == VolOf(g, e).data
    requires g.First() <= l < g.End()
    ensures l < g.size && d[l] == e[l]
  {
    hide DataSector, ClusterAt, VolOf;
    var x := l - g.First();
    var c, t := x / g.spc + 2, x % g.spc;
    TimesSplit(x, g.spc);
    ClusterOf(g, x, x / g.spc, t);
    SectorAt(g, d, c, t);
    SectorAt(g, e, c, t);
    assert VolOf(g, d).data[c] == VolOf(g, e).data[c];
  }

  lemma SectorAt(g: Geometry, disk: seq<Sector>, c: nat, t: nat)
    requires g.Valid() && |disk| == g.size && 2 <= c < g.N() && t < g.spc
    ensures DataSector(g, c, t) < g.size && ClusterAt(g, disk, c)[t] == disk[DataSector(g, c, t)]
  {
    hide DataSector;
    DataSectorBounds(g, c, t);
  }

  lemma SameFatArea(g: Geometry, d: seq<Sector>, e: seq<Sector>, l: nat)
    requires g.Valid() && |d| == g.size && |e| == g.size && VolOf(g, d).fat == VolOf(g, e).fat
    requires Mirrored(g, d) && Mirrored(g, e) && g.fatLBA <= l < g.First()
    ensures l < g.size && d[l] == e[l]
  {
    hide FatSector;
    var x := l - g.fatLBA;
    var i, t := x / g.spf, x % g.spf;
    TimesSplit(x, g.spf);
    FatCopyOf(g, x, i, t);
    FatSectorBounds(g, i, t);
    FatSectorBounds(g, 0, t);
    assert CopySector(g, d, i, t) == CopySector(g, d, 0, t) && CopySector(g, e, i, t) == CopySector(g, e, 0, t);
    SameWords(d[g.fatLBA + t], e[g.fatLBA + t], g, d, e, t);
  }

  lemma FatCopyOf(g: Geometry, x: nat, i: nat, t: nat)
    requires g.Valid() && x < Times(g.nfats, g.spf) && x == Times(i, g.spf) + t && t < g.spf
    ensures i < g.nfats && FatSector(g, i, t) == g.fatLBA + x
  {
    TimesMono(g.nfats, i, g.spf);
  }

  lemma ClusterOf(g: Geometry, x: nat, q: nat, t: nat)
    requires g.Valid() && x < Times(g.N() - 2, g.spc) && x == Times(q, g.spc) + t && t < g.spc
    ensures q + 2 < g.N() && DataSector(g, q + 2, t) == g.First() + x
  {
    TimesMono(g.N() - 2, q, g.spc);
  }

  lemma WordBytes(s: Sector, r: Sector, k: nat)
    requires k < 128 && Word(s, k) == Word(r, k)
    ensures forall b :: 4 * k <= b < 4 * k + 4 ==> s[b] == r[b]
  {
    var o := 4 * k;
    var s1: int, s2: int, s3: int := s[o + 1], s[o + 2], s[o + 3];
    var r1: int, r2: int, r3: int := r[o + 1], r[o + 2], r[o + 3];
    LowByte(s[o], s1 + 0x100 * (s2 + 0x100 * s3), r[o], r1 + 0x100 * (r2 + 0x100 * r3));
    LowByte(s[o + 1], s2 + 0x100 * s3, r[o + 1], r2 + 0x100 * r3);
    LowByte(s[o + 2], s3, r[o + 2], r3);
  }

  lemma LowByte(a: Byte, x: int, b: Byte, y: int)
    requires a + 0x100 * x == b + 0x100 * y
    ensures a == b && x == y
  {}

  lemma SameWords(s: Sector, r: Sector, g: Geometry, d: seq<Sector>, e: seq<Sector>, t: nat)
    requires g.Valid() && |d| == g.size && |e| == g.size && t < g.spf && g.fatLBA + t < g.size
    requires s == d[g.fatLBA + t] && r == e[g.fatLBA + t] && VolOf(g, d).fat == VolOf(g, e).fat
    ensures s == r
  {
    forall b | 0 <= b < 512 ensures s[b] == r[b] {
      var k := b / 4;
      var c := 128 * t + k;
      assert VolOf(g, d).fat[c] == VolOf(g, e).fat[c];
      assert FatEntry(g, d, c) == FatEntry(g, e, c);
      WordBytes(s, r, k);
    }
  }

  // ----- Where things lie on the disk, in plain numbers

  /** In every FAT copy, entry `c` has the four bytes of `w`, the low byte first. */
  ghost predicate EntryOnDisk(g: Geometry, disk: seq<Sector>, c: nat, w: nat) {
    forall i :: 0 <= i < g.nfats ==> EntryBytes(g, disk, i, c, w)
  }

  predicate EntryBytes(g: Geometry, disk: seq<Sector>, i: nat, c: nat, w: nat) {
    var l, o := g.fatLBA + i * g.spf + c / 128, 4 * (c % 128);
    && l < |disk|
    && disk[l][o] == w % 0x100 && disk[l][o + 1] == w / 0x100 % 0x100
    && disk[l][o + 2] == w / 0x1_0000 % 0x100 && disk[l][o + 3] == w / 0x100_0000
  }

  lemma FatOnDisk(g: Geometry, disk: seq<Sector>, c: nat)
    requires g.Valid() && |disk| == g.size && Mirrored(g, disk) && c < g.N()
    ensures EntryOnDisk(g, disk, c, VolOf(g, disk).fat[c])
  {
    hide FatSector, VolOf, Mirrored;
    var w, t := VolOf(g, disk).fat[c], c / 128;
    assert w == FatEntry(g, disk, c);
    forall i | 0 <= i < g.nfats ensures EntryBytes(g, disk, i, c, w) {
      FatSectorBounds(g, i, t);
      FatSectorBounds(g, 0, t);
      FatAddress(g, i, t);
      SameCopy(g, disk, i, t);
      WordBytesAre(disk[g.fatLBA + t], c % 128);
    }
  }

  lemma FatAddress(g: Geometry, i: nat, t: nat)
    ensures FatSector(g, i, t) == g.fatLBA + i * g.spf + t
  {
    TimesIs(i, g.spf);
  }

  lemma SameCopy(g: Geometry, disk: seq<Sector>, i: nat, t: nat)
    requires g.Valid() && |disk| == g.size && Mirrored(g, disk) && i < g.nfats && t < g.spf
    ensures FatSector(g, i, t) < g.size && g.fatLBA + t < g.size && disk[FatSector(g, i, t)] == disk[g.fatLBA + t]
  {
    hide FatSector;
    FatSectorBounds(g, i, t);
    FatSectorBounds(g, 0, t);
    assert CopySector(g, disk, i, t) == CopySector(g, disk, 0, t);
  }

  lemma WordBytesAre(s: Sector, k: nat)
    requires k < 128
    ensures var w, o := Word(s, k), 4 * k;
            && s[o] == w % 0x100 && s[o + 1] == w / 0x100 % 0x100
            && s[o + 2] == w / 0x1_0000 % 0x100 && s[o + 3] == w / 0x100_0000
  {
    hide U16, U32;
    LowByteFirst(s, 4 * k);
    LowByteFirst(s, 4 * k + 2);
    TopHalf(Word(s, k), U16(s, 4 * k), U16(s, 4 * k + 2));
  }

  lemma TopHalf(w: nat, lo: nat, hi: nat)
    requires w % 0x1_0000 == lo && w / 0x1_0000 == hi
    ensures w % 0x100 == lo % 0x100 && w / 0x100 % 0x100 == lo / 0x100 && w / 0x100_0000 == hi / 0x100
  {
    assert w == lo + 0x1_0000 * hi;
    var a := lo / 0x100;
    assert w / 0x100 == a + 0x100 * hi;
  }

  lemma DataAddress(g: Geometry, c: nat, t: nat)
    requires 2 <= c
    ensures DataSector(g, c, t) == g.fatLBA + g.nfats * g.spf + (c - 2) * g.spc + t
  {
    TimesIs(g.nfats, g.spf);
    TimesIs(c - 2, g.spc);
  }

  /** Sector `t` of cluster `c`. */
  lemma ClusterOnDisk(g: Geometry, disk: seq<Sector>, c: nat, t: nat)
    requires g.Valid() && |disk| == g.size && 2 <= c < g.N() && t < g.spc
    ensures var l := g.fatLBA + g.nfats * g.spf + (c - 2) * g.spc + t;
            0 <= l < |disk| && VolOf(g, disk).data[c][t] == disk[l]
  {
    hide VolOf, DataSector;
    DataSectorBounds(g, c, t);
    DataAddress(g, c, t);
    assert VolOf(g, disk).data[c] == ClusterAt(g, disk, c);
  }

  // ----- One sector write, seen from the volume

  function SetFat(v: Vol, c: nat, w: nat): Vol
    requires c < |v.fat|
  {
    v.(fat := v.fat[c := w])
  }

  function PutSector(v: Vol, c: nat, t: nat, sec: Sector): Vol
    requires c < |v.data| && t < |v.data[c]|
  {
    var cluster: seq<Sector> := v.data[c][t := sec];
    v.(data := v.data[c := cluster])
  }

  /** Writing entry `c` into its sector of FAT copy 0 sets that entry and nothing else. */
  lemma WriteFatCopy0(g: Geometry, disk: seq<Sector>, c: nat, w: nat)
    requires g.Valid() && |disk| == g.size && c < g.N() && w < 0x1_0000_0000
    requires g.fatLBA + c / 128 < g.size
    ensures VolOf(g, disk[g.fatLBA + c / 128 := PutWord(disk[g.fatLBA + c / 128], c % 128, w)])
         == SetFat(VolOf(g, disk), c, w)
  {
    hide FatSector, DataSector, Geometry.First, Geometry.End;
    LayoutOrder(g);
    FatSectorBounds(g, 0, c / 128);
    var disk' := disk[g.fatLBA + c / 128 := PutWord(disk[g.fatLBA + c / 128], c % 128, w)];
    var v, v' := VolOf(g, disk), VolOf(g, disk');
    forall k | 0 <= k < g.N() ensures v'.fat[k] == v.fat[c := w][k] {
      FatSectorBounds(g, 0, k / 128);
      assert v'.fat[k] == FatEntry(g, disk', k);
    }
    forall k | 0 <= k < g.N() ensures v'.data[k] == v.data[k] {
      ClusterFrame(g, disk, disk', k);
    }
    assert v'.fat == v.fat[c := w] && v'.data == v.data && v'.boot == v.boot && v'.spare == v.spare;
  }

  lemma ClusterFrame(g: Geometry, disk: seq<Sector>, disk': seq<Sector>, c: nat)
    requires g.Valid() && |disk| == g.size && |disk'| == g.size && c < g.N()
    requires forall l :: g.First() <= l < g.size ==> disk'[l] == disk[l]
    ensures ClusterAt(g, disk', c) == ClusterAt(g, disk, c)
  {
    if c >= 2 {
      forall t | 0 <= t < g.spc ensures ClusterAt(g, disk', c)[t] == ClusterAt(g, disk, c)[t] {
        DataSectorBounds(g, c, t);
      }
    }
  }

  /** Writing a sector of another FAT copy does not change the volume. */
  lemma WriteOtherCopy(g: Geometry, disk: seq<Sector>, i: nat, t: nat, sec: Sector)
    requires g.Valid() && |disk| == g.size && 1 <= i < g.nfats && t < g.spf && FatSector(g, i, t) < g.size
    ensures VolOf(g, disk[FatSector(g, i, t) := sec]) == VolOf(g, disk)
  {
    hide FatSector, DataSector, Geometry.First, Geometry.End;
    LayoutOrder(g);
    FatSectorBounds(g, i, t);
    var disk' := disk[FatSector(g, i, t) := sec];
    var v, v' := VolOf(g, disk), VolOf(g, disk');
    forall k | 0 <= k < g.N() ensures v'.data[k] == v.data[k] {
      ClusterFrame(g, disk, disk', k);
    }
    forall k | 0 <= k < g.N() ensures v'.fat[k] == v.fat[k] {
      assert v'.fat[k] == FatEntry(g, disk', k);
    }
    assert v'.fat == v.fat && v'.data == v.data && v'.boot == v.boot && v'.spare == v.spare;
  }

  /** Writing a data sector changes that sector of that cluster and nothing else, and keeps the
      FAT copies equal. */
  lemma WriteData(g: Geometry, disk: seq<Sector>, c: nat, t: nat, sec: Sector)
    requires g.Valid() && |disk| == g.size && 2 <= c < g.N() && t < g.spc && DataSector(g, c, t) < g.size
    ensures VolOf(g, disk[DataSector(g, c, t) := sec]) == PutSector(VolOf(g, disk), c, t, sec)
    ensures Mirrored(g, disk) ==> Mirrored(g, disk[DataSector(g, c, t) := sec])
  {
    hide FatSector, DataSector, Geometry.First, Geometry.End;
    LayoutOrder(g);
    DataSectorBounds(g, c, t);
    var l := DataSector(g, c, t);
    var disk' := disk[l := sec];
    var v, v' := VolOf(g, disk), VolOf(g, disk');
    forall k | 0 <= k < g.N() ensures v'.fat[k] == v.fat[k] {
      FatSectorBounds(g, 0, k / 128);
      assert v'.fat[k] == FatEntry(g, disk', k);
    }
    forall k | 0 <= k < g.N() ensures v'.data[k] == PutSector(v, c, t, sec).data[k] {
      if k >= 2 {
        forall u | 0 <= u < g.spc ensures v'.data[k][u] == PutSector(v, c, t, sec).data[k][u] {
          DataSectorBounds(g, k, u);
          if DataSector(g, k, u) == l { DataSectorInjective(g, k, u, c, t); }
          assert v'.data[k][u] == disk'[DataSector(g, k, u)];
        }
      }
    }
    assert v'.fat == v.fat && v'.data == PutSector(v, c, t, sec).data && v'.boot == v.boot && v'.spare == v.spare;
    if Mirrored(g, disk) {
      forall i, u | 0 <= i < g.nfats && 0 <= u < g.spf
        ensures CopySector(g, disk', i, u) == CopySector(g, disk', 0, u)
      {
        FatSectorBounds(g, i, u);
        FatSectorBounds(g, 0, u);
        assert CopySector(g, disk, i, u) == CopySector(g, disk, 0, u);
      }
    }
  }

  // ----- The contents of a chain

  predicate InVol(v: Vol, s: seq<nat>) {
    forall i :: 0 <= i < |s| ==> s[i] < |v.data|
  }

  /** The sectors of the clusters of `s`, in order. */
  function Flat(v: Vol, s: seq<nat>): seq<Sector>
    requires InVol(v, s)
  {
    if |s| == 0 then [] else Flat(v, s[..|s| - 1]) + v.data[s[|s| - 1]]
  }

  /** The bytes of a sector sequence. */
  function BytesOf(secs: seq<Sector>): (r: seq<Byte>)
    ensures |r| == 512 * |secs|
  {
    seq(512 * |secs|, i requires 0 <= i < 512 * |secs| => secs[i / 512][i % 512])
  }

  /** One 32-byte directory record. */
  type Rec = r: seq<Byte> | |r| == 32 witness seq(32, _ => 0)

  /** The records of a sector sequence. */
  function RecordsOf(secs: seq<Sector>): (r: seq<Rec>)
    ensures |r| == 16 * |secs|
  {
    seq(16 * |secs|, i requires 0 <= i < 16 * |secs| => RecIn(secs[i / 16], i % 16))
  }

  function RecIn(sec: Sector, k: nat): Rec
    requires k < 16
  {
    sec[32 * k..32 * k + 32]
  }

  /** Sector `t` of the `j`-th cluster of a chain, counted from the start of the chain. */
  function SectorNo(spc: nat, j: nat, t: nat): nat { Times(j, spc) + t }

  /** Record `i` of a chain lies in cluster `ClusterIx` of the chain, sector `SectorIx`. */
  function ClusterIx(spc: nat, i: nat): nat
    requires spc >= 1
  {
    i / 16 / spc
  }

  function SectorIx(spc: nat, i: nat): (t: nat)
    requires spc >= 1
    ensures t < spc
  {
    i / 16 % spc
  }

  lemma RecordIx(spc: nat, i: nat)
    requires spc >= 1
    ensures i / 16 == SectorNo(spc, ClusterIx(spc, i), SectorIx(spc, i))
  {
    TimesSplit(i / 16, spc);
  }

  lemma SectorNoNext(spc: nat, j: nat, t: nat)
    ensures SectorNo(spc, j, t + 1) == SectorNo(spc, j, t) + 1
    ensures t + 1 == spc ==> SectorNo(spc, j + 1, 0) == SectorNo(spc, j, t) + 1
    ensures SectorNo(spc, 0, t) == t
  {}

  lemma SectorNoSplit(spc: nat, j: nat, t: nat)
    requires t < spc
    ensures SectorNo(spc, j, t) / spc == j && SectorNo(spc, j, t) % spc == t
  {
    TimesDiv(j, t, spc);
  }

  lemma {:induction false} FlatLength(v: Vol, spc: nat, s: seq<nat>)
    requires Shape(v, spc) && InVol(v, s)
    ensures |Flat(v, s)| == Times(|s|, spc)
  {
    if |s| > 0 {
      FlatLength(v, spc, s[..|s| - 1]);
    }
  }

  lemma {:induction false} FlatAt(v: Vol, spc: nat, s: seq<nat>, j: nat, t: nat)
    requires Shape(v, spc) && InVol(v, s) && j < |s| && t < spc
    ensures SectorNo(spc, j, t) < |Flat(v, s)| == Times(|s|, spc)
    ensures Flat(v, s)[SectorNo(spc, j, t)] == v.data[s[j]][t]
  {
    FlatLength(v, spc, s);
    FlatLength(v, spc, s[..|s| - 1]);
    TimesMono(j, |s|, spc);
    if j < |s| - 1 {
      FlatAt(v, spc, s[..|s| - 1], j, t);
    }
  }

  lemma FlatAppend(v: Vol, s: seq<nat>, c: nat)
    requires InVol(v, s) && c < |v.data|
    ensures InVol(v, s + [c]) && Flat(v, s + [c]) == Flat(v, s) + v.data[c]
  {
    assert (s + [c])[..|s|] == s;
  }

  lemma {:induction false} FlatFrame(v: Vol, v': Vol, s: seq<nat>)
    requires InVol(v, s) && |v'.data| == |v.data|
    requires forall i :: 0 <= i < |s| ==> v'.data[s[i]] == v.data[s[i]]
    ensures InVol(v', s) && Flat(v', s) == Flat(v, s)
  {
    if |s| > 0 { FlatFrame(v, v', s[..|s| - 1]); }
  }

  lemma PutBack(a: seq<Sector>, b: seq<Sector>, t: nat, sec: Sector)
    requires t < |b|
    ensures a + b[t := sec] == (a + b)[|a| + t := sec]
  {}

  lemma PutFront(a: seq<Sector>, b: seq<Sector>, x: nat, sec: Sector)
    requires x < |a|
    ensures a[x := sec] + b == (a + b)[x := sec]
  {}

  /** Writing sector `t` of the `j`-th cluster of a chain without repetitions changes exactly that
      position of its sector sequence. */
  lemma {:induction false} FlatPut(v: Vol, spc: nat, s: seq<nat>, j: nat, t: nat, sec: Sector)
    requires Shape(v, spc) && InVol(v, s) && j < |s| && t < spc
    requires forall a, b :: 0 <= a < b < |s| ==> s[a] != s[b]
    ensures Shape(PutSector(v, s[j], t, sec), spc) && InVol(PutSector(v, s[j], t, sec), s)
    ensures SectorNo(spc, j, t) < |Flat(v, s)|
    ensures Flat(PutSector(v, s[j], t, sec), s) == Flat(v, s)[SectorNo(spc, j, t) := sec]
  {
    var v' := PutSector(v, s[j], t, sec);
    var m := |s| - 1;
    var front := s[..m];
    FlatLength(v, spc, front);
    if j == m {
      FlatFrame(v, v', front);
      PutBack(Flat(v, front), v.data[s[m]], t, sec);
    } else {
      FlatPut(v, spc, front, j, t, sec);
      assert s[j] != s[m];
      PutFront(Flat(v, front), v.data[s[m]], SectorNo(spc, j, t), sec);
    }
  }

  lemma RecordsAppend(a: seq<Sector>, b: seq<Sector>)
    ensures RecordsOf(a + b) == RecordsOf(a) + RecordsOf(b)
  {
    hide RecIn;
    var ab, both := RecordsOf(a + b), RecordsOf(a) + RecordsOf(b);
    forall i | 0 <= i < 16 * |a + b| ensures ab[i] == both[i] {
      assert ab[i] == RecIn((a + b)[i / 16], i % 16);
      if i >= 16 * |a| {
        var k := i - 16 * |a|;
        assert k / 16 == i / 16 - |a| && k % 16 == i % 16;
        assert both[i] == RecordsOf(b)[k] == RecIn(b[k / 16], k % 16);
      }
    }
  }

  lemma BytesAppend(a: seq<Sector>, b: seq<Sector>)
    ensures BytesOf(a + b) == BytesOf(a) + BytesOf(b)
  {
    forall i | 0 <= i < 512 * |a + b| ensures BytesOf(a + b)[i] == (BytesOf(a) + BytesOf(b))[i] {
      if i >= 512 * |a| {
        assert (a + b)[i / 512] == b[(i - 512 * |a|) / 512];
      }
    }
  }

  /** Replacing one record of one sector replaces that record of the sequence. */
  lemma RecordsPut(secs: seq<Sector>, x: nat, sec: Sector, k: nat)
    requires x < |secs| && k < 16
    requires forall b :: 0 <= b < 512 && !(32 * k <= b < 32 * k + 32) ==> sec[b] == secs[x][b]
    ensures RecordsOf(secs[x := sec]) == RecordsOf(secs)[16 * x + k := RecIn(sec, k)]
  {
    var after, want := RecordsOf(secs[x := sec]), RecordsOf(secs)[16 * x + k := RecIn(sec, k)];
    forall i | 0 <= i < 16 * |secs| ensures after[i] == want[i] {
      if i / 16 == x && i % 16 != k {
        assert RecIn(sec, i % 16) == RecIn(secs[x], i % 16);
      }
    }
  }

  // ----- Directory logs

  /** Index of the first record whose first byte is zero: the end of the directory. */
  function EndIndex(recs: seq<Rec>): (n: nat)
    ensures n <= |recs|
    ensures forall i :: 0 <= i < n ==> recs[i][0] != 0
    ensures n < |recs| ==> recs[n][0] == 0
  {
    if |recs| == 0 || recs[0][0] == 0 then 0 else 1 + EndIndex(recs[1..])
  }

  predicate Blank(recs: seq<Rec>) {
    forall i :: 0 <= i < |recs| ==> recs[i][0] == 0
  }

  /** Nothing but free records from the end of the directory on. */
  predicate TailFree(recs: seq<Rec>) {
    Blank(recs[EndIndex(recs)..])
  }

  function Log(recs: seq<Rec>): seq<Rec> {
    recs[..EndIndex(recs)]
  }

  lemma LogIs(log: seq<Rec>, tail: seq<Rec>)
    requires forall i :: 0 <= i < |log| ==> log[i][0] != 0
    requires Blank(tail)
    ensures Log(log + tail) == log && TailFree(log + tail) && EndIndex(log + tail) == |log|
  {
    hide EndIndex;
    var n := EndIndex(log + tail);
    assert forall i :: 0 <= i < |log| ==> (log + tail)[i][0] != 0;
    if |tail| > 0 { assert (log + tail)[|log|] == tail[0]; }
    assert (log + tail)[n..] == tail;
  }

  lemma ZeroRecords(spc: nat)
    ensures Blank(RecordsOf(ZeroCluster(spc)))
  {}
}
