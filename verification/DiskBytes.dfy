/** Where the bytes of files and the records of directories lie on the disk, in plain sector numbers. */
module DiskBytes {
  import opened Bytes
  import opened FatTable
  import opened FatVolume
  import opened FatTree
  import opened FatGrowth

  /** Sector number `k` of the chain `s`. */
  function ChainSector(g: Geometry, s: seq<nat>, k: nat): int
    requires g.spc >= 1 && k / g.spc < |s|
  {
    g.fatLBA + g.nfats * g.spf + (s[k / g.spc] - 2) * g.spc + k % g.spc
  }

  /** `content` lies on the disk, 512 bytes to a sector, along the clusters of `s`. */
  predicate OnDisk(g: Geometry, disk: seq<Sector>, s: seq<nat>, content: seq<Byte>) {
    g.spc >= 1 && forall i :: 0 <= i < |content| ==> ByteOnDisk(g, disk, s, i, content[i])
  }

  predicate ByteOnDisk(g: Geometry, disk: seq<Sector>, s: seq<nat>, i: nat, b: Byte)
    requires g.spc >= 1
  {
    i / 512 / g.spc < |s| && 0 <= ChainSector(g, s, i / 512) < |disk| && disk[ChainSector(g, s, i / 512)][i % 512] == b
  }

  /** The bytes of a chain. */
  lemma ContentOnDisk(g: Geometry, disk: seq<Sector>, s: seq<nat>)
    requires g.Valid() && |disk| == g.size && IsChain(VolOf(g, disk).fat, s)
    ensures InVol(VolOf(g, disk), s) && OnDisk(g, disk, s, Content(VolOf(g, disk), s))
  {
    hide VolOf, Flat, BytesOf, Geometry.First, Geometry.End;
    var v := VolOf(g, disk);
    FlatLength(v, g.spc, s);
    forall i | 0 <= i < |Content(v, s)| ensures ByteOnDisk(g, disk, s, i, Content(v, s)[i]) {
      SectorInChain(g, disk, s, i / 512);
      ByteOfSectors(Flat(v, s), i);
    }
  }

  lemma ByteOfSectors(secs: seq<Sector>, i: nat)
    requires i < 512 * |secs|
    ensures BytesOf(secs)[i] == secs[i / 512][i % 512]
  {}

  lemma SectorInChain(g: Geometry, disk: seq<Sector>, s: seq<nat>, k: nat)
    requires g.Valid() && |disk| == g.size && IsChain(VolOf(g, disk).fat, s) && InVol(VolOf(g, disk), s)
    requires k < |Flat(VolOf(g, disk), s)|
    ensures k / g.spc < |s| && 0 <= ChainSector(g, s, k) < |disk| && Flat(VolOf(g, disk), s)[k] == disk[ChainSector(g, s, k)]
  {
    hide VolOf, Flat, Geometry.First, Geometry.End;
    var v, j, t := VolOf(g, disk), k / g.spc, k % g.spc;
    FlatLength(v, g.spc, s);
    TimesSplit(k, g.spc);
    TimesMono(|s|, j, g.spc);
    FlatAt(v, g.spc, s, j, t);
    ClusterOnDisk(g, disk, s[j], t);
  }

  /** Record `i` of a directory: 16 records of 32 bytes to a sector. */
  lemma RecordOnDisk(g: Geometry, disk: seq<Sector>, d: nat, i: nat)
    requires g.Valid() && |disk| == g.size && HasChain(VolOf(g, disk).fat, d) && i < |Records(VolOf(g, disk), d)|
    ensures var s := ChainOf(VolOf(g, disk).fat, d);
            && i / 16 / g.spc < |s| && 0 <= ChainSector(g, s, i / 16) < |disk|
            && Records(VolOf(g, disk), d)[i] == disk[ChainSector(g, s, i / 16)][i % 16 * 32..i % 16 * 32 + 32]
  {
    hide VolOf, Flat, Geometry.First, Geometry.End, ChainOf;
    var v := VolOf(g, disk);
    var s := ChainOf(v.fat, d);
    SectorInChain(g, disk, s, i / 16);
  }

  /** A prefix of what lies there lies there. */
  lemma OnDiskPrefix(g: Geometry, disk: seq<Sector>, s: seq<nat>, all: seq<Byte>, content: seq<Byte>)
    requires OnDisk(g, disk, s, all) && |content| <= |all| && all[..|content|] == content
    ensures OnDisk(g, disk, s, content)
  {
    hide ByteOnDisk;
    forall i | 0 <= i < |content| ensures ByteOnDisk(g, disk, s, i, content[i]) {
      assert content[i] == all[..|content|][i] == all[i];
    }
  }
}
