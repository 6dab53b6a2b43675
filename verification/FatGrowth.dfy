/** Chains that grow by zeroed clusters: what `nextCluster` does past the end of a chain. */
module FatGrowth {
  import opened Bytes
  import opened FatTable
  import opened FatVolume
  import opened FatTree

  /** `v'` is `v` after the chain `s` was extended to `s'` by clusters that were free and now hold
      zeros. Nothing else differs. */
  ghost predicate Grown(v: Vol, spc: nat, s: seq<nat>, v': Vol, s': seq<nat>) {
    && Shape(v, spc) && Shape(v', spc) && |v'.fat| == |v.fat|
    && IsChain(v.fat, s) && IsChain(v'.fat, s')
    && |s| <= |s'| && s == s'[..|s|]
    && (if |s| == |s'| then v' == v else v'.fat[s'[|s'| - 1]] == MARK)
    && v'.boot == v.boot && v'.spare == v.spare
    && (forall j :: |s| <= j < |s'| ==> v.fat[s'[j]] == 0 && v'.data[s'[j]] == ZeroCluster(spc))
    && (forall c :: 0 <= c < |v.fat| && c !in s'[|s| - 1..] ==> v'.fat[c] == v.fat[c])
    && (forall c :: 0 <= c < |v.fat| && c !in s'[|s|..] ==> v'.data[c] == v.data[c])
  }

  /** `v'` is `v` with the free cluster `c`, zeroed, appended after the end `last` of a chain. */
  ghost predicate ExtendedBy(v: Vol, spc: nat, last: nat, c: nat, v': Vol) {
    && |v.data| == |v.fat|
    && 2 <= last < |v.fat| && v.fat[last] >= EOC
    && 2 <= c < |v.fat| && v.fat[c] == 0
    && v' == Extended(v, spc, last, c)
  }

  lemma GrownRefl(v: Vol, spc: nat, s: seq<nat>)
    requires Shape(v, spc) && IsChain(v.fat, s)
    ensures Grown(v, spc, s, v, s)
  {}

  lemma GrowStep(v: Vol, spc: nat, s: seq<nat>, v': Vol, s': seq<nat>, c: nat)
    requires Grown(v, spc, s, v', s') && FatSafe(v'.fat) && 2 <= c < |v'.fat| && v'.fat[c] == 0
    ensures Grown(v, spc, s, Extended(v', spc, s'[|s'| - 1], c), s' + [c])
  {
    hide FatSafe, Flat, ZeroCluster, IsChain;
    GrowLast(v, spc, s, v', s');
    var last := s'[|s'| - 1];
    var r := s' + [c];
    ExtendChain(v', spc, last, c, s');
    GrowFrame(v, spc, s, v', s', c);
    assert s == r[..|s|];
  }

  lemma GrownIsChain(v: Vol, spc: nat, s: seq<nat>, v': Vol, s': seq<nat>)
    requires Grown(v, spc, s, v', s')
    ensures Shape(v, spc) && Shape(v', spc) && |s| > 0 && IsChain(v.fat, s) && IsChain(v'.fat, s')
  {}

  lemma GrowLast(v: Vol, spc: nat, s: seq<nat>, v': Vol, s': seq<nat>)
    requires Grown(v, spc, s, v', s')
    ensures |s| > 0 && |s'| > 0 && 2 <= s'[|s'| - 1] < |v'.fat| && v'.fat[s'[|s'| - 1]] >= EOC
    ensures forall j :: 0 <= j < |s'| ==> 2 <= s'[j] < |v'.fat|
  {}

  /** What the new cluster leaves alone. */
  lemma GrowFrame(v: Vol, spc: nat, s: seq<nat>, v': Vol, s': seq<nat>, c: nat)
    requires Grown(v, spc, s, v', s') && 2 <= c < |v'.fat| && v'.fat[c] == 0 && c !in s'
    ensures var w, r := Extended(v', spc, s'[|s'| - 1], c), s' + [c];
            && Shape(w, spc) && w.fat[c] == MARK && c != s'[|s'| - 1]
            && (forall j :: |s| <= j < |r| ==> v.fat[r[j]] == 0 && w.data[r[j]] == ZeroCluster(spc))
            && (forall x :: 0 <= x < |v.fat| && x !in r[|s| - 1..] ==> w.fat[x] == v.fat[x])
            && (forall x :: 0 <= x < |v.fat| && x !in r[|s|..] ==> w.data[x] == v.data[x])
  {
    hide IsChain, ZeroCluster;
    GrowLast(v, spc, s, v', s');
    var last := s'[|s'| - 1];
    TailOfTail(s', |s| - 1, c, last);
    TailOfTail(s', |s|, c, last);
    var r := s' + [c];
    forall j | |s| <= j < |r| ensures v.fat[r[j]] == 0 && Extended(v', spc, last, c).data[r[j]] == ZeroCluster(spc) {
      if j < |s'| { assert r[j] == s'[j] && s'[j] in s'; }
    }
  }

  lemma TailOfTail(s: seq<nat>, k: nat, c: nat, last: nat)
    requires |s| > 0 && k <= |s| && last == s[|s| - 1] && c !in s
    ensures forall x :: x !in (s + [c])[k..] ==> x !in s[k..] && x != c
    ensures k < |s| ==> last in (s + [c])[k..]
    ensures c !in s[k..]
  {
    assert (s + [c])[k..] == s[k..] + [c];
    if k < |s| { assert last == s[k..][|s| - 1 - k]; }
    forall x | x in s[k..] ensures x in s {}
  }

  /** A grown chain holds what it held, followed by zero sectors. */
  lemma {:induction false} GrownFlat(v: Vol, spc: nat, s: seq<nat>, v': Vol, s': seq<nat>)
    requires Grown(v, spc, s, v', s') && FatSafe(v'.fat)
    ensures InVol(v, s) && InVol(v', s') && |Flat(v, s)| <= |Flat(v', s')|
    ensures Flat(v', s')[..|Flat(v, s)|] == Flat(v, s)
    ensures forall x :: |Flat(v, s)| <= x < |Flat(v', s')| ==> Flat(v', s')[x] == ZeroSector()
  {
    forall i | 0 <= i < |s| ensures v'.data[s[i]] == v.data[s[i]] {
      forall j | |s| <= j < |s'| ensures s'[j] != s[i] { ChainDistinct(v'.fat, s', i, j); }
    }
    FlatFrame(v, v', s);
    FlatZeros(v', spc, s', |s|);
  }

  lemma {:induction false} FlatZeros(v: Vol, spc: nat, s: seq<nat>, n: nat)
    requires InVol(v, s) && n <= |s| && forall j :: n <= j < |s| ==> v.data[s[j]] == ZeroCluster(spc)
    ensures |Flat(v, s[..n])| <= |Flat(v, s)| && Flat(v, s)[..|Flat(v, s[..n])|] == Flat(v, s[..n])
    ensures forall x :: |Flat(v, s[..n])| <= x < |Flat(v, s)| ==> Flat(v, s)[x] == ZeroSector()
  {
    if n < |s| {
      var m := |s| - 1;
      assert s[..m][..n] == s[..n];
      FlatZeros(v, spc, s[..m], n);
      assert v.data[s[m]] == ZeroCluster(spc);
    } else {
      assert s[..n] == s;
    }
  }

  /** Growth of any chain leaves all directory logs and heads alone. */
  lemma {:induction false} GrownRecords(v: Vol, spc: nat, s: seq<nat>, v': Vol, s': seq<nat>)
    requires Grown(v, spc, s, v', s') && FatSafe(v'.fat)
    ensures InVol(v, s) && InVol(v', s') && |RecordsOf(Flat(v, s))| <= |RecordsOf(Flat(v', s'))|
    ensures RecordsOf(Flat(v', s'))[..|RecordsOf(Flat(v, s))|] == RecordsOf(Flat(v, s))
    ensures Blank(RecordsOf(Flat(v', s'))[|RecordsOf(Flat(v, s))|..])
  {
    hide Flat, Grown, FatSafe, RecordsOf;
    GrownFlat(v, spc, s, v', s');
    ZeroTailRecords(Flat(v, s), Flat(v', s'));
  }

  lemma ZeroTailRecords(a: seq<Sector>, b: seq<Sector>)
    requires |a| <= |b| && b[..|a|] == a && forall x :: |a| <= x < |b| ==> b[x] == ZeroSector()
    ensures |RecordsOf(a)| <= |RecordsOf(b)| && RecordsOf(b)[..|RecordsOf(a)|] == RecordsOf(a)
    ensures Blank(RecordsOf(b)[|RecordsOf(a)|..])
  {
    hide RecordsOf;
    var z := b[|a|..];
    assert b == a + z;
    RecordsAppend(a, z);
    BlankRecords(z);
    assert RecordsOf(b)[|RecordsOf(a)|..] == RecordsOf(z);
  }

  lemma BlankRecords(z: seq<Sector>)
    requires forall x :: 0 <= x < |z| ==> z[x] == ZeroSector()
    ensures Blank(RecordsOf(z))
  {}

  /** One step along a chain that has grown from `s` to `s1`: the next member, or a new one. */
  lemma FollowChain(v: Vol, spc: nat, s: seq<nat>, v1: Vol, s1: seq<nat>, j: nat, v2: Vol, next: nat)
    returns (s2: seq<nat>)
    requires Grown(v, spc, s, v1, s1) && FatSafe(v1.fat) && j < |s1|
    requires v1.fat[s1[j]] < EOC ==> next == v1.fat[s1[j]] && v2 == v1
    requires v1.fat[s1[j]] >= EOC ==> ExtendedBy(v1, spc, s1[j], next, v2)
    ensures Grown(v, spc, s, v2, s2) && Grown(v1, spc, s1, v2, s2)
    ensures |s2| == Max(|s1|, j + 2) && s2[j + 1] == next && s2[..|s1|] == s1
    ensures s2 == s1 ==> v2 == v1 && v1.fat[s1[j]] < EOC
    ensures s2 != s1 ==> s2 == s1 + [next] && v1.fat[s1[j]] >= EOC
  {
    hide FatSafe, Grown, Extended;
    SafeLength(v1.fat);
    GrownIsChain(v, spc, s, v1, s1);
    ChainAllocated(v1.fat, s1, j);
    if j + 1 < |s1| {
      s2 := s1;
      GrownRefl(v1, spc, s1);
    } else {
      s2 := s1 + [next];
      GrowStep(v, spc, s, v1, s1, next);
      GrownRefl(v1, spc, s1);
      GrowStep(v1, spc, s1, v1, s1, next);
    }
  }

  // ----- Files

  /** The bytes of a chain. */
  function Content(v: Vol, s: seq<nat>): seq<Byte>
    requires InVol(v, s)
  {
    BytesOf(Flat(v, s))
  }

  /** Growing a chain keeps its bytes and appends zeros. */
  lemma GrownContent(v: Vol, spc: nat, s: seq<nat>, v': Vol, s': seq<nat>)
    requires Grown(v, spc, s, v', s') && FatSafe(v'.fat)
    ensures InVol(v, s) && InVol(v', s') && |Content(v, s)| <= |Content(v', s')|
    ensures Content(v', s')[..|Content(v, s)|] == Content(v, s)
    ensures forall i :: |Content(v, s)| <= i < |Content(v', s')| ==> Content(v', s')[i] == 0
  {
    hide Flat, Grown, FatSafe, BytesOf;
    GrownFlat(v, spc, s, v', s');
    var a, b := Flat(v, s), Flat(v', s');
    assert b == a + b[|a|..];
    BytesAppend(a, b[|a|..]);
    ZeroBytes(b[|a|..]);
  }

  lemma ZeroBytes(z: seq<Sector>)
    requires forall x :: 0 <= x < |z| ==> z[x] == ZeroSector()
    ensures forall i :: 0 <= i < |BytesOf(z)| ==> BytesOf(z)[i] == 0
  {}

  /** Sectors that hold `size` bytes. */
  function SectorsFor(size: nat): nat { (size + 511) / 512 }

  /** Clusters that the transfer loops of `readFile` and `writeFile` step through: one more than the
      full ones, because they step on as soon as a cluster is used up. */
  function ClustersFor(spc: nat, size: nat): nat
    requires spc >= 1
  {
    1 + SectorsFor(size) / spc
  }

  /** If the chain `s` holds `size` bytes, the loops step past its end exactly when they use its last
      sector. */
  lemma CoveredSteps(spc: nat, size: nat, n: nat)
    requires spc >= 1 && n >= 1 && SectorsFor(size) <= Times(n, spc)
    ensures Max(n, ClustersFor(spc, size)) == if SectorsFor(size) == Times(n, spc) then n + 1 else n
  {
    var x := SectorsFor(size);
    TimesSplit(x, spc);
    TimesMono(n, x / spc, spc);
    if x == Times(n, spc) { TimesUnique(x / spc, x % spc, n, 0, spc); }
  }

  /** Reading `size` bytes of a chain that holds them gives its first `size` bytes as they were, and
      appends one zeroed cluster exactly when the last sector read is the last of the chain. */
  lemma CoveredRead(v: Vol, spc: nat, s: seq<nat>, v': Vol, s': seq<nat>, size: nat)
    requires spc >= 1 && Grown(v, spc, s, v', s') && FatSafe(v'.fat)
    requires SectorsFor(size) <= Times(|s|, spc) && |s'| == Max(|s|, ClustersFor(spc, size))
    ensures InVol(v, s) && InVol(v', s') && size <= |Content(v, s)| <= |Content(v', s')|
    ensures Content(v', s')[..size] == Content(v, s)[..size]
    ensures if SectorsFor(size) == Times(|s|, spc) then |s'| == |s| + 1 && ExtendedBy(v, spc, s[|s| - 1], s'[|s|], v')
            else s' == s && v' == v
  {
    hide FatSafe, Content;
    CoveredSteps(spc, size, |s|);
    GrownContent(v, spc, s, v', s');
    ContentSize(v, spc, s);
    assert Content(v', s')[..size] == Content(v', s')[..|Content(v, s)|][..size];
    if |s'| == |s| + 1 { GrownOnce(v, spc, s, v', s'); }
  }

  lemma ContentSize(v: Vol, spc: nat, s: seq<nat>)
    requires Shape(v, spc) && InVol(v, s)
    ensures |Content(v, s)| == 512 * Times(|s|, spc)
  {
    FlatLength(v, spc, s);
  }

  /** Growth by one cluster is one extension. */
  lemma GrownOnce(v: Vol, spc: nat, s: seq<nat>, v': Vol, s': seq<nat>)
    requires Grown(v, spc, s, v', s') && |s'| == |s| + 1 && FatSafe(v'.fat)
    ensures ExtendedBy(v, spc, s[|s| - 1], s'[|s|], v')
  {
    var last, c := s[|s| - 1], s'[|s|];
    var w := Extended(v, spc, last, c);
    assert s'[|s| - 1..] == [last, c] && s'[|s|..] == [c];
    ChainAllocated(v.fat, s, |s| - 1);
    ChainAllocated(v'.fat, s', |s| - 1);
    assert v'.fat == w.fat && v'.data == w.data;
  }

  // ----- Directory entries

  /** `FAT32_entry` as `addFileToDirectory` takes it: an encoded name. */
  datatype Entry = Entry(name: seq<Byte>, attr: Byte, fstCluster: nat, size: nat)

  predicate EntryOK(e: Entry) {
    |e.name| == 11 && e.name[0] != 0 && e.fstCluster < 0x1_0000_0000
  }

  /** The record a directory holds for an entry. Only 16 bits of the size are stored. */
  predicate Holds(rec: Rec, e: Entry) {
    && rec[..11] == e.name && rec[11] == e.attr
    && Cluster(rec) == e.fstCluster && U32(rec, 28) == e.size % 0x1_0000
  }

  /** The same, byte by byte: name, attribute, the two halves of the cluster, and the size, of which two
      bytes are stored. */
  predicate RecordBytes(rec: Rec, e: Entry) {
    && rec[..11] == e.name && rec[11] == e.attr
    && rec[26] == e.fstCluster % 0x100 && rec[27] == e.fstCluster / 0x100 % 0x100
    && rec[20] == e.fstCluster / 0x1_0000 % 0x100 && rec[21] == e.fstCluster / 0x100_0000
    && rec[28] == e.size % 0x100 && rec[29] == e.size / 0x100 % 0x100 && rec[30] == 0 && rec[31] == 0
  }

  lemma HeldBytes(rec: Rec, e: Entry)
    requires Holds(rec, e) && EntryOK(e)
    ensures RecordBytes(rec, e)
  {
    hide U16, U32;
    LowByteFirst(rec, 20);
    LowByteFirst(rec, 26);
    LowByteFirst(rec, 28);
    LowByteFirst(rec, 30);
    Halves(U16(rec, 20), U16(rec, 26), e.fstCluster);
    SizeBytes(e.size, U32(rec, 28));
  }

  lemma Halves(hi: nat, lo: nat, w: nat)
    requires hi * 0x1_0000 + lo == w && lo < 0x1_0000
    ensures w % 0x100 == lo % 0x100 && w / 0x100 % 0x100 == lo / 0x100
    ensures w / 0x1_0000 % 0x100 == hi % 0x100 && w / 0x100_0000 == hi / 0x100
  {
    assert w / 0x1_0000 == hi;
    var a := lo / 0x100;
    assert w / 0x100 == a + 0x100 * hi;
  }

  lemma SizeBytes(n: nat, w: nat)
    requires w == n % 0x1_0000
    ensures w % 0x1_0000 % 0x100 == n % 0x100 && w % 0x1_0000 / 0x100 == n / 0x100 % 0x100 && w / 0x1_0000 == 0
  {
    var q := n / 0x1_0000;
    assert n == q * 0x1_0000 + w;
    assert n / 0x100 == q * 0x100 + w / 0x100;
  }

  /** The bytes of a record that `addFileToDirectory` does not write. */
  predicate RestKept(rec: Rec, slot: Rec) {
    rec[12..20] == slot[12..20] && rec[22..26] == slot[22..26]
  }

  predicate LiveEntry(e: Entry)
    requires EntryOK(e)
  {
    e.name[0] != 0xE5 && e.name[0] != 0x2E
  }

  /** `v'` is `v` with the record `rec` appended to the log of directory `d`: its chain grows only
      if it was full, and then by one free cluster; one cluster of data changes; nothing else does. */
  ghost predicate Appended(v: Vol, spc: nat, d: nat, rec: Rec, v': Vol)
    requires spc >= 1
  {
    && Shape(v, spc) && Shape(v', spc) && |v'.fat| == |v.fat|
    && HasChain(v.fat, d) && HasChain(v'.fat, d)
    && (var s, s', j := ChainOf(v.fat, d), ChainOf(v'.fat, d), ClusterIx(spc, EndIndex(Records(v, d)));
        && |s| <= |s'| == Max(|s|, j + 1) && s == s'[..|s|]
        && (|s'| == |s| ==> v'.fat == v.fat)
        && (|s'| > |s| ==> v'.fat[s'[|s'| - 1]] == MARK)
        && (forall i :: |s| <= i < |s'| ==> v.fat[s'[i]] == 0)
        && (forall c :: 0 <= c < |v.fat| && c !in s'[|s| - 1..] ==> v'.fat[c] == v.fat[c])
        && (forall c :: 0 <= c < |v.data| && c != s'[j] ==> v'.data[c] == v.data[c]))
    && v'.boot == v.boot && v'.spare == v.spare
    && Log(Records(v', d)) == Log(Records(v, d)) + [rec] && TailFree(Records(v', d))
  }

  lemma RecordOfSector(secs: seq<Sector>, x: nat, k: nat)
    requires x < |secs| && k < 16
    ensures RecordsOf(secs)[16 * x + k] == RecIn(secs[x], k)
  {}

  /** The byte `addFileToDirectory` looks at is zero exactly at the end of the log. */
  lemma SlotByte(v: Vol, spc: nat, s: seq<nat>, v1: Vol, s1: seq<nat>, j: nat, t: nat, k: nat, i: nat, n: nat)
    requires Grown(v, spc, s, v1, s1) && FatSafe(v1.fat) && HasChain(v.fat, s[0]) && ChainOf(v.fat, s[0]) == s
    requires TailFree(Records(v, s[0])) && n == EndIndex(Records(v, s[0]))
    requires j < |s1| && Slot(spc, j, t, k, i) && i <= n
    ensures InVol(v1, s1) && s1[j] < |v1.data| && |v1.data[s1[j]]| == spc
    ensures v1.data[s1[j]][t][32 * k] == 0 <==> i == n
  {
    hide Flat, EndIndex, Times, FatSafe, Grown, RecordsOf, IsChain;
    GrownIsChain(v, spc, s, v1, s1);
    GrownRecords(v, spc, s, v1, s1);
    FlatAt(v1, spc, s1, j, t);
    var r, r1 := Records(v, s[0]), RecordsOf(Flat(v1, s1));
    RecordOfSector(Flat(v1, s1), SectorNo(spc, j, t), k);
    assert v1.data[s1[j]][t][32 * k] == r1[i][0];
    if i < |r| {
      assert r1[i] == r1[..|r|][i];
    } else {
      assert r1[i] == r1[|r|..][i - |r|];
    }
  }

  /** What the first free record of directory `d` holds; a new cluster holds zeros. */
  ghost function SlotOf(v: Vol, d: nat): Rec
    requires |v.data| == |v.fat| && HasChain(v.fat, d)
  {
    var recs := Records(v, d);
    if EndIndex(recs) < |recs| then recs[EndIndex(recs)] else Zeros(32)
  }

  lemma SlotRecord(v: Vol, spc: nat, s: seq<nat>, v1: Vol, s1: seq<nat>, j: nat, t: nat, k: nat, n: nat)
    requires Grown(v, spc, s, v1, s1) && FatSafe(v1.fat) && HasChain(v.fat, s[0]) && ChainOf(v.fat, s[0]) == s
    requires n == EndIndex(Records(v, s[0])) && j < |s1| && Slot(spc, j, t, k, n)
    ensures s1[j] < |v1.data| && t < |v1.data[s1[j]]| && RecIn(v1.data[s1[j]][t], k) == SlotOf(v, s[0])
  {
    hide Flat, EndIndex, Times, FatSafe, RecIn;
    GrownFlat(v, spc, s, v1, s1);
    FlatAt(v1, spc, s1, j, t);
    var f, f1, x := Flat(v, s), Flat(v1, s1), SectorNo(spc, j, t);
    assert n / 16 == x && n % 16 == k;
    if n < 16 * |f| {
      assert f1[x] == f1[..|f|][x] == f[x];
    } else {
      ZeroRecord(k);
    }
  }

  lemma ZeroRecord(k: nat)
    requires k < 16
    ensures RecIn(ZeroSector(), k) == Zeros(32)
  {}

  /** What may be attached before a chain is extended may be attached after. */
  lemma AttachKept(v: Vol, spc: nat, root: nat, dirs: set<nat>, last: nat, c: nat, v': Vol, d: nat, e: nat, isDir: bool)
    requires FsOK(v, spc, root, dirs) && ExtendedBy(v, spc, last, c, v') && Attachable(v, dirs, root, d, e, isDir)
    ensures Attachable(v', dirs, root, d, e, isDir)
  {
    hide TreeOK, FatSafe, Records;
    ExtendFs(v, spc, root, dirs, last, c);
  }

  /** The record write that completes `addFileToDirectory`, after the chain of `d` grew from `s` to
      `s'` if it had to. */
  lemma FinishAppend(v: Vol, spc: nat, root: nat, dirs: set<nat>, d: nat, s: seq<nat>, mid: Vol, s': seq<nat>,
                     j: nat, t: nat, k: nat, n: nat, sec: Sector)
    requires spc >= 1 && FsOK(v, spc, root, dirs) && FsOK(mid, spc, root, dirs) && d in dirs
    requires HasChain(v.fat, d) && s == ChainOf(v.fat, d) && n == EndIndex(Records(v, d))
    requires Grown(v, spc, s, mid, s') && j < |s'| == Max(|s|, j + 1) && |s'| <= |s| + 1 && Slot(spc, j, t, k, n)
    requires s'[j] < |mid.data| && t < |mid.data[s'[j]]| && sec[32 * k] != 0
    requires forall b :: 0 <= b < 512 && !(32 * k <= b < 32 * k + 32) ==> sec[b] == mid.data[s'[j]][t][b]
    requires Live(RecIn(sec, k)) ==> Attachable(mid, dirs, root, d, Cluster(RecIn(sec, k)), IsDir(RecIn(sec, k)))
    ensures FsOK(PutSector(mid, s'[j], t, sec), spc, root, dirs)
    ensures Appended(v, spc, d, RecIn(sec, k), PutSector(mid, s'[j], t, sec))
  {
    hide FsOK, EndIndex, Flat, SectorNo, FatSafe, TreeOK, Grown, Appended, Log, TailFree, Records, ChainOf;
    FsFacts(v, spc, root, dirs, d);
    FsFacts(mid, spc, root, dirs, d);
    GrownEnd(v, spc, d, s, mid, s');
    AppendFs(mid, spc, root, dirs, d, j, t, k, n, sec);
    var v' := PutSector(mid, s'[j], t, sec);
    FsFacts(v', spc, root, dirs, d);
    SectorNoSplit(spc, j, t);
    assert ClusterIx(spc, n) == j;
    AppendedIs(v, spc, d, s, mid, s', j, t, sec, RecIn(sec, k));
  }

  lemma AppendedIs(v: Vol, spc: nat, d: nat, s: seq<nat>, mid: Vol, s': seq<nat>, j: nat, t: nat, sec: Sector, rec: Rec)
    requires spc >= 1 && HasChain(v.fat, d) && s == ChainOf(v.fat, d) && HasChain(mid.fat, d) && s' == ChainOf(mid.fat, d)
    requires Grown(v, spc, s, mid, s') && j < |s'| == Max(|s|, j + 1) && |s'| <= |s| + 1
    requires j == ClusterIx(spc, EndIndex(Records(v, d))) && t < spc
    requires Log(Records(PutSector(mid, s'[j], t, sec), d)) == Log(Records(v, d)) + [rec]
    requires TailFree(Records(PutSector(mid, s'[j], t, sec), d))
    ensures Appended(v, spc, d, rec, PutSector(mid, s'[j], t, sec))
  {
    hide EndIndex, Log, TailFree, Records, ClusterIx, ChainOf, HasChain;
    if |s'| == |s| + 1 {
      assert s'[|s|..] == [s'[j]];
    }
  }

  /** Growth does not move the end of the log. */
  lemma GrownEnd(v: Vol, spc: nat, d: nat, s: seq<nat>, mid: Vol, s': seq<nat>)
    requires Grown(v, spc, s, mid, s') && HasChain(v.fat, d) && s == ChainOf(v.fat, d) && TailFree(Records(v, d))
    requires FatSafe(mid.fat)
    ensures HasChain(mid.fat, d) && ChainOf(mid.fat, d) == s' && EndIndex(Records(mid, d)) == EndIndex(Records(v, d))
    ensures Log(Records(mid, d)) == Log(Records(v, d))
  {
    hide EndIndex, Flat;
    assert s'[0] == s[0];
    ChainOfIs(mid.fat, s');
    GrownRecords(v, spc, s, mid, s');
    var r, r1 := Records(v, d), Records(mid, d);
    assert r1 == r + r1[|r|..];
    LogGrows(r, r1[|r|..]);
  }

  /** Appending to directory `d` leaves every chain from another head as it was. */
  lemma AppendedKeeps(v: Vol, spc: nat, d: nat, rec: Rec, v': Vol, r: seq<nat>)
    requires spc >= 1 && Appended(v, spc, d, rec, v') && FatSafe(v.fat) && IsHead(v.fat, d)
    requires IsChain(v.fat, r) && NoPred(v.fat, r[0]) && r[0] != d
    ensures IsChain(v'.fat, r) && Flat(v', r) == Flat(v, r)
    ensures forall i :: 0 <= i < |r| ==> r[i] !in ChainOf(v'.fat, d)
  {
    hide Records, Log, TailFree, EndIndex, Flat, ClusterIx, ChainOf;
    var s, s' := ChainOf(v.fat, d), ChainOf(v'.fat, d);
    forall i | 0 <= i < |r| ensures r[i] !in s' {
      AppendedMiss(v, s, s', r, i);
    }
    assert forall c :: c in s'[|s| - 1..] ==> c in s';
    ChainFrame(v.fat, v'.fat, r);
    FlatFrame(v, v', r);
  }

  lemma AppendedMiss(v: Vol, s: seq<nat>, s': seq<nat>, r: seq<nat>, i: nat)
    requires FatSafe(v.fat) && IsChain(v.fat, s) && NoPred(v.fat, s[0]) && |s| <= |s'| && s == s'[..|s|]
    requires forall k :: |s| <= k < |s'| ==> s'[k] < |v.fat| && v.fat[s'[k]] == 0
    requires IsChain(v.fat, r) && NoPred(v.fat, r[0]) && r[0] != s[0] && i < |r|
    ensures r[i] !in s'
  {
    hide FatSafe;
    ChainAllocated(v.fat, r, i);
    forall k | 0 <= k < |s'| ensures r[i] != s'[k] {
      if k < |s| {
        SafeUnique(v.fat);
        HeadsDisjoint(v.fat, r, s, i, k);
        assert s'[k] == s'[..|s|][k];
      }
    }
  }

  lemma SafeUnique(fat: seq<nat>)
    requires FatSafe(fat)
    ensures UniquePred(fat)
  {}

  /** The same for its records and its place among the heads. */
  lemma AppendedOther(v: Vol, spc: nat, d: nat, rec: Rec, v': Vol, h: nat)
    requires spc >= 1 && Appended(v, spc, d, rec, v') && FatSafe(v.fat) && |v'.fat| <= EOC && IsHead(v.fat, d)
    requires IsHead(v.fat, h) && h != d
    ensures HasChain(v'.fat, h) && ChainOf(v'.fat, h) == ChainOf(v.fat, h) && Records(v', h) == Records(v, h)
  {
    hide FatSafe, Appended, Flat;
    AppendedKeeps(v, spc, d, rec, v', ChainOf(v.fat, h));
    ChainOfIs(v'.fat, ChainOf(v.fat, h));
  }

  lemma SafeLength(fat: seq<nat>)
    requires FatSafe(fat)
    ensures |fat| < EOC
  {}

  // ----- Building a file on free clusters

  /** `v` is `v0` with the chain `fs` built on clusters that were free; nothing else differs. */
  ghost predicate Built(v0: Vol, spc: nat, fs: seq<nat>, v: Vol) {
    && Shape(v0, spc) && Shape(v, spc) && |v.fat| == |v0.fat|
    && IsChain(v.fat, fs)
    && (forall i :: 0 <= i < |fs| ==> v0.fat[fs[i]] == 0)
    && (forall c :: 0 <= c < |v.fat| && c !in fs ==> v.fat[c] == v0.fat[c] && v.data[c] == v0.data[c])
    && v.boot == v0.boot && v.spare == v0.spare
  }

  predicate InUse(v: Vol, c: int) {
    0 <= c < |v.fat| == |v.data| && (c < 2 || v.fat[c] != 0)
  }

  /** Every cluster in use, and every reserved entry and sector, is as it was, but for the entries of
      `links`, which stay in use, and the contents of `clusters`. */
  ghost predicate SparedBut(v: Vol, w: Vol, links: set<nat>, clusters: set<nat>) {
    && |v.data| == |v.fat| == |w.fat| == |w.data| && w.boot == v.boot && w.spare == v.spare
    && (forall c :: InUse(v, c) ==> InUse(w, c))
    && (forall c :: InUse(v, c) && c !in links ==> w.fat[c] == v.fat[c])
    && (forall c :: InUse(v, c) && c !in clusters ==> w.data[c] == v.data[c])
  }

  ghost predicate Spared(v: Vol, w: Vol) { SparedBut(v, w, {}, {}) }

  /** The volumes that `after` adds to `before` spare what is in use in `v`, with those exceptions. */
  ghost predicate Trail(v: Vol, before: set<Vol>, after: set<Vol>, links: set<nat>, clusters: set<nat>) {
    forall w :: w in after && w !in before ==> SparedBut(v, w, links, clusters)
  }

  lemma TrailNone(v: Vol, seen: set<Vol>, links: set<nat>, clusters: set<nat>)
    ensures Trail(v, seen, seen, links, clusters)
  {}

  lemma TrailOne(v: Vol, before: set<Vol>, w: Vol, after: set<Vol>, links: set<nat>, clusters: set<nat>)
    requires SparedBut(v, w, links, clusters) && after == before + {w}
    ensures Trail(v, before, after, links, clusters)
  {}

  lemma TrailAdd(v: Vol, before: set<Vol>, after: set<Vol>, w: Vol, links: set<nat>, clusters: set<nat>)
    requires Trail(v, before, after, links, clusters) && SparedBut(v, w, links, clusters)
    ensures Trail(v, before, after + {w}, links, clusters)
  {
    hide SparedBut;
  }

  lemma TrailJoin(v: Vol, a: set<Vol>, b: set<Vol>, d: set<Vol>, links: set<nat>, clusters: set<nat>)
    requires Trail(v, a, b, links, clusters) && Trail(v, b, d, links, clusters)
    ensures Trail(v, a, d, links, clusters)
  {
    hide SparedBut;
  }

  lemma SparedTrans(v: Vol, v1: Vol, w: Vol, links: set<nat>, clusters: set<nat>, links1: set<nat>, clusters1: set<nat>)
    requires SparedBut(v, v1, links, clusters) && SparedBut(v1, w, links1, clusters1)
    requires forall c :: InUse(v, c) && c in links1 ==> c in links
    requires forall c :: InUse(v, c) && c in clusters1 ==> c in clusters
    ensures SparedBut(v, w, links, clusters)
  {}

  /** A trail from `v` to `v1` followed by one from `v1`, whose exceptions in use in `v` are among the first. */
  lemma TrailThen(v: Vol, v1: Vol, a: set<Vol>, b: set<Vol>, d: set<Vol>, links: set<nat>, clusters: set<nat>,
                  links1: set<nat>, clusters1: set<nat>)
    requires Trail(v, a, b, links, clusters) && SparedBut(v, v1, links, clusters) && Trail(v1, b, d, links1, clusters1)
    requires forall c :: InUse(v, c) && c in links1 ==> c in links
    requires forall c :: InUse(v, c) && c in clusters1 ==> c in clusters
    ensures Trail(v, a, d, links, clusters)
  {
    hide SparedBut, InUse;
    forall w | w in d && w !in a ensures SparedBut(v, w, links, clusters) {
      if w !in b { SparedTrans(v, v1, w, links, clusters, links1, clusters1); }
    }
  }

  lemma TrailMore(v: Vol, a: set<Vol>, b: set<Vol>, links: set<nat>, clusters: set<nat>, links': set<nat>, clusters': set<nat>)
    requires Trail(v, a, b, links, clusters) && links <= links' && clusters <= clusters'
    ensures Trail(v, a, b, links', clusters')
  {
    forall w | w in b && w !in a ensures SparedBut(v, w, links', clusters') {
      assert SparedBut(v, w, links, clusters);
    }
  }

  lemma MarkedSpared(v: Vol, spc: nat, c: nat, cluster: seq<Sector>)
    requires Shape(v, spc) && 2 <= c < |v.fat| && v.fat[c] == 0
    ensures Spared(v, Marked(v, c, cluster))
  {}

  lemma ExtendedSpared(v: Vol, spc: nat, last: nat, c: nat)
    requires Shape(v, spc) && 2 <= c < |v.fat| && v.fat[c] == 0 && last < |v.fat|
    ensures SparedBut(v, Extended(v, spc, last, c), {last}, {})
  {}

  /** A chain that no exception touches reads as before. */
  lemma SparedChain(v: Vol, spc: nat, w: Vol, links: set<nat>, clusters: set<nat>, r: seq<nat>)
    requires SparedBut(v, w, links, clusters) && Shape(v, spc) && |v.fat| <= EOC && IsChain(v.fat, r)
    requires forall i :: 0 <= i < |r| ==> r[i] !in links && r[i] !in clusters
    ensures IsChain(w.fat, r) && InVol(v, r) && InVol(w, r) && Content(w, r) == Content(v, r)
  {
    forall i | 0 <= i < |r| ensures w.fat[r[i]] == v.fat[r[i]] && w.data[r[i]] == v.data[r[i]] {
      ChainAllocated(v.fat, r, i);
      assert InUse(v, r[i]);
    }
    ChainFrame(v.fat, w.fat, r);
    FlatFrame(v, w, r);
  }

  // ----- What appending to a directory may touch

  /** The cluster of directory `d` that the next record goes to, if there is room for it. */
  ghost function SlotCluster(v: Vol, spc: nat, d: nat): set<nat>
    requires spc >= 1 && |v.data| == |v.fat| && HasChain(v.fat, d)
  {
    var s, j := ChainOf(v.fat, d), ClusterIx(spc, EndIndex(Records(v, d)));
    if j < |s| then {s[j]} else {}
  }

  /** The end of the chain of `d`, if there is no room. */
  ghost function EndLink(v: Vol, spc: nat, d: nat): set<nat>
    requires spc >= 1 && |v.data| == |v.fat| && HasChain(v.fat, d)
  {
    var s, j := ChainOf(v.fat, d), ClusterIx(spc, EndIndex(Records(v, d)));
    if j < |s| then {} else {s[|s| - 1]}
  }

  /** All that the volumes which `after` adds may differ in, where clusters in use in `v` are concerned, is
      where a record is appended to `d`. */
  ghost predicate AppendTrail(v: Vol, spc: nat, d: nat, before: set<Vol>, after: set<Vol>)
    requires spc >= 1 && |v.data| == |v.fat| && HasChain(v.fat, d)
  {
    Trail(v, before, after, EndLink(v, spc, d), SlotCluster(v, spc, d))
  }

  ghost predicate AppendSpared(v: Vol, spc: nat, d: nat, w: Vol)
    requires spc >= 1 && |v.data| == |v.fat| && HasChain(v.fat, d)
  {
    SparedBut(v, w, EndLink(v, spc, d), SlotCluster(v, spc, d))
  }

  /** The write that completes an append, after the chain of `d` grew if it had to. */
  lemma AppendTrailIs(v: Vol, spc: nat, d: nat, s: seq<nat>, mid: Vol, s': seq<nat>, j: nat, t: nat, k: nat, n: nat, sec: Sector,
                      a: set<Vol>, b: set<Vol>)
    requires spc >= 1 && Shape(v, spc) && Shape(mid, spc) && HasChain(v.fat, d) && s == ChainOf(v.fat, d)
    requires n == EndIndex(Records(v, d)) && j < |s'| == Max(|s|, j + 1) && Slot(spc, j, t, k, n)
    requires s'[..|s|] == s && s'[j] < |mid.data|
    requires if s' == s then mid == v && b == a
             else |s'| == |s| + 1 && ExtendedBy(v, spc, s[|s| - 1], s'[|s|], mid) && Trail(v, a, b, {s[|s| - 1]}, {})
    ensures AppendTrail(v, spc, d, a, b + {PutSector(mid, s'[j], t, sec)})
    ensures AppendSpared(v, spc, d, PutSector(mid, s'[j], t, sec))
  {
    hide Records, EndIndex, ChainOf, HasChain, Trail, SparedBut, ClusterIx, Times, Extended, SectorNo;
    SectorNoSplit(spc, j, t);
    SlotIx(spc, j, t, k, n);
    var v' := PutSector(mid, s'[j], t, sec);
    var links, clusters := EndLink(v, spc, d), SlotCluster(v, spc, d);
    if s' == s {
      TrailNone(v, a, links, clusters);
      PutSpared(v, spc, s[j], t, sec);
    } else {
      TrailMore(v, a, b, {s[|s| - 1]}, {}, links, clusters);
      ExtendedPutSpared(v, spc, s[|s| - 1], s'[|s|], t, sec);
      assert s'[j] == s'[|s|];
    }
    TrailAdd(v, a, b, v', links, clusters);
  }

  lemma SlotIx(spc: nat, j: nat, t: nat, k: nat, n: nat)
    requires spc >= 1 && Slot(spc, j, t, k, n)
    ensures ClusterIx(spc, n) == j
  {
    hide SectorNo;
    SectorNoSplit(spc, j, t);
  }

  lemma PutSpared(v: Vol, spc: nat, c: nat, t: nat, sec: Sector)
    requires Shape(v, spc) && c < |v.data| && t < spc
    ensures SparedBut(v, PutSector(v, c, t, sec), {}, {c})
  {}

  lemma ExtendedPutSpared(v: Vol, spc: nat, last: nat, c: nat, t: nat, sec: Sector)
    requires Shape(v, spc) && 2 <= c < |v.fat| && v.fat[c] == 0 && last < |v.fat| && t < spc
    ensures SparedBut(v, PutSector(Extended(v, spc, last, c), c, t, sec), {last}, {})
  {}

  lemma SameAppendTrail(v: Vol, w: Vol, spc: nat, d: nat)
    requires spc >= 1 && |v.data| == |v.fat| && HasChain(v.fat, d) && |w.data| == |w.fat| && HasChain(w.fat, d)
    requires ChainOf(w.fat, d) == ChainOf(v.fat, d) && Records(w, d) == Records(v, d)
    ensures EndLink(w, spc, d) == EndLink(v, spc, d) && SlotCluster(w, spc, d) == SlotCluster(v, spc, d)
  {
    hide Records, EndIndex, ChainOf, HasChain, ClusterIx;
  }

  /** In each of those volumes every other file and directory reads as before. */
  lemma OthersKept(v: Vol, spc: nat, d: nat, before: set<Vol>, after: set<Vol>, w: Vol, h: nat)
    requires spc >= 1 && Shape(v, spc) && FatSafe(v.fat) && IsHead(v.fat, d) && IsHead(v.fat, h) && h != d
    requires AppendTrail(v, spc, d, before, after) && w in after && w !in before
    ensures IsChain(w.fat, ChainOf(v.fat, h)) && InVol(v, ChainOf(v.fat, h)) && InVol(w, ChainOf(v.fat, h))
    ensures Content(w, ChainOf(v.fat, h)) == Content(v, ChainOf(v.fat, h))
  {
    hide FatSafe, SparedBut, Content, Records, EndIndex, ClusterIx;
    var r, s := ChainOf(v.fat, h), ChainOf(v.fat, d);
    SafeUnique(v.fat);
    SafeLength(v.fat);
    forall i | 0 <= i < |r| ensures r[i] !in EndLink(v, spc, d) && r[i] !in SlotCluster(v, spc, d) {
      forall k | 0 <= k < |s| ensures r[i] != s[k] { HeadsDisjoint(v.fat, r, s, i, k); }
    }
    SparedChain(v, spc, w, EndLink(v, spc, d), SlotCluster(v, spc, d), r);
  }

  lemma BuiltSpared(v0: Vol, spc: nat, fs: seq<nat>, v: Vol)
    requires Built(v0, spc, fs, v)
    ensures Spared(v0, v)
  {}

  ghost function FreeSet(v: Vol): set<nat> {
    set c | 2 <= c < |v.fat| && v.fat[c] == 0
  }

  ghost function Members(s: seq<nat>): set<nat> {
    set c | c in s
  }

  /** A built chain took as many free clusters as it has. */
  lemma BuiltCount(v0: Vol, spc: nat, fs: seq<nat>, v: Vol)
    requires Built(v0, spc, fs, v) && |v.fat| <= EOC
    ensures |FreeSet(v0)| == |FreeSet(v)| + |fs|
  {
    BuiltFree(v0, spc, fs, v);
    hide *;
    forall a, b | 0 <= a < b < |fs| ensures fs[a] != fs[b] { ChainDistinct(v.fat, fs, a, b); }
    DistinctCount(fs);
  }

  lemma BuiltFree(v0: Vol, spc: nat, fs: seq<nat>, v: Vol)
    requires Built(v0, spc, fs, v)
    ensures FreeSet(v0) == FreeSet(v) + Members(fs) && FreeSet(v) !! Members(fs) && IsChain(v.fat, fs)
  {
    forall c | c in fs ensures v.fat[c] != 0 && v0.fat[c] == 0 && 2 <= c < |v.fat| {
      var i :| 0 <= i < |fs| && fs[i] == c;
      ChainAllocated(v.fat, fs, i);
    }
    forall c ensures c in FreeSet(v0) <==> c in FreeSet(v) || c in Members(fs) {}
  }

  lemma {:induction false} DistinctCount(s: seq<nat>)
    requires forall a, b :: 0 <= a < b < |s| ==> s[a] != s[b]
    ensures |Members(s)| == |s|
  {
    if |s| > 0 {
      var m := |s| - 1;
      var front := s[..m];
      DistinctCount(front);
      assert s == front + [s[m]];
      assert s[m] !in front;
      assert Members(s) == Members(front) + {s[m]};
    }
  }

  /** A chain that has nothing to do with the built one reads as before. */
  lemma BuiltRecords(v0: Vol, spc: nat, fs: seq<nat>, v: Vol, d: nat)
    requires Built(v0, spc, fs, v) && |v.fat| <= EOC && HasChain(v0.fat, d)
    ensures HasChain(v.fat, d) && ChainOf(v.fat, d) == ChainOf(v0.fat, d) && Records(v, d) == Records(v0, d)
  {
    hide Flat, Records;
    var s := ChainOf(v0.fat, d);
    forall i | 0 <= i < |s| ensures s[i] !in fs { ChainAllocated(v0.fat, s, i); }
    ChainKept(v0, v, spc, s);
  }

  lemma BuiltStart(v0: Vol, spc: nat, c: nat)
    requires Shape(v0, spc) && 2 <= c < |v0.fat| && v0.fat[c] == 0
    ensures Built(v0, spc, [c], Marked(v0, c, ZeroCluster(spc)))
  {}

  lemma BuiltWrite(v0: Vol, spc: nat, fs: seq<nat>, v: Vol, j: nat, t: nat, sec: Sector)
    requires Built(v0, spc, fs, v) && j < |fs| && t < spc
    ensures Built(v0, spc, fs, PutSector(v, fs[j], t, sec))
  {
    assert fs[j] in fs;
  }

  lemma BuiltGrow(v0: Vol, spc: nat, fs: seq<nat>, v: Vol, last: nat, c: nat, v': Vol)
    requires Built(v0, spc, fs, v) && FatSafe(v.fat) && ExtendedBy(v, spc, last, c, v') && last in fs
    ensures Built(v0, spc, fs + [c], v')
  {
    hide Flat, ZeroCluster;
    ChainEnd(v.fat, fs, last);
    ExtendChain(v, spc, last, c, fs);
    assert v0.fat[c] == 0;
  }

  /** Writing the next bytes of a file into its chain. */
  lemma ContentPut(v: Vol, spc: nat, s: seq<nat>, j: nat, t: nat, sec: Sector, done: seq<Byte>, n: nat)
    requires Shape(v, spc) && |v.fat| <= EOC && IsChain(v.fat, s) && j < |s| && t < spc && n <= 512
    requires |done| == 512 * SectorNo(spc, j, t) + n && |done| - n <= |Content(v, s)|
    requires Content(v, s)[..|done| - n] == done[..|done| - n] && sec[..n] == done[|done| - n..]
    ensures InVol(PutSector(v, s[j], t, sec), s) && |done| <= |Content(PutSector(v, s[j], t, sec), s)|
    ensures Content(PutSector(v, s[j], t, sec), s)[..|done|] == done
  {
    hide Flat, SectorNo;
    forall a, b | 0 <= a < b < |s| ensures s[a] != s[b] { ChainDistinct(v.fat, s, a, b); }
    FlatPut(v, spc, s, j, t, sec);
    ContentPutAt(Flat(v, s), SectorNo(spc, j, t), sec, done, n);
  }

  lemma ContentPutAt(secs: seq<Sector>, k: nat, sec: Sector, done: seq<Byte>, n: nat)
    requires k < |secs| && n <= 512 && |done| == 512 * k + n
    requires BytesOf(secs)[..512 * k] == done[..512 * k] && sec[..n] == done[512 * k..]
    ensures BytesOf(secs[k := sec])[..|done|] == done
  {
    var b := BytesOf(secs[k := sec]);
    forall i | 0 <= i < |done| ensures b[i] == done[i] {
      if i < 512 * k {
        assert BytesOf(secs)[..512 * k][i] == done[..512 * k][i];
      } else {
        assert sec[..n][i - 512 * k] == done[512 * k..][i - 512 * k];
      }
    }
  }
}
