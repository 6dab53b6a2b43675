/** The directory tree of a volume, the invariant of a sound volume, and the proof that each
    single write of the driver keeps it. */
module FatTree {
  import opened Bytes
  import opened FatTable
  import opened FatVolume

  // ----- Records

  function Cluster(r: Rec): nat { U16(r, 20) * 0x1_0000 + U16(r, 26) }

  predicate IsDir(r: Rec) { r[11] / 16 % 2 == 1 }

  /** In use, not removed, and neither "." nor "..". */
  predicate Live(r: Rec) { r[0] != 0 && r[0] != 0xE5 && r[0] != 0x2E }

  /** All records of the chain that starts at `d`. */
  ghost function Records(v: Vol, d: nat): seq<Rec>
    requires |v.data| == |v.fat| && HasChain(v.fat, d)
  {
    RecordsOf(Flat(v, ChainOf(v.fat, d)))
  }

  // ----- The tree: directory head to log

  type Tree = map<nat, seq<Rec>>

  predicate LiveAt(t: Tree, d: nat, i: int) {
    d in t && 0 <= i < |t[d]| && Live(t[d][i])
  }

  ghost predicate IsTarget(t: Tree, e: nat) {
    exists d, i :: LiveAt(t, d, i) && Cluster(t[d][i]) == e
  }

  ghost predicate Known(t: Tree, e: nat) { e in t || IsTarget(t, e) }

  /** Live entries never lead to the root or back to their own directory, lead to a directory
      exactly when they carry the directory attribute, and no two lead to the same chain. */
  ghost predicate TreeOK(t: Tree, root: nat) {
    && root in t
    && (forall d, i :: LiveAt(t, d, i) ==>
          && Cluster(t[d][i]) != root && Cluster(t[d][i]) != d
          && (IsDir(t[d][i]) <==> Cluster(t[d][i]) in t))
    && (forall d, i, d', i' :: LiveAt(t, d, i) && LiveAt(t, d', i') && Cluster(t[d][i]) == Cluster(t[d'][i']) ==>
          d == d' && i == i')
  }

  ghost predicate DirsOK(v: Vol, dirs: set<nat>) {
    && |v.data| == |v.fat|
    && (forall d :: d in dirs ==> HasChain(v.fat, d))
  }

  ghost function Logs(v: Vol, dirs: set<nat>): Tree
    requires DirsOK(v, dirs)
  {
    map d | d in dirs :: Log(Records(v, d))
  }

  /** The invariant of a sound volume whose directories start at `dirs`. */
  ghost predicate FsOK(v: Vol, spc: nat, root: nat, dirs: set<nat>) {
    && Shape(v, spc)
    && FatSafe(v.fat)
    && DirsOK(v, dirs)
    && (forall d :: d in dirs ==> TailFree(Records(v, d)))
    && TreeOK(Logs(v, dirs), root)
    && (forall h :: Known(Logs(v, dirs), h) ==> IsHead(v.fat, h))
  }

  /** What must hold whenever the machine stops: some set of directories contains the root,
      is closed under directory entries, and is sound. */
  ghost predicate CrashSafe(v: Vol, spc: nat, root: nat) {
    exists dirs :: FsOK(v, spc, root, dirs)
  }

  /** A chain that no directory and no live entry leads to. */
  ghost predicate Orphan(v: Vol, dirs: set<nat>, e: nat) {
    DirsOK(v, dirs) && IsHead(v.fat, e) && !Known(Logs(v, dirs), e)
  }

  // ----- Reachability: what CrashSafe means without naming a set of directories

  /** `path` lists directories from the root, each entered through a live directory entry of the
      one before. */
  ghost predicate ReachPath(v: Vol, root: nat, path: seq<nat>, ixs: seq<nat>) {
    && |v.data| == |v.fat|
    && |path| == |ixs| + 1 && path[0] == root
    && (forall k :: 0 <= k < |path| ==> HasChain(v.fat, path[k]))
    && (forall k :: 0 <= k < |ixs| ==>
          && ixs[k] < |Log(Records(v, path[k]))|
          && Live(Log(Records(v, path[k]))[ixs[k]]) && IsDir(Log(Records(v, path[k]))[ixs[k]])
          && Cluster(Log(Records(v, path[k]))[ixs[k]]) == path[k + 1])
  }

  /** In a crash-safe volume every directory reachable from the root has a free tail, and every
      live entry in it points at the head of an allocated chain. */
  lemma {:induction false} ReachableEntries(v: Vol, spc: nat, root: nat, path: seq<nat>, ixs: seq<nat>, i: nat)
    requires CrashSafe(v, spc, root) && ReachPath(v, root, path, ixs)
    ensures TailFree(Records(v, path[|path| - 1]))
    ensures i < |Log(Records(v, path[|path| - 1]))| && Live(Log(Records(v, path[|path| - 1]))[i]) ==>
              IsHead(v.fat, Cluster(Log(Records(v, path[|path| - 1]))[i]))
  {
    var dirs :| FsOK(v, spc, root, dirs);
    ReachableInDirs(v, spc, root, dirs, path, ixs);
    var d := path[|path| - 1];
    var t := Logs(v, dirs);
    assert t[d] == Log(Records(v, d));
    if i < |t[d]| && Live(t[d][i]) {
      assert LiveAt(t, d, i);
      assert IsTarget(t, Cluster(t[d][i]));
    }
  }

  lemma {:induction false} ReachableInDirs(v: Vol, spc: nat, root: nat, dirs: set<nat>, path: seq<nat>, ixs: seq<nat>)
    requires FsOK(v, spc, root, dirs) && ReachPath(v, root, path, ixs)
    ensures path[|path| - 1] in dirs
    decreases |ixs|
  {
    hide Records, Log, FatSafe, Shape;
    var t := Logs(v, dirs);
    if |ixs| > 0 {
      var n := |ixs| - 1;
      ReachableInDirs(v, spc, root, dirs, path[..n + 1], ixs[..n]);
      assert path[..n + 1][n] == path[n];
      assert t[path[n]] == Log(Records(v, path[n]));
      assert LiveAt(t, path[n], ixs[n]);
    }
  }

  /** A freshly formatted volume is sound: nothing is allocated but one blank cluster, the root. */
  lemma FormattedFs(v: Vol, spc: nat, root: nat)
    requires Shape(v, spc) && 2 <= root < |v.fat| < EOC && v.data[root] == ZeroCluster(spc)
    requires v.fat[0] < 0x1000_0000 && v.fat[1] < 0x1000_0000 && EOC <= v.fat[root] < 0x1000_0000
    requires forall c :: 2 <= c < |v.fat| && c != root ==> v.fat[c] == 0
    ensures FsOK(v, spc, root, {root}) && Logs(v, {root}) == map[root := []]
  {
    hide EndIndex, RecordsOf, Flat, Cluster, FatSafe, NoPred, IsChain, Records;
    FormattedFat(v.fat, root);
    BlankDirectory(v, spc, root);
    LogIs([], Records(v, root));
    assert [] + Records(v, root) == Records(v, root);
    var t := Logs(v, {root});
    assert t == map[root := []];
    assert forall h :: Known(t, h) ==> h == root;
  }

  lemma FormattedFat(fat: seq<nat>, root: nat)
    requires 2 <= root < |fat| < EOC && fat[0] < 0x1000_0000 && fat[1] < 0x1000_0000
    requires EOC <= fat[root] < 0x1000_0000 && forall c :: 2 <= c < |fat| && c != root ==> fat[c] == 0
    ensures FatSafe(fat) && IsHead(fat, root) && IsChain(fat, [root])
  {
    assert Ranked(fat, seq(|fat|, _ => 0));
    assert IsChain(fat, [root]);
  }

  lemma BlankDirectory(v: Vol, spc: nat, c: nat)
    requires c < |v.fat| == |v.data| && |v.fat| <= EOC && v.data[c] == ZeroCluster(spc) && IsChain(v.fat, [c])
    ensures HasChain(v.fat, c) && Blank(Records(v, c))
  {
    ChainOfIs(v.fat, [c]);
    assert [c][..0] == [];
    assert Flat(v, [c]) == ZeroCluster(spc);
    ZeroRecords(spc);
  }

  // ----- Steps that leave the tree alone

  lemma SameLogs(v: Vol, v': Vol, spc: nat, root: nat, dirs: set<nat>)
    requires FsOK(v, spc, root, dirs) && Shape(v', spc) && FatSafe(v'.fat)
    requires forall h :: Known(Logs(v, dirs), h) ==> IsHead(v'.fat, h)
    requires forall d :: d in dirs ==> HasChain(v'.fat, d)
    requires forall d :: d in dirs ==>
               Log(Records(v', d)) == Log(Records(v, d)) && TailFree(Records(v', d))
    ensures FsOK(v', spc, root, dirs) && Logs(v', dirs) == Logs(v, dirs)
  {
    assert Logs(v', dirs) == Logs(v, dirs);
  }

  /** A chain none of whose clusters changed. */
  lemma ChainKept(v: Vol, v': Vol, spc: nat, s: seq<nat>)
    requires Shape(v, spc) && Shape(v', spc) && |v'.fat| == |v.fat| <= EOC && IsChain(v.fat, s)
    requires forall i :: 0 <= i < |s| ==> v'.fat[s[i]] == v.fat[s[i]] && v'.data[s[i]] == v.data[s[i]]
    ensures HasChain(v'.fat, s[0]) && HasChain(v.fat, s[0])
    ensures ChainOf(v'.fat, s[0]) == s && Records(v', s[0]) == Records(v, s[0])
  {
    ChainFrame(v.fat, v'.fat, s);
    ChainOfIs(v.fat, s);
    FlatFrame(v, v', s);
  }

  function Marked(v: Vol, c: nat, cluster: seq<Sector>): Vol
    requires c < |v.fat| == |v.data|
  {
    v.(fat := v.fat[c := MARK], data := v.data[c := cluster])
  }

  /** A free cluster is marked as the end of a chain; its sectors may hold anything. */
  lemma MarkFs(v: Vol, spc: nat, root: nat, dirs: set<nat>, c: nat, cluster: seq<Sector>)
    requires FsOK(v, spc, root, dirs) && 2 <= c < |v.fat| && v.fat[c] == 0 && |cluster| == spc
    ensures FsOK(Marked(v, c, cluster), spc, root, dirs)
    ensures Logs(Marked(v, c, cluster), dirs) == Logs(v, dirs)
    ensures forall h :: IsHead(v.fat, h) ==> IsHead(Marked(v, c, cluster).fat, h)
    ensures Orphan(Marked(v, c, cluster), dirs, c) && IsChain(Marked(v, c, cluster).fat, [c])
  {
    hide Records, Log, TailFree, Flat;
    var v' := Marked(v, c, cluster);
    MarkSafe(v.fat, c);
    forall h | IsHead(v.fat, h)
      ensures IsHead(v'.fat, h) && Records(v', h) == Records(v, h) && h != c
    {
      MarkHead(v, spc, c, cluster, h);
    }
    assert forall d :: d in dirs ==> Known(Logs(v, dirs), d);
    SameLogs(v, v', spc, root, dirs);
    FreshHead(v.fat, c);
  }

  lemma MarkHead(v: Vol, spc: nat, c: nat, cluster: seq<Sector>, h: nat)
    requires Shape(v, spc) && FatSafe(v.fat) && 2 <= c < |v.fat| && v.fat[c] == 0 && |cluster| == spc
    requires IsHead(v.fat, h)
    ensures h != c && IsHead(Marked(v, c, cluster).fat, h) && Records(Marked(v, c, cluster), h) == Records(v, h)
  {
    var s := ChainOf(v.fat, h);
    forall i | 0 <= i < |s| ensures s[i] != c { ChainAllocated(v.fat, s, i); }
    ChainKept(v, Marked(v, c, cluster), spc, s);
  }

  lemma FreshHead(fat: seq<nat>, c: nat)
    requires FatSafe(fat) && 2 <= c < |fat| && fat[c] == 0
    ensures IsChain(fat[c := MARK], [c]) && IsHead(fat[c := MARK], c)
  {
    assert IsChain(fat[c := MARK], [c]);
    assert forall a :: 2 <= a < |fat| && fat[a] == c ==> Link(fat, a);
  }

  function Extended(v: Vol, spc: nat, last: nat, c: nat): Vol
    requires c < |v.fat| == |v.data| && last < |v.fat|
  {
    v.(fat := v.fat[c := MARK][last := c], data := v.data[c := ZeroCluster(spc)])
  }

  /** What extending at `last` does to any chain. */
  lemma ExtendChain(v: Vol, spc: nat, last: nat, c: nat, s: seq<nat>)
    requires Shape(v, spc) && FatSafe(v.fat) && 2 <= c < |v.fat| && v.fat[c] == 0
    requires 2 <= last < |v.fat| && v.fat[last] >= EOC && IsChain(v.fat, s)
    ensures c !in s
    ensures last != s[|s| - 1] ==>
              IsChain(Extended(v, spc, last, c).fat, s) && Flat(Extended(v, spc, last, c), s) == Flat(v, s)
    ensures last == s[|s| - 1] ==>
              && IsChain(Extended(v, spc, last, c).fat, s + [c])
              && Flat(Extended(v, spc, last, c), s + [c]) == Flat(v, s) + ZeroCluster(spc)
  {
    var v' := Extended(v, spc, last, c);
    forall i | 0 <= i < |s| ensures s[i] != c && (i < |s| - 1 ==> s[i] != last) { ChainAllocated(v.fat, s, i); }
    FlatFrame(v, v', s);
    if last == s[|s| - 1] {
      var s' := s + [c];
      forall i | 0 <= i < |s'| - 1 ensures v'.fat[s'[i]] == s'[i + 1] { ChainAllocated(v.fat, s, i); }
      FlatAppend(v', s, c);
    } else {
      ChainFrame(v.fat, v'.fat, s);
    }
  }

  /** Extending a chain with a zeroed cluster. */
  lemma ExtendFs(v: Vol, spc: nat, root: nat, dirs: set<nat>, last: nat, c: nat)
    requires FsOK(v, spc, root, dirs) && 2 <= c < |v.fat| && v.fat[c] == 0
    requires 2 <= last < |v.fat| && v.fat[last] >= EOC
    ensures FsOK(Extended(v, spc, last, c), spc, root, dirs)
    ensures Logs(Extended(v, spc, last, c), dirs) == Logs(v, dirs)
    ensures forall h :: IsHead(v.fat, h) ==> IsHead(Extended(v, spc, last, c).fat, h)
  {
    hide Records, Log, TailFree, Flat, EndIndex;
    var v' := Extended(v, spc, last, c);
    LinkSafe(v.fat, last, c);
    forall h | IsHead(v.fat, h)
      ensures IsHead(v'.fat, h)
      ensures TailFree(Records(v, h)) ==> TailFree(Records(v', h)) && Log(Records(v', h)) == Log(Records(v, h))
    {
      ExtendHead(v, spc, last, c, h);
    }
    assert forall d :: d in dirs ==> Known(Logs(v, dirs), d);
    SameLogs(v, v', spc, root, dirs);
  }

  lemma ExtendHead(v: Vol, spc: nat, last: nat, c: nat, h: nat)
    requires Shape(v, spc) && FatSafe(v.fat) && 2 <= c < |v.fat| && v.fat[c] == 0
    requires 2 <= last < |v.fat| && v.fat[last] >= EOC && IsHead(v.fat, h)
    ensures IsHead(Extended(v, spc, last, c).fat, h)
    ensures TailFree(Records(v, h)) ==>
              && TailFree(Records(Extended(v, spc, last, c), h))
              && Log(Records(Extended(v, spc, last, c), h)) == Log(Records(v, h))
  {
    hide Log, TailFree, Flat;
    var v' := Extended(v, spc, last, c);
    var s := ChainOf(v.fat, h);
    ExtendChain(v, spc, last, c, s);
    if last == s[|s| - 1] {
      ChainOfIs(v'.fat, s + [c]);
      RecordsAppend(Flat(v, s), ZeroCluster(spc));
      ZeroRecords(spc);
      if TailFree(Records(v, h)) { LogGrows(Records(v, h), RecordsOf(ZeroCluster(spc))); }
    } else {
      ChainOfIs(v'.fat, s);
    }
    assert NoPred(v'.fat, h);
  }

  lemma LogGrows(recs: seq<Rec>, blank: seq<Rec>)
    requires TailFree(recs) && Blank(blank)
    ensures Log(recs + blank) == Log(recs) && TailFree(recs + blank) && EndIndex(recs + blank) == EndIndex(recs)
  {
    hide EndIndex;
    var n := EndIndex(recs);
    var log, tail := recs[..n], recs[n..] + blank;
    assert recs + blank == log + tail;
    assert Blank(tail);
    assert forall i :: 0 <= i < n ==> log[i][0] != 0;
    LogIs(log, tail);
  }

  /** Freeing the head of an orphan chain; the next cluster of the chain becomes the orphan. */
  lemma FreeFs(v: Vol, spc: nat, root: nat, dirs: set<nat>, s: seq<nat>)
    requires FsOK(v, spc, root, dirs) && IsChain(v.fat, s) && Orphan(v, dirs, s[0])
    ensures FsOK(SetFat(v, s[0], 0), spc, root, dirs)
    ensures Logs(SetFat(v, s[0], 0), dirs) == Logs(v, dirs)
    ensures |s| > 1 ==> IsChain(SetFat(v, s[0], 0).fat, s[1..]) && Orphan(SetFat(v, s[0], 0), dirs, s[1])
  {
    hide Records, Log, TailFree, Flat;
    var v' := SetFat(v, s[0], 0);
    FreeSafe(v.fat, s[0]);
    forall h | Known(Logs(v, dirs), h)
      ensures IsHead(v'.fat, h) && Records(v', h) == Records(v, h)
    {
      FreeKeeps(v, spc, s, h);
    }
    assert forall d :: d in dirs ==> Known(Logs(v, dirs), d);
    SameLogs(v, v', spc, root, dirs);
    if |s| > 1 { FreeNext(v.fat, s); }
  }

  lemma FreeKeeps(v: Vol, spc: nat, s: seq<nat>, h: nat)
    requires Shape(v, spc) && FatSafe(v.fat) && IsChain(v.fat, s) && NoPred(v.fat, s[0])
    requires IsHead(v.fat, h) && h != s[0]
    ensures IsHead(SetFat(v, s[0], 0).fat, h) && Records(SetFat(v, s[0], 0), h) == Records(v, h)
  {
    hide Flat;
    var r := ChainOf(v.fat, h);
    forall i | 0 <= i < |r| ensures r[i] != s[0] { HeadsDisjoint(v.fat, r, s, i, 0); }
    ChainAllocated(v.fat, r, 0);
    ChainKept(v, SetFat(v, s[0], 0), spc, r);
  }

  lemma FreeNext(fat: seq<nat>, s: seq<nat>)
    requires FatSafe(fat) && IsChain(fat, s) && |s| > 1
    ensures IsChain(fat[s[0] := 0], s[1..]) && IsHead(fat[s[0] := 0], s[1]) && !NoPred(fat, s[1])
  {
    var r := s[1..];
    var fat' := fat[s[0] := 0];
    ChainTail(fat, s);
    forall i | 0 <= i < |r| ensures r[i] != s[0] { ChainDistinct(fat, s, 0, i + 1); }
    ChainFrame(fat, fat', r);
    ChainAllocated(fat, s, 0);
    assert fat[s[0]] == s[1];
    forall a | 2 <= a < |fat| ensures fat'[a] != s[1] {
      assert fat[a] == s[1] ==> Link(fat, a) && Link(fat, s[0]);
    }
  }

  function Freed(v: Vol, s: seq<nat>): Vol { v.(fat := Cleared(v.fat, s)) }

  /** Freeing a whole chain keeps the volume sound exactly when nothing leads to the chain. */
  lemma FreedSound(v: Vol, spc: nat, root: nat, dirs: set<nat>, s: seq<nat>)
    requires FsOK(v, spc, root, dirs) && IsChain(v.fat, s)
    ensures FsOK(Freed(v, s), spc, root, dirs) <==> Orphan(v, dirs, s[0])
  {
    hide FsOK, Orphan, Cleared, FatSafe;
    if Orphan(v, dirs, s[0]) {
      FreedOrphan(v, spc, root, dirs, s);
    } else {
      FreedUnsound(v, spc, root, dirs, s);
    }
  }

  lemma {:induction false} FreedOrphan(v: Vol, spc: nat, root: nat, dirs: set<nat>, s: seq<nat>)
    requires FsOK(v, spc, root, dirs) && IsChain(v.fat, s) && Orphan(v, dirs, s[0])
    ensures FsOK(Freed(v, s), spc, root, dirs)
    decreases |s|
  {
    hide FsOK, Orphan;
    var v' := SetFat(v, s[0], 0);
    FreeFs(v, spc, root, dirs, s);
    if |s| > 1 {
      FreedOrphan(v', spc, root, dirs, s[1..]);
      assert s == [s[0]] + s[1..];
      assert Cleared(v.fat, s) == Cleared(v'.fat, s[1..]);
    } else {
      assert Cleared(v.fat, s) == v'.fat;
    }
  }

  lemma FreedUnsound(v: Vol, spc: nat, root: nat, dirs: set<nat>, s: seq<nat>)
    requires FsOK(v, spc, root, dirs) && IsChain(v.fat, s) && !Orphan(v, dirs, s[0])
    ensures !FsOK(Freed(v, s), spc, root, dirs)
  {
    hide FsOK, Records, Cleared, Logs, Cluster, FatSafe;
    FsParts(v, spc, root, dirs);
    assert HasChain(v.fat, s[0]);
    if !NoPred(v.fat, s[0]) {
      FreedDangles(v.fat, s);
      if FsOK(Freed(v, s), spc, root, dirs) {
        FsParts(Freed(v, s), spc, root, dirs);
        assert false;
      }
    } else if s[0] in dirs {
      NoChainOnFree(Cleared(v.fat, s), s[0]);
      if FsOK(Freed(v, s), spc, root, dirs) {
        FsParts(Freed(v, s), spc, root, dirs);
        assert false;
      }
    } else {
      FreedTarget(v, spc, root, dirs, s);
    }
  }

  lemma FsParts(v: Vol, spc: nat, root: nat, dirs: set<nat>)
    requires FsOK(v, spc, root, dirs)
    ensures FatSafe(v.fat) && NoDangling(v.fat) && DirsOK(v, dirs) && Logs(v, dirs).Keys == dirs && root in dirs
    ensures forall h :: Known(Logs(v, dirs), h) ==> IsHead(v.fat, h)
  {
    hide Records, Shape, Cluster;
  }

  /** A live entry to the freed chain is left. */
  lemma FreedTarget(v: Vol, spc: nat, root: nat, dirs: set<nat>, s: seq<nat>)
    requires FsOK(v, spc, root, dirs) && IsChain(v.fat, s) && NoPred(v.fat, s[0]) && s[0] !in dirs
    requires Known(Logs(v, dirs), s[0])
    ensures !FsOK(Freed(v, s), spc, root, dirs)
  {
    hide FsOK, Records, Cleared, FatSafe, Log, TailFree, Cluster, DirsOK;
    FsParts(v, spc, root, dirs);
    var t := Logs(v, dirs);
    var d, i :| LiveAt(t, d, i) && Cluster(t[d][i]) == s[0];
    FsFacts(v, spc, root, dirs, d);
    FreedKeeps(v, spc, s, d);
    if FsOK(Freed(v, s), spc, root, dirs) {
      var v' := Freed(v, s);
      FsParts(v', spc, root, dirs);
      FsFacts(v', spc, root, dirs, d);
      assert LiveAt(Logs(v', dirs), d, i) && IsTarget(Logs(v', dirs), s[0]);
      assert Known(Logs(v', dirs), s[0]) && IsHead(v'.fat, s[0]);
      NoChainOnFree(v'.fat, s[0]);
      assert false;
    }
  }

  lemma FreedDangles(fat: seq<nat>, s: seq<nat>)
    requires FatSafe(fat) && IsChain(fat, s) && !NoPred(fat, s[0])
    ensures !NoDangling(Cleared(fat, s))
  {
    var a :| 2 <= a < |fat| && fat[a] == s[0];
    if a in s {
      var j :| 0 <= j < |s| && s[j] == a;
      ChainAllocated(fat, s, j);
      if j + 1 < |s| { ChainDistinct(fat, s, 0, j + 1); }
      assert false;
    }
    assert Link(Cleared(fat, s), a);
  }

  lemma NoChainOnFree(fat: seq<nat>, h: nat)
    requires h < |fat| && fat[h] == 0
    ensures !HasChain(fat, h)
  {
    if HasChain(fat, h) {
      ChainAllocated(fat, ChainOf(fat, h), 0);
      assert false;
    }
  }

  lemma FreedKeeps(v: Vol, spc: nat, s: seq<nat>, h: nat)
    requires Shape(v, spc) && FatSafe(v.fat) && IsChain(v.fat, s) && NoPred(v.fat, s[0])
    requires IsHead(v.fat, h) && h != s[0]
    ensures HasChain(Freed(v, s).fat, h) && Records(Freed(v, s), h) == Records(v, h)
  {
    hide Flat;
    var r := ChainOf(v.fat, h);
    forall i | 0 <= i < |r| ensures r[i] !in s {
      forall j | 0 <= j < |s| ensures r[i] != s[j] { HeadsDisjoint(v.fat, r, s, i, j); }
    }
    ChainKept(v, Freed(v, s), spc, r);
  }

  // ----- Freeing a chain that something leads to

  /** Entry `i` of the directory at the end of `path` is live and leads to `c`. */
  ghost predicate LeadsTo(v: Vol, root: nat, path: seq<nat>, ixs: seq<nat>, i: nat, c: nat) {
    && ReachPath(v, root, path, ixs)
    && (var log := Log(Records(v, path[|path| - 1])); i < |log| && Live(log[i]) && Cluster(log[i]) == c)
  }

  /** `c` is the root or the target of a live entry of a directory reachable from it. */
  ghost predicate Led(v: Vol, root: nat, c: nat) {
    c == root || exists path, ixs, i :: LeadsTo(v, root, path, ixs, i, c)
  }

  ghost predicate Reachable(v: Vol, root: nat, d: nat) {
    exists path, ixs :: ReachPath(v, root, path, ixs) && path[|path| - 1] == d
  }

  /** Freeing a chain leaves a crash-safe volume exactly when no cluster continues into the chain and
      nothing reachable from the root leads to it. */
  lemma FreedCrashSafe(v: Vol, spc: nat, root: nat, s: seq<nat>)
    requires CrashSafe(v, spc, root) && IsChain(v.fat, s)
    ensures CrashSafe(Freed(v, s), spc, root) <==> NoPred(v.fat, s[0]) && !Led(v, root, s[0])
  {
    hide FsOK, Cleared, Freed, Led, NoPred;
    var dirs :| FsOK(v, spc, root, dirs);
    if NoPred(v.fat, s[0]) && !Led(v, root, s[0]) {
      FreedUnled(v, spc, root, dirs, s);
    } else if CrashSafe(Freed(v, s), spc, root) {
      FreedLed(v, spc, root, dirs, s);
      assert false;
    }
  }

  lemma FreedUnled(v: Vol, spc: nat, root: nat, dirs: set<nat>, s: seq<nat>)
    requires FsOK(v, spc, root, dirs) && IsChain(v.fat, s) && NoPred(v.fat, s[0]) && !Led(v, root, s[0])
    ensures CrashSafe(Freed(v, s), spc, root)
  {
    hide FsOK, Freed, Reachable, Records, Log, Cluster, ReachPath, Live;
    FsParts(v, spc, root, dirs);
    var near := set d | d in dirs && Reachable(v, root, d);
    NearFs(v, spc, root, dirs, near);
    FsParts(v, spc, root, near);
    var t := Logs(v, near);
    if Known(t, s[0]) {
      if s[0] in near {
        NearLed(v, root, s[0]);
      } else {
        var d, i :| LiveAt(t, d, i) && Cluster(t[d][i]) == s[0];
        NearEntry(v, root, d, i, s[0]);
      }
      assert false;
    }
    assert HasChain(v.fat, s[0]);
    FreedSound(v, spc, root, near, s);
  }

  /** The directories reachable from the root are a sound set on their own. */
  lemma NearFs(v: Vol, spc: nat, root: nat, dirs: set<nat>, near: set<nat>)
    requires FsOK(v, spc, root, dirs) && near == set d | d in dirs && Reachable(v, root, d)
    ensures FsOK(v, spc, root, near)
  {
    hide Records, Log, Cluster, TailFree, Reachable, ReachPath, Live, IsDir, FatSafe, Shape;
    var t, u := Logs(v, dirs), Logs(v, near);
    NearRoot(v, root);
    forall d, i | LiveAt(u, d, i)
      ensures LiveAt(t, d, i) && u[d][i] == t[d][i] && IsTarget(t, Cluster(t[d][i]))
      ensures IsDir(u[d][i]) <==> Cluster(u[d][i]) in near
    {
      assert LiveAt(t, d, i);
      if IsDir(t[d][i]) { NearStep(v, root, d, i); }
    }
    assert TreeOK(u, root);
    forall h | Known(u, h) ensures Known(t, h) {
      if h !in u { var d, i :| LiveAt(u, d, i) && Cluster(u[d][i]) == h; }
    }
  }

  lemma NearRoot(v: Vol, root: nat)
    requires |v.data| == |v.fat| && HasChain(v.fat, root)
    ensures Reachable(v, root, root)
  {
    assert ReachPath(v, root, [root], []);
  }

  lemma NearStep(v: Vol, root: nat, d: nat, i: nat)
    requires Reachable(v, root, d) && |v.data| == |v.fat| && HasChain(v.fat, d)
    requires i < |Log(Records(v, d))| && Live(Log(Records(v, d))[i]) && IsDir(Log(Records(v, d))[i])
    requires HasChain(v.fat, Cluster(Log(Records(v, d))[i]))
    ensures Reachable(v, root, Cluster(Log(Records(v, d))[i]))
  {
    hide Records, Log, Cluster, Live, IsDir, HasChain;
    var path, ixs :| ReachPath(v, root, path, ixs) && path[|path| - 1] == d;
    assert ReachPath(v, root, path + [Cluster(Log(Records(v, d))[i])], ixs + [i]);
  }

  lemma NearEntry(v: Vol, root: nat, d: nat, i: nat, c: nat)
    requires Reachable(v, root, d) && |v.data| == |v.fat| && HasChain(v.fat, d)
    requires i < |Log(Records(v, d))| && Live(Log(Records(v, d))[i]) && Cluster(Log(Records(v, d))[i]) == c
    ensures Led(v, root, c)
  {
    hide Records, Log, Cluster, Live, HasChain;
    var path, ixs :| ReachPath(v, root, path, ixs) && path[|path| - 1] == d;
    assert LeadsTo(v, root, path, ixs, i, c);
  }

  /** A reachable directory is the root or the target of a live entry. */
  lemma NearLed(v: Vol, root: nat, d: nat)
    requires Reachable(v, root, d)
    ensures Led(v, root, d)
  {
    hide Records, Log, Cluster, Live, IsDir, HasChain;
    var path, ixs :| ReachPath(v, root, path, ixs) && path[|path| - 1] == d;
    if |ixs| > 0 {
      var n := |ixs| - 1;
      assert LeadsTo(v, root, path[..n + 1], ixs[..n], ixs[n], d);
    }
  }

  lemma FreedLed(v: Vol, spc: nat, root: nat, dirs: set<nat>, s: seq<nat>)
    requires FsOK(v, spc, root, dirs) && IsChain(v.fat, s) && !(NoPred(v.fat, s[0]) && !Led(v, root, s[0]))
    ensures !CrashSafe(Freed(v, s), spc, root)
  {
    hide FsOK, Cleared, Records, Log, Cluster, Live, FatSafe, ReachPath;
    FsParts(v, spc, root, dirs);
    if CrashSafe(Freed(v, s), spc, root) {
      var v' := Freed(v, s);
      var dirs' :| FsOK(v', spc, root, dirs');
      FsParts(v', spc, root, dirs');
      NoChainOnFree(v'.fat, s[0]);
      if !NoPred(v.fat, s[0]) {
        FreedDangles(v.fat, s);
      } else if s[0] != root {
        var path, ixs, i :| LeadsTo(v, root, path, ixs, i, s[0]);
        FreedPath(v, spc, root, dirs, s, path, ixs, i);
      }
      assert false;
    }
  }

  lemma {:induction false} FreedPath(v: Vol, spc: nat, root: nat, dirs: set<nat>, s: seq<nat>, path: seq<nat>, ixs: seq<nat>, i: nat)
    requires FsOK(v, spc, root, dirs) && IsChain(v.fat, s) && NoPred(v.fat, s[0]) && s[0] != root
    requires LeadsTo(v, root, path, ixs, i, s[0])
    ensures !CrashSafe(Freed(v, s), spc, root)
    decreases |path|
  {
    hide FsOK, Cleared, Records, Log, Cluster, Live, IsDir, FatSafe, HasChain;
    if s[0] in path {
      var k :| 0 <= k < |path| && path[k] == s[0];
      assert k > 0;
      FreedPath(v, spc, root, dirs, s, path[..k], ixs[..k - 1], ixs[k - 1]);
    } else if CrashSafe(Freed(v, s), spc, root) {
      FreedKeepsPath(v, spc, root, dirs, s, path, ixs);
      ReachableEntries(Freed(v, s), spc, root, path, ixs, i);
      NoChainOnFree(Freed(v, s).fat, s[0]);
      assert false;
    }
  }

  lemma FreedKeepsPath(v: Vol, spc: nat, root: nat, dirs: set<nat>, s: seq<nat>, path: seq<nat>, ixs: seq<nat>)
    requires FsOK(v, spc, root, dirs) && IsChain(v.fat, s) && NoPred(v.fat, s[0])
    requires ReachPath(v, root, path, ixs) && s[0] !in path
    ensures ReachPath(Freed(v, s), root, path, ixs)
    ensures Records(Freed(v, s), path[|path| - 1]) == Records(v, path[|path| - 1])
  {
    hide FsOK, Cleared, Records, Log, Cluster, Live, IsDir, FatSafe, HasChain, TailFree, Logs, NoPred, IsChain;
    forall k | 0 <= k < |path|
      ensures HasChain(Freed(v, s).fat, path[k]) && Records(Freed(v, s), path[k]) == Records(v, path[k])
    {
      assert path[..k + 1][k] == path[k];
      ReachableInDirs(v, spc, root, dirs, path[..k + 1], ixs[..k]);
      FsFacts(v, spc, root, dirs, path[k]);
      FreedKeeps(v, spc, s, path[k]);
    }
  }

  /** Entry 0 is no part of any chain. */
  lemma ClearLowFs(v: Vol, spc: nat, root: nat, dirs: set<nat>)
    requires FsOK(v, spc, root, dirs)
    ensures FsOK(SetFat(v, 0, 0), spc, root, dirs) && Logs(SetFat(v, 0, 0), dirs) == Logs(v, dirs)
  {
    hide Records, Log, TailFree, Flat, TreeOK, Cluster;
    var v' := SetFat(v, 0, 0);
    ClearLowSafe(v.fat);
    forall h | Known(Logs(v, dirs), h)
      ensures IsHead(v'.fat, h) && Records(v', h) == Records(v, h)
    {
      ChainKept(v, v', spc, ChainOf(v.fat, h));
    }
    assert forall d :: d in dirs ==> Known(Logs(v, dirs), d);
    SameLogs(v, v', spc, root, dirs);
  }

  lemma ClearLowSafe(fat: seq<nat>)
    requires FatSafe(fat)
    ensures FatSafe(fat[0 := 0])
  {
    var fat' := fat[0 := 0];
    assert forall a :: Link(fat', a) <==> Link(fat, a);
    var rank :| Ranked(fat, rank);
    assert Ranked(fat', rank);
  }

  /** Two volumes with the same FAT whose directories have the same live entries lead to the same
      chains. */
  lemma SameLed(v: Vol, w: Vol, spc: nat, root: nat, dirs: set<nat>, c: nat)
    requires FsOK(v, spc, root, dirs) && FsOK(w, spc, root, dirs) && w.fat == v.fat && Led(v, root, c)
    requires forall d, i :: LiveAt(Logs(v, dirs), d, i) ==> LiveAt(Logs(w, dirs), d, i) && Logs(w, dirs)[d][i] == Logs(v, dirs)[d][i]
    ensures Led(w, root, c)
  {
    hide FsOK, Records, Log, Cluster, Live, IsDir, HasChain;
    if c != root {
      FsParts(v, spc, root, dirs);
      FsParts(w, spc, root, dirs);
      var path, ixs, i: nat :| LeadsTo(v, root, path, ixs, i, c);
      SamePath(v, w, spc, root, dirs, path, ixs);
      ReachableInDirs(v, spc, root, dirs, path, ixs);
      assert LiveAt(Logs(v, dirs), path[|path| - 1], i);
      assert LeadsTo(w, root, path, ixs, i, c);
    }
  }

  lemma SamePath(v: Vol, w: Vol, spc: nat, root: nat, dirs: set<nat>, path: seq<nat>, ixs: seq<nat>)
    requires FsOK(v, spc, root, dirs) && FsOK(w, spc, root, dirs) && w.fat == v.fat && ReachPath(v, root, path, ixs)
    requires forall d, i :: LiveAt(Logs(v, dirs), d, i) ==> LiveAt(Logs(w, dirs), d, i) && Logs(w, dirs)[d][i] == Logs(v, dirs)[d][i]
    ensures ReachPath(w, root, path, ixs)
  {
    hide FsOK, Records, Log, Cluster, Live, IsDir, HasChain;
    FsParts(v, spc, root, dirs);
    FsParts(w, spc, root, dirs);
    forall k | 0 <= k < |ixs|
      ensures ixs[k] < |Log(Records(w, path[k]))| && Log(Records(w, path[k]))[ixs[k]] == Log(Records(v, path[k]))[ixs[k]]
    {
      assert path[..k + 1][k] == path[k];
      ReachableInDirs(v, spc, root, dirs, path[..k + 1], ixs[..k]);
      assert LiveAt(Logs(v, dirs), path[k], ixs[k]);
    }
  }

  /** Writing a sector of an orphan chain. */
  lemma WriteOrphanFs(v: Vol, spc: nat, root: nat, dirs: set<nat>, s: seq<nat>, j: nat, t: nat, sec: Sector)
    requires FsOK(v, spc, root, dirs) && IsChain(v.fat, s) && Orphan(v, dirs, s[0]) && j < |s| && t < spc
    ensures FsOK(PutSector(v, s[j], t, sec), spc, root, dirs)
    ensures Logs(PutSector(v, s[j], t, sec), dirs) == Logs(v, dirs)
  {
    hide Records, Log, TailFree, Flat;
    var v' := PutSector(v, s[j], t, sec);
    forall d | d in dirs ensures Records(v', d) == Records(v, d) {
      assert Known(Logs(v, dirs), d);
      var r := ChainOf(v.fat, d);
      forall i | 0 <= i < |r| ensures r[i] != s[j] { HeadsDisjoint(v.fat, r, s, i, j); }
      ChainKept(v, v', spc, r);
    }
    SameLogs(v, v', spc, root, dirs);
  }

  // ----- Steps that change one record

  /** Record `n` of a directory is record `k` of sector `t` of its `j`-th cluster. */
  predicate Slot(spc: nat, j: nat, t: nat, k: nat, n: nat) {
    t < spc && k < 16 && n == Position(spc, j, t, k)
  }

  function Position(spc: nat, j: nat, t: nat, k: nat): nat { 16 * SectorNo(spc, j, t) + k }

  /** Sector `t` of the `j`-th cluster of the chain of `d` is replaced by one that differs in
      record `k` alone: exactly that record of `d` changes, and no record of any other chain. */
  lemma DirPut(v: Vol, spc: nat, d: nat, j: nat, t: nat, k: nat, n: nat, sec: Sector)
    requires Shape(v, spc) && FatSafe(v.fat) && IsHead(v.fat, d)
    requires j < |ChainOf(v.fat, d)| && Slot(spc, j, t, k, n)
    requires forall b :: 0 <= b < 512 && !(32 * k <= b < 32 * k + 32) ==>
               sec[b] == v.data[ChainOf(v.fat, d)[j]][t][b]
    ensures n < |Records(v, d)|
    ensures RecIn(v.data[ChainOf(v.fat, d)[j]][t], k) == Records(v, d)[n]
    ensures Shape(PutSector(v, ChainOf(v.fat, d)[j], t, sec), spc)
    ensures Records(PutSector(v, ChainOf(v.fat, d)[j], t, sec), d)
         == Records(v, d)[n := RecIn(sec, k)]
    ensures forall h :: IsHead(v.fat, h) && h != d ==>
              Records(PutSector(v, ChainOf(v.fat, d)[j], t, sec), h) == Records(v, h)
  {
    var s := ChainOf(v.fat, d);
    var v' := PutSector(v, s[j], t, sec);
    forall a, b | 0 <= a < b < |s| ensures s[a] != s[b] { ChainDistinct(v.fat, s, a, b); }
    FlatPut(v, spc, s, j, t, sec);
    FlatAt(v, spc, s, j, t);
    RecordsPut(Flat(v, s), SectorNo(spc, j, t), sec, k);
    forall h | IsHead(v.fat, h) && h != d ensures Records(v', h) == Records(v, h) {
      var r := ChainOf(v.fat, h);
      forall i | 0 <= i < |r| ensures r[i] != s[j] { HeadsDisjoint(v.fat, r, s, i, j); }
      ChainKept(v, v', spc, r);
    }
  }

  function NewDirs(rec: Rec): set<nat> {
    if Live(rec) && IsDir(rec) then {Cluster(rec)} else {}
  }

  /** Chain `e` may become the target of a new live entry of directory `d`. */
  ghost predicate Attachable(v: Vol, dirs: set<nat>, root: nat, d: nat, e: nat, isDir: bool) {
    && DirsOK(v, dirs)
    && IsHead(v.fat, e) && !IsTarget(Logs(v, dirs), e)
    && e != root && e != d && (isDir <==> e in dirs)
  }

  lemma TreeAppend(t: Tree, root: nat, d: nat, rec: Rec)
    requires TreeOK(t, root) && d in t && rec[0] != 0
    requires Live(rec) ==> !IsTarget(t, Cluster(rec)) && Cluster(rec) != root && Cluster(rec) != d
    requires Live(rec) ==> (IsDir(rec) <==> Cluster(rec) in t)
    ensures TreeOK(t[d := t[d] + [rec]], root)
    ensures forall h :: Known(t[d := t[d] + [rec]], h) ==> Known(t, h) || (Live(rec) && h == Cluster(rec))
  {
    var t' := t[d := t[d] + [rec]];
    forall e, i | LiveAt(t', e, i)
      ensures (LiveAt(t, e, i) && t'[e][i] == t[e][i] && IsTarget(t, Cluster(t[e][i])))
           || (e == d && i == |t[d]| && t'[e][i] == rec)
    {
      if i < |t[e]| {
        assert LiveAt(t, e, i);
        assert IsTarget(t, Cluster(t[e][i]));
      }
    }
    forall h | Known(t', h) ensures Known(t, h) || (Live(rec) && h == Cluster(rec)) {
      if h !in t' {
        var e, i :| LiveAt(t', e, i) && Cluster(t'[e][i]) == h;
      }
    }
  }

  /** A blank orphan chain may be counted among the directories. */
  lemma AdoptFs(v: Vol, spc: nat, root: nat, dirs: set<nat>, e: nat)
    requires FsOK(v, spc, root, dirs) && Orphan(v, dirs, e) && Blank(Records(v, e))
    ensures FsOK(v, spc, root, dirs + {e}) && !IsTarget(Logs(v, dirs + {e}), e)
    ensures Logs(v, dirs + {e}) == Logs(v, dirs)[e := []]
  {
    hide Records, Flat, ChainOf, EndIndex;
    var t, t' := Logs(v, dirs), Logs(v, dirs + {e});
    LogIs([], Records(v, e));
    assert [] + Records(v, e) == Records(v, e);
    assert t' == t[e := []];
    forall d: nat, i | LiveAt(t', d, i)
      ensures LiveAt(t, d, i) && t'[d][i] == t[d][i] && IsTarget(t, Cluster(t[d][i]))
    {
      assert LiveAt(t, d, i);
    }
  }

  /** A record is written over the end marker of directory `d`; a live one leads to an attachable
      chain. */
  lemma AppendFs(v: Vol, spc: nat, root: nat, dirs: set<nat>, d: nat, j: nat, t: nat, k: nat, n: nat, sec: Sector)
    requires FsOK(v, spc, root, dirs) && d in dirs
    requires IsHead(v.fat, d) && j < |ChainOf(v.fat, d)| && Slot(spc, j, t, k, n)
    requires n == EndIndex(Records(v, d)) && sec[32 * k] != 0
    requires forall b :: 0 <= b < 512 && !(32 * k <= b < 32 * k + 32) ==>
               sec[b] == v.data[ChainOf(v.fat, d)[j]][t][b]
    requires Live(RecIn(sec, k)) ==> Attachable(v, dirs, root, d, Cluster(RecIn(sec, k)), IsDir(RecIn(sec, k)))
    ensures FsOK(PutSector(v, ChainOf(v.fat, d)[j], t, sec), spc, root, dirs)
    ensures Log(Records(PutSector(v, ChainOf(v.fat, d)[j], t, sec), d)) == Log(Records(v, d)) + [RecIn(sec, k)]
    ensures forall h :: IsHead(v.fat, h) && h != d ==>
              Records(PutSector(v, ChainOf(v.fat, d)[j], t, sec), h) == Records(v, h)
  {
    hide EndIndex, Flat, Position, FsOK, ChainOf, Records;
    FsFacts(v, spc, root, dirs, d);
    DirPut(v, spc, d, j, t, k, n, sec);
    LogAppend(Records(v, d), RecIn(sec, k));
    AppendTree(v, PutSector(v, ChainOf(v.fat, d)[j], t, sec), spc, root, dirs, d, RecIn(sec, k));
  }

  lemma FsFacts(v: Vol, spc: nat, root: nat, dirs: set<nat>, d: nat)
    requires FsOK(v, spc, root, dirs) && d in dirs
    ensures Shape(v, spc) && FatSafe(v.fat) && IsHead(v.fat, d) && TailFree(Records(v, d))
    ensures d in Logs(v, dirs) && Logs(v, dirs)[d] == Log(Records(v, d))
    ensures root in dirs && 2 <= d < |v.fat| < EOC
  {
    assert Known(Logs(v, dirs), d);
    assert ChainOf(v.fat, d)[0] == d;
  }

  lemma LogAppend(recs: seq<Rec>, rec: Rec)
    requires TailFree(recs) && EndIndex(recs) < |recs| && rec[0] != 0
    ensures Log(recs[EndIndex(recs) := rec]) == Log(recs) + [rec] && TailFree(recs[EndIndex(recs) := rec])
  {
    hide EndIndex;
    var n := EndIndex(recs);
    assert recs[n := rec] == (recs[..n] + [rec]) + recs[n + 1..];
    assert recs[n + 1..] == recs[n..][1..];
    LogIs(recs[..n] + [rec], recs[n + 1..]);
  }

  lemma LogReplace(recs: seq<Rec>, i: nat, rec: Rec)
    requires TailFree(recs) && i < EndIndex(recs) && rec[0] != 0
    ensures Log(recs[i := rec]) == Log(recs)[i := rec] && TailFree(recs[i := rec])
  {
    hide EndIndex;
    var n := EndIndex(recs);
    assert recs[i := rec] == recs[..n][i := rec] + recs[n..];
    LogIs(recs[..n][i := rec], recs[n..]);
  }

  /** One more record in the log of `d`, the FAT and all other directories as before. */
  lemma AppendTree(v: Vol, v': Vol, spc: nat, root: nat, dirs: set<nat>, d: nat, rec: Rec)
    requires FsOK(v, spc, root, dirs) && Shape(v', spc) && v'.fat == v.fat && d in dirs && rec[0] != 0
    requires Log(Records(v', d)) == Log(Records(v, d)) + [rec] && TailFree(Records(v', d))
    requires forall h :: IsHead(v.fat, h) && h != d ==> Records(v', h) == Records(v, h)
    requires Live(rec) ==> Attachable(v, dirs, root, d, Cluster(rec), IsDir(rec))
    ensures FsOK(v', spc, root, dirs)
  {
    hide Records, EndIndex, Flat, ChainOf, Log, TailFree;
    assert forall e :: e in dirs ==> Known(Logs(v, dirs), e);
    assert Logs(v', dirs) == Logs(v, dirs)[d := Logs(v, dirs)[d] + [rec]];
    TreeAppend(Logs(v, dirs), root, d, rec);
  }

  lemma TreeRemove(t: Tree, t': Tree, root: nat, d: nat, i: nat, rec: Rec)
    requires TreeOK(t, root) && d in t && i < |t[d]| && rec[0] == 0xE5
    requires t'.Keys == t.Keys - NewDirs(t[d][i])
    requires forall e :: e in t' ==> t'[e] == if e == d then t[d][i := rec] else t[e]
    ensures TreeOK(t', root)
    ensures forall h :: Known(t', h) ==> Known(t, h) && (Live(t[d][i]) ==> h != Cluster(t[d][i]))
  {
    hide Cluster, IsTarget;
    forall e, k | LiveAt(t', e, k)
      ensures LiveAt(t, e, k) && t'[e][k] == t[e][k] && (Live(t[d][i]) ==> Cluster(t[e][k]) != Cluster(t[d][i]))
    {
      StillLive(t, t', root, d, i, rec, e, k);
    }
    forall h | Known(t', h) ensures Known(t, h) && (Live(t[d][i]) ==> h != Cluster(t[d][i])) {
      StillKnown(t, t', root, d, i, rec, h);
    }
  }

  lemma StillLive(t: Tree, t': Tree, root: nat, d: nat, i: nat, rec: Rec, e: nat, k: int)
    requires TreeOK(t, root) && d in t && i < |t[d]| && rec[0] == 0xE5 && LiveAt(t', e, k)
    requires t'.Keys == t.Keys - NewDirs(t[d][i])
    requires forall e :: e in t' ==> t'[e] == if e == d then t[d][i := rec] else t[e]
    ensures LiveAt(t, e, k) && t'[e][k] == t[e][k] && (Live(t[d][i]) ==> Cluster(t[e][k]) != Cluster(t[d][i]))
  {
    hide Cluster;
    assert e in t && k < |t[e]|;
    assert !(e == d && k == i);
    assert LiveAt(t, e, k);
    if Live(t[d][i]) { assert LiveAt(t, d, i); }
  }

  lemma StillKnown(t: Tree, t': Tree, root: nat, d: nat, i: nat, rec: Rec, h: nat)
    requires TreeOK(t, root) && d in t && i < |t[d]| && rec[0] == 0xE5 && Known(t', h)
    requires t'.Keys == t.Keys - NewDirs(t[d][i])
    requires forall e :: e in t' ==> t'[e] == if e == d then t[d][i := rec] else t[e]
    ensures Known(t, h) && (Live(t[d][i]) ==> h != Cluster(t[d][i]))
  {
    hide Cluster;
    if h !in t' {
      var e, k :| LiveAt(t', e, k) && Cluster(t'[e][k]) == h;
      StillLive(t, t', root, d, i, rec, e, k);
    } else if Live(t[d][i]) {
      assert LiveAt(t, d, i);
    }
  }

  /** A record of directory `d` is marked as removed; the chain of a live one becomes an orphan, and an
      orphan stays one. */
  lemma RemoveFs(v: Vol, spc: nat, root: nat, dirs: set<nat>, d: nat, j: nat, t: nat, k: nat, n: nat, sec: Sector)
    requires FsOK(v, spc, root, dirs) && d in dirs
    requires IsHead(v.fat, d) && j < |ChainOf(v.fat, d)| && Slot(spc, j, t, k, n)
    requires n < EndIndex(Records(v, d)) && sec[32 * k] == 0xE5
    requires forall b :: 0 <= b < 512 && !(32 * k <= b < 32 * k + 32) ==>
               sec[b] == v.data[ChainOf(v.fat, d)[j]][t][b]
    ensures var rec := Records(v, d)[n];
            var v' := PutSector(v, ChainOf(v.fat, d)[j], t, sec);
            && FsOK(v', spc, root, dirs - NewDirs(rec))
            && (Live(rec) || Orphan(v, dirs, Cluster(rec)) ==>
                  Orphan(v', dirs - NewDirs(rec), Cluster(rec)) && d != Cluster(rec))
            && Records(v', d) == Records(v, d)[n := RecIn(sec, k)]
            && Log(Records(v', d)) == Log(Records(v, d))[n := RecIn(sec, k)]
    ensures forall h :: IsHead(v.fat, h) && h != d ==>
              Records(PutSector(v, ChainOf(v.fat, d)[j], t, sec), h) == Records(v, h)
  {
    hide EndIndex, Flat, Position, FsOK, ChainOf, Records;
    FsFacts(v, spc, root, dirs, d);
    DirPut(v, spc, d, j, t, k, n, sec);
    LogReplace(Records(v, d), n, RecIn(sec, k));
    RemoveTree(v, PutSector(v, ChainOf(v.fat, d)[j], t, sec), spc, root, dirs, d, n, RecIn(sec, k));
  }

  lemma RemoveTree(v: Vol, v': Vol, spc: nat, root: nat, dirs: set<nat>, d: nat, n: nat, rec: Rec)
    requires FsOK(v, spc, root, dirs) && Shape(v', spc) && v'.fat == v.fat && d in dirs && rec[0] == 0xE5
    requires n < |Log(Records(v, d))|
    requires Log(Records(v', d)) == Log(Records(v, d))[n := rec] && TailFree(Records(v', d))
    requires forall h :: IsHead(v.fat, h) && h != d ==> Records(v', h) == Records(v, h)
    ensures var gone := Log(Records(v, d))[n];
            && FsOK(v', spc, root, dirs - NewDirs(gone))
            && (Live(gone) || Orphan(v, dirs, Cluster(gone)) ==>
                  Orphan(v', dirs - NewDirs(gone), Cluster(gone)) && d != Cluster(gone))
  {
    hide Records, EndIndex, Flat, ChainOf, Log, TailFree, HasChain, NoPred, Cluster;
    var tree := Logs(v, dirs);
    var gone := tree[d][n];
    var dirs' := dirs - NewDirs(gone);
    if Live(gone) {
      assert LiveAt(tree, d, n);
      assert IsTarget(tree, Cluster(gone));
    }
    assert forall e :: e in dirs ==> Known(tree, e);
    TreeRemove(tree, Logs(v', dirs'), root, d, n, rec);
  }
}
