/** The file allocation table as a function from cluster to next cluster: chains, and what
    makes a table safe. */
module FatTable {

  /** Entries from this value on end a chain (kernel/fat32.c, `nextCluster`). */
  const EOC: nat := 0x0FFF_FFF8

  /** The end mark the driver itself writes. */
  const MARK: nat := 0x0FFF_FFFF

  predicate Link(fat: seq<nat>, c: int) {
    2 <= c < |fat| && 2 <= fat[c] < |fat|
  }

  predicate IsChain(fat: seq<nat>, s: seq<nat>) {
    && |s| > 0
    && (forall i :: 0 <= i < |s| ==> 2 <= s[i] < |fat|)
    && (forall i {:trigger fat[s[i]]} :: 0 <= i < |s| - 1 ==> fat[s[i]] == s[i + 1])
    && fat[s[|s| - 1]] >= EOC
  }

  ghost predicate HasChain(fat: seq<nat>, h: nat) {
    exists s :: IsChain(fat, s) && s[0] == h
  }

  predicate NoPred(fat: seq<nat>, h: nat) {
    forall c :: 2 <= c < |fat| ==> fat[c] != h
  }

  /** `h` starts a complete chain and no cluster continues into it. */
  ghost predicate IsHead(fat: seq<nat>, h: nat) {
    HasChain(fat, h) && NoPred(fat, h)
  }

  ghost function ChainOf(fat: seq<nat>, h: nat): (s: seq<nat>)
    requires HasChain(fat, h)
    ensures IsChain(fat, s) && s[0] == h
  {
    var s :| IsChain(fat, s) && s[0] == h;
    s
  }

  ghost predicate UniquePred(fat: seq<nat>) {
    forall a, b :: Link(fat, a) && Link(fat, b) && fat[a] == fat[b] ==> a == b
  }

  ghost predicate NoDangling(fat: seq<nat>) {
    forall a :: Link(fat, a) ==> fat[fat[a]] != 0
  }

  ghost predicate Ranked(fat: seq<nat>, rank: seq<nat>) {
    |rank| == |fat| && forall a :: Link(fat, a) ==> rank[fat[a]] < rank[a]
  }

  ghost predicate Acyclic(fat: seq<nat>) {
    exists rank :: Ranked(fat, rank)
  }

  /** Reserved top bits clear, at most one predecessor per cluster, no link into a free
      cluster, no cycle. */
  ghost predicate FatSafe(fat: seq<nat>) {
    && 2 <= |fat| < EOC
    && (forall c :: 0 <= c < |fat| ==> fat[c] < 0x1000_0000)
    && UniquePred(fat)
    && NoDangling(fat)
    && Acyclic(fat)
  }

  // ----- Chains

  /** A chain is determined by its first cluster. */
  lemma {:induction false} ChainUnique(fat: seq<nat>, s: seq<nat>, t: seq<nat>)
    requires |fat| <= EOC && IsChain(fat, s) && IsChain(fat, t) && s[0] == t[0]
    ensures s == t
  {
    if |s| == 1 || |t| == 1 {
      assert fat[s[0]] == fat[t[0]];
    } else {
      assert fat[s[0]] == s[1] && fat[t[0]] == t[1];
      ChainTail(fat, s);
      ChainTail(fat, t);
      ChainUnique(fat, s[1..], t[1..]);
      assert s == [s[0]] + s[1..] && t == [t[0]] + t[1..];
    }
  }

  lemma ChainTail(fat: seq<nat>, s: seq<nat>)
    requires IsChain(fat, s) && |s| > 1
    ensures IsChain(fat, s[1..])
  {
    var t := s[1..];
    forall i | 0 <= i < |t| - 1 ensures fat[t[i]] == t[i + 1] {
      assert fat[s[i + 1]] == s[i + 2];
    }
  }

  /** No cluster occurs twice in a chain. */
  lemma {:induction false} ChainDistinct(fat: seq<nat>, s: seq<nat>, i: nat, j: nat)
    requires |fat| <= EOC && IsChain(fat, s) && i < j < |s|
    ensures s[i] != s[j]
    decreases |s| - j
  {
    assert fat[s[i]] == s[i + 1];
    if j + 1 < |s| {
      assert fat[s[j]] == s[j + 1];
      ChainDistinct(fat, s, i + 1, j + 1);
    }
  }

  /** Two chains from different heads share no cluster. */
  lemma {:induction false} HeadsDisjoint(fat: seq<nat>, s: seq<nat>, t: seq<nat>, i: nat, j: nat)
    requires UniquePred(fat) && IsChain(fat, s) && IsChain(fat, t)
    requires NoPred(fat, s[0]) && NoPred(fat, t[0]) && s[0] != t[0]
    requires i < |s| && j < |t|
    ensures s[i] != t[j]
  {
    if j > 0 { assert fat[t[j - 1]] == t[j]; }
    if i > 0 { assert fat[s[i - 1]] == s[i]; }
    if i > 0 && j > 0 {
      assert Link(fat, s[i - 1]) && Link(fat, t[j - 1]);
      HeadsDisjoint(fat, s, t, i - 1, j - 1);
    }
  }

  /** Every chain member is allocated; all but the last are links. */
  lemma ChainAllocated(fat: seq<nat>, s: seq<nat>, i: nat)
    requires IsChain(fat, s) && i < |s|
    ensures fat[s[i]] != 0
    ensures i + 1 < |s| ==> fat[s[i]] == s[i + 1] && Link(fat, s[i])
    ensures i + 1 == |s| ==> fat[s[i]] >= EOC
  {
    if i + 1 < |s| {
      assert fat[s[i]] == s[i + 1];
    }
  }

  /** Only the last member of a chain holds an end mark. */
  lemma ChainEnd(fat: seq<nat>, s: seq<nat>, last: nat)
    requires IsChain(fat, s) && |fat| <= EOC && last in s && fat[last] >= EOC
    ensures last == s[|s| - 1]
  {
    var i :| 0 <= i < |s| && s[i] == last;
    ChainAllocated(fat, s, i);
  }

  /** Two tables that agree on the members of a chain share it. */
  lemma ChainFrame(fat: seq<nat>, fat': seq<nat>, s: seq<nat>)
    requires IsChain(fat, s) && |fat| == |fat'| <= EOC
    requires forall i :: 0 <= i < |s| ==> fat'[s[i]] == fat[s[i]]
    ensures IsChain(fat', s) && HasChain(fat', s[0]) && ChainOf(fat', s[0]) == s
  {
    assert IsChain(fat', s);
    ChainUnique(fat', ChainOf(fat', s[0]), s);
  }

  lemma ChainOfIs(fat: seq<nat>, s: seq<nat>)
    requires IsChain(fat, s) && |fat| <= EOC
    ensures HasChain(fat, s[0]) && ChainOf(fat, s[0]) == s
  {
    ChainUnique(fat, ChainOf(fat, s[0]), s);
  }

  // ----- What the rank buys: no cycle, and every allocated cluster starts a finite chain

  predicate IsPath(fat: seq<nat>, p: seq<nat>) {
    && |p| > 0
    && (forall i :: 0 <= i < |p| ==> 2 <= p[i] < |fat|)
    && (forall i {:trigger fat[p[i]]} :: 0 <= i < |p| - 1 ==> fat[p[i]] == p[i + 1])
  }

  lemma {:induction false} PathDescends(fat: seq<nat>, rank: seq<nat>, p: seq<nat>)
    requires Ranked(fat, rank) && IsPath(fat, p) && |p| > 1
    ensures rank[p[|p| - 1]] < rank[p[0]]
  {
    var q := p[..|p| - 1];
    assert fat[p[|p| - 2]] == p[|p| - 1] && Link(fat, p[|p| - 2]);
    if |q| > 1 {
      forall i | 0 <= i < |q| - 1 ensures fat[q[i]] == q[i + 1] {
        assert fat[p[i]] == p[i + 1];
      }
      PathDescends(fat, rank, q);
    }
  }

  /** Following links never returns to the cluster it started from. */
  lemma NoCycle(fat: seq<nat>, p: seq<nat>)
    requires FatSafe(fat) && IsPath(fat, p) && |p| > 1
    ensures p[0] != p[|p| - 1]
  {
    var rank :| Ranked(fat, rank);
    PathDescends(fat, rank, p);
  }

  /** If every allocated entry is a link or an end mark, following links from any allocated
      cluster reaches an end mark: `removeFATChain` and `nextCluster` loops terminate. */
  lemma ChainExists(fat: seq<nat>, c: nat)
    requires FatSafe(fat) && 2 <= c < |fat| && fat[c] != 0
    requires forall a :: 2 <= a < |fat| && fat[a] != 0 ==> Link(fat, a) || fat[a] >= EOC
    ensures HasChain(fat, c)
  {
    var rank :| Ranked(fat, rank);
    ChainExistsByRank(fat, rank, c);
  }

  lemma {:induction false} ChainExistsByRank(fat: seq<nat>, rank: seq<nat>, c: nat)
    requires NoDangling(fat) && Ranked(fat, rank) && 2 <= c < |fat| && fat[c] != 0
    requires forall a :: 2 <= a < |fat| && fat[a] != 0 ==> Link(fat, a) || fat[a] >= EOC
    ensures HasChain(fat, c)
    decreases rank[c]
  {
    if fat[c] >= EOC && !Link(fat, c) {
      assert IsChain(fat, [c]);
    } else {
      assert Link(fat, c);
      ChainExistsByRank(fat, rank, fat[c]);
      var t := ChainOf(fat, fat[c]);
      var s := [c] + t;
      forall i | 0 <= i < |s| - 1 ensures fat[s[i]] == s[i + 1] {
        if i > 0 { assert fat[t[i - 1]] == t[i]; }
      }
      assert IsChain(fat, s);
    }
  }

  // ----- The four ways the driver changes an entry keep the table safe

  /** A free cluster becomes a one-cluster chain. */
  lemma MarkSafe(fat: seq<nat>, c: nat)
    requires FatSafe(fat) && 2 <= c < |fat| && fat[c] == 0
    ensures FatSafe(fat[c := MARK])
  {
    var fat' := fat[c := MARK];
    assert forall a :: Link(fat', a) ==> Link(fat, a) && fat'[a] == fat[a];
    var rank :| Ranked(fat, rank);
    assert Ranked(fat', rank);
  }

  function Lifted(rank: seq<nat>, c: nat): seq<nat> {
    seq(|rank|, i requires 0 <= i < |rank| => if i == c then 0 else rank[i] + 1)
  }

  /** A free cluster is marked and the end of a chain is pointed at it. */
  lemma LinkSafe(fat: seq<nat>, last: nat, c: nat)
    requires FatSafe(fat) && 2 <= c < |fat| && fat[c] == 0
    requires 2 <= last < |fat| && fat[last] >= EOC
    ensures FatSafe(fat[c := MARK][last := c])
  {
    var fat' := fat[c := MARK][last := c];
    LinkedLinks(fat, last, c);
    assert UniquePred(fat') && NoDangling(fat');
    var rank :| Ranked(fat, rank);
    assert Ranked(fat', Lifted(rank, c));
  }

  /** The links of the table after the end `last` is pointed at the free cluster `c`. */
  lemma LinkedLinks(fat: seq<nat>, last: nat, c: nat)
    requires |fat| < EOC && NoDangling(fat) && 2 <= c < |fat| && fat[c] == 0
    requires 2 <= last < |fat| && fat[last] >= EOC
    ensures var fat' := fat[c := MARK][last := c];
            && (forall a :: Link(fat', a) ==> a == last || (a != c && Link(fat, a) && fat'[a] == fat[a]))
            && Link(fat', last) && fat'[last] == c && fat'[c] == MARK
            && (forall a :: Link(fat, a) ==> fat[a] != c)
  {}

  /** A cluster nobody points at is freed. */
  lemma FreeSafe(fat: seq<nat>, h: nat)
    requires FatSafe(fat) && 2 <= h < |fat| && NoPred(fat, h)
    ensures FatSafe(fat[h := 0])
  {
    var fat' := fat[h := 0];
    assert forall a :: Link(fat', a) ==> Link(fat, a) && fat'[a] == fat[a];
    var rank :| Ranked(fat, rank);
    assert Ranked(fat', rank);
  }

  // ----- Freeing a whole chain

  function Cleared(fat: seq<nat>, s: seq<nat>): (r: seq<nat>)
    ensures |r| == |fat|
    ensures forall c :: 0 <= c < |fat| ==> r[c] == if c in s then 0 else fat[c]
  {
    seq(|fat|, c requires 0 <= c < |fat| => if c in s then 0 else fat[c])
  }

  // ----- What removeFATChain visits

  /** `p` lists the clusters that `removeFATChain` visits from `p[0]` on: it clears each entry and goes
      on to the cluster that the entry held, until it has read an end mark. It takes any entry below the
      end marks for a cluster number, 0 included. */
  predicate FreeRun(fat: seq<nat>, p: seq<nat>)
    decreases |p|
  {
    && |p| > 0 && p[0] < |fat|
    && if |p| == 1 then fat[p[0]] >= EOC
       else fat[p[0]] == p[1] < EOC && FreeRun(fat[p[0] := 0], p[1..])
  }

  /** `removeFATChain` from cluster `c` comes to an end inside the table. */
  ghost predicate FreeEnds(fat: seq<nat>, c: nat) {
    exists p :: FreeRun(fat, p) && p[0] == c
  }

  /** On a chain it visits exactly the chain, although it destroys the links as it goes. */
  lemma {:induction false} ChainRun(fat: seq<nat>, s: seq<nat>)
    requires IsChain(fat, s) && |fat| <= EOC
    ensures FreeRun(fat, s)
    decreases |s|
  {
    ChainAllocated(fat, s, 0);
    if |s| > 1 {
      var r, fat' := s[1..], fat[s[0] := 0];
      ChainTail(fat, s);
      forall i | 0 <= i < |r| ensures r[i] != s[0] { ChainDistinct(fat, s, 0, i + 1); }
      ChainFrame(fat, fat', r);
      ChainRun(fat', r);
    }
  }

  /** What it visits is determined by where it starts. */
  lemma {:induction false} RunUnique(fat: seq<nat>, p: seq<nat>, q: seq<nat>)
    requires FreeRun(fat, p) && FreeRun(fat, q) && p[0] == q[0]
    ensures p == q
    decreases |p|
  {
    if |p| > 1 && |q| > 1 {
      RunUnique(fat[p[0] := 0], p[1..], q[1..]);
      assert p == [p[0]] + p[1..] && q == [q[0]] + q[1..];
    }
  }

  /** On a free cluster it ends exactly if it does from cluster 0, and clears that. */
  lemma FreeClusterEnds(fat: seq<nat>, c: nat)
    requires c < |fat| && fat[c] == 0
    ensures FreeEnds(fat, c) <==> FreeEnds(fat, 0)
    ensures fat[0] >= EOC ==> FreeRun(fat, [c, 0])
    ensures fat[0] == 0 ==> !FreeEnds(fat, c)
  {
    assert fat[c := 0] == fat;
    if FreeEnds(fat, c) {
      var p :| FreeRun(fat, p) && p[0] == c;
      assert p[1..][0] == 0;
      if fat[0] == 0 { NeverEnds(fat, p[1..]); assert false; }
    }
    if FreeEnds(fat, 0) {
      var q :| FreeRun(fat, q) && q[0] == 0;
      assert ([c] + q)[1..] == q;
      assert FreeRun(fat, [c] + q);
    }
    if fat[0] >= EOC {
      assert [c, 0][1..] == [0];
      assert FreeRun(fat, [0]);
    }
  }

  /** Once entry 0 is 0 it goes from cluster 0 to cluster 0 for ever. */
  lemma {:induction false} NeverEnds(fat: seq<nat>, p: seq<nat>)
    requires |fat| > 0 && fat[0] == 0 && |p| > 0 && p[0] == 0
    ensures !FreeRun(fat, p)
    decreases |p|
  {
    if FreeRun(fat, p) {
      assert fat[0 := 0] == fat;
      NeverEnds(fat, p[1..]);
      assert false;
    }
  }

  lemma {:induction false} RunInTable(fat: seq<nat>, p: seq<nat>, i: nat)
    requires FreeRun(fat, p) && i < |p|
    ensures p[i] < |fat|
    decreases |p|
  {
    if i > 0 { RunInTable(fat[p[0] := 0], p[1..], i - 1); }
  }
}
