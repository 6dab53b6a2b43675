/** kernel/virtual_memory.c: `get_page`, `map_page` and `init_virtual_memory` on page tables changed in
    place. */
module VirtualMemory {
  import opened Bytes
  import opened Paging

  const MEM_SIZE: nat := 0x40_0000
  const FRAMES: nat := 1024
  const KERNEL_START: nat := 0x4_0000
  const IO_START: nat := 0xA_0000
  const IO_END: nat := 0x10_0000

  const PO_FREE: int := 0
  const PO_RESERVED: int := -1
  const PO_KERNEL: int := -2

  datatype Frame = Frame(owner: int, refcount: int)

  /** Fresh page-aligned tables, as an allocator may hand them out. */
  ghost predicate PoolOK(t: Tables, pool: seq<nat>) {
    && (forall i :: 0 <= i < |pool| ==> pool[i] % PAGE == 0 && pool[i] < ADDRESSES && pool[i] !in t)
    && (forall i, j :: 0 <= i < j < |pool| ==> pool[i] != pool[j])
  }

  /** Every page translates as before. */
  ghost predicate SameWalks(t: Tables, t': Tables, root: nat) {
    forall v :: 0 <= v < PAGES ==> Walk(t', 4, root, v) == Walk(t, 4, root, v)
  }

  /** What the processor makes of a last entry. */
  function LeafOf(e: nat): Option<Leaf> {
    if Present(e) then Some(Leaf(e, UserOK(e), Writable(e))) else None
  }

  class PageTables {
    const root: nat                     // the PML4
    var tables: Tables
    var pool: seq<nat>                  // what the allocator will return, then NULL; empty for no allocator
    ghost var lv: map<nat, nat>

    ghost predicate Valid()
      reads this
    {
      TreeOK(tables, lv, root) && PoolOK(tables, pool)
    }

    /** One level of `get_page`: the next table, allocated if it is missing. */
    method NextTable(x: nat, level: nat, addr: nat) returns (next: Option<nat>)
      requires Valid() && 2 <= level <= 4 && Visit(tables, root, PageNo(addr), level) == Some(x)
      modifies this`tables, this`pool, this`lv
      ensures Valid() && SameWalks(old(tables), tables, root)
      ensures next.Some? ==> Visit(tables, root, PageNo(addr), level - 1) == next
      ensures next.None? ==> old(pool) == []
      ensures old(pool) == [] ==> pool == [] && tables == old(tables) && lv == old(lv)
      ensures Visit(old(tables), root, PageNo(addr), level - 1).Some? ==>
                tables == old(tables) && lv == old(lv) && pool == old(pool) && next.Some?
      ensures Visit(old(tables), root, PageNo(addr), level - 1).None? && old(pool) == [] ==> next.None?
      ensures Visit(old(tables), root, PageNo(addr), level - 1).None? && next.Some? ==>
                |pool| == |old(pool)| - 1 && NewLevel(old(tables), tables, root, PageNo(addr), level)
    {
      hide Walk, Index, AddrOf, PageNo, Present, TreeOK, PoolOK, Linked, NewLevel, Rights;
      VisitLevel(tables, lv, root, PageNo(addr), level);
      TableShape(tables, lv, root, x);
      var i := AddrIndex(level, addr);
      var e := tables[x][i];
      VisitNext(tables, root, PageNo(addr), level, x);
      if Present(e) {
        return Some(AddrOf(e));
      }
      if pool == [] {
        return None;
      }
      var added := pool[0];
      LinkStep(tables, lv, root, pool, x, level, i, PageNo(addr));
      PoolHead(tables, pool);
      NewLevelLinked(tables, lv, root, x, level, added, PageNo(addr));
      pool := pool[1..];
      tables := Linked(tables, x, i, added);
      lv := lv[added := level - 1];
      next := Some(added);
    }

    /** The page table that holds the entry for `addr`. A call that fails part-way has changed no
        translation. */
    method GetPage(addr: nat) returns (pt: Option<nat>)
      requires Valid()
      modifies this`tables, this`pool, this`lv
      ensures Valid() && SameWalks(old(tables), tables, root)
      ensures pt.Some? ==> Visit(tables, root, PageNo(addr), 1) == pt
      ensures pt.Some? <==> |old(pool)| >= Deepest(old(tables), root, PageNo(addr)) - 1
      ensures pt.Some? ==> Rights(tables, root, PageNo(addr), 1) == PathRights(old(tables), root, PageNo(addr))
      ensures old(pool) == [] ==> pool == [] && tables == old(tables) && lv == old(lv)
      ensures Visit(old(tables), root, PageNo(addr), 1).Some? ==> pt.Some? && tables == old(tables)
    {
      hide Walk, Index, Present, AddrOf, PageNo, TreeOK, PoolOK, Visit, Rights;
      VisitAbove(tables, root, PageNo(addr));
      var pdpt := NextTable(root, 4, addr);
      if pdpt.None? { return None; }
      var pd := NextTable(pdpt.value, 3, addr);
      if pd.None? { return None; }
      pt := NextTable(pd.value, 2, addr);
    }

    /** False stands for the failed assertion in `map_page`: the allocator ran out. The page then
        translates to `phys`, with the given flags exactly if `FlagsReach` held before the call. */
    method MapPage(virt: nat, phys: nat, flags: nat) returns (ok: bool)
      requires Valid() && flags < PAGE
      modifies this`tables, this`pool, this`lv
      ensures Valid()
      ensures ok <==> |old(pool)| >= Deepest(old(tables), root, PageNo(virt)) - 1
      ensures ok ==>
                var w, leaf := Walk(tables, 4, root, PageNo(virt)), LeafOf(MakeEntry(phys, flags));
                && w == Restrict(PathRights(old(tables), root, PageNo(virt)), leaf)
                && (w == leaf <==> FlagsReach(old(tables), root, PageNo(virt), flags))
      ensures forall v :: 0 <= v < PAGES && (v != PageNo(virt) || !ok) ==> Walk(tables, 4, root, v) == Walk(old(tables), 4, root, v)
      ensures old(pool) == [] ==>
                && pool == [] && (ok <==> Visit(old(tables), root, PageNo(virt), 1).Some?)
                && SamePaths(old(tables), tables, root)
    {
      hide Walk, Index, Present, AddrOf, PageNo, TreeOK, PoolOK, UserOK, Writable, Rights, Visit, PathRights, Deepest,
        FlagsReach, MakeEntry, Restrict;
      GivenFlags(tables, root, PageNo(virt), phys, flags);
      var v := PageNo(virt);
      var pt := GetPage(virt);
      ok := pt.Some?;
      if ok {
        VisitLevel(tables, lv, root, v, 1);
        TableShape(tables, lv, root, pt.value);
        ghost var t := tables;
        var e := MakeEntry(phys, flags);
        tables := WithEntry(tables, pt.value, AddrIndex(1, virt), e);
        SetEntryTree(t, lv, root, pt.value, Index(1, v), e);
        SetEntryHere(t, lv, root, pt.value, v, e);
        SetEntryVisit(t, lv, root, pt.value, Index(1, v), e, v, 1);
        forall w | 0 <= w < PAGES
          ensures w != v ==> Walk(tables, 4, root, w) == Walk(t, 4, root, w)
          ensures Visit(tables, root, w, 1) == Visit(t, root, w, 1) && Rights(tables, root, w, 1) == Rights(t, root, w, 1)
        {
          if w != v { SetEntryOther(t, lv, root, pt.value, v, e, w); }
          SetEntryVisit(t, lv, root, pt.value, Index(1, v), e, w, 1);
        }
        PoolKept(t, pool, pt.value, Index(1, v), e);
      }
    }

    /** `init_virtual_memory`: `base` is the address of `kernel_pagetables`. */
    constructor Init(base: nat)
      requires base % PAGE == 0 && base + 5 * PAGE <= MEM_SIZE
      ensures Valid() && pool == [] && Identity(tables, root, {})
    {
      hide Walk, Index, Visit, Rights, AddrOf, Present, PageNo, MakeEntry;
      root := base;
      tables := BootTables(base);
      pool := [];
      lv := BootLevels(base);
      new;
      BootTree(base);
      forall v | 0 <= v < PAGES
        ensures Visit(tables, root, v, 1).Some? == (v < FRAMES) && Walk(tables, 4, root, v).None?
        ensures v < FRAMES ==> Rights(tables, root, v, 1) == (true, true)
      {
        BootPaths(base, v);
      }
      ghost var t0 := tables;
      for i := 0 to FRAMES
        invariant Valid() && pool == [] && root == base && SamePaths(t0, tables, root)
        invariant forall v :: 0 <= v < PAGES ==>
                    Walk(tables, 4, root, v) == if v < i then LeafOf(MakeEntry(v * PAGE, PTE_P + PTE_W)) else None
      {
        PageAt(i);
        var ok := MapPage(i * PAGE, i * PAGE, PTE_P + PTE_W);
        RestrictAll(LeafOf(MakeEntry(i * PAGE, PTE_P + PTE_W)));
      }
      PageAt(0);
      var ok := MapPage(0, 0, PTE_P);
      RestrictAll(LeafOf(MakeEntry(0, PTE_P)));
      forall v | 0 <= v < PAGES ensures Walk(tables, 4, root, v) == Expected(v, {}) {
        ExpectedIs(v, {});
      }
    }
  }

  // ----- The identity map

  /** Page 0 is read-only; the pages in `users` are open to user mode; nothing lies above the memory. */
  function FlagsOf(v: nat, users: set<nat>): (f: nat)
    ensures f < PAGE
  {
    PTE_P + (if v == 0 then 0 else PTE_W) + (if v in users then PTE_U else 0)
  }

  function Expected(v: nat, users: set<nat>): Option<Leaf> {
    if v < FRAMES then Some(Leaf(MakeEntry(v * PAGE, FlagsOf(v, users)), v in users, v != 0)) else None
  }

  ghost predicate Identity(t: Tables, root: nat, users: set<nat>) {
    && (forall v :: 0 <= v < PAGES ==> Walk(t, 4, root, v) == Expected(v, users))
    && (forall v :: 0 <= v < PAGES ==> Visit(t, root, v, 1).Some? == (v < FRAMES))
    && (forall v :: 0 <= v < FRAMES ==> Rights(t, root, v, 1) == (true, true))
  }

  lemma ExpectedIs(v: nat, users: set<nat>)
    ensures v < FRAMES ==> LeafOf(MakeEntry(v * PAGE, FlagsOf(v, users))) == Expected(v, users)
    ensures FlagsOf(0, {}) == PTE_P && (v != 0 ==> FlagsOf(v, {}) == PTE_P + PTE_W)
    ensures v != 0 && v in users ==> FlagsOf(v, users) == PTE_P + PTE_W + PTE_U
  {
    hide MakeEntry;
  }

  lemma PageAt(v: nat)
    requires v < PAGES
    ensures PageNo(v * PAGE) == v
  {}

  lemma RestrictAll(w: Option<Leaf>)
    ensures Restrict((true, true), w) == w
  {}

  // ----- The five static tables

  function Zeros512(): (z: seq<nat>)
    ensures |z| == 512 && forall i :: 0 <= i < 512 ==> z[i] == 0
  {
    seq(512, _ => 0)
  }

  function TableWith(i: nat, e: nat): (z: seq<nat>)
    requires i < 512
    ensures |z| == 512 && forall j :: 0 <= j < 512 ==> z[j] == if j == i then e else 0
  {
    Zeros512()[i := e]
  }

  function TableEntry(base: nat, k: nat): nat { MakeEntry(base + k * PAGE, PTE_P + PTE_W + PTE_U) }

  function BootTables(base: nat): Tables {
    map[base := TableWith(0, TableEntry(base, 1)),
        base + PAGE := TableWith(0, TableEntry(base, 2)),
        base + 2 * PAGE := TableWith(0, TableEntry(base, 3))[1 := TableEntry(base, 4)],
        base + 3 * PAGE := Zeros512(),
        base + 4 * PAGE := Zeros512()]
  }

  function BootLevels(base: nat): map<nat, nat> {
    map[base := 4, base + PAGE := 3, base + 2 * PAGE := 2, base + 3 * PAGE := 1, base + 4 * PAGE := 1]
  }

  lemma TableEntryIs(base: nat, k: nat)
    requires base % PAGE == 0
    ensures var e := TableEntry(base, k);
            Present(e) && AddrOf(e) == base + k * PAGE && UserOK(e) && Writable(e) && !Present(0)
  {}

  /** The four links between the static tables. */
  lemma BootLink(base: nat, x: nat, i: nat)
    requires base % PAGE == 0 && Links(BootTables(base), BootLevels(base), x, i)
    ensures var a := AddrOf(EntryAt(BootTables(base), x, i));
            || (x == base && i == 0 && a == base + PAGE)
            || (x == base + PAGE && i == 0 && a == base + 2 * PAGE)
            || (x == base + 2 * PAGE && i == 0 && a == base + 3 * PAGE)
            || (x == base + 2 * PAGE && i == 1 && a == base + 4 * PAGE)
  {
    hide MakeEntry, AddrOf, Present, TableEntry;
    TableEntryIs(base, 1);
    TableEntryIs(base, 2);
    TableEntryIs(base, 3);
    TableEntryIs(base, 4);
  }

  lemma BootTree(base: nat)
    requires base % PAGE == 0 && base + 5 * PAGE <= MEM_SIZE
    ensures TreeOK(BootTables(base), BootLevels(base), base) && PoolOK(BootTables(base), [])
  {
    hide AddrOf, EntryAt, Links, BootTables, BootLevels, LinkBits;
    var t, lv := BootTables(base), BootLevels(base);
    BootShape(base);
    forall x, i | Links(t, lv, x, i)
      ensures AddrOf(EntryAt(t, x, i)) in t && lv[AddrOf(EntryAt(t, x, i))] + 1 == lv[x] && LinkBits(EntryAt(t, x, i))
    {
      BootLinkDown(base, x, i);
      BootLinkBits(base, x, i);
    }
    forall x, i, y, j | Links(t, lv, x, i) && Links(t, lv, y, j) && AddrOf(EntryAt(t, x, i)) == AddrOf(EntryAt(t, y, j))
      ensures x == y && i == j
    {
      BootLinkUnique(base, x, i, y, j);
    }
  }

  lemma BootLinkBits(base: nat, x: nat, i: nat)
    requires base % PAGE == 0 && base + 5 * PAGE <= MEM_SIZE && Links(BootTables(base), BootLevels(base), x, i)
    ensures LinkBits(EntryAt(BootTables(base), x, i))
  {
    hide AddrOf, Present, LinkBits, TableEntry;
    TableEntryBits(base, 1);
    TableEntryBits(base, 2);
    TableEntryBits(base, 3);
    TableEntryBits(base, 4);
    TableEntryIs(base, 1);
  }

  lemma TableEntryBits(base: nat, k: nat)
    requires base % PAGE == 0 && base + 5 * PAGE <= MEM_SIZE && k < 5
    ensures LinkBits(TableEntry(base, k))
  {
    LinkBitsOf((base + k * PAGE) / PAGE, PTE_P + PTE_W + PTE_U);
  }

  lemma BootShape(base: nat)
    requires base % PAGE == 0
    ensures var t, lv := BootTables(base), BootLevels(base);
            && t.Keys == lv.Keys && base in t && lv[base] == 4
            && (forall x :: x in t ==> |t[x]| == 512 && 1 <= lv[x] <= 4 && x % PAGE == 0)
            && (forall x, i :: Links(t, lv, x, i) ==> x in t && x in lv)
  {
    hide TableEntry, TableWith, EntryAt;
  }

  lemma BootLinkDown(base: nat, x: nat, i: nat)
    requires base % PAGE == 0 && Links(BootTables(base), BootLevels(base), x, i)
    ensures var t, lv, a := BootTables(base), BootLevels(base), AddrOf(EntryAt(BootTables(base), x, i));
            x in lv && a in t && a in lv && lv[a] + 1 == lv[x]
  {
    hide AddrOf, EntryAt, TableEntry, TableWith;
    BootLink(base, x, i);
  }

  lemma BootLinkUnique(base: nat, x: nat, i: nat, y: nat, j: nat)
    requires base % PAGE == 0
    requires Links(BootTables(base), BootLevels(base), x, i) && Links(BootTables(base), BootLevels(base), y, j)
    requires AddrOf(EntryAt(BootTables(base), x, i)) == AddrOf(EntryAt(BootTables(base), y, j))
    ensures x == y && i == j
  {
    hide AddrOf, EntryAt, Links, BootTables, BootLevels;
    BootLink(base, x, i);
    BootLink(base, y, j);
  }

  lemma BootPaths(base: nat, v: nat)
    requires base % PAGE == 0 && v < PAGES
    ensures var t := BootTables(base);
            && Visit(t, base, v, 1).Some? == (v < FRAMES)
            && (v < FRAMES ==> Rights(t, base, v, 1) == (true, true))
            && Walk(t, 4, base, v).None?
  {
    hide MakeEntry, AddrOf, Present, UserOK, Writable, TableEntry, Index, Walk;
    var t := BootTables(base);
    TableEntryIs(base, 1);
    TableEntryIs(base, 2);
    TableEntryIs(base, 3);
    TableEntryIs(base, 4);
    LowIndices(v);
    VisitSteps(t, base, v);
    WalkSplit(t, base, v, 1);
    if v < FRAMES {
      WalkZero(t, 1, Visit(t, base, v, 1).value, v);
    }
  }

  lemma LowIndices(v: nat)
    requires v < PAGES
    ensures v < FRAMES <==> Index(4, v) == 0 && Index(3, v) == 0 && Index(2, v) < 2
  {
    Digits(v);
  }

  /** `Visit` and `Rights` unfolded over the three upper levels. */
  lemma VisitSteps(t: Tables, root: nat, v: nat)
    ensures var e4 := EntryAt(t, root, Index(4, v));
            var e3 := EntryAt(t, AddrOf(e4), Index(3, v));
            var e2 := EntryAt(t, AddrOf(e3), Index(2, v));
            && (Visit(t, root, v, 1).Some? <==> Present(e4) && Present(e3) && Present(e2))
            && (Visit(t, root, v, 1).Some? ==>
                  && Visit(t, root, v, 1) == Some(AddrOf(e2))
                  && Rights(t, root, v, 1) == (UserOK(e4) && UserOK(e3) && UserOK(e2), Writable(e4) && Writable(e3) && Writable(e2)))
  {
    hide AddrOf, Present, UserOK, Writable, Index;
    assert Visit(t, root, v, 4) == Some(root) && Rights(t, root, v, 4) == (true, true);
    var e4 := EntryAt(t, root, Index(4, v));
    assert Visit(t, root, v, 3) == if Present(e4) then Some(AddrOf(e4)) else None;
    assert Rights(t, root, v, 3) == (UserOK(e4), Writable(e4));
    if Present(e4) {
      var e3 := EntryAt(t, AddrOf(e4), Index(3, v));
      assert Visit(t, root, v, 2) == if Present(e3) then Some(AddrOf(e3)) else None;
    } else {
      assert Visit(t, root, v, 2) == None;
    }
  }

  /** All pages reach the same last table with the same rights. */
  ghost predicate SamePaths(t: Tables, t': Tables, root: nat) {
    forall w :: 0 <= w < PAGES ==>
      Visit(t', root, w, 1) == Visit(t, root, w, 1) && Rights(t', root, w, 1) == Rights(t, root, w, 1)
  }

  lemma VisitNext(t: Tables, root: nat, v: nat, level: nat, x: nat)
    requires 2 <= level <= 4 && Visit(t, root, v, level) == Some(x) && x in t && Index(level, v) < |t[x]|
    ensures var e := t[x][Index(level, v)];
            Visit(t, root, v, level - 1) == if Present(e) then Some(AddrOf(e)) else None
  {
    hide Index, Present, AddrOf;
  }

  lemma LinkStep(t: Tables, lv: map<nat, nat>, root: nat, pool: seq<nat>, x: nat, level: nat, i: nat, v: nat)
    requires TreeOK(t, lv, root) && PoolOK(t, pool) && pool != []
    requires 2 <= level <= 4 && Visit(t, root, v, level) == Some(x) && i == Index(level, v) && x in t && |t[x]| == 512 && !Present(t[x][i])
    ensures var t' := Linked(t, x, i, pool[0]);
            && TreeOK(t', lv[pool[0] := level - 1], root) && PoolOK(t', pool[1..]) && SameWalks(t, t', root)
            && Visit(t', root, v, level - 1) == Some(pool[0])
  {
    hide Walk, Index, AddrOf, Present, UserOK, Writable, MakeEntry, TreeOK, Visit;
    var added := pool[0];
    var t' := Linked(t, x, i, added);
    VisitLevel(t, lv, root, v, level);
    forall w | 0 <= w < PAGES ensures Walk(t', 4, root, w) == Walk(t, 4, root, w) {
      LinkWalk(t, lv, root, x, i, added, w);
    }
    LinkTree(t, lv, root, x, i, added);
    LinkVisit(t, lv, root, x, i, added, v, level);
    NewEntry(added);
    VisitNext(t', root, v, level, x);
  }

  /** What linking a new table one level down leaves for page `v`. */
  ghost predicate NewLevel(t: Tables, t': Tables, root: nat, v: nat, level: nat)
    requires 2 <= level <= 4
  {
    && Rights(t', root, v, level - 1) == (false, Rights(t, root, v, level).1)
    && (level > 2 ==> Visit(t', root, v, level - 2).None?)
  }

  lemma NewLevelLinked(t: Tables, lv: map<nat, nat>, root: nat, x: nat, level: nat, added: nat, v: nat)
    requires TreeOK(t, lv, root) && 2 <= level <= 4 && Visit(t, root, v, level) == Some(x) && x in t && |t[x]| == 512
    requires lv[x] == level && !Present(t[x][Index(level, v)]) && added !in t && added % PAGE == 0 && added < ADDRESSES
    ensures NewLevel(t, Linked(t, x, Index(level, v), added), root, v, level)
  {
    hide Index, AddrOf, Present, UserOK, Writable, MakeEntry, TreeOK;
    var t' := Linked(t, x, Index(level, v), added);
    LinkVisit(t, lv, root, x, Index(level, v), added, v, level);
    NewEntry(added);
    assert EntryAt(t', x, Index(level, v)) == MakeEntry(added, PTE_P + PTE_W);
    VisitNext(t', root, v, level, x);
    if level > 2 { VisitNext(t', root, v, level - 1, added); }
  }

  /** A walk that has no table on some level has none below. */
  lemma VisitAbove(t: Tables, root: nat, v: nat)
    ensures Visit(t, root, v, 4) == Some(root)
    ensures Visit(t, root, v, 1).Some? ==> Visit(t, root, v, 2).Some?
    ensures Visit(t, root, v, 2).Some? ==> Visit(t, root, v, 3).Some?
  {
    hide Index, Present, AddrOf;
  }

  /** The restriction of an entry by the rights above it drops nothing exactly if they grant all that
      its flags do. */
  lemma GivenFlags(t: Tables, root: nat, v: nat, phys: nat, flags: nat)
    requires flags < PAGE
    ensures Restrict(PathRights(t, root, v), LeafOf(MakeEntry(phys, flags))) == LeafOf(MakeEntry(phys, flags))
       <==> FlagsReach(t, root, v, flags)
  {
    hide Visit, Rights, Deepest, AddrOf;
  }

  /** The kernel's own table with one free page for the allocator: a page just above memory can be
      mapped, but not for user mode. */
  lemma UserFlagLost(base: nat)
    requires base % PAGE == 0 && base + 6 * PAGE <= MEM_SIZE
    ensures var t, pool := BootTables(base), [base + 5 * PAGE];
            && TreeOK(t, BootLevels(base), base) && PoolOK(t, pool) && |pool| >= Deepest(t, base, FRAMES) - 1
            && !FlagsReach(t, base, FRAMES, PTE_P + PTE_W + PTE_U) && FlagsReach(t, base, FRAMES, PTE_P + PTE_W)
  {
    hide MakeEntry, AddrOf, Present, UserOK, Writable, TableEntry, Index, Visit, Rights;
    BootTree(base);
    BootPoolOK(base);
    BootAboveMemory(base);
    FlagBits();
  }

  lemma FlagBits()
    ensures Present(PTE_P + PTE_W) && !UserOK(PTE_P + PTE_W) && Writable(PTE_P + PTE_W)
    ensures Present(PTE_P + PTE_W + PTE_U) && UserOK(PTE_P + PTE_W + PTE_U)
  {}

  lemma BootPoolOK(base: nat)
    requires base % PAGE == 0 && base + 6 * PAGE <= MEM_SIZE
    ensures PoolOK(BootTables(base), [base + 5 * PAGE])
  {
    hide TableEntry, TableWith;
  }

  lemma BootAboveMemory(base: nat)
    requires base % PAGE == 0
    ensures var t := BootTables(base); Deepest(t, base, FRAMES) == 2 && Rights(t, base, FRAMES, 2).1
  {
    hide MakeEntry, AddrOf, Present, UserOK, Writable, TableEntry;
    var t, v := BootTables(base), FRAMES;
    TableEntryIs(base, 1);
    TableEntryIs(base, 2);
    assert Index(4, v) == 0 && Index(3, v) == 0 && Index(2, v) == 2;
    assert Visit(t, base, v, 4) == Some(base);
    assert Visit(t, base, v, 3) == Some(base + PAGE);
    assert Visit(t, base, v, 2) == Some(base + 2 * PAGE);
    assert EntryAt(t, base + 2 * PAGE, 2) == 0;
    assert Visit(t, base, v, 1).None?;
    assert Rights(t, base, v, 3).1;
  }

  lemma TableShape(t: Tables, lv: map<nat, nat>, root: nat, x: nat)
    requires TreeOK(t, lv, root) && x in t
    ensures |t[x]| == 512
  {}

  lemma PoolHead(t: Tables, pool: seq<nat>)
    requires PoolOK(t, pool) && pool != []
    ensures pool[0] % PAGE == 0 && pool[0] < ADDRESSES && pool[0] !in t
  {}

  lemma PoolKept(t: Tables, pool: seq<nat>, x: nat, i: nat, e: nat)
    requires PoolOK(t, pool) && x in t && i < |t[x]|
    ensures PoolOK(WithEntry(t, x, i, e), pool)
  {}
}
