/** Four-level page tables: kernel/virtual_memory.c against the walk of the processor (Intel SDM
    volume 3A, sections 4.5 and 4.6). */
module Paging {

  import opened Bytes

  const PAGE: nat := 4096
  const PTE_P: nat := 1
  const PTE_W: nat := 2
  const PTE_U: nat := 4

  /** Page numbers of 48-bit addresses. */
  const PAGES: nat := 0x10_0000_0000

  // ----- Entries

  predicate Present(e: nat) { e % 2 == 1 }

  predicate Writable(e: nat) { e / 2 % 2 == 1 }

  predicate UserOK(e: nat) { e / 4 % 2 == 1 }

  /** Physical addresses have 52 bits. */
  const ADDRESSES: nat := 0x10_0000_0000_0000

  /** An entry that can lead to a table: no page-size bit, and none of the bits above the address. */
  predicate LinkBits(e: nat) { e / 128 % 2 == 0 && e < ADDRESSES }

  /** `e & ~0xFFF` */
  function AddrOf(e: nat): nat { e / PAGE * PAGE }

  /** `(address & ~0xFFF) | flags` */
  function MakeEntry(address: nat, flags: nat): (e: nat)
    requires flags < PAGE
    ensures AddrOf(e) == AddrOf(address)
    ensures Present(e) == Present(flags) && Writable(e) == Writable(flags) && UserOK(e) == UserOK(flags)
  {
    EntryBits(address / PAGE, flags);
    AddrOf(address) + flags
  }

  lemma EntryBits(q: nat, f: nat)
    requires f < PAGE
    ensures (q * PAGE + f) / PAGE == q
    ensures (q * PAGE + f) % 2 == f % 2 && (q * PAGE + f) / 2 % 2 == f / 2 % 2 && (q * PAGE + f) / 4 % 2 == f / 4 % 2
  {
    var e := q * PAGE + f;
    var h, k := f / 2, f / 2 / 2;
    Halve(e, q * 2048 + h, f % 2);
    Halve(q * 2048 + h, q * 1024 + k, h % 2);
    Halve(q * 1024 + k, q * 512 + k / 2, k % 2);
    assert e / 2 / 2 == e / 4 && f / 2 / 2 == f / 4;
  }

  lemma Halve(n: nat, h: nat, r: nat)
    requires n == 2 * h + r && r < 2
    ensures n / 2 == h && n % 2 == r
  {}

  /** Bit 0 of an entry is "present", bit 1 "writable", bit 2 "user", and the address begins at bit 12. */
  lemma EntryLayout(e: nat)
    ensures (Present(e) <==> e % 2 >= 1) && (Writable(e) <==> e % 4 >= 2) && (UserOK(e) <==> e % 8 >= 4)
    ensures AddrOf(e) % 0x1000 == 0 && AddrOf(e) <= e < AddrOf(e) + 0x1000
  {
    var h := e / 2;
    assert e / 4 == h / 2;
  }

  /** What `map_page` stores: the frame and the flags in one number. */
  lemma StoredEntry(frame: nat, flags: nat)
    requires flags < 0x1000
    ensures MakeEntry(frame * 0x1000, flags) == frame * 0x1000 + flags
  {
    hide Present, Writable, UserOK;
    EntryBits(frame, 0);
    assert AddrOf(frame * 0x1000) == frame * 0x1000;
  }

  /** The entry for a new table, and an entry that is zero. */
  lemma NewEntry(a: nat)
    requires a % PAGE == 0 && a < ADDRESSES
    ensures LinkBits(MakeEntry(a, PTE_P + PTE_W))
    ensures Present(MakeEntry(a, PTE_P + PTE_W)) && AddrOf(MakeEntry(a, PTE_P + PTE_W)) == a && !Present(0)
    ensures !UserOK(MakeEntry(a, PTE_P + PTE_W)) && Writable(MakeEntry(a, PTE_P + PTE_W))
  {
    LinkBitsOf(a / PAGE, PTE_P + PTE_W);
  }

  lemma LinkBitsOf(q: nat, f: nat)
    requires f < 128 && q * PAGE < ADDRESSES
    ensures LinkBits(q * PAGE + f)
  {
    var e, h := q * PAGE + f, 32 * q;
    Above7(e, h, f);
    Halve(h, 16 * q, 0);
  }

  lemma Above7(e: nat, h: nat, f: nat)
    requires e == 128 * h + f && f < 128
    ensures e / 128 == h
  {}

  // ----- Indices

  function PageNo(a: nat): (v: nat)
    ensures v < PAGES
  {
    a / PAGE % PAGES
  }

  /** Index into a table of level 4 (PML4) down to 1 (page table). */
  function Index(level: nat, v: nat): (i: nat)
    requires 1 <= level <= 4
    ensures i < 512
  {
    if level == 1 then v % 0x200
    else if level == 2 then v / 0x200 % 0x200
    else if level == 3 then v / 0x4_0000 % 0x200
    else v / 0x800_0000 % 0x200
  }

  /** The helpers `pml4_index`, `pdpt_index`, `pd_index`, `pt_index`. */
  function AddrIndex(level: nat, a: nat): (i: nat)
    requires 1 <= level <= 4
    ensures i == Index(level, PageNo(a))
  {
    IndexOfAddr(a);
    if level == 1 then a / 0x1000 % 0x200
    else if level == 2 then a / 0x20_0000 % 0x200
    else if level == 3 then a / 0x4000_0000 % 0x200
    else a / 0x80_0000_0000 % 0x200
  }

  lemma IndexOfAddr(a: nat)
    ensures a / 0x1000 % 0x200 == Index(1, PageNo(a)) && a / 0x20_0000 % 0x200 == Index(2, PageNo(a))
    ensures a / 0x4000_0000 % 0x200 == Index(3, PageNo(a)) && a / 0x80_0000_0000 % 0x200 == Index(4, PageNo(a))
  {
    var p := a / 0x1000;
    var v, m := p % PAGES, p / PAGES;
    Shifts(p);
    Shifts(v);
    ShiftedAddr(a);
    Down(p, m * 0x800_0000, v);
    Down(p / 0x200, m * 0x4_0000, v / 0x200);
    Down(p / 0x200 / 0x200, m * 0x200, v / 0x200 / 0x200);
    Down(p / 0x200 / 0x200 / 0x200, m, v / 0x200 / 0x200 / 0x200);
  }

  lemma Shifts(p: nat)
    ensures p / 0x200 / 0x200 == p / 0x4_0000 && p / 0x200 / 0x200 / 0x200 == p / 0x800_0000
  {}

  lemma ShiftedAddr(a: nat)
    ensures a / 0x1000 / 0x200 == a / 0x20_0000 && a / 0x1000 / 0x4_0000 == a / 0x4000_0000
    ensures a / 0x1000 / 0x800_0000 == a / 0x80_0000_0000
  {}

  lemma Down(p: nat, q: nat, v: nat)
    requires p == 0x200 * q + v
    ensures p / 0x200 == q + v / 0x200 && p % 0x200 == v % 0x200
  {}

  /** The four indices determine the page. */
  lemma IndexInjective(v: nat, w: nat)
    requires v < PAGES && w < PAGES
    requires forall l :: 1 <= l <= 4 ==> Index(l, v) == Index(l, w)
    ensures v == w
  {
    assert Index(1, v) == Index(1, w) && Index(2, v) == Index(2, w);
    assert Index(3, v) == Index(3, w) && Index(4, v) == Index(4, w);
    Digits(v);
    Digits(w);
  }

  lemma Digits(v: nat)
    requires v < PAGES
    ensures v == Index(1, v) + 0x200 * Index(2, v) + 0x4_0000 * Index(3, v) + 0x800_0000 * Index(4, v)
  {
    var a := v / 0x200;
    var b := a / 0x200;
    var c := b / 0x200;
    assert b == v / 0x4_0000 && c == v / 0x800_0000;
  }

  // ----- Tables in memory and the walk of the processor

  type Tables = map<nat, seq<nat>>

  /** What the processor finds: the last entry, and whether user mode access and writing are allowed
      at all four levels. */
  datatype Leaf = Leaf(entry: nat, user: bool, write: bool)

  function EntryAt(t: Tables, x: nat, i: nat): nat {
    if x in t && i < |t[x]| then t[x][i] else 0
  }

  /** The walk for page `v` from table `x` of the given level, where all links have `LinkBits`. */
  function Walk(t: Tables, level: nat, x: nat, v: nat): Option<Leaf>
    requires 1 <= level <= 4
    decreases level
  {
    var e := EntryAt(t, x, Index(level, v));
    if !Present(e) then None
    else if level == 1 then Some(Leaf(e, UserOK(e), Writable(e)))
    else
      match Walk(t, level - 1, AddrOf(e), v)
      case None => None
      case Some(l) => Some(Leaf(l.entry, UserOK(e) && l.user, Writable(e) && l.write))
  }

  /** The table of level `level` on the walk for page `v`. */
  function Visit(t: Tables, root: nat, v: nat, level: nat): Option<nat>
    requires 1 <= level <= 4
    decreases 4 - level
  {
    if level == 4 then Some(root)
    else
      match Visit(t, root, v, level + 1)
      case None => None
      case Some(x) =>
        var e := EntryAt(t, x, Index(level + 1, v));
        if Present(e) then Some(AddrOf(e)) else None
  }

  /** A present entry of a table above level 1 leads one level down. */
  predicate Links(t: Tables, lv: map<nat, nat>, x: nat, i: nat) {
    x in t && x in lv && lv[x] > 1 && i < 512 && Present(EntryAt(t, x, i))
  }

  /** The tables form a tree: `lv` gives levels, links go down one level, no table is linked from two
      places, and no link has a bit set that would make the processor take it for anything else. */
  ghost predicate TreeOK(t: Tables, lv: map<nat, nat>, root: nat) {
    && t.Keys == lv.Keys && root in t && lv[root] == 4
    && (forall x :: x in t ==> |t[x]| == 512 && 1 <= lv[x] <= 4 && x % PAGE == 0)
    && (forall x, i :: Links(t, lv, x, i) ==> AddrOf(EntryAt(t, x, i)) in t && lv[AddrOf(EntryAt(t, x, i))] == lv[x] - 1)
    && (forall x, i :: Links(t, lv, x, i) ==> LinkBits(EntryAt(t, x, i)))
    && (forall x, i, y, j :: Links(t, lv, x, i) && Links(t, lv, y, j) && AddrOf(EntryAt(t, x, i)) == AddrOf(EntryAt(t, y, j)) ==>
          x == y && i == j)
  }

  lemma LinkUnique(t: Tables, lv: map<nat, nat>, root: nat, x: nat, i: nat, y: nat, j: nat)
    requires TreeOK(t, lv, root) && Links(t, lv, x, i) && Links(t, lv, y, j)
    requires AddrOf(EntryAt(t, x, i)) == AddrOf(EntryAt(t, y, j))
    ensures x == y && i == j
  {
    hide AddrOf, Present;
  }

  lemma {:induction false} VisitLevel(t: Tables, lv: map<nat, nat>, root: nat, v: nat, level: nat)
    requires TreeOK(t, lv, root) && 1 <= level <= 4 && Visit(t, root, v, level).Some?
    ensures Visit(t, root, v, level).value in t && Visit(t, root, v, level).value in lv
    ensures lv[Visit(t, root, v, level).value] == level
    decreases 4 - level
  {
    hide Index, Present, AddrOf, UserOK, Writable;
    if level < 4 {
      VisitLevel(t, lv, root, v, level + 1);
      assert Links(t, lv, Visit(t, root, v, level + 1).value, Index(level + 1, v));
    }
  }

  /** Two walks that meet in a table took the same indices to get there. */
  lemma {:induction false} VisitUnique(t: Tables, lv: map<nat, nat>, root: nat, v: nat, w: nat, level: nat, l: nat)
    requires TreeOK(t, lv, root) && 1 <= level < l <= 4
    requires Visit(t, root, v, level).Some? && Visit(t, root, v, level) == Visit(t, root, w, level)
    ensures Index(l, v) == Index(l, w)
    decreases 4 - level
  {
    hide Index, Present, AddrOf, TreeOK;
    VisitLevel(t, lv, root, v, level + 1);
    VisitLevel(t, lv, root, w, level + 1);
    var x, y := Visit(t, root, v, level + 1).value, Visit(t, root, w, level + 1).value;
    LinkUnique(t, lv, root, x, Index(level + 1, v), y, Index(level + 1, w));
    if l > level + 1 { VisitUnique(t, lv, root, v, w, level + 1, l); }
  }

  /** User and write permission of the entries above level `level` on the walk for `v`. */
  function Rights(t: Tables, root: nat, v: nat, level: nat): (bool, bool)
    requires 1 <= level <= 4
    decreases 4 - level
  {
    if level == 4 then (true, true)
    else
      match Visit(t, root, v, level + 1)
      case None => (false, false)
      case Some(x) =>
        var e, r := EntryAt(t, x, Index(level + 1, v)), Rights(t, root, v, level + 1);
        (r.0 && UserOK(e), r.1 && Writable(e))
  }

  /** The lowest level that the walk for `v` reaches. */
  function Deepest(t: Tables, root: nat, v: nat): (level: nat)
    ensures 1 <= level <= 4 && Visit(t, root, v, level).Some? && (level > 1 ==> Visit(t, root, v, level - 1).None?)
  {
    if Visit(t, root, v, 1).Some? then 1
    else if Visit(t, root, v, 2).Some? then 2
    else if Visit(t, root, v, 3).Some? then 3
    else 4
  }

  /** User and write permission above the last entry for `v` once `get_page` has supplied the missing
      tables: it links them writable and closed to user mode. */
  function PathRights(t: Tables, root: nat, v: nat): (bool, bool) {
    var r := Rights(t, root, v, Deepest(t, root, v));
    (Deepest(t, root, v) == 1 && r.0, r.1)
  }

  /** Every right that `flags` gives is granted on the whole path that `map_page` will leave. */
  predicate FlagsReach(t: Tables, root: nat, v: nat, flags: nat) {
    Present(flags) ==>
      && (UserOK(flags) ==> Deepest(t, root, v) == 1 && Rights(t, root, v, 1).0)
      && (Writable(flags) ==> Rights(t, root, v, Deepest(t, root, v)).1)
  }

  function Restrict(r: (bool, bool), w: Option<Leaf>): Option<Leaf> {
    match w
    case None => None
    case Some(l) => Some(Leaf(l.entry, r.0 && l.user, r.1 && l.write))
  }

  /** The walk from the root, split at a visited table. */
  lemma {:induction false} WalkSplit(t: Tables, root: nat, v: nat, level: nat)
    requires 1 <= level <= 4
    ensures Visit(t, root, v, level).None? ==> Walk(t, 4, root, v).None?
    ensures Visit(t, root, v, level).Some? ==>
              Walk(t, 4, root, v) == Restrict(Rights(t, root, v, level), Walk(t, level, Visit(t, root, v, level).value, v))
    decreases 4 - level
  {
    hide Index, Present, AddrOf, UserOK, Writable;
    if level < 4 { WalkSplit(t, root, v, level + 1); }
  }

  /** A change of an entry that the walk does not look at does not change the walk. */
  lemma {:induction false} WalkFrame(t: Tables, t': Tables, root: nat, v: nat, level: nat)
    requires 1 <= level <= 4 && Visit(t, root, v, level).Some?
    requires forall l :: 1 <= l <= level && Visit(t, root, v, l).Some? ==>
               EntryAt(t', Visit(t, root, v, l).value, Index(l, v)) == EntryAt(t, Visit(t, root, v, l).value, Index(l, v))
    ensures Walk(t', level, Visit(t, root, v, level).value, v) == Walk(t, level, Visit(t, root, v, level).value, v)
    decreases level
  {
    hide Index, Present, AddrOf, UserOK, Writable;
    var x := Visit(t, root, v, level).value;
    var e := EntryAt(t, x, Index(level, v));
    assert EntryAt(t', x, Index(level, v)) == e;
    if Present(e) && level > 1 {
      assert Visit(t, root, v, level - 1) == Some(AddrOf(e));
      WalkFrame(t, t', root, v, level - 1);
    }
  }

  // ----- Linking a new table

  function Linked(t: Tables, x: nat, i: nat, added: nat): Tables
    requires x in t && i < |t[x]|
  {
    var zeros: seq<nat> := seq(512, _ => 0);
    WithEntry(t, x, i, MakeEntry(added, PTE_P + PTE_W))[added := zeros]
  }

  lemma LinkTree(t: Tables, lv: map<nat, nat>, root: nat, x: nat, i: nat, added: nat)
    requires TreeOK(t, lv, root) && x in t && lv[x] > 1 && i < 512 && !Present(t[x][i])
    requires added !in t && added % PAGE == 0 && added < ADDRESSES
    ensures TreeOK(Linked(t, x, i, added), lv[added := lv[x] - 1], root)
  {
    hide Index, Present, AddrOf, UserOK, Writable, LinkBits;
    var t', lv' := Linked(t, x, i, added), lv[added := lv[x] - 1];
    forall y, j | Links(t', lv', y, j)
      ensures (y == x && j == i && AddrOf(EntryAt(t', y, j)) == added && LinkBits(EntryAt(t', y, j)))
           || (Links(t, lv, y, j) && EntryAt(t', y, j) == EntryAt(t, y, j))
    {
      NewEntry(added);
    }
    assert x != added;
  }

  /** Above the changed entry the walk is as before. */
  lemma {:induction false} LinkVisit(t: Tables, lv: map<nat, nat>, root: nat, x: nat, i: nat, added: nat, v: nat, level: nat)
    requires TreeOK(t, lv, root) && x in t && lv[x] > 1 && i < 512 && !Present(t[x][i])
    requires added !in t && added % PAGE == 0 && added < ADDRESSES && lv[x] <= level <= 4
    ensures Visit(Linked(t, x, i, added), root, v, level) == Visit(t, root, v, level)
    ensures Rights(Linked(t, x, i, added), root, v, level) == Rights(t, root, v, level)
    decreases 4 - level
  {
    hide Index, Present, AddrOf, UserOK, Writable;
    if level < 4 {
      LinkVisit(t, lv, root, x, i, added, v, level + 1);
      if Visit(t, root, v, level + 1).Some? {
        VisitLevel(t, lv, root, v, level + 1);
      }
    }
  }

  /** Linking a zeroed table where there was none changes no translation. */
  lemma LinkWalk(t: Tables, lv: map<nat, nat>, root: nat, x: nat, i: nat, added: nat, v: nat)
    requires TreeOK(t, lv, root) && x in t && lv[x] > 1 && i < 512 && !Present(t[x][i])
    requires added !in t && added % PAGE == 0 && added < ADDRESSES
    ensures Walk(Linked(t, x, i, added), 4, root, v) == Walk(t, 4, root, v)
  {
    hide Index, Present, AddrOf, UserOK, Writable;
    hide Walk;
    var t' := Linked(t, x, i, added);
    var level := lv[x];
    if Visit(t, root, v, level) == Some(x) && Index(level, v) == i {
      LinkVisit(t, lv, root, x, i, added, v, level);
      WalkSplit(t, root, v, level - 1);
      NewEntry(added);
      assert Visit(t', root, v, level - 1) == Some(added);
      WalkSplit(t', root, v, level - 1);
      WalkZero(t', level - 1, added, v);
    } else {
      forall l | 1 <= l <= 4 && Visit(t, root, v, l).Some?
        ensures EntryAt(t', Visit(t, root, v, l).value, Index(l, v)) == EntryAt(t, Visit(t, root, v, l).value, Index(l, v))
      {
        VisitLevel(t, lv, root, v, l);
      }
      WalkFrame(t, t', root, v, 4);
    }
  }

  lemma WalkZero(t: Tables, level: nat, x: nat, v: nat)
    requires 1 <= level <= 4 && EntryAt(t, x, Index(level, v)) == 0
    ensures Walk(t, level, x, v).None?
  {}

  // ----- Setting the last entry

  function WithEntry(t: Tables, x: nat, i: nat, e: nat): Tables
    requires x in t && i < |t[x]|
  {
    var table: seq<nat> := t[x][i := e];
    t[x := table]
  }

  lemma SetEntryTree(t: Tables, lv: map<nat, nat>, root: nat, x: nat, i: nat, e: nat)
    requires TreeOK(t, lv, root) && x in t && lv[x] == 1 && i < 512
    ensures TreeOK(WithEntry(t, x, i, e), lv, root)
  {
    hide Present, AddrOf;
    var t' := WithEntry(t, x, i, e);
    assert forall y, j :: Links(t', lv, y, j) ==> Links(t, lv, y, j) && EntryAt(t', y, j) == EntryAt(t, y, j);
  }

  /** Setting the last entry for page `v` gives `v` that entry, under the rights of the levels above. */
  lemma SetEntryHere(t: Tables, lv: map<nat, nat>, root: nat, x: nat, v: nat, e: nat)
    requires TreeOK(t, lv, root) && Visit(t, root, v, 1) == Some(x) && x in t && lv[x] == 1
    ensures Walk(WithEntry(t, x, Index(1, v), e), 4, root, v)
         == Restrict(Rights(t, root, v, 1), if Present(e) then Some(Leaf(e, UserOK(e), Writable(e))) else None)
  {
    hide Walk, Index, Present, AddrOf, UserOK, Writable;
    var t' := WithEntry(t, x, Index(1, v), e);
    SetEntryVisit(t, lv, root, x, Index(1, v), e, v, 1);
    WalkSplit(t', root, v, 1);
    WalkLeaf(t', x, v);
  }

  /** It leaves every other page's translation alone. */
  lemma SetEntryOther(t: Tables, lv: map<nat, nat>, root: nat, x: nat, v: nat, e: nat, w: nat)
    requires TreeOK(t, lv, root) && v < PAGES && w < PAGES && w != v && Visit(t, root, v, 1) == Some(x) && x in t && lv[x] == 1
    ensures Walk(WithEntry(t, x, Index(1, v), e), 4, root, w) == Walk(t, 4, root, w)
  {
    hide Walk, Index, Present, AddrOf, UserOK, Writable, Visit;
    var t' := WithEntry(t, x, Index(1, v), e);
    forall l | 1 <= l <= 4 && Visit(t, root, w, l).Some?
      ensures EntryAt(t', Visit(t, root, w, l).value, Index(l, w)) == EntryAt(t, Visit(t, root, w, l).value, Index(l, w))
    {
      VisitLevel(t, lv, root, w, l);
      if l == 1 { SameSlot(t, lv, root, v, w); }
    }
    VisitRoot(t, root, w);
    WalkFrame(t, t', root, w, 4);
  }

  lemma VisitRoot(t: Tables, root: nat, w: nat)
    ensures Visit(t, root, w, 4) == Some(root)
  {}

  /** Different pages never share a last entry. */
  lemma SameSlot(t: Tables, lv: map<nat, nat>, root: nat, v: nat, w: nat)
    requires TreeOK(t, lv, root) && v < PAGES && w < PAGES && w != v
    requires Visit(t, root, v, 1).Some? && Visit(t, root, w, 1).Some?
    ensures Visit(t, root, v, 1) != Visit(t, root, w, 1) || Index(1, v) != Index(1, w)
  {
    hide Index, Present, AddrOf, Visit;
    if Visit(t, root, v, 1) == Visit(t, root, w, 1) {
      forall k | 2 <= k <= 4 ensures Index(k, v) == Index(k, w) { VisitUnique(t, lv, root, v, w, 1, k); }
      if Index(1, v) == Index(1, w) { IndexInjective(v, w); assert false; }
    }
  }

  lemma WalkLeaf(t: Tables, x: nat, v: nat)
    ensures var e := EntryAt(t, x, Index(1, v));
            Walk(t, 1, x, v) == if Present(e) then Some(Leaf(e, UserOK(e), Writable(e))) else None
  {}

  lemma {:induction false} SetEntryVisit(t: Tables, lv: map<nat, nat>, root: nat, x: nat, i: nat, e: nat, w: nat, level: nat)
    requires TreeOK(t, lv, root) && x in t && |t[x]| == 512 && lv[x] == 1 && i < 512 && 1 <= level <= 4
    ensures Visit(WithEntry(t, x, i, e), root, w, level) == Visit(t, root, w, level)
    ensures Rights(WithEntry(t, x, i, e), root, w, level) == Rights(t, root, w, level)
    decreases 4 - level
  {
    hide Index, Present, AddrOf, UserOK, Writable, TreeOK;
    if level < 4 {
      SetEntryVisit(t, lv, root, x, i, e, w, level + 1);
      if Visit(t, root, w, level + 1).Some? {
        VisitLevel(t, lv, root, w, level + 1);
      }
    }
  }
}
