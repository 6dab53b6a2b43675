/** Frames and process memory: `init_framing` and `assign_physical_page` of
    kernel/virtual_memory.c, `load_process` of kernel/process.c. */
module ProcessLoad {
  import opened Bytes
  import opened Paging
  import opened VirtualMemory
  import opened UserMemory

  const PROC_NUMBER: nat := 8

  function PagesNeeded(size: nat): nat { (size + PAGE - 1) / PAGE }

  predicate InImage(id: nat, n: nat, v: nat) { UserBase(id) / PAGE <= v < UserBase(id) / PAGE + n }

  /** The first `n` pages of process `id`. */
  function FirstPages(id: nat, n: nat): (s: set<nat>)
    ensures forall v :: v in s <==> 0 <= v < FRAMES && InImage(id, n, v)
  {
    set v | 0 <= v < FRAMES && InImage(id, n, v)
  }

  function StackAddr(id: nat): nat { UserBase(id) + PROC_SIZE - PAGE }

  function OpenedBy(id: nat, size: nat): set<nat> { FirstPages(id, PagesNeeded(size)) + {StackAddr(id) / PAGE} }

  /** The pages opened to user mode by a sequence of loads. */
  function OpenedByAll(loads: seq<(nat, seq<Byte>)>): set<nat> {
    if |loads| == 0 then {}
    else OpenedByAll(loads[..|loads| - 1]) + OpenedBy(loads[|loads| - 1].0, |loads[|loads| - 1].1|)
  }

  predicate Loadable(load: (nat, seq<Byte>)) {
    load.0 < PROC_NUMBER && |load.1| <= PROC_SIZE - PAGE
  }

  /** `physical_memory_isreserved` */
  predicate IsReserved(pa: nat) { pa == 0 || IO_START <= pa < IO_END }

  /** What `init_framing` records for a frame when the kernel ends at `end`. */
  function InitialOwner(f: nat, end: nat): int {
    if IsReserved(f * PAGE) then PO_RESERVED
    else if KERNEL_START <= f * PAGE < end then PO_KERNEL
    else PO_FREE
  }

  class Machine {
    const pt: PageTables
    const mem: array<Byte>
    const frames: array<Frame>
    ghost var users: set<nat>           // pages opened to user mode so far

    ghost predicate Valid()
      reads this, pt
    {
      && mem.Length == MEM_SIZE && frames.Length == FRAMES
      && pt.Valid() && pt.pool == [] && Identity(pt.tables, pt.root, users)
    }

    constructor (base: nat)
      requires base % PAGE == 0 && base + 5 * PAGE <= PROC_START_ADDR
      ensures Valid() && users == {} && fresh(pt) && fresh(mem) && fresh(frames)
    {
      pt := new PageTables.Init(base);
      mem := new Byte[MEM_SIZE](_ => 0);
      frames := new Frame[FRAMES](_ => Frame(PO_FREE, 0));
      users := {};
    }

    /** Every frame is counted as used unless it is free. */
    method InitFraming(end: nat)
      requires frames.Length == FRAMES
      modifies frames
      ensures forall f :: 0 <= f < FRAMES ==>
                frames[f] == Frame(InitialOwner(f, end), if InitialOwner(f, end) == PO_FREE then 0 else 1)
    {
      for f := 0 to FRAMES
        invariant forall i :: 0 <= i < f ==>
                    frames[i] == Frame(InitialOwner(i, end), if InitialOwner(i, end) == PO_FREE then 0 else 1)
      {
        var addr := f * PAGE;
        var owner := PO_FREE;
        if IsReserved(addr) {
          owner := PO_RESERVED;
        } else if KERNEL_START <= addr < end {
          owner := PO_KERNEL;
        }
        frames[f] := Frame(owner, if owner != PO_FREE then 1 else 0);
      }
    }

    /** `memset` of one page to zero. */
    method ClearRange(from: nat, n: nat)
      requires from + n <= mem.Length
      modifies mem
      ensures forall a :: 0 <= a < mem.Length ==> mem[a] == if from <= a < from + n then 0 else old(mem[a])
    {
      for i := 0 to n
        invariant forall a :: 0 <= a < mem.Length ==> mem[a] == if from <= a < from + i then 0 else old(mem[a])
      {
        mem[from + i] := 0;
      }
    }

    method CopyIn(to: nat, image: seq<Byte>)
      requires to + |image| <= mem.Length
      modifies mem
      ensures forall a :: 0 <= a < mem.Length ==> mem[a] == if to <= a < to + |image| then image[a - to] else old(mem[a])
    {
      for i := 0 to |image|
        invariant forall a :: 0 <= a < mem.Length ==> mem[a] == if to <= a < to + i then image[a - to] else old(mem[a])
      {
        mem[to + i] := image[i];
      }
    }

    /** A frame that is not in use is taken and cleared; otherwise nothing happens. */
    method AssignPhysicalPage(addr: nat, owner: int) returns (r: int)
      requires mem.Length == MEM_SIZE && frames.Length == FRAMES
      modifies mem, frames
      ensures r == 0 <==> addr % PAGE == 0 && addr < MEM_SIZE && old(frames[..])[addr / PAGE].refcount == 0
      ensures r == 0 || r == -1
      ensures r != 0 ==> frames[..] == old(frames[..]) && mem[..] == old(mem[..])
      ensures r == 0 ==> frames[..] == old(frames[..])[addr / PAGE := Frame(owner, 1)]
      ensures r == 0 ==> forall a :: 0 <= a < MEM_SIZE ==> mem[a] == if addr <= a < addr + PAGE then 0 else old(mem[a])
    {
      if addr % PAGE != 0 || addr >= MEM_SIZE || frames[addr / PAGE].refcount != 0 {
        return -1;
      }
      frames[addr / PAGE] := Frame(owner, 1);
      ClearRange(addr, PAGE);
      return 0;
    }

    /** `map_page` of the page at `addr` to itself, present, writable and open to user mode. */
    method MapUser(addr: nat)
      requires Valid() && addr % PAGE == 0 && 0 < addr < MEM_SIZE
      modifies this`users, pt
      ensures Valid() && users == old(users) + {addr / PAGE}
    {
      hide Identity, MakeEntry, PageNo, Walk, Visit, Rights, TreeOK, PoolOK, Restrict, LeafOf, SamePaths, PathRights, FlagsReach;
      var v := addr / PAGE;
      PageAt(v);
      ghost var t := pt.tables;
      IdentityPath(t, pt.root, users, v);
      var ok := pt.MapPage(addr, addr, PTE_P + PTE_W + PTE_U);
      OpenIdentity(t, pt.tables, pt.root, users, v);
      users := users + {v};
    }

    /** The loop of `load_process` over the pages of the image. */
    method OpenImage(id: nat, n: nat)
      requires Valid() && id < PROC_NUMBER && n * PAGE <= PROC_SIZE - PAGE
      modifies this`users, pt, mem, frames
      ensures Valid() && users == old(users) + FirstPages(id, n)
      ensures n > 0 ==> frames[UserBase(id) / PAGE].refcount != 0
      ensures forall a :: 0 <= a < MEM_SIZE && !(UserBase(id) <= a < UserBase(id) + n * PAGE) ==> mem[a] == old(mem[a])
    {
      hide Identity;
      for i := 0 to n
        invariant Valid() && users == old(users) + FirstPages(id, i)
        invariant i > 0 ==> frames[UserBase(id) / PAGE].refcount != 0
        invariant forall a :: 0 <= a < MEM_SIZE && !(UserBase(id) <= a < UserBase(id) + i * PAGE) ==> mem[a] == old(mem[a])
      {
        var addr := UserBase(id) + i * PAGE;
        ghost var f := frames[..];
        MapUser(addr);
        var r := AssignPhysicalPage(addr, id);
        AssignedFrame(f, frames[..], addr / PAGE, r, id);
        assert i > 0 ==> f[UserBase(id) / PAGE].refcount != 0;
        NextPage(id, i);
      }
    }

    /** Loads `image` for process `id`: the image at its base, zeros to the end of its last page, and a
        zero stack page, whatever the frames held before. The process starts at `rip` with stack
        pointer `rsp`, both on pages open to user mode if there is an image. */
    method LoadProcess(id: nat, image: seq<Byte>) returns (rip: nat, rsp: nat)
      requires Valid() && Loadable((id, image))
      modifies this`users, pt, mem, frames
      ensures Valid() && users == old(users) + OpenedBy(id, |image|)
      ensures rip == UserBase(id) == 0x10_0000 + id * 0x4_0000 && (image != [] ==> rip / PAGE in users)
      ensures rsp == StackTop(id) && rsp + 8 == StackAddr(id) + PAGE == 0x14_0000 + id * 0x4_0000
      ensures forall a :: StackAddr(id) <= a < rsp + 8 ==> mem[a] == 0 && a / PAGE in users
      ensures forall i :: 0 <= i < |image| ==> mem[UserBase(id) + i] == image[i]
      ensures forall a :: UserBase(id) + |image| <= a < UserBase(id) + PagesNeeded(|image|) * PAGE ==> mem[a] == 0
      ensures forall a :: StackAddr(id) <= a < StackAddr(id) + PAGE ==> mem[a] == 0
      ensures forall a :: 0 <= a < MEM_SIZE && Untouched(id, |image|, a) ==> mem[a] == old(mem[a])
      ensures forall a :: 0 <= a < PROC_START_ADDR ==> mem[a] == old(mem[a])
    {
      hide Identity, TreeOK, PoolOK;
      var base, n := UserBase(id), PagesNeeded(|image|);
      OpenImage(id, n);
      CopyIn(base, image);
      var lastPageOff := |image| % PAGE;
      if lastPageOff != 0 {
        ClearRange(base + |image|, PAGE - lastPageOff);
      }
      OpenStack(id, |image|);
      assert users == old(users) + OpenedBy(id, |image|);
      rip := base;
      rsp := base + PROC_SIZE - 8;
    }

    /** The stack part of `load_process`. Its extra call of `assign_physical_page` on the first image
        page does nothing when that page holds an image. */
    method OpenStack(id: nat, ghost size: nat)
      requires Valid() && id < PROC_NUMBER && size <= PROC_SIZE - PAGE
      requires size > 0 ==> frames[UserBase(id) / PAGE].refcount != 0
      modifies this`users, pt, mem, frames
      ensures Valid() && users == old(users) + {StackAddr(id) / PAGE}
      ensures forall a :: StackAddr(id) <= a < StackAddr(id) + PAGE ==> mem[a] == 0
      ensures forall a :: 0 <= a < MEM_SIZE && Untouched(id, 0, a) ==> mem[a] == old(mem[a])
      ensures size > 0 ==>
                forall a :: 0 <= a < MEM_SIZE && !(StackAddr(id) <= a < StackAddr(id) + PAGE) ==> mem[a] == old(mem[a])
    {
      hide Identity;
      MapUser(StackAddr(id));
      var r := AssignPhysicalPage(UserBase(id), id);
      assert size > 0 ==> mem[..] == old(mem[..]);
      r := AssignPhysicalPage(StackAddr(id), id);
      ClearRange(StackAddr(id), PAGE);
    }
  }

  /** `init_virtual_memory` followed by any sequence of loads: every page below the top of memory
      translates to itself, page 0 is not writable, nothing else is mapped, and the pages open to user
      mode are exactly the image and stack pages of the processes loaded. The five tables at `base` lie
      below the processes, where no load writes. */
  method BootAndLoad(base: nat, end: nat, loads: seq<(nat, seq<Byte>)>) returns (m: Machine)
    requires base % PAGE == 0 && base + 5 * PAGE <= PROC_START_ADDR && forall i :: 0 <= i < |loads| ==> Loadable(loads[i])
    ensures m.Valid() && m.users == OpenedByAll(loads)
    ensures forall v :: 0 <= v < PAGES ==> Accessible(m.pt.tables, m.pt.root, v, OpenedByAll(loads))
  {
    hide Identity;
    m := new Machine(base);
    m.InitFraming(end);
    for i := 0 to |loads|
      invariant m.Valid() && m.users == OpenedByAll(loads[..i]) && fresh(m) && fresh(m.pt) && fresh(m.mem) && fresh(m.frames)
    {
      assert loads[..i + 1][..i] == loads[..i];
      var rip, rsp := m.LoadProcess(loads[i].0, loads[i].1);
    }
    assert loads[..|loads|] == loads;
    AllAccessible(m.pt.tables, m.pt.root, m.users);
  }

  /** The processor's view of page `v`. */
  ghost predicate Accessible(t: Tables, root: nat, v: nat, users: set<nat>) {
    var w := Walk(t, 4, root, v);
    && (w.Some? <==> v < FRAMES)
    && (w.Some? ==> AddrOf(w.value.entry) == v * PAGE && (w.value.user <==> v in users) && (w.value.write <==> v != 0))
    && (w.Some? ==> w.value.entry == v * 0x1000 + (if v == 0 then 1 else 3) + (if v in users then 4 else 0))
  }

  lemma AllAccessible(t: Tables, root: nat, users: set<nat>)
    requires Identity(t, root, users)
    ensures forall v :: 0 <= v < PAGES ==> Accessible(t, root, v, users)
  {
    hide Walk, MakeEntry;
    forall v | 0 <= v < FRAMES
      ensures MakeEntry(v * PAGE, FlagsOf(v, users)) == v * 0x1000 + (if v == 0 then 1 else 3) + (if v in users then 4 else 0)
      ensures AddrOf(MakeEntry(v * PAGE, FlagsOf(v, users))) == v * PAGE
    {
      StoredEntry(v, FlagsOf(v, users));
    }
  }

  // ----- The same in plain numbers

  /** The pages a load opens are those that hold a byte of the image, which begins at 0x100000 for process 0 and
      0x40000 further on for each next one, and the last page of the process. */
  lemma OpenedPages(id: nat, size: nat, v: nat)
    requires id < PROC_NUMBER && size <= PROC_SIZE - PAGE
    ensures v in OpenedBy(id, size) <==>
              || (exists a :: 0x10_0000 + id * 0x4_0000 <= a < 0x10_0000 + id * 0x4_0000 + size && OnPage(a, v))
              || v == 0x13F + 0x40 * id
  {
    var base := 0x10_0000 + id * 0x4_0000;
    assert UserBase(id) == base && base == (0x100 + 0x40 * id) * PAGE;
    if InImage(id, PagesNeeded(size), v) {
      assert OnPage(v * PAGE, v);
    }
  }

  predicate OnPage(a: int, v: nat) { v * 0x1000 <= a < v * 0x1000 + 0x1000 }

  /** Frames by address: 0 and 0xA0000 up to 0x100000 are reserved, 0x40000 up to the end of the kernel are its
      own, and all others below 4 MB are free. */
  lemma FrameOwners(f: nat, end: nat)
    requires f < FRAMES
    ensures f < 0x400
    ensures InitialOwner(f, end) == (if f == 0 || 0xA0 <= f < 0x100 then -1 else if 0x40 <= f && f * 0x1000 < end then -2 else 0)
  {}

  /** Outside the pages of the image (at least one), and outside the stack page. */
  predicate Untouched(id: nat, size: nat, a: nat) {
    && !(UserBase(id) <= a < UserBase(id) + Max(1, PagesNeeded(size)) * PAGE)
    && !(StackAddr(id) <= a < StackAddr(id) + PAGE)
  }

  lemma AssignedFrame(f: seq<Frame>, f': seq<Frame>, v: nat, r: int, owner: int)
    requires |f| == |f'| && v < |f|
    requires if r == 0 then f' == f[v := Frame(owner, 1)] else f' == f && f[v].refcount != 0
    ensures f'[v].refcount != 0 && forall i :: 0 <= i < |f| && f[i].refcount != 0 ==> f'[i].refcount != 0
  {}

  lemma NextPage(id: nat, i: nat)
    requires id < PROC_NUMBER && (i + 1) * PAGE <= PROC_SIZE
    ensures (UserBase(id) + i * PAGE) / PAGE == UserBase(id) / PAGE + i < FRAMES
    ensures FirstPages(id, i + 1) == FirstPages(id, i) + {UserBase(id) / PAGE + i}
  {
    assert UserBase(id) == (256 + 64 * id) * PAGE;
  }

  lemma IdentityPath(t: Tables, root: nat, users: set<nat>, v: nat)
    requires Identity(t, root, users) && v < FRAMES
    ensures Visit(t, root, v, 1).Some? && Rights(t, root, v, 1) == (true, true)
  {
    hide Walk, Visit, Rights;
  }

  lemma OpenIdentity(t: Tables, t': Tables, root: nat, users: set<nat>, v: nat)
    requires Identity(t, root, users) && SamePaths(t, t', root) && 0 < v < FRAMES
    requires Walk(t', 4, root, v) == Restrict(PathRights(t, root, v), LeafOf(MakeEntry(v * PAGE, PTE_P + PTE_W + PTE_U)))
    requires forall w :: 0 <= w < PAGES && w != v ==> Walk(t', 4, root, w) == Walk(t, 4, root, w)
    ensures Identity(t', root, users + {v})
  {
    hide Walk, Visit, Rights, MakeEntry, LeafOf;
    ExpectedIs(v, users + {v});
    RestrictAll(LeafOf(MakeEntry(v * PAGE, PTE_P + PTE_W + PTE_U)));
    assert Deepest(t, root, v) == 1 && PathRights(t, root, v) == (true, true);
  }
}
