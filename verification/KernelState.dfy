/** One entry into the kernel as a function on kernel states: what kernel/interrupt_handlers.c,
    kernel/process.c and kernel/shell.c do between saving a process and returning to user mode. */
module KernelState {
  import opened Bytes
  import opened UserMemory

  // ----- Interrupt numbers (kernel/interrupt_handlers.h)

  const TIMER_INT: nat := 32
  const KB_INT: nat := 33
  const GETCHAR_INT: nat := 0x80
  const LIST_FILES_INT: nat := 0x83
  const YIELD_INT: nat := 0x88
  const START_INT: nat := 0x89
  const STOP_INT: nat := 0x8A

  // ----- State

  datatype PState = Free | Runnable | Blocked

  /** The saved registers; `rest` stands for those the kernel never looks at. */
  datatype Regs = Regs(rax: nat, rdi: nat, rip: nat, rsp: nat, intno: nat, rest: seq<nat>)

  datatype Proc = Proc(state: PState, regs: Regs)

  /** Kernel variables between two interrupts. `queue` is the content of the keyboard ring. */
  datatype KState = KState(procs: seq<Proc>, current: nat, reschedule: bool, queue: seq<Byte>,
                           waiting: Option<nat>, extended: bool, shifted: int)

  /** What arrives: the registers at the trap (with the interrupt number), the scan code and its
      character in the keyboard tables, what `list_files` returns, and whether a file system call
      ends in `fail`. */
  datatype Event = Event(regs: Regs, scan: Byte, ascii: Byte, listed: int, fails: bool)

  /** A failed assertion halts the machine. `decided` tells whether `schedule` chose the process. */
  datatype Outcome = Halt | Resume(next: KState, decided: bool)

  predicate Shaped(n: nat, k: nat, s: KState) {
    && 4 <= n <= 127 && 2 <= k
    && |s.procs| == n && s.current < n && |s.queue| < k
    && (s.waiting.Some? ==> s.waiting.value < n)
  }

  // ----- Parts of the step

  /** A `char` widened to a 64-bit register. */
  function CharToReg(c: Byte): nat {
    if c < 128 then c else 0x1_0000_0000_0000_0000 - 256 + c as int
  }

  /** An `int` widened to a 64-bit register. */
  function IntToReg(i: int): nat
    requires -0x8000_0000 <= i < 0x8000_0000
  {
    if i >= 0 then i else 0x1_0000_0000_0000_0000 + i
  }

  function NextId(n: nat, id: nat): (r: nat)
    requires n >= 2 && id < n
    ensures 1 <= r < n
  {
    if id + 1 == n then 1 else id + 1
  }

  /** The first runnable process among the next `k` in turn after `id`, else the idle process. */
  function Pick(procs: seq<Proc>, id: nat, k: nat): (r: nat)
    requires |procs| >= 2 && id < |procs|
    ensures r < |procs|
    decreases k
  {
    if k == 0 then 0
    else
      var next := NextId(|procs|, id);
      if procs[next].state == Runnable then next else Pick(procs, next, k - 1)
  }

  function Schedule(s: KState): Outcome
    requires |s.procs| >= 2 && s.current < |s.procs|
  {
    Resume(s.(current := Pick(s.procs, s.current, |s.procs| + 1)), true)
  }

  function SetProc(s: KState, p: nat, x: Proc): KState
    requires p < |s.procs|
  {
    s.(procs := s.procs[p := x])
  }

  function SetRax(s: KState, p: nat, v: nat): KState
    requires p < |s.procs|
  {
    SetProc(s, p, s.procs[p].(regs := s.procs[p].regs.(rax := v)))
  }

  /** The character a scan code puts into the ring, if any. */
  function KeyChar(s: KState, scan: Byte, ascii: Byte): Option<Byte> {
    if scan in {0xE0, 0x2A, 0x36, 0xAA, 0xB6} then None
    else if s.extended && scan == 0x4B then Some(1)
    else if s.extended && scan == 0x4D then Some(2)
    else if s.extended && scan == 0x48 then Some(3)
    else if ascii != 0 then Some(ascii)
    else None
  }

  /** The characters the ring takes in: none if it is full. */
  function Taken(k: nat, s: KState, c: Option<Byte>): seq<Byte> {
    if c.Some? && |s.queue| + 1 < k then [c.value] else []
  }

  function KeyPut(k: nat, s: KState, scan: Byte, ascii: Byte): KState {
    s.(queue := s.queue + Taken(k, s, KeyChar(s, scan, ascii)),
       extended := scan == 0xE0,
       shifted := s.shifted + (if scan in {0x2A, 0x36} then 1 else if scan in {0xAA, 0xB6} then -1 else 0))
  }

  /** The oldest character goes to the process in `keyboard_waiting`, which is made runnable. */
  function Deliver(s: KState): KState
    requires s.waiting.Some? && s.waiting.value < |s.procs| && s.queue != []
  {
    var p := s.waiting.value;
    SetProc(s, p, Proc(Runnable, s.procs[p].regs.(rax := CharToReg(s.queue[0])))).(queue := s.queue[1..])
  }

  function GetChar(s: KState): KState
    requires s.current < |s.procs|
  {
    if s.queue == [] then
      SetProc(s, s.current, s.procs[s.current].(state := Blocked)).(waiting := Some(s.current), reschedule := true)
    else SetRax(s, s.current, CharToReg(s.queue[0])).(queue := s.queue[1..])
  }

  /** Entry point, stack and state as `load_process` sets them. */
  function Load(s: KState, p: nat): KState
    requires p < |s.procs|
  {
    SetProc(s, p, Proc(Runnable, s.procs[p].regs.(rip := UserBase(p), rsp := StackTop(p))))
  }

  // ----- The step

  /** The system calls and the timer: the state after the handler, or `None` for a halt. */
  function Handle(s: KState, e: Event): Option<KState>
    requires s.current < |s.procs| && 4 <= |s.procs| && -0x8000_0000 <= e.listed < 0x8000_0000
  {
    var i := e.regs.intno;
    if i == GETCHAR_INT then Some(GetChar(s))
    else if i == LIST_FILES_INT then if e.fails then None else Some(SetRax(s, s.current, IntToReg(e.listed)))
    else if i == TIMER_INT || i == YIELD_INT then Some(s.(reschedule := true))
    else if i == START_INT then
      if e.regs.rdi in {2, 3} && s.procs[e.regs.rdi].state == Free then Some(Load(s, e.regs.rdi)) else None
    else if i == STOP_INT then
      if e.regs.rdi in {2, 3} && s.procs[e.regs.rdi].state == Runnable
      then Some(SetProc(s, e.regs.rdi, s.procs[e.regs.rdi].(state := Free))) else None
    else if e.fails then None
    else Some(s)
  }

  function Finish(s: KState): Outcome
    requires |s.procs| >= 2 && s.current < |s.procs|
  {
    if !s.reschedule && s.procs[s.current].state == Runnable then Resume(s, false)
    else Schedule(s.(reschedule := false))
  }

  function Save(s: KState, regs: Regs): KState
    requires s.current < |s.procs|
  {
    SetProc(s, s.current, s.procs[s.current].(regs := regs))
  }

  predicate EventOK(e: Event) { -0x8000_0000 <= e.listed < 0x8000_0000 }

  /** The state when the handler is done. */
  datatype Handled = Halted | Done(s: KState) | Woken(s: KState)

  /** Save the registers and handle the interrupt. A key that goes to a process calls `schedule`
      from inside the handler (`Woken`); every other handler returns. */
  function After(n: nat, k: nat, s: KState, e: Event): Handled
    requires Shaped(n, k, s) && EventOK(e)
  {
    var saved := Save(s, e.regs);
    if e.regs.intno == KB_INT then
      var put := KeyPut(k, saved, e.scan, e.ascii);
      if put.waiting.Some? && put.queue != [] then Woken(Deliver(put)) else Done(put)
    else
      match Handle(saved, e)
      case None => Halted
      case Some(s') => Done(s')
  }

  /** `exception`. */
  function Step(n: nat, k: nat, s: KState, e: Event): Outcome
    requires Shaped(n, k, s) && EventOK(e)
  {
    match After(n, k, s, e)
    case Halted => Halt
    case Done(s') => Finish(s')
    case Woken(s') => Schedule(s')
  }
}
