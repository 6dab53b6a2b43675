/** What each interrupt does, by its number: which ones let another process run, which ones halt, and what
    the system calls and the keys leave behind. */
module KernelCalls {
  import opened Bytes
  import opened KernelState
  import opened KernelRuns

  /** A state at a return to user mode. */
  predicate Steady(n: nat, k: nat, s: KState) {
    Shaped(n, k, s) && !s.reschedule && s.procs[s.current].state == Runnable
  }

  // ----- Which interrupts let another process run

  /** The timer (32) and `yield` (0x88). */
  predicate Tick(e: Event) { e.regs.intno == 32 || e.regs.intno == 0x88 }

  /** The scheduler is asked exactly by the timer, by `yield`, by a `getchar` (0x80) that blocks, by a process
      that stops itself (0x8A), and by a key (33) that is delivered; otherwise the caller goes on. */
  lemma DecidesExactly(n: nat, k: nat, s: KState, e: Event)
    requires Steady(n, k, s) && EventOK(e) && Step(n, k, s, e).Resume?
    ensures var o := Step(n, k, s, e);
            && (o.decided <==>
                  || Tick(e)
                  || (e.regs.intno == 0x80 && s.queue == [])
                  || (e.regs.intno == 0x8A && e.regs.rdi == s.current)
                  || (e.regs.intno == 33 && s.waiting.Some? && s.queue + Accepted(k, s, e) != []))
            && (!o.decided ==> o.next.current == s.current)
  {
    hide Pick, CharToReg, IntToReg, KeyChar;
    if e.regs.intno == 33 { SavedKey(k, s, e); }
  }

  /** A tick passes the turn: if any process but the idle one and the caller can run, another process is
      resumed, and it is the one whose turn comes first. */
  lemma TickSwitches(n: nat, k: nat, s: KState, e: Event, q: nat)
    requires Steady(n, k, s) && EventOK(e) && Tick(e) && 1 <= q < n && q != s.current && s.procs[q].state == Runnable
    ensures Step(n, k, s, e).Resume? && Step(n, k, s, e).decided
    ensures var s' := Step(n, k, s, e).next;
            && 1 <= s'.current < n && s'.current != s.current && s.procs[s'.current].state == Runnable
            && Dist(n, s.current, s'.current) <= Dist(n, s.current, q)
  {
    hide Pick;
    var saved := Save(s, e.regs);
    assert After(n, k, s, e) == Done(saved.(reschedule := true));
    PickNearest(saved.procs, s.current, n + 1, q);
  }

  /** The number of ticks. */
  function Ticks(events: seq<Event>): nat {
    if |events| == 0 then 0 else Ticks(events[..|events| - 1]) + (if Tick(events[|events| - 1]) then 1 else 0)
  }

  lemma {:induction false} TicksDecide(n: nat, k: nat, states: seq<KState>, events: seq<Event>)
    requires Run(n, k, states, events)
    ensures Ticks(events) <= Decisions(n, k, states, events)
    decreases |events|
  {
    hide Step;
    if |events| > 0 {
      var m := |events| - 1;
      RunPrefix(n, k, states, events);
      TicksDecide(n, k, states[..m + 1], events[..m]);
      assert StepsTo(n, k, states[m], events[m], states[m + 1]);
      if Tick(events[m]) { TickDecides(n, k, states[m], events[m]); }
    }
  }

  lemma TickDecides(n: nat, k: nat, s: KState, e: Event)
    requires Shaped(n, k, s) && EventOK(e) && Tick(e)
    ensures Step(n, k, s, e).Resume? && Step(n, k, s, e).decided
  {
    hide Pick;
  }

  /** Within n - 1 ticks every process that stays runnable is resumed. */
  lemma TickFairness(n: nat, k: nat, states: seq<KState>, events: seq<Event>, p: nat)
    requires Run(n, k, states, events) && 1 <= p < n && Ticks(events) >= n - 1
    requires forall i :: 1 <= i < |states| ==> states[i].procs[p].state == Runnable
    ensures exists i :: 1 <= i < |states| && states[i].current == p
  {
    TicksDecide(n, k, states, events);
    Fairness(n, k, states, events, p);
  }

  // ----- Which interrupts halt

  /** The machine halts exactly on a `start` (0x89) or `stop` (0x8A) that its assertions refuse, and on a file
      system call that fails. */
  lemma HaltsExactly(n: nat, k: nat, s: KState, e: Event)
    requires Shaped(n, k, s) && EventOK(e)
    ensures Step(n, k, s, e).Halt? <==>
              || (e.regs.intno == 0x89 && !((e.regs.rdi == 2 || e.regs.rdi == 3) && StateOf(s, e.regs.rdi) == Free))
              || (e.regs.intno == 0x8A && !((e.regs.rdi == 2 || e.regs.rdi == 3) && StateOf(s, e.regs.rdi) == Runnable))
              || (e.fails && e.regs.intno !in {32, 33, 0x80, 0x88, 0x89, 0x8A})
  {
    hide Pick, CharToReg, IntToReg;
    StepParts(n, k, s, e);
  }

  function StateOf(s: KState, p: nat): PState {
    if p < |s.procs| then s.procs[p].state else Free
  }

  // ----- What the calls leave behind

  /** `start` loads process 2 or 3: it is runnable, with its entry point and stack pointer, and nobody else
      changes but for the saved registers of the caller. */
  lemma StartCall(n: nat, k: nat, s: KState, e: Event)
    requires Steady(n, k, s) && EventOK(e) && e.regs.intno == 0x89 && Step(n, k, s, e).Resume?
    ensures var s', p := Step(n, k, s, e).next, e.regs.rdi;
            && (p == 2 || p == 3) && p < n && p != s.current && s'.current == s.current && |s'.procs| == n
            && s'.procs[p].state == Runnable
            && s'.procs[p].regs.rip == 0x10_0000 + p * 0x4_0000 && s'.procs[p].regs.rsp == 0x13_FFF8 + p * 0x4_0000
            && s'.procs[p].regs == s.procs[p].regs.(rip := s'.procs[p].regs.rip, rsp := s'.procs[p].regs.rsp)
            && (forall q :: 0 <= q < n && q != p && q != s.current ==> s'.procs[q] == s.procs[q])
            && s'.procs[s.current] == Proc(Runnable, e.regs)
  {
    hide Pick;
  }

  /** `stop` frees process 2 or 3 and nothing else. */
  lemma StopCall(n: nat, k: nat, s: KState, e: Event)
    requires Steady(n, k, s) && EventOK(e) && e.regs.intno == 0x8A && Step(n, k, s, e).Resume?
    ensures var s', p := Step(n, k, s, e).next, e.regs.rdi;
            && (p == 2 || p == 3) && p < n && |s'.procs| == n && s'.procs[p].state == Free
            && (forall q :: 0 <= q < n && q != p ==> s'.procs[q].state == s.procs[q].state)
            && s'.queue == s.queue && s'.waiting == s.waiting
  {
    hide Pick;
    StepParts(n, k, s, e);
  }

  /** `list_files` (0x83) puts the index, or -1, into rax of the caller, which goes on. */
  lemma ListFilesCall(n: nat, k: nat, s: KState, e: Event)
    requires Steady(n, k, s) && EventOK(e) && e.regs.intno == 0x83 && !e.fails
    ensures Step(n, k, s, e).Resume? && !Step(n, k, s, e).decided
    ensures var p := Step(n, k, s, e).next.procs[s.current].regs;
            && SansRax(p) == SansRax(e.regs)
            && p.rax == if e.listed >= 0 then e.listed else 0x1_0000_0000_0000_0000 + e.listed
    ensures e.listed == -1 ==> Step(n, k, s, e).next.procs[s.current].regs.rax == 0xFFFF_FFFF_FFFF_FFFF
  {
    hide Pick;
  }

  /** Every other call changes nothing here but the saved registers of the caller, which goes on. */
  lemma OtherCalls(n: nat, k: nat, s: KState, e: Event)
    requires Steady(n, k, s) && EventOK(e) && !e.fails && e.regs.intno !in {32, 33, 0x80, 0x83, 0x88, 0x89, 0x8A}
    ensures Step(n, k, s, e) == Resume(s.(procs := s.procs[s.current := Proc(Runnable, e.regs)]), false)
  {
    hide Pick;
  }

  // ----- Keys

  /** What a scan code puts into the ring: nothing for 0xE0 and for shift pressed or released; 1, 2 and 3 for
      the left, right and up arrows after 0xE0; otherwise its character, if it has one. */
  lemma KeyTable(k: nat, s: KState, e: Event)
    requires s.current < |s.procs| && e.regs.intno == 33
    ensures e.scan in {0xE0, 0x2A, 0x36, 0xAA, 0xB6} ==> Accepted(k, s, e) == []
    ensures |s.queue| + 1 < k && s.extended && e.scan == 0x4B ==> Accepted(k, s, e) == [1]
    ensures |s.queue| + 1 < k && s.extended && e.scan == 0x4D ==> Accepted(k, s, e) == [2]
    ensures |s.queue| + 1 < k && s.extended && e.scan == 0x48 ==> Accepted(k, s, e) == [3]
    ensures e.scan !in {0xE0, 0x2A, 0x36, 0xAA, 0xB6} && !(s.extended && e.scan in {0x4B, 0x4D, 0x48}) ==>
              Accepted(k, s, e) == if e.ascii != 0 && |s.queue| + 1 < k then [e.ascii] else []
    ensures |s.queue| + 1 >= k ==> Accepted(k, s, e) == []
  {}

  /** The flags after a key, whether it woke a process or not. */
  lemma KeyFlags(n: nat, k: nat, s: KState, e: Event)
    requires Shaped(n, k, s) && EventOK(e) && e.regs.intno == 33
    ensures Step(n, k, s, e).Resume?
    ensures var s' := Step(n, k, s, e).next;
            && s'.extended == (e.scan == 0xE0)
            && s'.shifted == s.shifted + (if e.scan == 0x2A || e.scan == 0x36 then 1 else if e.scan == 0xAA || e.scan == 0xB6 then -1 else 0)
  {
    hide Pick, CharToReg, KeyChar;
  }

  /** A `char` is signed: characters from 0x80 on fill the upper bytes of rax with ones. */
  lemma CharInRax(c: Byte)
    ensures CharToReg(c) % 0x100 == c && (c < 0x80 ==> CharToReg(c) == c)
    ensures c >= 0x80 ==> CharToReg(c) / 0x100 == 0xFF_FFFF_FFFF_FFFF
  {}

  // ----- The first state

  /** The idle process and the shell can run, at their entry points and with full stacks; the shell runs; no
      key is queued and nobody waits. */
  lemma FirstState(n: nat, regs: Regs)
    requires n >= 4
    ensures var s := Initial(n, regs);
            && |s.procs| == n && s.current == 1 && !s.reschedule && s.queue == [] && s.waiting == None && !s.extended && s.shifted == 0
            && (forall p :: 0 <= p < n ==> s.procs[p].state == if p < 2 then Runnable else Free)
            && s.procs[0].regs == regs.(rip := 0x10_0000, rsp := 0x13_FFF8)
            && s.procs[1].regs == regs.(rip := 0x14_0000, rsp := 0x17_FFF8)
            && (forall p :: 2 <= p < n ==> s.procs[p].regs == regs)
  {}
}
