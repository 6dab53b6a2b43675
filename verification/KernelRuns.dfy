/** What holds over all runs of the kernel: who is resumed, round-robin fairness, the keyboard with
    one reader, and isolation of saved registers. */
module KernelRuns {
  import opened Bytes
  import opened KernelState

  // ----- Runs

  /** `states[i]` steps to `states[i + 1]` on `events[i]`. */
  ghost predicate Run(n: nat, k: nat, states: seq<KState>, events: seq<Event>) {
    && |states| == |events| + 1
    && (forall i :: 0 <= i < |states| ==> Shaped(n, k, states[i]))
    && (forall i :: 0 <= i < |events| ==> EventOK(events[i]))
    && (forall i :: 0 <= i < |events| ==> StepsTo(n, k, states[i], events[i], states[i + 1]))
  }

  ghost predicate StepsTo(n: nat, k: nat, s: KState, e: Event, s': KState)
    requires Shaped(n, k, s) && EventOK(e)
  {
    Step(n, k, s, e).Resume? && Step(n, k, s, e).next == s'
  }

  /** The idle process makes no system calls (userspace/p_idle.c). */
  predicate IdleQuiet(s: KState, e: Event) {
    s.current == 0 ==> e.regs.intno == TIMER_INT || e.regs.intno == KB_INT
  }

  ghost predicate QuietRun(states: seq<KState>, events: seq<Event>)
    requires |states| == |events| + 1
  {
    forall i :: 0 <= i < |events| ==> IdleQuiet(states[i], events[i])
  }

  lemma RunPrefix(n: nat, k: nat, states: seq<KState>, events: seq<Event>)
    requires Run(n, k, states, events) && |events| > 0
    ensures Run(n, k, states[..|events|], events[..|events| - 1])
  {
    var m := |events| - 1;
    forall i | 0 <= i < m ensures StepsTo(n, k, states[..|events|][i], events[..m][i], states[..|events|][i + 1]) {
      assert StepsTo(n, k, states[i], events[i], states[i + 1]);
    }
  }

  // ----- The choice of schedule

  /** How many turns after `from` it is the turn of `p`, when the idle process has no turn. */
  function Dist(n: nat, from: nat, p: nat): (d: nat)
    requires n >= 2 && from < n && 1 <= p < n
    ensures 1 <= d <= n - 1
  {
    if p > from then p - from else p + n - 1 - from
  }

  lemma DistNext(n: nat, id: nat, p: nat)
    requires n >= 2 && id < n && 1 <= p < n
    ensures Dist(n, id, p) == 1 <==> p == NextId(n, id)
    ensures p != NextId(n, id) ==> Dist(n, NextId(n, id), p) == Dist(n, id, p) - 1
  {}

  /** `Pick` chooses the nearest runnable process in turn; the idle process only if the next `k` are
      not runnable. */
  lemma {:induction false} PickNearest(procs: seq<Proc>, id: nat, k: nat, p: nat)
    requires |procs| >= 2 && id < |procs| && 1 <= p < |procs|
    requires procs[p].state == Runnable && Dist(|procs|, id, p) <= k
    ensures 1 <= Pick(procs, id, k) && procs[Pick(procs, id, k)].state == Runnable
    ensures Dist(|procs|, id, Pick(procs, id, k)) <= Dist(|procs|, id, p)
    ensures Pick(procs, id, k) != p ==>
              Dist(|procs|, Pick(procs, id, k), p) == Dist(|procs|, id, p) - Dist(|procs|, id, Pick(procs, id, k))
    decreases k
  {
    var n := |procs|;
    var next := NextId(n, id);
    DistNext(n, id, p);
    if procs[next].state != Runnable {
      PickNearest(procs, next, k - 1, p);
      DistNext(n, id, Pick(procs, next, k - 1));
    }
  }

  lemma {:induction false} PickRunnable(procs: seq<Proc>, id: nat, k: nat)
    requires |procs| >= 2 && id < |procs|
    ensures Pick(procs, id, k) == 0 || procs[Pick(procs, id, k)].state == Runnable
    decreases k
  {
    if k > 0 { PickRunnable(procs, NextId(|procs|, id), k - 1); }
  }

  // ----- Who is resumed

  /** At every return to user mode: no scheduling is pending, the resumed process is runnable, and
      the idle process runs only if no other process can. */
  ghost predicate ResumeInv(n: nat, k: nat, s: KState) {
    && Shaped(n, k, s)
    && !s.reschedule
    && s.procs[s.current].state == Runnable
    && s.procs[0].state == Runnable
    && (s.waiting.Some? ==> s.waiting.value != 0)
    && (s.current == 0 ==> forall p :: 1 <= p < n ==> s.procs[p].state != Runnable)
  }

  lemma ScheduleInv(n: nat, k: nat, s: KState)
    requires Shaped(n, k, s) && !s.reschedule && s.procs[0].state == Runnable
    requires s.waiting.Some? ==> s.waiting.value != 0
    ensures ResumeInv(n, k, Schedule(s).next)
  {
    var c := Pick(s.procs, s.current, n + 1);
    PickRunnable(s.procs, s.current, n + 1);
    forall p | 1 <= p < n && s.procs[p].state == Runnable ensures c != 0 {
      PickNearest(s.procs, s.current, n + 1, p);
    }
  }

  /** What the choice of the process to resume leaves alone. */
  lemma StepParts(n: nat, k: nat, s: KState, e: Event)
    requires Shaped(n, k, s) && EventOK(e)
    ensures Step(n, k, s, e).Halt? <==> After(n, k, s, e).Halted?
    ensures !After(n, k, s, e).Halted? ==>
              var t, o := After(n, k, s, e).s, Step(n, k, s, e);
              && |t.procs| == n && t.current == s.current && |t.queue| < k
              && o.next.procs == t.procs && o.next.queue == t.queue && o.next.waiting == t.waiting
              && o.next.current == if o.decided then Pick(t.procs, s.current, n + 1) else s.current
  {
    hide Pick, After;
    if !After(n, k, s, e).Halted? { AfterShaped(n, k, s, e); }
  }

  lemma AfterShaped(n: nat, k: nat, s: KState, e: Event)
    requires Shaped(n, k, s) && EventOK(e) && !After(n, k, s, e).Halted?
    ensures Shaped(n, k, After(n, k, s, e).s) && After(n, k, s, e).s.current == s.current
    ensures e.regs.intno == KB_INT ==>
              After(n, k, s, e).s.reschedule == s.reschedule && After(n, k, s, e).s.waiting == s.waiting
  {
    hide CharToReg, Handle, KeyChar;
    if e.regs.intno != KB_INT { HandleShaped(n, k, Save(s, e.regs), e); }
  }

  lemma HandleShaped(n: nat, k: nat, s: KState, e: Event)
    requires Shaped(n, k, s) && EventOK(e) && Handle(s, e).Some?
    ensures Shaped(n, k, Handle(s, e).value) && Handle(s, e).value.current == s.current
  {
    hide CharToReg, IntToReg;
  }

  lemma StepInv(n: nat, k: nat, s: KState, e: Event, s': KState)
    requires ResumeInv(n, k, s) && EventOK(e) && IdleQuiet(s, e) && StepsTo(n, k, s, e, s')
    ensures ResumeInv(n, k, s')
  {
    hide Pick, CharToReg, IntToReg;
    var a := After(n, k, s, e);
    AfterShaped(n, k, s, e);
    AfterIdle(n, k, s, e);
    if a.Woken? || a.s.reschedule || a.s.procs[s.current].state != Runnable {
      ScheduleInv(n, k, a.s.(reschedule := false));
    }
  }

  /** The idle process stays runnable and never waits for a key; an interrupt that neither schedules
      nor comes from a process changes no process state. */
  lemma AfterIdle(n: nat, k: nat, s: KState, e: Event)
    requires ResumeInv(n, k, s) && EventOK(e) && IdleQuiet(s, e) && !After(n, k, s, e).Halted?
    ensures var t := After(n, k, s, e).s;
            && |t.procs| == n && t.procs[0].state == Runnable && (t.waiting.Some? ==> t.waiting.value != 0)
            && (After(n, k, s, e).Woken? ==> !t.reschedule)
            && (After(n, k, s, e).Done? && !t.reschedule && s.current == 0 ==>
                  forall p :: 1 <= p < n ==> t.procs[p].state == s.procs[p].state)
  {
    hide CharToReg, IntToReg;
  }

  /** The invariant holds in every state of every run. */
  lemma {:induction false} RunInv(n: nat, k: nat, states: seq<KState>, events: seq<Event>)
    requires Run(n, k, states, events) && QuietRun(states, events) && ResumeInv(n, k, states[0])
    ensures forall i :: 0 <= i < |states| ==> ResumeInv(n, k, states[i])
    decreases |events|
  {
    if |events| > 0 {
      var m := |events| - 1;
      RunPrefix(n, k, states, events);
      RunInv(n, k, states[..m + 1], events[..m]);
      assert states[..m + 1][m] == states[m];
      assert StepsTo(n, k, states[m], events[m], states[m + 1]);
      StepInv(n, k, states[m], events[m], states[m + 1]);
      forall i | 0 <= i < |states| ensures ResumeInv(n, k, states[i]) {
        if i <= m { assert states[..m + 1][i] == states[i]; }
      }
    }
  }

  // ----- Fairness

  /** The number of scheduling decisions in a run. */
  ghost function Decisions(n: nat, k: nat, states: seq<KState>, events: seq<Event>): nat
    requires Run(n, k, states, events)
    decreases |events|
  {
    if |events| == 0 then 0
    else
      var m := |events| - 1;
      RunPrefix(n, k, states, events);
      assert StepsTo(n, k, states[m], events[m], states[m + 1]);
      Decisions(n, k, states[..m + 1], events[..m]) + (if Step(n, k, states[m], events[m]).decided then 1 else 0)
  }

  /** While a runnable process waits its turn, every decision brings it nearer. */
  lemma {:induction false} Nearer(n: nat, k: nat, states: seq<KState>, events: seq<Event>, p: nat)
    requires Run(n, k, states, events) && 1 <= p < n
    requires forall i :: 1 <= i < |states| ==> states[i].procs[p].state == Runnable && states[i].current != p
    ensures Dist(n, states[|events|].current, p) + Decisions(n, k, states, events) <= Dist(n, states[0].current, p)
    decreases |events|
  {
    hide Step, Pick, After;
    if |events| > 0 {
      var m := |events| - 1;
      RunPrefix(n, k, states, events);
      var ss := states[..m + 1];
      assert forall i :: 0 <= i < m + 1 ==> ss[i] == states[i];
      Nearer(n, k, ss, events[..m], p);
      assert StepsTo(n, k, states[m], events[m], states[m + 1]);
      StepParts(n, k, states[m], events[m]);
      if Step(n, k, states[m], events[m]).decided {
        PickNearest(states[m + 1].procs, states[m].current, n + 1, p);
      }
    }
  }

  /** A process that stays runnable is resumed within n - 1 scheduling decisions. */
  lemma Fairness(n: nat, k: nat, states: seq<KState>, events: seq<Event>, p: nat)
    requires Run(n, k, states, events) && 1 <= p < n
    requires forall i :: 1 <= i < |states| ==> states[i].procs[p].state == Runnable
    requires Decisions(n, k, states, events) >= n - 1
    ensures exists i :: 1 <= i < |states| && states[i].current == p
  {
    if forall i :: 1 <= i < |states| ==> states[i].current != p {
      Nearer(n, k, states, events, p);
      assert false;
    }
  }

  // ----- The keyboard with one reader

  predicate OneReader(r: nat, s: KState, e: Event) {
    e.regs.intno == GETCHAR_INT ==> s.current == r
  }

  ghost predicate ReaderRun(r: nat, states: seq<KState>, events: seq<Event>)
    requires |states| == |events| + 1
  {
    forall i :: 0 <= i < |events| ==> OneReader(r, states[i], events[i])
  }

  /** A blocked process is the reader, and it is the one in `keyboard_waiting`; once some process is
      there, the ring is empty. */
  ghost predicate KeyboardInv(r: nat, s: KState) {
    && (forall p :: 0 <= p < |s.procs| && s.procs[p].state == Blocked ==> p == r && s.waiting == Some(r))
    && (s.waiting.Some? ==> s.waiting.value == r && s.queue == [])
  }

  lemma StepKeyboard(n: nat, k: nat, r: nat, s: KState, e: Event, s': KState)
    requires Shaped(n, k, s) && EventOK(e) && StepsTo(n, k, s, e, s')
    requires KeyboardInv(r, s) && OneReader(r, s, e)
    ensures KeyboardInv(r, s')
  {
    StepParts(n, k, s, e);
    AfterKeyboard(n, k, r, s, e);
  }

  lemma AfterKeyboard(n: nat, k: nat, r: nat, s: KState, e: Event)
    requires Shaped(n, k, s) && EventOK(e) && !After(n, k, s, e).Halted?
    requires KeyboardInv(r, s) && OneReader(r, s, e)
    ensures KeyboardInv(r, After(n, k, s, e).s)
  {
    hide Handle;
    var saved := Save(s, e.regs);
    if e.regs.intno != KB_INT { HandleKeyboard(saved, e, r); }
  }

  lemma HandleKeyboard(s: KState, e: Event, r: nat)
    requires s.current < |s.procs| && 4 <= |s.procs| && EventOK(e) && Handle(s, e).Some?
    requires KeyboardInv(r, s) && OneReader(r, s, e)
    ensures KeyboardInv(r, Handle(s, e).value)
  {
    hide CharToReg, IntToReg, Load;
    if e.regs.rdi < |s.procs| { LoadKeyboard(s, e.regs.rdi, r); }
  }

  lemma LoadKeyboard(s: KState, p: nat, r: nat)
    requires p < |s.procs| && KeyboardInv(r, s)
    ensures KeyboardInv(r, Load(s, p))
  {}

  /** In every state of every run with one reader. */
  lemma {:induction false} RunKeyboard(n: nat, k: nat, r: nat, states: seq<KState>, events: seq<Event>)
    requires Run(n, k, states, events) && ReaderRun(r, states, events) && KeyboardInv(r, states[0])
    ensures forall i :: 0 <= i < |states| ==> KeyboardInv(r, states[i])
    decreases |events|
  {
    hide Step, KeyboardInv;
    if |events| > 0 {
      var m := |events| - 1;
      var ss, es := states[..m + 1], events[..m];
      RunPrefix(n, k, states, events);
      assert forall i :: 0 <= i < m ==> es[i] == events[i] && ss[i] == states[i];
      RunKeyboard(n, k, r, ss, es);
      assert ss[m] == states[m];
      assert StepsTo(n, k, states[m], events[m], states[m + 1]);
      StepKeyboard(n, k, r, states[m], events[m], states[m + 1]);
      forall i | 0 <= i < |states| ensures KeyboardInv(r, states[i]) {
        if i <= m { assert ss[i] == states[i]; }
      }
    }
  }

  /** Characters the ring took in during a step. */
  function Accepted(k: nat, s: KState, e: Event): seq<Byte>
    requires s.current < |s.procs|
  {
    if e.regs.intno == KB_INT then Taken(k, s, KeyChar(s, e.scan, e.ascii)) else []
  }

  /** A key arrives for a process in `keyboard_waiting` that is not blocked: its character overwrites
      the rax of that process, which did not ask for it. */
  predicate Stray(k: nat, s: KState, e: Event)
    requires s.current < |s.procs|
  {
    && e.regs.intno == KB_INT && s.waiting.Some? && s.waiting.value < |s.procs|
    && s.procs[s.waiting.value].state != Blocked && Accepted(k, s, e) != []
  }

  /** `s` is a state at a return to user mode of a system whose reader is not the idle process. */
  ghost predicate ReaderInv(r: nat, s: KState) {
    && KeyboardInv(r, s) && 1 <= r < |s.procs| && s.current < |s.procs|
    && s.procs[0].state == Runnable && s.procs[s.current].state == Runnable
  }

  /** What one step does to the reader and the ring. */
  ghost predicate ReaderStep(k: nat, r: nat, s: KState, e: Event, s': KState)
    requires s.current < |s.procs| && r < |s.procs| && r < |s'.procs|
  {
    var a, was, now := Accepted(k, s, e), s.procs[r], s'.procs[r];
    (Restarts(e, r) ==> was.state != Blocked) &&
    if e.regs.intno == GETCHAR_INT then
      if s.queue == [] then now.state == Blocked && s'.queue == []
      else now.state != Blocked && now.regs.rax == CharToReg(s.queue[0]) && s'.queue == s.queue[1..]
    else if was.state == Blocked then
      s.queue == [] && s'.queue == [] &&
      if a == [] then now.state == Blocked else |a| == 1 && now.state != Blocked && now.regs.rax == CharToReg(a[0])
    else
      now.state != Blocked &&
      if Stray(k, s, e) then |a| == 1 && s.queue == [] && s'.queue == []
      else s'.queue == s.queue + a && (s.current != r ==> now.regs.rax == was.regs.rax)
  }

  lemma WaitingEmpty(r: nat, s: KState)
    requires KeyboardInv(r, s) && r < |s.procs|
    ensures s.procs[r].state == Blocked ==> s.waiting == Some(r) && s.queue == []
  {}

  lemma HandleGetchar(s: KState, e: Event)
    requires s.current < |s.procs| && 4 <= |s.procs| && EventOK(e) && e.regs.intno == GETCHAR_INT
    ensures Handle(s, e) == Some(GetChar(s))
  {}

  /** A call other than `getchar` leaves the ring alone; it neither blocks nor wakes a process, and sets no
      rax but that of the caller. */
  lemma HandleOther(s: KState, e: Event, p: nat)
    requires s.current < |s.procs| && 4 <= |s.procs| && EventOK(e) && Handle(s, e).Some? && p < |s.procs|
    requires e.regs.intno != GETCHAR_INT
    ensures var s' := Handle(s, e).value;
            && |s'.procs| == |s.procs| && s'.queue == s.queue
            && (s'.procs[p].state == Blocked <==> s.procs[p].state == Blocked)
            && (s.current != p ==> s'.procs[p].regs.rax == s.procs[p].regs.rax)
            && (p == 0 ==> s'.procs[p].state == s.procs[p].state)
            && (Restarts(e, p) ==> s.procs[p].state != Blocked)
  {
    hide IntToReg;
  }

  lemma HandleReader(k: nat, r: nat, s: KState, e: Event)
    requires s.current < |s.procs| && 4 <= |s.procs| && EventOK(e) && Handle(s, e).Some? && e.regs.intno != KB_INT
    requires KeyboardInv(r, s) && 1 <= r < |s.procs| && OneReader(r, s, e) && s.procs[0].state == Runnable
    ensures var s' := Handle(s, e).value;
            |s'.procs| == |s.procs| && s'.procs[0].state == Runnable && ReaderStep(k, r, s, e, s')
  {
    hide CharToReg, Handle, Accepted, KeyboardInv;
    NoneAccepted(k, s, e);
    if e.regs.intno == GETCHAR_INT { HandleGetchar(s, e); } else { HandleOther(s, e, r); HandleOther(s, e, 0); }
    WaitingEmpty(r, s);
    assert s.queue + [] == s.queue;
  }

  lemma KeyReader(n: nat, k: nat, r: nat, s: KState, e: Event)
    requires Shaped(n, k, s) && EventOK(e) && e.regs.intno == KB_INT
    requires KeyboardInv(r, s) && 1 <= r < n && s.procs[0].state == Runnable
    ensures var s' := After(n, k, s, e).s;
            |s'.procs| == n && s'.procs[0].state == Runnable && ReaderStep(k, r, Save(s, e.regs), e, s')
  {
    hide CharToReg, KeyChar;
    SavedKey(k, s, e);
  }

  /** Saving the registers of the current process does not matter to the reader's step. */
  lemma SavedReader(k: nat, r: nat, s: KState, e: Event, s': KState)
    requires s.current < |s.procs| && r < |s.procs| && r < |s'.procs| && ReaderStep(k, r, Save(s, e.regs), e, s')
    ensures ReaderStep(k, r, s, e, s')
  {
    hide CharToReg, KeyChar;
    SavedKey(k, s, e);
  }

  lemma AfterReader(n: nat, k: nat, r: nat, s: KState, e: Event)
    requires Shaped(n, k, s) && EventOK(e) && !After(n, k, s, e).Halted?
    requires ReaderInv(r, s) && OneReader(r, s, e)
    ensures var s' := After(n, k, s, e).s;
            |s'.procs| == n && s'.procs[0].state == Runnable && ReaderStep(k, r, s, e, s')
  {
    hide Handle, ReaderStep, KeyPut, Deliver;
    var saved := Save(s, e.regs);
    if e.regs.intno == KB_INT { KeyReader(n, k, r, s, e); } else { HandleReader(k, r, saved, e); }
    SavedReader(k, r, s, e, After(n, k, s, e).s);
  }

  lemma StepReader(n: nat, k: nat, r: nat, s: KState, e: Event, s': KState)
    requires Shaped(n, k, s) && EventOK(e) && StepsTo(n, k, s, e, s')
    requires ReaderInv(r, s) && OneReader(r, s, e)
    ensures ReaderInv(r, s') && |s'.procs| == n && ReaderStep(k, r, s, e, s')
  {
    hide After, Pick, KeyboardInv, CharToReg, Accepted, Stray;
    StepParts(n, k, s, e);
    StepKeyboard(n, k, r, s, e, s');
    AfterReader(n, k, r, s, e);
    var t := After(n, k, s, e).s;
    PickRunnable(t.procs, s.current, n + 1);
  }

  // ----- What getchar returns over a run

  function Regs64(cs: seq<Byte>): (r: seq<nat>)
    ensures |r| == |cs|
  {
    seq(|cs|, i requires 0 <= i < |cs| => CharToReg(cs[i]))
  }

  /** The characters the ring took in from event `i` on. */
  function Accepts(k: nat, states: seq<KState>, events: seq<Event>, i: nat): seq<Byte>
    requires |states| == |events| + 1 && i <= |events| && InRange(states)
    decreases |events| - i
  {
    if i == |events| then [] else Accepted(k, states[i], events[i]) + Accepts(k, states, events, i + 1)
  }

  predicate InRange(states: seq<KState>) {
    forall i :: 0 <= i < |states| ==> states[i].current < |states[i].procs|
  }

  predicate HasProc(states: seq<KState>, r: nat) {
    forall i :: 0 <= i < |states| ==> r < |states[i].procs|
  }

  /** What a `getchar` of process `r` that is under way in `states[j]` returns: the rax with which the
      process is resumed or, if the run ends before that, the rax it is going to be resumed with;
      nothing if it is still blocked, or if the process is started anew instead. */
  function Answer(r: nat, states: seq<KState>, events: seq<Event>, j: nat): seq<nat>
    requires |states| == |events| + 1 && j <= |events| && HasProc(states, r)
    decreases |states| - j
  {
    if states[j].current == r || j == |events| then
      if states[j].procs[r].state == Blocked then [] else [states[j].procs[r].regs.rax]
    else if Restarts(events[j], r) then []
    else Answer(r, states, events, j + 1)
  }

  /** In `states[i]` process `r` has called `getchar` and was neither resumed nor started anew since. */
  predicate UnderWay(r: nat, states: seq<KState>, events: seq<Event>, i: nat)
    requires |states| == |events| + 1 && i <= |events|
  {
    && i > 0 && states[i].current != r
    && (events[i - 1].regs.intno == GETCHAR_INT || (UnderWay(r, states, events, i - 1) && !Restarts(events[i - 1], r)))
  }

  /** The reader is started anew before it took the answer of its `getchar`. */
  predicate Abandons(r: nat, states: seq<KState>, events: seq<Event>, i: nat)
    requires |states| == |events| + 1 && i < |events|
  {
    Restarts(events[i], r) && UnderWay(r, states, events, i)
  }

  /** What the `getchar` calls from event `i` on return, in the order of the calls. */
  function Returned(r: nat, states: seq<KState>, events: seq<Event>, i: nat): seq<nat>
    requires |states| == |events| + 1 && i <= |events| && HasProc(states, r)
    decreases |events| - i
  {
    if i == |events| then []
    else
      (if events[i].regs.intno == GETCHAR_INT then Answer(r, states, events, i + 1) else [])
      + Returned(r, states, events, i + 1)
  }

  ghost predicate NoneLost(k: nat, r: nat, states: seq<KState>, events: seq<Event>, from: nat := 0)
    requires |states| == |events| + 1 && InRange(states)
  {
    forall i :: from <= i < |events| ==> !Stray(k, states[i], events[i]) && !Abandons(r, states, events, i)
  }

  /** Returned from `i` on, after the answer of a call that is under way (`out`), and queued in the end. */
  function Delivered(r: nat, states: seq<KState>, events: seq<Event>, i: nat, out: bool): seq<nat>
    requires |states| == |events| + 1 && i <= |events| && HasProc(states, r)
  {
    (if out then Answer(r, states, events, i) else []) + (Returned(r, states, events, i) + Regs64(states[|events|].queue))
  }

  /** The character of an answered call that is under way, then the queued and the accepted ones. */
  function Supplied(k: nat, r: nat, states: seq<KState>, events: seq<Event>, i: nat, out: bool): seq<nat>
    requires |states| == |events| + 1 && i <= |events| && InRange(states) && HasProc(states, r)
  {
    (if out && states[i].procs[r].state != Blocked then [states[i].procs[r].regs.rax] else [])
    + Regs64(states[i].queue + Accepts(k, states, events, i))
  }

  /** Whether a call is under way after event `e`, if `out` says so before it. */
  predicate StillOut(r: nat, e: Event, out: bool) {
    e.regs.intno == GETCHAR_INT || (out && !Restarts(e, r))
  }

  lemma DeliveredStep(r: nat, states: seq<KState>, events: seq<Event>, i: nat, out: bool)
    requires |states| == |events| + 1 && i < |events| && HasProc(states, r)
    requires states[i].current == r ==> !out
    requires events[i].regs.intno == GETCHAR_INT ==> states[i].current == r
    ensures Delivered(r, states, events, i, out) == Delivered(r, states, events, i + 1, StillOut(r, events[i], out))
  {
    var q := Regs64(states[|events|].queue);
    if events[i].regs.intno == GETCHAR_INT {
      var a, t := Answer(r, states, events, i + 1), Returned(r, states, events, i + 1);
      assert Returned(r, states, events, i) == a + t;
      assert [] + ((a + t) + q) == a + (t + q);
    } else {
      assert Returned(r, states, events, i) == Returned(r, states, events, i + 1);
    }
  }

  lemma SuppliedStep(k: nat, r: nat, states: seq<KState>, events: seq<Event>, i: nat, out: bool)
    requires |states| == |events| + 1 && i < |events| && InRange(states) && HasProc(states, r)
    requires ReaderStep(k, r, states[i], events[i], states[i + 1])
    requires states[i].current == r ==> !out
    requires events[i].regs.intno == GETCHAR_INT ==> states[i].current == r
    requires states[i].procs[r].state == Blocked ==> out && states[i].waiting == Some(r)
    ensures var here := Supplied(k, r, states, events, i, out);
            var next := Supplied(k, r, states, events, i + 1, StillOut(r, events[i], out));
            if Stray(k, states[i], events[i]) || (out && Restarts(events[i], r)) then |here| == |next| + 1 else here == next
  {
    hide CharToReg, Accepts, Accepted, Regs64;
    var s, e, s' := states[i], events[i], states[i + 1];
    var a, rest := Accepted(k, s, e), Accepts(k, states, events, i + 1);
    SuppliedSplit(k, states, events, i);
    if e.regs.intno == GETCHAR_INT {
      NoneAccepted(k, s, e);
      assert a + rest == rest;
      if s.queue != [] {
        assert s.queue + rest == [s.queue[0]] + (s.queue[1..] + rest);
        RegsHead(s.queue[0], s.queue[1..] + rest);
      }
    } else if s.procs[r].state == Blocked {
      assert s.queue + (a + rest) == a + rest && s'.queue + rest == rest;
      if a != [] {
        assert a + rest == [a[0]] + rest;
        RegsHead(a[0], rest);
      } else {
        assert a + rest == rest;
      }
    } else if !Stray(k, s, e) {
      assert s.queue + (a + rest) == s'.queue + rest;
    }
    assert |s.queue + (a + rest)| == |s.queue| + |a| + |rest|;
  }

  lemma RegsHead(c: Byte, cs: seq<Byte>)
    ensures Regs64([c] + cs) == [CharToReg(c)] + Regs64(cs)
  {
    hide CharToReg;
  }

  lemma NoneAccepted(k: nat, s: KState, e: Event)
    requires s.current < |s.procs| && e.regs.intno != KB_INT
    ensures Accepted(k, s, e) == []
  {}

  lemma SuppliedSplit(k: nat, states: seq<KState>, events: seq<Event>, i: nat)
    requires |states| == |events| + 1 && i < |events| && InRange(states)
    ensures Accepts(k, states, events, i) == Accepted(k, states[i], events[i]) + Accepts(k, states, events, i + 1)
  {}

  lemma {:induction false} KeyboardSuffix(n: nat, k: nat, r: nat, states: seq<KState>, events: seq<Event>, i: nat, out: bool)
    requires Run(n, k, states, events) && ReaderRun(r, states, events) && i <= |events|
    requires ReaderInv(r, states[i]) && (states[i].procs[r].state == Blocked ==> out)
    requires UnderWay(r, states, events, i) <==> out && states[i].current != r
    ensures InRange(states) && HasProc(states, r)
    ensures var got, all := Delivered(r, states, events, i, out), Supplied(k, r, states, events, i, out);
            |got| <= |all| && if NoneLost(k, r, states, events, i) then got == all else |got| < |all|
    decreases |events| - i, out
  {
    hide Step, Delivered, Supplied, ReaderStep, Stray, Answer, Returned, KeyboardInv, Accepts, Restarts;
    if i == |events| {
      SuffixEnd(k, r, states, events, out);
    } else if out && states[i].current == r {
      KeyboardSuffix(n, k, r, states, events, i, false);
      Resumed(k, r, states, events, i);
    } else {
      var s, e, s' := states[i], events[i], states[i + 1];
      assert OneReader(r, s, e) && StepsTo(n, k, s, e, s');
      StepReader(n, k, r, s, e, s');
      var out' := StillOut(r, e, out);
      NotBlocked(k, r, s, e, s');
      BlockedWaits(r, s);
      KeyboardSuffix(n, k, r, states, events, i + 1, out');
      DeliveredStep(r, states, events, i, out);
      SuppliedStep(k, r, states, events, i, out);
    }
  }

  lemma SuffixEnd(k: nat, r: nat, states: seq<KState>, events: seq<Event>, out: bool)
    requires |states| == |events| + 1 && InRange(states) && HasProc(states, r)
    ensures Delivered(r, states, events, |events|, out) == Supplied(k, r, states, events, |events|, out)
  {
    var q := states[|events|].queue;
    assert [] + Regs64(q) == Regs64(q) && q + [] == q;
  }

  lemma Resumed(k: nat, r: nat, states: seq<KState>, events: seq<Event>, i: nat)
    requires |states| == |events| + 1 && i <= |events| && InRange(states) && HasProc(states, r)
    requires states[i].current == r && states[i].procs[r].state != Blocked
    ensures var rax := states[i].procs[r].regs.rax;
            && Delivered(r, states, events, i, true) == [rax] + Delivered(r, states, events, i, false)
            && Supplied(k, r, states, events, i, true) == [rax] + Supplied(k, r, states, events, i, false)
  {
    hide Returned, Accepts;
  }

  lemma NotBlocked(k: nat, r: nat, s: KState, e: Event, s': KState)
    requires s.current < |s.procs| && r < |s.procs| && r < |s'.procs| && ReaderStep(k, r, s, e, s')
    ensures s'.procs[r].state == Blocked ==>
              e.regs.intno == GETCHAR_INT || (s.procs[r].state == Blocked && !Restarts(e, r))
  {}

  lemma BlockedWaits(r: nat, s: KState)
    requires ReaderInv(r, s)
    ensures s.procs[r].state == Blocked ==> s.waiting == Some(r)
  {}

  /** With one reader, other than the idle process: the values that its `getchar` calls return, then
      the queued characters, are the accepted characters in order exactly when no key arrives, after
      the reader first blocked, while it is not blocked, and the reader is not started anew with an
      answer that it has not taken. */
  lemma KeyboardOrder(n: nat, k: nat, r: nat, states: seq<KState>, events: seq<Event>)
    requires Run(n, k, states, events) && ReaderRun(r, states, events)
    requires ReaderInv(r, states[0]) && states[0].procs[r].state != Blocked
    ensures InRange(states) && HasProc(states, r)
    ensures Returned(r, states, events, 0) + Regs64(states[|events|].queue)
         == Regs64(states[0].queue + Accepts(k, states, events, 0))
       <==> NoneLost(k, r, states, events)
  {
    hide Step, Accepts, Returned;
    KeyboardSuffix(n, k, r, states, events, 0, false);
    var a, b := Returned(r, states, events, 0) + Regs64(states[|events|].queue),
      Regs64(states[0].queue + Accepts(k, states, events, 0));
    assert [] + a == a && [] + b == b;
  }

  /** The state in which `launch_shell` first enters user mode: the idle process and the shell are
      loaded, all processes have the registers `regs` of `init_process`. */
  function Initial(n: nat, regs: Regs): KState
    requires n >= 4
  {
    var blank := KState(seq(n, _ => Proc(Free, regs)), 1, false, [], None, false, 0);
    Load(Load(blank, 0), 1)
  }

  lemma InitialOK(n: nat, k: nat, regs: Regs, r: nat)
    requires 4 <= n <= 127 && k >= 2
    ensures ResumeInv(n, k, Initial(n, regs)) && KeyboardInv(r, Initial(n, regs)) && Initial(n, regs).queue == []
    ensures 1 <= r < n ==> ReaderInv(r, Initial(n, regs)) && Initial(n, regs).procs[r].state != Blocked
  {}

  // ----- Register isolation

  /** Something other than the process itself may set its rax: a key for the process in
      `keyboard_waiting`. */
  predicate KeyFor(k: nat, s: KState, e: Event, p: nat)
    requires s.current < |s.procs|
  {
    e.regs.intno == KB_INT && s.waiting == Some(p) && s.queue + Accepted(k, s, e) != []
  }

  predicate Restarts(e: Event, p: nat) { e.regs.intno == START_INT && e.regs.rdi == p }

  function SansRax(r: Regs): Regs { r.(rax := 0) }

  /** What one step does to the saved registers of a process. */
  lemma StepRegs(n: nat, k: nat, s: KState, e: Event, s': KState, p: nat)
    requires Shaped(n, k, s) && EventOK(e) && StepsTo(n, k, s, e, s') && p < n
    ensures |s'.procs| == n
    ensures var was := if s.current == p then e.regs else s.procs[p].regs;
            && (!Restarts(e, p) ==> SansRax(s'.procs[p].regs) == SansRax(was))
            && (!Restarts(e, p) && s'.procs[p].regs.rax != was.rax ==>
                  || (s.current == p && (e.regs.intno == GETCHAR_INT || e.regs.intno == LIST_FILES_INT))
                  || KeyFor(k, s, e, p))
  {
    hide Step;
    StepParts(n, k, s, e);
    AfterRegs(n, k, s, e, p);
  }

  lemma AfterRegs(n: nat, k: nat, s: KState, e: Event, p: nat)
    requires Shaped(n, k, s) && EventOK(e) && !After(n, k, s, e).Halted? && p < n
    ensures |After(n, k, s, e).s.procs| == n
    ensures var was := if s.current == p then e.regs else s.procs[p].regs;
            var now := After(n, k, s, e).s.procs[p].regs;
            && (!Restarts(e, p) ==> SansRax(now) == SansRax(was))
            && (!Restarts(e, p) && now.rax != was.rax ==>
                  || (s.current == p && (e.regs.intno == GETCHAR_INT || e.regs.intno == LIST_FILES_INT))
                  || KeyFor(k, s, e, p))
  {
    hide Handle, CharToReg;
    var saved := Save(s, e.regs);
    if e.regs.intno != KB_INT { HandleRegs(saved, e, p); }
  }

  lemma HandleRegs(s: KState, e: Event, p: nat)
    requires s.current < |s.procs| && 4 <= |s.procs| && EventOK(e) && Handle(s, e).Some? && p < |s.procs|
    ensures |Handle(s, e).value.procs| == |s.procs|
    ensures var was, now := s.procs[p].regs, Handle(s, e).value.procs[p].regs;
            !Restarts(e, p) ==>
              && SansRax(now) == SansRax(was)
              && (now.rax != was.rax ==> s.current == p && e.regs.intno in {GETCHAR_INT, LIST_FILES_INT})
  {
    hide CharToReg, IntToReg;
  }

  /** From the moment a process enters the kernel with registers `regs` until it is resumed, if it is
      not started anew, its saved registers are `regs` but for rax; and rax is that of `regs` unless
      its own call was `getchar` or `list_files`, or a key came for it. */
  lemma {:induction false} RegisterIsolation(n: nat, k: nat, states: seq<KState>, events: seq<Event>, p: nat)
    requires Run(n, k, states, events) && p < n && |events| > 0 && states[0].current == p
    requires forall i :: 1 <= i < |events| ==> states[i].current != p
    requires forall i :: 0 <= i < |events| ==> !Restarts(events[i], p)
    ensures var now, entry := states[|events|].procs[p].regs, events[0].regs;
            && SansRax(now) == SansRax(entry)
            && (now.rax != entry.rax ==>
                  || entry.intno == GETCHAR_INT || entry.intno == LIST_FILES_INT
                  || exists i :: 0 <= i < |events| && KeyFor(k, states[i], events[i], p))
    decreases |events|
  {
    hide Step, KeyFor;
    var m := |events| - 1;
    assert StepsTo(n, k, states[m], events[m], states[m + 1]);
    StepRegs(n, k, states[m], events[m], states[m + 1], p);
    if m > 0 {
      var ss, es := states[..m + 1], events[..m];
      RunPrefix(n, k, states, events);
      assert forall i :: 0 <= i < m ==> es[i] == events[i] && ss[i] == states[i];
      assert ss[m] == states[m];
      RegisterIsolation(n, k, ss, es, p);
      if i :| 0 <= i < |es| && KeyFor(k, ss[i], es[i], p) {
        assert KeyFor(k, states[i], events[i], p);
      }
    }
  }

  // ----- Stopped processes

  predicate Revives(k: nat, s: KState, e: Event, p: nat)
    requires s.current < |s.procs|
  {
    Restarts(e, p) || KeyFor(k, s, e, p)
  }

  lemma StepStopped(n: nat, k: nat, s: KState, e: Event, s': KState, p: nat)
    requires Shaped(n, k, s) && EventOK(e) && StepsTo(n, k, s, e, s') && p < n
    requires s.procs[p].state == Free && s.current != p
    ensures |s'.procs| == n && (s'.procs[p].state == Free <==> !Revives(k, s, e, p))
  {
    hide Step;
    StepParts(n, k, s, e);
    AfterStopped(n, k, s, e, p);
  }

  lemma AfterStopped(n: nat, k: nat, s: KState, e: Event, p: nat)
    requires Shaped(n, k, s) && EventOK(e) && !After(n, k, s, e).Halted? && p < n
    requires s.procs[p].state == Free && s.current != p
    ensures |After(n, k, s, e).s.procs| == n
    ensures After(n, k, s, e).s.procs[p].state == Free <==> !Revives(k, s, e, p)
  {
    hide CharToReg, Handle, KeyChar, Taken;
    var saved := Save(s, e.regs);
    if e.regs.intno == KB_INT { SavedKey(k, s, e); } else { HandleStopped(saved, e, p); }
  }

  /** Saving registers does not change what a key does. */
  lemma SavedKey(k: nat, s: KState, e: Event)
    requires s.current < |s.procs|
    ensures var t := Save(s, e.regs); Taken(k, t, KeyChar(t, e.scan, e.ascii)) == Taken(k, s, KeyChar(s, e.scan, e.ascii))
  {}

  lemma HandleStopped(s: KState, e: Event, p: nat)
    requires s.current < |s.procs| && 4 <= |s.procs| && EventOK(e) && Handle(s, e).Some? && p < |s.procs|
    requires s.procs[p].state == Free && s.current != p
    ensures |Handle(s, e).value.procs| == |s.procs|
    ensures Handle(s, e).value.procs[p].state == Free <==> !Restarts(e, p)
  {
    hide CharToReg, IntToReg;
  }

  /** A stopped process stays stopped exactly as long as it is not started and no key comes for it:
      `sys_stop` leaves it in `keyboard_waiting`, and `keyboard_handler` makes it runnable again. */
  lemma {:induction false} StoppedStays(n: nat, k: nat, states: seq<KState>, events: seq<Event>, p: nat)
    requires Run(n, k, states, events) && QuietRun(states, events) && ResumeInv(n, k, states[0])
    requires p < n && states[0].procs[p].state == Free
    ensures (forall i :: 0 <= i < |states| ==> states[i].procs[p].state == Free)
       <==> (forall i :: 0 <= i < |events| ==> !Revives(k, states[i], events[i], p))
    decreases |events|
  {
    hide Step, KeyFor, ResumeInv, Revives;
    if |events| > 0 {
      var m := |events| - 1;
      var ss, es := states[..m + 1], events[..m];
      RunPrefix(n, k, states, events);
      assert forall i :: 0 <= i < m ==> es[i] == events[i] && ss[i] == states[i];
      assert ss[m] == states[m];
      StoppedStays(n, k, ss, es, p);
      RunInv(n, k, states, events);
      assert StepsTo(n, k, states[m], events[m], states[m + 1]);
      if states[m].procs[p].state == Free {
        ResumedRuns(n, k, states[m]);
        StepStopped(n, k, states[m], events[m], states[m + 1], p);
      }
      AllFreeStep(states, m, p);
      NoneReviveStep(k, states, events, m, p);
    }
  }

  lemma AllFreeStep(states: seq<KState>, m: nat, p: nat)
    requires |states| == m + 2 && forall i :: 0 <= i < |states| ==> p < |states[i].procs|
    ensures var ss := states[..m + 1];
            (forall i :: 0 <= i < |states| ==> states[i].procs[p].state == Free) <==>
              (forall i :: 0 <= i < |ss| ==> ss[i].procs[p].state == Free) && states[m + 1].procs[p].state == Free
  {
    var ss := states[..m + 1];
    assert forall i :: 0 <= i < |ss| ==> ss[i] == states[i];
  }

  lemma NoneReviveStep(k: nat, states: seq<KState>, events: seq<Event>, m: nat, p: nat)
    requires |events| == m + 1 && |states| == m + 2 && InRange(states)
    ensures var ss, es := states[..m + 1], events[..m];
            (forall i :: 0 <= i < |events| ==> !Revives(k, states[i], events[i], p)) <==>
              (forall i :: 0 <= i < |es| ==> !Revives(k, ss[i], es[i], p)) && !Revives(k, states[m], events[m], p)
  {
    hide Revives;
    var ss, es := states[..m + 1], events[..m];
    assert forall i :: 0 <= i < |es| ==> ss[i] == states[i] && es[i] == events[i];
  }

  lemma ResumedRuns(n: nat, k: nat, s: KState)
    requires ResumeInv(n, k, s)
    ensures s.procs[s.current].state == Runnable
  {}
}
