/** Runs from the first state of the system in which a character is lost, and in which a stopped process
    runs again. */
module KernelWitness {
  import opened Bytes
  import opened KernelState
  import opened KernelRuns
  import opened KernelCalls

  // ----- Single steps

  function Trap(regs: Regs, intno: nat, rdi: nat): Event {
    Event(regs.(intno := intno, rdi := rdi), 0, 0, 0, false)
  }

  /** A key with the given character; 0x10 is no special scan code. */
  function Key(regs: Regs, c: Byte): Event {
    Event(regs.(intno := KB_INT), 0x10, c, 0, false)
  }

  lemma StartStep(n: nat, k: nat, s: KState, regs: Regs, p: nat)
    requires Steady(n, k, s) && p in {2, 3} && s.procs[p].state == Free && s.current != p
    ensures StepsTo(n, k, s, Trap(regs, START_INT, p), Load(Save(s, Trap(regs, START_INT, p).regs), p))
  {}

  lemma StopStep(n: nat, k: nat, s: KState, regs: Regs, p: nat)
    requires Steady(n, k, s) && p in {2, 3} && s.procs[p].state == Runnable && s.current != p
    ensures var saved := Save(s, Trap(regs, STOP_INT, p).regs);
            StepsTo(n, k, s, Trap(regs, STOP_INT, p), SetProc(saved, p, saved.procs[p].(state := Free)))
  {}

  lemma TimerStep(n: nat, k: nat, s: KState, regs: Regs)
    requires Steady(n, k, s)
    ensures var saved := Save(s, Trap(regs, TIMER_INT, 0).regs);
            StepsTo(n, k, s, Trap(regs, TIMER_INT, 0), saved.(current := Pick(saved.procs, s.current, n + 1)))
  {}

  lemma GetcharStep(n: nat, k: nat, s: KState, regs: Regs)
    requires Steady(n, k, s) && s.queue == []
    ensures var t := GetChar(Save(s, Trap(regs, GETCHAR_INT, 0).regs));
            StepsTo(n, k, s, Trap(regs, GETCHAR_INT, 0), t.(reschedule := false, current := Pick(t.procs, s.current, n + 1)))
  {}

  /** The process in `keyboard_waiting` gets the character, whatever its state is. */
  function Woke(s: KState, regs: Regs, c: Byte): KState
    requires s.current < |s.procs| && s.waiting.Some? && s.waiting.value < |s.procs|
  {
    var saved, p := Save(s, Key(regs, c).regs), s.waiting.value;
    SetProc(saved, p, Proc(Runnable, saved.procs[p].regs.(rax := CharToReg(c))))
  }

  lemma KeyStep(n: nat, k: nat, s: KState, regs: Regs, c: Byte)
    requires Steady(n, k, s) && s.queue == [] && s.waiting.Some? && c != 0 && !s.extended
    ensures var t := Woke(s, regs, c);
            StepsTo(n, k, s, Key(regs, c), t.(current := Pick(t.procs, s.current, n + 1)))
    ensures Accepted(k, s, Key(regs, c)) == [c]
  {
    hide CharToReg;
    var put := KeyPut(k, Save(s, Key(regs, c).regs), 0x10, c);
    assert put.queue == [c] && put.queue[1..] == [];
    assert Deliver(put) == Woke(s, regs, c);
    assert After(n, k, s, Key(regs, c)) == Woken(Woke(s, regs, c));
  }

  lemma PickNext(procs: seq<Proc>, id: nat, k: nat)
    requires |procs| >= 2 && id < |procs| && k > 0
    ensures var next := NextId(|procs|, id);
            Pick(procs, id, k) == if procs[next].state == Runnable then next else Pick(procs, next, k - 1)
  {}

  // ----- A lost character

  /** The shell starts processes 2 and 3 and calls `getchar`; then "a" and "b" are typed. */
  function StrayEvents(regs: Regs): seq<Event> {
    [Trap(regs, START_INT, 2), Trap(regs, START_INT, 3), Trap(regs, GETCHAR_INT, 0), Key(regs, 0x61), Key(regs, 0x62)]
  }

  function StrayStates(regs: Regs): (ss: seq<KState>)
    ensures |ss| == 6 && ss[0] == Initial(4, regs)
  {
    var e := StrayEvents(regs);
    var s0 := Initial(4, regs);
    var s1 := Load(Save(s0, e[0].regs), 2);
    var s2 := Load(Save(s1, e[1].regs), 3);
    var s3 := GetChar(Save(s2, e[2].regs)).(reschedule := false, current := 2);
    var s4 := Woke(s3, regs, 0x61).(current := 3);
    var s5 := Woke(s4, regs, 0x62).(current := 1);
    [s0, s1, s2, s3, s4, s5]
  }

  /** Who can run, who runs and who waits, along that run. */
  lemma StrayShape(regs: Regs)
    ensures var ss := StrayStates(regs);
            && (forall i :: 0 <= i < 6 ==> Steady(4, 2, ss[i]) && ss[i].queue == [] && !ss[i].extended)
            && (forall i :: 0 <= i < 6 ==> ss[i].procs[0].state == Runnable)
            && ss[0].current == 1 && ss[1].current == 1 && ss[2].current == 1
            && ss[3].current == 2 && ss[4].current == 3 && ss[5].current == 1
            && ss[0].procs[2].state == Free && ss[1].procs[3].state == Free
            && ss[3].waiting == Some(1) && ss[4].waiting == Some(1)
            && ss[2].procs[2].state == Runnable && ss[3].procs[3].state == Runnable && ss[3].procs[1].state == Blocked
            && ss[4].procs[1].state == Runnable && ss[5].procs[1].regs.rax == 0x62
  {}

  lemma StrayRun(regs: Regs)
    ensures Run(4, 2, StrayStates(regs), StrayEvents(regs)) && ReaderRun(1, StrayStates(regs), StrayEvents(regs))
  {
    hide Step, Initial, StrayStates, Pick;
    var ss, es := StrayStates(regs), StrayEvents(regs);
    StrayShape(regs);
    StraySteps(regs);
    forall i | 0 <= i < 5 ensures EventOK(es[i]) && StepsTo(4, 2, ss[i], es[i], ss[i + 1]) && OneReader(1, ss[i], es[i]) {
      assert i == 0 || i == 1 || i == 2 || i == 3 || i == 4;
    }
  }

  lemma StraySteps(regs: Regs)
    ensures var ss, es := StrayStates(regs), StrayEvents(regs);
            && Shaped(4, 2, ss[0]) && Shaped(4, 2, ss[1]) && Shaped(4, 2, ss[2]) && Shaped(4, 2, ss[3]) && Shaped(4, 2, ss[4])
            && StepsTo(4, 2, ss[0], es[0], ss[1]) && StepsTo(4, 2, ss[1], es[1], ss[2]) && StepsTo(4, 2, ss[2], es[2], ss[3])
            && StepsTo(4, 2, ss[3], es[3], ss[4]) && StepsTo(4, 2, ss[4], es[4], ss[5])
            && Accepted(2, ss[3], es[3]) == [0x61] && Accepted(2, ss[4], es[4]) == [0x62]
  {
    hide Step, Initial, Accepted, CharToReg;
    var ss := StrayStates(regs);
    StrayShape(regs);
    StartStep(4, 2, ss[0], regs, 2);
    StartStep(4, 2, ss[1], regs, 3);
    GetcharStep(4, 2, ss[2], regs);
    PickNext(GetChar(Save(ss[2], Trap(regs, GETCHAR_INT, 0).regs)).procs, 1, 5);
    KeyStep(4, 2, ss[3], regs, 0x61);
    PickNext(Woke(ss[3], regs, 0x61).procs, 2, 5);
    KeyStep(4, 2, ss[4], regs, 0x62);
    PickNext(Woke(ss[4], regs, 0x62).procs, 3, 5);
  }

  /** In that run "a" and "b" are accepted, and the one call of `getchar` returns "b". */
  lemma StrayKey(regs: Regs)
    ensures var ss, es := StrayStates(regs), StrayEvents(regs);
            && Run(4, 2, ss, es) && ReaderRun(1, ss, es) && ss[0] == Initial(4, regs)
            && InRange(ss) && HasProc(ss, 1)
            && Accepts(2, ss, es, 0) == [0x61, 0x62] && ss[5].queue == [] && Returned(1, ss, es, 0) == [0x62]
  {
    hide Step, Initial, StrayStates, Accepted, Run;
    var ss, es := StrayStates(regs), StrayEvents(regs);
    StrayShape(regs);
    StrayRun(regs);
    StraySteps(regs);
    NoneAccepted(2, ss[0], es[0]);
    NoneAccepted(2, ss[1], es[1]);
    NoneAccepted(2, ss[2], es[2]);
    assert Accepts(2, ss, es, 5) == [];
    assert Accepts(2, ss, es, 4) == [0x62];
    assert Accepts(2, ss, es, 3) == [0x61, 0x62];
    assert Accepts(2, ss, es, 2) == [0x61, 0x62];
    assert Accepts(2, ss, es, 1) == [0x61, 0x62];
    assert Answer(1, ss, es, 5) == [0x62];
    assert Answer(1, ss, es, 4) == [0x62];
    assert Answer(1, ss, es, 3) == [0x62];
    assert Returned(1, ss, es, 5) == [];
    assert Returned(1, ss, es, 4) == [];
    assert Returned(1, ss, es, 3) == [];
    assert Returned(1, ss, es, 2) == [0x62];
    assert Returned(1, ss, es, 1) == [0x62];
  }

  // ----- A character lost to a restart

  /** The shell starts processes 2 and 3. Process 2 calls `getchar`; "a" is typed while process 3 runs.
      The shell then stops process 2 and starts it anew. */
  function RestartEvents(regs: Regs): seq<Event> {
    [Trap(regs, START_INT, 2), Trap(regs, START_INT, 3), Trap(regs, TIMER_INT, 0), Trap(regs, GETCHAR_INT, 0),
     Key(regs, 0x61), Trap(regs, STOP_INT, 2), Trap(regs, START_INT, 2)]
  }

  function RestartStates(regs: Regs): (ss: seq<KState>)
    ensures |ss| == 8 && ss[0] == Initial(4, regs)
  {
    var e := RestartEvents(regs);
    var s0 := Initial(4, regs);
    var s1 := Load(Save(s0, e[0].regs), 2);
    var s2 := Load(Save(s1, e[1].regs), 3);
    var s3 := Save(s2, e[2].regs).(current := 2);
    var s4 := GetChar(Save(s3, e[3].regs)).(reschedule := false, current := 3);
    var s5 := Woke(s4, regs, 0x61).(current := 1);
    var t5 := Save(s5, e[5].regs);
    var s6 := SetProc(t5, 2, t5.procs[2].(state := Free));
    var s7 := Load(Save(s6, e[6].regs), 2);
    [s0, s1, s2, s3, s4, s5, s6, s7]
  }

  lemma RestartShape(regs: Regs)
    ensures var ss := RestartStates(regs);
            && (forall i :: 0 <= i < 8 ==> Steady(4, 2, ss[i]) && ss[i].queue == [] && !ss[i].extended)
            && (forall i :: 0 <= i < 8 ==> ss[i].procs[1].state == Runnable)
            && ss[0].current == 1 && ss[1].current == 1 && ss[2].current == 1 && ss[3].current == 2
            && ss[4].current == 3 && ss[5].current == 1 && ss[6].current == 1 && ss[7].current == 1
            && ss[4].waiting == Some(2)
            && ss[0].procs[2].state == Free && ss[1].procs[3].state == Free && ss[2].procs[2].state == Runnable
            && ss[3].procs[3].state == Runnable && ss[5].procs[2].state == Runnable && ss[6].procs[2].state == Free
  {
    hide CharToReg;
  }

  lemma RestartSteps(regs: Regs)
    ensures var ss, es := RestartStates(regs), RestartEvents(regs);
            && (forall i :: 0 <= i < 8 ==> Shaped(4, 2, ss[i]))
            && StepsTo(4, 2, ss[0], es[0], ss[1]) && StepsTo(4, 2, ss[1], es[1], ss[2]) && StepsTo(4, 2, ss[2], es[2], ss[3])
            && StepsTo(4, 2, ss[3], es[3], ss[4]) && StepsTo(4, 2, ss[4], es[4], ss[5])
            && StepsTo(4, 2, ss[5], es[5], ss[6]) && StepsTo(4, 2, ss[6], es[6], ss[7])
            && Accepted(2, ss[4], es[4]) == [0x61]
  {
    hide Step, Initial, Accepted, CharToReg;
    var ss := RestartStates(regs);
    RestartShape(regs);
    StartStep(4, 2, ss[0], regs, 2);
    StartStep(4, 2, ss[1], regs, 3);
    TimerStep(4, 2, ss[2], regs);
    PickNext(Save(ss[2], Trap(regs, TIMER_INT, 0).regs).procs, 1, 5);
    GetcharStep(4, 2, ss[3], regs);
    PickNext(GetChar(Save(ss[3], Trap(regs, GETCHAR_INT, 0).regs)).procs, 2, 5);
    KeyStep(4, 2, ss[4], regs, 0x61);
    PickNext(Woke(ss[4], regs, 0x61).procs, 3, 5);
    StopStep(4, 2, ss[5], regs, 2);
    StartStep(4, 2, ss[6], regs, 2);
  }

  /** In that run "a" is accepted, no key is stray, and `getchar` returns nothing. */
  lemma RestartedReader(regs: Regs)
    ensures var ss, es := RestartStates(regs), RestartEvents(regs);
            && Run(4, 2, ss, es) && ReaderRun(2, ss, es) && ss[0] == Initial(4, regs) && ss[7].queue == []
            && InRange(ss) && HasProc(ss, 2)
            && Accepts(2, ss, es, 0) == [0x61] && Returned(2, ss, es, 0) == []
  {
    hide Step, Initial, RestartStates, Accepted, Pick;
    var ss, es := RestartStates(regs), RestartEvents(regs);
    RestartShape(regs);
    RestartSteps(regs);
    forall i | 0 <= i < 7
      ensures EventOK(es[i]) && StepsTo(4, 2, ss[i], es[i], ss[i + 1]) && OneReader(2, ss[i], es[i])
      ensures i != 4 ==> Accepted(2, ss[i], es[i]) == []
    {
      assert i == 0 || i == 1 || i == 2 || i == 3 || i == 4 || i == 5 || i == 6;
      if i != 4 { NoneAccepted(2, ss[i], es[i]); }
    }
    assert Accepts(2, ss, es, 7) == [];
    assert Accepts(2, ss, es, 6) == [];
    assert Accepts(2, ss, es, 5) == [];
    assert Accepts(2, ss, es, 4) == [0x61];
    assert Accepts(2, ss, es, 3) == [0x61];
    assert Accepts(2, ss, es, 2) == [0x61];
    assert Accepts(2, ss, es, 1) == [0x61];
    assert Answer(2, ss, es, 6) == [];
    assert Answer(2, ss, es, 5) == [];
    assert Answer(2, ss, es, 4) == [];
    assert Returned(2, ss, es, 6) == [];
    assert Returned(2, ss, es, 4) == [];
    assert Returned(2, ss, es, 2) == [];
  }

  // ----- A stopped process that runs again

  /** The shell starts process 2, which calls `getchar` in its turn and gets a key. The shell stops it
      in its turn. Then another key is typed. */
  function RevivedEvents(regs: Regs): seq<Event> {
    [Trap(regs, START_INT, 2), Trap(regs, TIMER_INT, 0), Trap(regs, GETCHAR_INT, 0), Key(regs, 0x61),
     Trap(regs, TIMER_INT, 0), Trap(regs, STOP_INT, 2), Key(regs, 0x62)]
  }

  function RevivedStates(regs: Regs): (ss: seq<KState>)
    ensures |ss| == 8 && ss[0] == Initial(4, regs)
  {
    var e := RevivedEvents(regs);
    var s0 := Initial(4, regs);
    var s1 := Load(Save(s0, e[0].regs), 2);
    var s2 := Save(s1, e[1].regs).(current := 2);
    var s3 := GetChar(Save(s2, e[2].regs)).(reschedule := false, current := 1);
    var s4 := Woke(s3, regs, 0x61).(current := 2);
    var s5 := Save(s4, e[4].regs).(current := 1);
    var t5 := Save(s5, e[5].regs);
    var s6 := SetProc(t5, 2, t5.procs[2].(state := Free));
    var s7 := Woke(s6, regs, 0x62).(current := 2);
    [s0, s1, s2, s3, s4, s5, s6, s7]
  }

  lemma RevivedShape(regs: Regs)
    ensures var ss := RevivedStates(regs);
            && (forall i :: 0 <= i < 8 ==> Steady(4, 2, ss[i]) && ss[i].queue == [] && !ss[i].extended)
            && (forall i :: 0 <= i < 8 ==> ss[i].procs[1].state == Runnable && ss[i].procs[3].state == Free)
            && ss[0].current == 1 && ss[1].current == 1 && ss[2].current == 2 && ss[3].current == 1
            && ss[4].current == 2 && ss[5].current == 1 && ss[6].current == 1 && ss[7].current == 2
            && ss[3].waiting == Some(2) && ss[6].waiting == Some(2)
            && ss[0].procs[2].state == Free && ss[1].procs[2].state == Runnable && ss[3].procs[2].state == Blocked
            && ss[4].procs[2].state == Runnable && ss[5].procs[2].state == Runnable
            && ss[6].procs[2].state == Free && ss[7].procs[2].state == Runnable
  {
    hide CharToReg;
  }

  /** Each step of that run; process 2 is stopped in state 6 and runs in state 7, not having been
      started in between. */
  lemma StoppedRunsAgain(regs: Regs)
    ensures var ss, es := RevivedStates(regs), RevivedEvents(regs);
            && Run(4, 2, ss, es) && ss[0] == Initial(4, regs)
            && ss[6].procs[2].state == Free && !Restarts(es[6], 2)
            && ss[7].procs[2].state == Runnable && ss[7].current == 2
  {
    hide Step, Initial, RevivedStates, Pick;
    var ss, es := RevivedStates(regs), RevivedEvents(regs);
    RevivedShape(regs);
    RevivedStart(regs);
    RevivedRest(regs);
    forall i | 0 <= i < 7 ensures EventOK(es[i]) && StepsTo(4, 2, ss[i], es[i], ss[i + 1]) {
      assert i == 0 || i == 1 || i == 2 || i == 3 || i == 4 || i == 5 || i == 6;
    }
  }

  lemma RevivedStart(regs: Regs)
    ensures var ss, es := RevivedStates(regs), RevivedEvents(regs);
            && Shaped(4, 2, ss[0]) && Shaped(4, 2, ss[1]) && Shaped(4, 2, ss[2])
            && StepsTo(4, 2, ss[0], es[0], ss[1]) && StepsTo(4, 2, ss[1], es[1], ss[2]) && StepsTo(4, 2, ss[2], es[2], ss[3])
  {
    hide Step, Initial, CharToReg;
    var ss := RevivedStates(regs);
    RevivedShape(regs);
    StartStep(4, 2, ss[0], regs, 2);
    TimerStep(4, 2, ss[1], regs);
    PickNext(Save(ss[1], Trap(regs, TIMER_INT, 0).regs).procs, 1, 5);
    GetcharStep(4, 2, ss[2], regs);
    var procs := GetChar(Save(ss[2], Trap(regs, GETCHAR_INT, 0).regs)).procs;
    PickNext(procs, 2, 5);
    PickNext(procs, 3, 4);
  }

  lemma RevivedRest(regs: Regs)
    ensures var ss, es := RevivedStates(regs), RevivedEvents(regs);
            && Shaped(4, 2, ss[3]) && Shaped(4, 2, ss[4]) && Shaped(4, 2, ss[5]) && Shaped(4, 2, ss[6])
            && StepsTo(4, 2, ss[3], es[3], ss[4]) && StepsTo(4, 2, ss[4], es[4], ss[5])
            && StepsTo(4, 2, ss[5], es[5], ss[6]) && StepsTo(4, 2, ss[6], es[6], ss[7])
  {
    hide Step, Initial, CharToReg;
    var ss := RevivedStates(regs);
    RevivedShape(regs);
    KeyStep(4, 2, ss[3], regs, 0x61);
    PickNext(Woke(ss[3], regs, 0x61).procs, 1, 5);
    TimerStep(4, 2, ss[4], regs);
    var procs := Save(ss[4], Trap(regs, TIMER_INT, 0).regs).procs;
    PickNext(procs, 2, 5);
    PickNext(procs, 3, 4);
    StopStep(4, 2, ss[5], regs, 2);
    KeyStep(4, 2, ss[6], regs, 0x62);
    PickNext(Woke(ss[6], regs, 0x62).procs, 1, 5);
  }
}
