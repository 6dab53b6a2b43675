/** The kernel variables and the code that updates them in place: kernel/interrupt_handlers.c,
    kernel/process.c (`schedule`, `sys_start`, `sys_stop`) and kernel/shell.c. Each entry into
    the kernel refines `KernelState.Step`. */
module KernelCode {
  import opened Bytes
  import opened KernelState
  import opened UserMemory

  /** The characters between `tail` and `head` of the ring. */
  function Ring(buffer: seq<Byte>, head: nat, tail: nat): (q: seq<Byte>)
    requires head < |buffer| && tail < |buffer|
    ensures |q| == if tail <= head then head - tail else |buffer| - tail + head
  {
    if tail <= head then buffer[tail..head] else buffer[tail..] + buffer[..head]
  }

  /** The code's remainder is a wrap-around. */
  lemma Wrap(x: nat, n: nat)
    requires x < n
    ensures (x + 1) % n == if x + 1 == n then 0 else x + 1
  {}

  lemma RingPut(buffer: seq<Byte>, head: nat, tail: nat, c: Byte)
    requires head < |buffer| && tail < |buffer|
    ensures var next := if head + 1 == |buffer| then 0 else head + 1;
            && (next == tail <==> |Ring(buffer, head, tail)| + 1 == |buffer|)
            && (next != tail ==> Ring(buffer[head := c], next, tail) == Ring(buffer, head, tail) + [c])
  {
    var next := if head + 1 == |buffer| then 0 else head + 1;
    var after := buffer[head := c];
    if next != tail {
      if tail <= head && next == 0 {
        assert after[tail..] == buffer[tail..head] + [c];
        assert after[..0] == [];
      } else if tail <= head {
        assert after[tail..next] == buffer[tail..head] + [c];
      } else {
        assert after[..next] == buffer[..head] + [c];
        assert after[tail..] == buffer[tail..];
      }
    }
  }

  lemma RingEmpty(buffer: seq<Byte>, head: nat, tail: nat)
    requires head < |buffer| && tail < |buffer|
    ensures Ring(buffer, head, tail) == [] <==> head == tail
  {}

  lemma RingTake(buffer: seq<Byte>, head: nat, tail: nat)
    requires head < |buffer| && tail < |buffer| && head != tail
    ensures var next := if tail + 1 == |buffer| then 0 else tail + 1;
            && Ring(buffer, head, tail) != [] && Ring(buffer, head, tail)[0] == buffer[tail]
            && Ring(buffer, head, next) == Ring(buffer, head, tail)[1..]
  {
    if tail < head {
      assert buffer[tail + 1..head] == buffer[tail..head][1..];
    } else {
      var back, front := buffer[tail..], buffer[..head];
      assert Ring(buffer, head, tail) == back + front;
      assert (back + front)[1..] == back[1..] + front;
      assert back[1..] == buffer[tail + 1..];
      if tail + 1 == |buffer| {
        assert back[1..] + front == buffer[0..head];
      }
    }
  }

  class Kernel {
    const procs: array<Proc>
    const kbBuffer: array<Byte>
    var current: nat
    var reschedule: bool
    var kbHead: nat
    var kbTail: nat
    var keyboardWaiting: Option<nat>
    var extended: bool
    var shifted: int

    ghost predicate Valid()
      reads this
    {
      && 4 <= procs.Length <= 127 && 2 <= kbBuffer.Length
      && current < procs.Length && kbHead < kbBuffer.Length && kbTail < kbBuffer.Length
      && (keyboardWaiting.Some? ==> keyboardWaiting.value < procs.Length)
    }

    ghost function Abs(): (s: KState)
      requires Valid()
      reads this, procs, kbBuffer
      ensures Shaped(procs.Length, kbBuffer.Length, s)
    {
      KState(procs[..], current, reschedule, Ring(kbBuffer[..], kbHead, kbTail), keyboardWaiting, extended, shifted)
    }

    method KbBufferPut(c: Byte)
      requires Valid()
      modifies this`kbHead, kbBuffer
      ensures Valid() && Abs() == old(Abs()).(queue := old(Abs()).queue + Taken(kbBuffer.Length, old(Abs()), Some(c)))
    {
      hide Ring;
      Wrap(kbHead, kbBuffer.Length);
      RingPut(kbBuffer[..], kbHead, kbTail, c);
      var next := (kbHead + 1) % kbBuffer.Length;
      if next != kbTail {
        kbBuffer[kbHead] := c;
        assert kbBuffer[..] == old(kbBuffer[..])[kbHead := c];
        kbHead := next;
      }
    }

    /** Takes the oldest character out of the ring. */
    method KbBufferTake() returns (c: Byte)
      requires Valid() && kbHead != kbTail
      modifies this`kbTail
      ensures Valid() && old(Abs()).queue != [] && c == old(Abs()).queue[0]
      ensures Abs() == old(Abs()).(queue := old(Abs()).queue[1..])
    {
      hide Ring;
      Wrap(kbTail, kbBuffer.Length);
      RingTake(kbBuffer[..], kbHead, kbTail);
      c := kbBuffer[kbTail];
      kbTail := (kbTail + 1) % kbBuffer.Length;
    }

    /** `schedule`, up to the `run` it ends in. */
    method DoSchedule()
      requires Valid()
      modifies this`current
      ensures Valid() && Schedule(old(Abs())) == Resume(Abs(), true)
    {
      var id: nat, n := current, procs.Length;
      for i := 0 to n + 1
        invariant id < n && current == old(current)
        invariant Pick(procs[..], current, n + 1) == Pick(procs[..], id, n + 1 - i)
      {
        Wrap(id, n);
        id := (id + 1) % n;
        if id == 0 {
          id := 1;
        }
        if procs[id].state == Runnable {
          current := id;
          return;
        }
      }
      current := 0;
    }

    /** Returns whether a waiting process was woken and `schedule` chose whom to resume. */
    method KeyboardHandler(scan: Byte, ascii: Byte) returns (woken: bool)
      requires Valid()
      modifies this, procs, kbBuffer
      ensures Valid() && var put := KeyPut(kbBuffer.Length, old(Abs()), scan, ascii);
              && woken == (put.waiting.Some? && put.queue != [])
              && (if woken then Schedule(Deliver(put)) == Resume(Abs(), true) else Abs() == put)
    {
      hide Ring, CharToReg, Pick, Taken, KeyChar;
      KeyInput(scan, ascii);
      ghost var put := Abs();
      RingEmpty(kbBuffer[..], kbHead, kbTail);
      woken := keyboardWaiting.Some? && kbHead != kbTail;
      if woken {
        var p := keyboardWaiting.value;
        var c := KbBufferTake();
        procs[p] := Proc(Runnable, procs[p].regs.(rax := CharToReg(c)));
        assert Abs() == Deliver(put);
        DoSchedule();
      }
    }

    /** The part of `keyboard_handler` that decodes the scan code and fills the ring. */
    method KeyInput(scan: Byte, ascii: Byte)
      requires Valid()
      modifies this`kbHead, this`extended, this`shifted, kbBuffer
      ensures Valid() && Abs() == KeyPut(kbBuffer.Length, old(Abs()), scan, ascii)
    {
      hide Ring;
      ghost var s := Abs();
      if scan == 0xE0 {
        extended := true;
      } else if scan == 0x2A || scan == 0x36 {
        shifted := shifted + 1;
      } else if scan == 0xAA || scan == 0xB6 {
        shifted := shifted - 1;
      } else if extended && scan == 0x4B {
        KbBufferPut(1);
      } else if extended && scan == 0x4D {
        KbBufferPut(2);
      } else if extended && scan == 0x48 {
        KbBufferPut(3);
      } else if ascii != 0 {
        KbBufferPut(ascii);
      }
      if scan != 0xE0 {
        extended := false;
      }
      assert s.queue + [] == s.queue;
    }

    method SysGetchar()
      requires Valid()
      modifies this, procs
      ensures Valid() && Abs() == GetChar(old(Abs()))
    {
      if kbHead == kbTail {
        procs[current] := procs[current].(state := Blocked);
        keyboardWaiting := Some(current);
        reschedule := true;
      } else {
        var c := KbBufferTake();
        procs[current] := procs[current].(regs := procs[current].regs.(rax := CharToReg(c)));
      }
    }

    method SysStart(rdi: nat) returns (ok: bool)
      requires Valid()
      modifies procs
      ensures Valid() && ok == (rdi in {2, 3} && old(Abs()).procs[rdi].state == Free)
      ensures Abs() == if ok then Load(old(Abs()), rdi) else old(Abs())
      ensures ok ==> Abs().procs[rdi].regs.rip == 0x10_0000 + rdi * 0x4_0000 && Abs().procs[rdi].regs.rsp == 0x13_FFF8 + rdi * 0x4_0000
    {
      ok := (rdi == 2 || rdi == 3) && procs[rdi].state == Free;
      if ok {
        procs[rdi] := Proc(Runnable, procs[rdi].regs.(rip := UserBase(rdi), rsp := StackTop(rdi)));
      }
    }

    method SysStop(rdi: nat) returns (ok: bool)
      requires Valid()
      modifies procs
      ensures Valid() && ok == (rdi in {2, 3} && old(Abs()).procs[rdi].state == Runnable)
      ensures Abs() == if ok then SetProc(old(Abs()), rdi, old(Abs()).procs[rdi].(state := Free)) else old(Abs())
    {
      ok := (rdi == 2 || rdi == 3) && procs[rdi].state == Runnable;
      if ok {
        procs[rdi] := procs[rdi].(state := Free);
      }
    }

    /** `exception`: false if the machine halts, and otherwise the state at the return to user mode. */
    method Exception(e: Event) returns (resumed: bool)
      requires Valid() && EventOK(e)
      modifies this, procs, kbBuffer
      ensures Valid() && resumed == Step(procs.Length, kbBuffer.Length, old(Abs()), e).Resume?
      ensures resumed ==> Step(procs.Length, kbBuffer.Length, old(Abs()), e).next == Abs()
    {
      hide Ring, Handle, KeyPut, Deliver, Pick;
      ghost var s := Abs();
      procs[current] := procs[current].(regs := e.regs);
      assert Abs() == Save(s, e.regs);
      resumed := true;
      var woken := false;
      if e.regs.intno == KB_INT {
        woken := KeyboardHandler(e.scan, e.ascii);
      } else {
        resumed := HandleCall(e);
      }
      if !resumed || woken { return; }
      if reschedule || procs[current].state != Runnable {
        reschedule := false;
        DoSchedule();
      }
    }

    /** The branches of the switch in `exception` other than the keyboard; false for a halt. */
    method HandleCall(e: Event) returns (ok: bool)
      requires Valid() && EventOK(e)
      modifies this, procs
      ensures Valid() && ok == Handle(old(Abs()), e).Some?
      ensures ok ==> Abs() == Handle(old(Abs()), e).value
    {
      ok := true;
      if e.regs.intno == GETCHAR_INT {
        SysGetchar();
      } else if e.regs.intno == LIST_FILES_INT {
        if e.fails { return false; }
        procs[current] := procs[current].(regs := procs[current].regs.(rax := IntToReg(e.listed)));
      } else if e.regs.intno == TIMER_INT || e.regs.intno == YIELD_INT {
        reschedule := true;
      } else if e.regs.intno == START_INT {
        ok := SysStart(e.regs.rdi);
      } else if e.regs.intno == STOP_INT {
        ok := SysStop(e.regs.rdi);
      } else {
        ok := !e.fails;
      }
    }
  }
}
