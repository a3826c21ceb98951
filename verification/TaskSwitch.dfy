/** switch_to, __switch_to, do_fork, kernel_thread and kernel_thread_func, instruction by
    instruction on one processor. */
module TaskSwitch {
  import opened MachineWords
  import opened ContextSwitch
  import opened RingList

  class Cpu {
    const code: Code
    var regs: Regs
    var mem: Memory
    /** The addresses of the tasks' PCBs, and their list nodes. */
    var bases: seq<int>
    var nodes: seq<Node>
    var tssRsp0: int
    /** get_current() */
    var current: nat

    /** The init task at `base`: a sane state if its thread_struct is elsewhere and has the end of
        its stack in rsp0. */
    constructor (code: Code, regs: Regs, mem: Memory, base: int)
      ensures this.code == code && State() == Machine(0, regs, mem, [base], TaskAt(mem, base).rsp0)
      ensures forall room: nat ::
        var thread := Load(mem, base + 40);
        (thread + 64 <= base || base + 32768 <= thread) && Load(mem, thread) == base + 32768 ==> Sane(State(), room)
      ensures fresh(nodes) && Listed()
    {
      this.code, this.regs, this.mem := code, regs, mem;
      bases, tssRsp0, current := [base], TaskAt(mem, base).rsp0, 0;
      var node := new Node();
      nodes := [node];
      new;
      RingList.Init(nodes[0]);
    }

    /** The task ring: every task once, in the order they were made. */
    ghost predicate Listed()
      reads this, nodes
    {
      Ring(nodes) && |nodes| == |bases|
    }

    ghost function State(): Machine
      reads this
    {
      Machine(current, regs, mem, bases, tssRsp0)
    }

    method Push(v: int)
      modifies this`regs, this`mem
      ensures regs == old(regs).(rsp := old(regs.rsp) - 8) && mem == Store(old(mem), regs.rsp, v)
    {
      regs := regs.(rsp := regs.rsp - 8);
      mem := Store(mem, regs.rsp, v);
    }

    method Pop() returns (v: int)
      modifies this`regs
      ensures v == Load(old(mem), old(regs.rsp)) && regs == old(regs).(rsp := old(regs.rsp) + 8)
    {
      v := Load(mem, regs.rsp);
      regs := regs.(rsp := regs.rsp + 8);
    }

    /** Word k of the thread_struct of task s is set through the pointer in its PCB. */
    method PutThread(s: nat, k: nat, v: int)
      requires s < |bases|
      modifies this`mem
      ensures mem == Putting(old(mem), bases[s], k, v)
    {
      mem := Store(mem, Load(mem, bases[s] + 40) + 8 * k, v);
    }

    method GetThread(s: nat, k: nat) returns (v: int)
      requires s < |bases|
      ensures v == ThreadWord(mem, bases[s], k)
    {
      v := Load(mem, Load(mem, bases[s] + 40) + 8 * k);
    }

    /** The frames of __switch_to, any words. */
    method PushFrames(frames: seq<int>)
      modifies this`regs, this`mem
      ensures regs == old(regs).(rsp := old(regs.rsp) - 8 * |frames|)
      ensures SameOutside(old(mem), mem, regs.rsp, old(regs.rsp))
    {
      var i := 0;
      while i < |frames|
        invariant 0 <= i <= |frames| && regs == old(regs).(rsp := old(regs.rsp) - 8 * i)
        invariant SameOutside(old(mem), mem, regs.rsp, old(regs.rsp))
      {
        Push(frames[i]);
        i := i + 1;
      }
    }

    /** fs and gs to prev's thread_struct. */
    method SaveSegments(prev: nat)
      requires prev < |bases|
      modifies this`regs, this`mem
      ensures mem == Putting(Putting(old(mem), bases[prev], 3, regs.fs), bases[prev], 4, regs.gs)
      ensures regs.rsp == old(regs.rsp) && regs.fs == old(regs.fs) && regs.gs == old(regs.gs)
    {
      regs := regs.(rax := regs.fs);
      PutThread(prev, 3, regs.rax);
      regs := regs.(rax := regs.gs);
      PutThread(prev, 4, regs.rax);
    }

    /** fs and gs from next's thread_struct. */
    method LoadSegments(next: nat)
      requires next < |bases|
      modifies this`regs
      ensures regs.fs == ThreadWord(mem, bases[next], 3) && regs.gs == ThreadWord(mem, bases[next], 4)
      ensures regs.rsp == old(regs.rsp)
    {
      var w := GetThread(next, 3);
      regs := regs.(rax := w);
      regs := regs.(fs := regs.rax);
      w := GetThread(next, 4);
      regs := regs.(rax := w);
      regs := regs.(gs := regs.rax);
    }

    /** __switch_to: the TSS, and fs and gs through the thread pointers of both tasks. Its own
        frames lie below the stack pointer it is entered with and are gone when it returns. */
    method SwitchFrames(prev: nat, next: nat, frames: seq<int>)
      requires HousedIn(mem, bases) && prev < |bases| && next < |bases|
      requires bases[next] + FLOOR <= regs.rsp - 8 * |frames| && regs.rsp <= bases[next] + STACK_SIZE
      modifies this`regs, this`mem, this`tssRsp0
      ensures FramesSwitched(old(mem), mem, bases, old(regs.rsp), prev, next, old(regs.fs), old(regs.gs), 8 * |frames|)
      ensures tssRsp0 == ThreadWord(old(mem), bases[next], 0) && regs.rsp == old(regs.rsp)
      ensures regs.fs == ThreadWord(mem, bases[next], 3) && regs.gs == ThreadWord(mem, bases[next], 4)
    {
      PushFrames(frames);
      ghost var mem1 := mem;
      tssRsp0 := GetThread(next, 0);
      SaveSegments(prev);
      LoadSegments(next);
      regs := regs.(rsp := regs.rsp + 8 * |frames|);
      FramesAreSwitched(old(mem), mem1, mem, bases, regs.rsp, prev, next, old(regs.fs), old(regs.gs), 8 * |frames|);
    }

    /** switch_to up to the jump: what it saves for the current task, and the stack and
        start address of the next. */
    method Leave(next: nat, ghost room: nat)
      requires Sane(State(), room) && next < |bases| && room >= 8
      requires Fits(bases[current], regs.rsp - 16, room) && Fits(bases[current], regs.rsp, room)
      modifies this`regs, this`mem
      ensures Left(old(State()), mem, regs.rsp, next, code) && regs.fs == old(regs.fs) && regs.gs == old(regs.gs)
    {
      ghost var m := State();
      Push(regs.rbp);
      Push(regs.rax);
      PutThread(current, 2, regs.rsp);
      ghost var mem1 := mem;
      var w := GetThread(next, 2);
      regs := regs.(rsp := w);
      regs := regs.(rax := code.resume);
      PutThread(current, 1, regs.rax);
      ghost var mem2 := mem;
      w := GetThread(next, 1);
      Push(w);
      LeaveLeaves(m, mem1, mem2, mem, regs.rsp, next, code, room);
    }

    /** The return of __switch_to, and label 1 if the task resumes there. */
    method Arrive(next: nat)
      requires next < |bases|
      requires regs.fs == ThreadWord(mem, bases[next], 3) && regs.gs == ThreadWord(mem, bases[next], 4)
      modifies this`regs
      ensures Arrived(mem, bases[next], regs, old(regs.rsp), code)
    {
      var rip := Pop();
      regs := regs.(rip := rip);
      if regs.rip == code.resume {
        var rax := Pop();
        regs := regs.(rax := rax);
        var rbp := Pop();
        regs := regs.(rbp := rbp);
      }
    }

    /** switch_to and __switch_to up to the return. */
    method Jump(next: nat, frames: seq<int>, ghost room: nat)
      requires Sane(State(), room) && next < |bases| && 8 * (|frames| + 1) <= room
      requires Fits(bases[current], regs.rsp - 16, room) && Fits(bases[current], regs.rsp, room)
      modifies this`regs, this`mem, this`tssRsp0, this`current
      ensures current == next && MemorySwitched(old(State()), mem, regs.rsp, next, code, room)
      ensures tssRsp0 == NextTask(old(State()), next, code).rsp0
      ensures regs.fs == ThreadWord(mem, bases[next], 3) && regs.gs == ThreadWord(mem, bases[next], 4)
    {
      ghost var m := State();
      var prev := current;
      Leave(next, room);
      ghost var mem1, rsp := mem, regs.rsp;
      NextFits(m, mem1, rsp, next, code, room);
      SwitchFrames(prev, next, frames);
      current := next;
      SwitchedMemory(m, mem1, mem, rsp, next, code, room, 8 * |frames|);
    }

    /** switch_to(current, next) */
    method SwitchTo(next: nat, frames: seq<int>, ghost room: nat)
      requires Sane(State(), room) && next < |bases| && 8 * (|frames| + 1) <= room
      requires Fits(bases[current], regs.rsp - 16, room) && Fits(bases[current], regs.rsp, room)
      modifies this`regs, this`mem, this`tssRsp0, this`current
      ensures Switches(old(State()), State(), next, code, room)
    {
      ghost var m := State();
      Jump(next, frames, room);
      ghost var rsp := regs.rsp;
      Arrive(next);
      SwitchIsStep(m, State(), rsp, next, code, room);
    }

    /** The pops of r15 to r8. */
    method PopHighRegs()
      modifies this`regs
      ensures regs == HighPopped(old(regs), mem)
    {
      var w;
      w := Pop(); regs := regs.(r15 := w);
      w := Pop(); regs := regs.(r14 := w);
      w := Pop(); regs := regs.(r13 := w);
      w := Pop(); regs := regs.(r12 := w);
      w := Pop(); regs := regs.(r11 := w);
      w := Pop(); regs := regs.(r10 := w);
      w := Pop(); regs := regs.(r9 := w);
      w := Pop(); regs := regs.(r8 := w);
    }

    /** The pops of rbx to rbp. */
    method PopLowRegs()
      modifies this`regs
      ensures regs == LowPopped(old(regs), mem)
    {
      var w;
      w := Pop(); regs := regs.(rbx := w);
      w := Pop(); regs := regs.(rcx := w);
      w := Pop(); regs := regs.(rdx := w);
      w := Pop(); regs := regs.(rsi := w);
      w := Pop(); regs := regs.(rdi := w);
      w := Pop(); regs := regs.(rbp := w);
    }

    /** The pops of ds, es and rax, and past the rest of pt_regs. */
    method PopSegments()
      modifies this`regs
      ensures regs == SegmentsPopped(old(regs), mem)
    {
      var w;
      w := Pop(); regs := regs.(rax := w);
      regs := regs.(ds := regs.rax);
      w := Pop(); regs := regs.(rax := w);
      regs := regs.(es := regs.rax);
      w := Pop(); regs := regs.(rax := w);
      regs := regs.(rsp := regs.rsp + 0x38);
    }

    /** kernel_thread_func up to its first call. */
    method ThreadFunc()
      modifies this`regs, this`mem
      ensures regs == EnterThread(old(regs), old(mem))
      ensures forall x :: x != regs.rsp ==> Load(mem, x) == Load(old(mem), x)
    {
      PopsEnter(regs, mem);
      PopHighRegs();
      PopLowRegs();
      PopSegments();
      regs := regs.(rdi := regs.rdx);
      Push(regs.rip);
      regs := regs.(rip := regs.rbx);
    }

    /** do_fork: the current task's PCB and the given registers are copied to the vacant area at
        `base`, and the new task joins the ring at its end. Its fs and gs are whatever memory
        held; `pt'` is what is left in the caller's registers. */
    method DoFork(pt: PtRegs, base: int, ghost room: nat) returns (pt': PtRegs)
      requires Sane(State(), room) && Vacant(State(), base) && Listed()
      requires room <= STACK_SIZE - FLOOR - PT_REGS_SIZE
      modifies this`mem, this`bases, this`nodes, nodes
      ensures Forks(old(State()), State(), ForkedFrom(old(State()), base, pt[19], code), room)
      ensures Holds(mem, base + 32576, pt)
      ensures PcbCopied(old(mem), mem, old(bases)[current], base)
      ensures pt' == if TaskOf(old(State()), current).kthread then pt else pt[19 := code.retFromIntr]
      ensures Listed() && old(nodes) < nodes && fresh(nodes[|old(nodes)|])
    {
      JoinRing();
      pt' := AddTask(pt, base, room);
    }

    /** do_fork but for the list. */
    method AddTask(pt: PtRegs, base: int, ghost room: nat) returns (pt': PtRegs)
      requires Sane(State(), room) && Vacant(State(), base)
      requires room <= STACK_SIZE - FLOOR - PT_REGS_SIZE
      modifies this`mem, this`bases
      ensures Forks(old(State()), State(), ForkedFrom(old(State()), base, pt[19], code), room)
      ensures Holds(mem, base + 32576, pt)
      ensures PcbCopied(old(mem), mem, old(bases)[current], base)
      ensures pt' == if TaskOf(old(State()), current).kthread then pt else pt[19 := code.retFromIntr]
    {
      ghost var m := State();
      pt' := MakeTask(pt, base);
      ForkFills(m, State(), pt, base, code, room);
    }

    method MakeTask(pt: PtRegs, base: int) returns (pt': PtRegs)
      requires current < |bases|
      modifies this`mem, this`bases
      ensures mem == ForkMemory(old(mem), old(bases)[current], base, pt, code.retFromIntr)
      ensures bases == old(bases) + [base]
      ensures pt' == if IsKthread(old(mem), old(bases)[current], base, pt) then pt else pt[19 := code.retFromIntr]
    {
      CopyPcb(base);
      CopyIn(base + STACK_SIZE - PT_REGS_SIZE, pt);
      pt' := FillThread(pt, base);
      SetWord(base + 16, TASK_RUNNING);
      bases := bases + [base];
    }

    /** The thread_struct behind the PCB. */
    method FillThread(pt: PtRegs, base: int) returns (pt': PtRegs)
      modifies this`mem
      ensures var rip := if Load(old(mem), base + 24) % 2 == 1 then pt[19] else code.retFromIntr;
        mem == ThreadFilled(old(mem), base, rip)
      ensures pt' == if Load(old(mem), base + 24) % 2 == 1 then pt else pt[19 := code.retFromIntr]
    {
      var thd := base + PCB_SIZE;
      pt' := pt;
      SetWord(thd, base + STACK_SIZE);
      var rip := pt[19];
      if Load(mem, base + 24) % 2 != PF_KTHREAD {
        rip := code.retFromIntr;
        pt' := pt[19 := rip];
      }
      SetWord(thd + 16, base + STACK_SIZE - PT_REGS_SIZE);
      SetWord(thd + 8, rip);
    }

    /** list_init and list_add_to_before the init task's node. */
    method JoinRing()
      requires Ring(nodes)
      modifies this`nodes, nodes
      ensures Ring(nodes) && old(nodes) < nodes && |nodes| == |old(nodes)| + 1 && fresh(nodes[|old(nodes)|])
    {
      var node := new Node();
      RingList.Init(node);
      AddBefore(nodes[0], node, nodes, 0);
      nodes := nodes + [node];
    }

    /** *tsk = *current, and the assignments to pid, state and thread. */
    method CopyPcb(base: int)
      requires current < |bases|
      modifies this`mem
      ensures mem == PcbUpdated(CopyWords(old(mem), base, PcbWords(old(mem), bases[current])), base)
    {
      var w := PcbWords(mem, bases[current]);
      CopyIn(base, w);
      SetWord(base + 56, (Load(mem, base + 56) + 1) % TWO_64);
      SetWord(base + 16, TASK_UNINTERRUPTIBLE);
      SetWord(base + 40, base + PCB_SIZE);
    }

    method SetWord(a: int, v: int)
      modifies this`mem
      ensures mem == Store(old(mem), a, v)
    {
      mem := Store(mem, a, v);
    }

    /** memcpy of whole words. */
    method CopyIn(at: int, words: seq<int>)
      modifies this`mem
      ensures mem == CopyWords(old(mem), at, words)
    {
      var i := 0;
      while i < |words|
        invariant 0 <= i <= |words| && mem == CopyWords(old(mem), at, words[..i])
      {
        assert words[..i + 1][..i] == words[..i];
        mem := Store(mem, at + 8 * i, words[i]);
        i := i + 1;
      }
      assert words[..i] == words;
    }

    /** kernel_thread */
    method KernelThread(fn: int, arg: int, base: int, ghost room: nat)
      requires Sane(State(), room) && Vacant(State(), base) && Listed()
      requires room <= STACK_SIZE - FLOOR - PT_REGS_SIZE
      modifies this`mem, this`bases, this`nodes, nodes
      ensures Forks(old(State()), State(), ForkedFrom(old(State()), base, code.threadFunc, code), room)
      ensures Holds(mem, base + 32576, ThreadRegs(fn, arg, code))
      ensures PcbCopied(old(mem), mem, old(bases)[current], base)
      ensures Listed() && old(nodes) < nodes && fresh(nodes[|old(nodes)|])
    {
      var r: seq<int> := seq(24, _ => 0);
      r := r[8 := fn][10 := arg];
      r := r[14 := KERNEL_DS][15 := KERNEL_DS][20 := KERNEL_CS][23 := KERNEL_DS];
      r := r[21 := 0x200][19 := code.threadFunc];
      assert r == ThreadRegs(fn, arg, code);
      var r' := DoFork(r, base, room);
    }
  }

  // ----- the pops of kernel_thread_func

  function HighPopped(r: Regs, mem: Memory): Regs {
    var sp := r.rsp;
    r.(r15 := Load(mem, sp), r14 := Load(mem, sp + 8), r13 := Load(mem, sp + 16), r12 := Load(mem, sp + 24),
       r11 := Load(mem, sp + 32), r10 := Load(mem, sp + 40), r9 := Load(mem, sp + 48), r8 := Load(mem, sp + 56),
       rsp := sp + 64)
  }

  function LowPopped(r: Regs, mem: Memory): Regs {
    var sp := r.rsp;
    r.(rbx := Load(mem, sp), rcx := Load(mem, sp + 8), rdx := Load(mem, sp + 16), rsi := Load(mem, sp + 24),
       rdi := Load(mem, sp + 32), rbp := Load(mem, sp + 40), rsp := sp + 48)
  }

  function SegmentsPopped(r: Regs, mem: Memory): Regs {
    var sp := r.rsp;
    r.(ds := Load(mem, sp), es := Load(mem, sp + 8), rax := Load(mem, sp + 16), rsp := sp + 80)
  }

  lemma PopsEnter(r: Regs, mem: Memory)
    ensures var s := SegmentsPopped(LowPopped(HighPopped(r, mem), mem), mem);
      EnterThread(r, mem) == s.(rdi := s.rdx, rsp := s.rsp - 8, rip := s.rbx)
  {}

  // ----- stores to PCBs, thread_structs and stacks

  function ThreadWord(mem: Memory, base: int, k: nat): int { Load(mem, Load(mem, base + 40) + 8 * k) }

  function Putting(mem: Memory, base: int, k: nat, v: int): Memory { Store(mem, Load(mem, base + 40) + 8 * k, v) }

  ghost predicate SameOutside(mem: Memory, mem': Memory, lo: int, hi: int) {
    forall x :: !(lo <= x < hi) ==> Load(mem', x) == Load(mem, x)
  }

  ghost predicate SameTasks(mem: Memory, mem': Memory, bases: seq<int>) {
    forall t :: 0 <= t < |bases| ==> TaskAt(mem', bases[t]) == TaskAt(mem, bases[t])
  }

  /** Task s is now `task`, and the others are what they were. */
  ghost predicate TaskSet(mem: Memory, mem': Memory, bases: seq<int>, s: nat, task: Task) {
    forall t :: 0 <= t < |bases| ==> TaskAt(mem', bases[t]) == if t == s then task else TaskAt(mem, bases[t])
  }

  /** The words switch_to writes: 1 is rip, 2 rsp, 3 fs and 4 gs. */
  function WithWord(task: Task, k: nat, v: int): Task {
    if k == 1 then task.(rip := v)
    else if k == 2 then task.(rsp := v)
    else if k == 3 then task.(fs := v)
    else task.(gs := v)
  }

  lemma ThreadsApart(mem: Memory, bases: seq<int>, s: nat, t: nat)
    requires HousedIn(mem, bases) && s < |bases| && t < |bases|
    ensures var thread, thread' := TaskAt(mem, bases[s]).thread, TaskAt(mem, bases[t]).thread;
      && (thread + THREAD_SIZE <= bases[t] || bases[t] + PCB_SIZE <= thread)
      && (s != t ==> thread + THREAD_SIZE <= thread' || thread' + THREAD_SIZE <= thread)
  {
    AreasApart(mem, bases, s, t);
    assert Outside(TaskAt(mem, bases[0]).thread, bases[s]) && Outside(TaskAt(mem, bases[0]).thread, bases[t]);
    assert s > 0 ==> TaskAt(mem, bases[s]).thread == bases[s] + PCB_SIZE;
    assert t > 0 ==> TaskAt(mem, bases[t]).thread == bases[t] + PCB_SIZE;
  }

  lemma WordStored(mem: Memory, base: int, k: nat, v: int)
    requires 1 <= k <= 4
    requires var thread := TaskAt(mem, base).thread; thread + THREAD_SIZE <= base || base + PCB_SIZE <= thread
    ensures TaskAt(Putting(mem, base, k, v), base) == WithWord(TaskAt(mem, base), k, v)
  {}

  lemma WordMissed(mem: Memory, mem': Memory, lo: int, hi: int, base: int)
    requires SameOutside(mem, mem', lo, hi)
    requires hi <= base || base + PCB_SIZE <= lo
    requires var thread := TaskAt(mem, base).thread; hi <= thread || thread + THREAD_SIZE <= lo
    ensures TaskAt(mem', base) == TaskAt(mem, base)
  {}

  /** A store to the thread_struct of a task changes no other task. */
  lemma ThreadStored(mem: Memory, bases: seq<int>, s: nat, k: nat, v: int)
    requires HousedIn(mem, bases) && s < |bases| && 1 <= k <= 4
    ensures TaskSet(mem, Putting(mem, bases[s], k, v), bases, s, WithWord(TaskAt(mem, bases[s]), k, v))
    ensures HousedIn(Putting(mem, bases[s], k, v), bases)
  {
    var mem', thread := Putting(mem, bases[s], k, v), TaskAt(mem, bases[s]).thread;
    forall t | 0 <= t < |bases|
      ensures TaskAt(mem', bases[t])
           == if t == s then WithWord(TaskAt(mem, bases[s]), k, v) else TaskAt(mem, bases[t])
    {
      ThreadsApart(mem, bases, s, t);
      if t == s {
        WordStored(mem, bases[s], k, v);
      } else {
        WordMissed(mem, mem', thread, thread + THREAD_SIZE, bases[t]);
      }
    }
    SameHouses(mem, mem', bases);
  }

  /** What is written to a stack above the thread_struct changes no task. */
  lemma StackStored(mem: Memory, mem': Memory, bases: seq<int>, s: nat, lo: int, hi: int)
    requires HousedIn(mem, bases) && s < |bases|
    requires bases[s] + FLOOR <= lo <= hi <= bases[s] + STACK_SIZE && SameOutside(mem, mem', lo, hi)
    ensures HousedIn(mem', bases) && SameTasks(mem, mem', bases)
  {
    forall t | 0 <= t < |bases|
      ensures TaskAt(mem', bases[t]) == TaskAt(mem, bases[t])
    {
      NoLiveThread(mem, bases, t, s);
      AreasApart(mem, bases, s, t);
      WordMissed(mem, mem', lo, hi, bases[t]);
    }
    SameHouses(mem, mem', bases);
  }

  /** One change after another. */
  lemma SetAgain(mem: Memory, mem1: Memory, mem': Memory, bases: seq<int>, s: nat, task1: Task, task': Task)
    requires TaskSet(mem, mem1, bases, s, task1) && TaskSet(mem1, mem', bases, s, task')
    ensures TaskSet(mem, mem', bases, s, task')
  {}

  lemma SetBetween(mem: Memory, mem1: Memory, mem2: Memory, mem': Memory, bases: seq<int>, s: nat, task: Task)
    requires SameTasks(mem, mem1, bases) && TaskSet(mem1, mem2, bases, s, task) && SameTasks(mem2, mem', bases)
    ensures TaskSet(mem, mem', bases, s, task)
  {}

  // ----- the parts of switch_to

  /** Everything is saved for the current task but fs and gs, and the start address of the next
      one lies on its stack. */
  ghost predicate Left(m: Machine, mem': Memory, rsp: int, next: nat, code: Code)
    requires m.current < |m.bases| && next < |m.bases|
  {
    var prev, task := TaskOf(m, m.current), NextTask(m, next, code);
    && HousedIn(mem', m.bases)
    && TaskSet(m.mem, mem', m.bases, m.current, prev.(rsp := m.regs.rsp - 16, rip := code.resume))
    && rsp == task.rsp - 8 && Load(mem', rsp) == task.rip
    && forall x :: x != rsp && !(prev.thread <= x < prev.thread + THREAD_SIZE) ==> Load(mem', x) == Load(Pushed(m), x)
  }

  lemma LeaveLeaves(m: Machine, mem1: Memory, mem2: Memory, mem': Memory, rsp: int, next: nat, code: Code, room: nat)
    requires Sane(m, room) && next < |m.bases| && room >= 8
    requires Fits(m.bases[m.current], m.regs.rsp - 16, room) && Fits(m.bases[m.current], m.regs.rsp, room)
    requires mem1 == Putting(Pushed(m), m.bases[m.current], 2, m.regs.rsp - 16)
    requires mem2 == Putting(mem1, m.bases[m.current], 1, code.resume)
    requires rsp == ThreadWord(mem1, m.bases[next], 2) - 8
    requires mem' == Store(mem2, rsp, ThreadWord(mem2, m.bases[next], 1))
    ensures Left(m, mem', rsp, next, code)
  {
    RspSaved(m, mem1, room);
    RipSaved(m, mem1, mem2, code);
    assert mem2 == Store(Store(Pushed(m), TaskOf(m, m.current).thread + 16, m.regs.rsp - 16),
                         TaskOf(m, m.current).thread + 8, code.resume);
    NextLoaded(m, mem1, mem2, next, code);
    RipPushed(m, mem2, mem', rsp, next, code, room);
  }

  lemma NextLoaded(m: Machine, mem1: Memory, mem2: Memory, next: nat, code: Code)
    requires m.current < |m.bases| && next < |m.bases|
    requires TaskSet(m.mem, mem1, m.bases, m.current, TaskOf(m, m.current).(rsp := m.regs.rsp - 16))
    requires TaskSet(m.mem, mem2, m.bases, m.current,
                     TaskOf(m, m.current).(rsp := m.regs.rsp - 16, rip := code.resume))
    ensures ThreadWord(mem1, m.bases[next], 2) == NextTask(m, next, code).rsp
    ensures ThreadWord(mem2, m.bases[next], 1) == NextTask(m, next, code).rip
  {
    assert TaskAt(mem1, m.bases[next]).rsp == NextTask(m, next, code).rsp;
    assert TaskAt(mem2, m.bases[next]).rip == NextTask(m, next, code).rip;
  }

  lemma RipPushed(m: Machine, mem2: Memory, mem': Memory, rsp: int, next: nat, code: Code, room: nat)
    requires Sane(m, room) && next < |m.bases| && room >= 8 && HousedIn(mem2, m.bases)
    requires Fits(m.bases[m.current], m.regs.rsp - 16, room)
    requires var prev := TaskOf(m, m.current);
      && TaskSet(m.mem, mem2, m.bases, m.current, prev.(rsp := m.regs.rsp - 16, rip := code.resume))
      && mem2 == Store(Store(Pushed(m), prev.thread + 16, m.regs.rsp - 16), prev.thread + 8, code.resume)
    requires rsp == NextTask(m, next, code).rsp - 8
    requires mem' == Store(mem2, rsp, NextTask(m, next, code).rip)
    ensures Left(m, mem', rsp, next, code)
  {
    var prev := TaskOf(m, m.current);
    assert Fits(m.bases[next], NextTask(m, next, code).rsp, room);
    StackStored(mem2, mem', m.bases, next, rsp, rsp + 8);
    SetBetween(m.mem, m.mem, mem2, mem', m.bases, m.current, prev.(rsp := m.regs.rsp - 16, rip := code.resume));
  }

  lemma RspSaved(m: Machine, mem1: Memory, room: nat)
    requires Sane(m, room)
    requires Fits(m.bases[m.current], m.regs.rsp - 16, room) && Fits(m.bases[m.current], m.regs.rsp, room)
    requires mem1 == Putting(Pushed(m), m.bases[m.current], 2, m.regs.rsp - 16)
    ensures HousedIn(mem1, m.bases)
    ensures TaskSet(m.mem, mem1, m.bases, m.current, TaskOf(m, m.current).(rsp := m.regs.rsp - 16))
    ensures mem1 == Store(Pushed(m), TaskOf(m, m.current).thread + 16, m.regs.rsp - 16)
  {
    var rsp := m.regs.rsp;
    StackStored(m.mem, Pushed(m), m.bases, m.current, rsp - 16, rsp);
    ThreadStored(Pushed(m), m.bases, m.current, 2, rsp - 16);
    assert TaskAt(Pushed(m), m.bases[m.current]) == TaskOf(m, m.current);
    SetBetween(m.mem, Pushed(m), mem1, mem1, m.bases, m.current, TaskOf(m, m.current).(rsp := rsp - 16));
  }

  lemma RipSaved(m: Machine, mem1: Memory, mem2: Memory, code: Code)
    requires m.current < |m.bases| && HousedIn(mem1, m.bases)
    requires TaskSet(m.mem, mem1, m.bases, m.current, TaskOf(m, m.current).(rsp := m.regs.rsp - 16))
    requires mem2 == Putting(mem1, m.bases[m.current], 1, code.resume)
    ensures HousedIn(mem2, m.bases)
    ensures TaskSet(m.mem, mem2, m.bases, m.current, TaskOf(m, m.current).(rsp := m.regs.rsp - 16, rip := code.resume))
    ensures mem2 == Store(mem1, TaskOf(m, m.current).thread + 8, code.resume)
  {
    var prev, rsp := TaskOf(m, m.current), m.regs.rsp - 16;
    ThreadStored(mem1, m.bases, m.current, 1, code.resume);
    assert TaskAt(mem1, m.bases[m.current]) == prev.(rsp := rsp);
    SetAgain(m.mem, mem1, mem2, m.bases, m.current, prev.(rsp := rsp), prev.(rsp := rsp, rip := code.resume));
  }

  /** fs and gs saved for prev, and nothing written besides the frames and its thread_struct. */
  ghost predicate FramesSwitched(
      mem: Memory, mem': Memory, bases: seq<int>, rsp: int, prev: nat, next: nat, fs: int, gs: int, size: nat)
    requires prev < |bases| && next < |bases|
  {
    var thread := TaskAt(mem, bases[prev]).thread;
    && TaskSet(mem, mem', bases, prev, TaskAt(mem, bases[prev]).(fs := fs, gs := gs))
    && forall x :: !(rsp - size <= x < rsp) && !(thread <= x < thread + THREAD_SIZE) ==> Load(mem', x) == Load(mem, x)
  }

  lemma FramesAreSwitched(mem: Memory, mem1: Memory, mem': Memory, bases: seq<int>, rsp: int,
                          prev: nat, next: nat, fs: int, gs: int, size: nat)
    requires HousedIn(mem, bases) && prev < |bases| && next < |bases|
    requires bases[next] + FLOOR <= rsp - size && rsp <= bases[next] + STACK_SIZE
    requires SameOutside(mem, mem1, rsp - size, rsp)
    requires mem' == Putting(Putting(mem1, bases[prev], 3, fs), bases[prev], 4, gs)
    ensures FramesSwitched(mem, mem', bases, rsp, prev, next, fs, gs, size)
    ensures ThreadWord(mem1, bases[next], 0) == ThreadWord(mem, bases[next], 0)
  {
    StackStored(mem, mem1, bases, next, rsp - size, rsp);
    var task := TaskAt(mem, bases[prev]);
    assert TaskAt(mem1, bases[prev]) == task && TaskAt(mem1, bases[next]).rsp0 == TaskAt(mem, bases[next]).rsp0;
    SegmentsSaved(mem1, mem', bases, prev, fs, gs);
    SetBetween(mem, mem1, mem', mem', bases, prev, task.(fs := fs, gs := gs));
  }

  lemma SegmentsSaved(mem: Memory, mem': Memory, bases: seq<int>, prev: nat, fs: int, gs: int)
    requires HousedIn(mem, bases) && prev < |bases|
    requires mem' == Putting(Putting(mem, bases[prev], 3, fs), bases[prev], 4, gs)
    ensures TaskSet(mem, mem', bases, prev, TaskAt(mem, bases[prev]).(fs := fs, gs := gs))
    ensures var thread := TaskAt(mem, bases[prev]).thread;
      SameOutside(mem, mem', thread, thread + THREAD_SIZE)
  {
    var half, task := Putting(mem, bases[prev], 3, fs), TaskAt(mem, bases[prev]);
    ThreadStored(mem, bases, prev, 3, fs);
    assert TaskAt(half, bases[prev]) == task.(fs := fs);
    ThreadStored(half, bases, prev, 4, gs);
    SetAgain(mem, half, mem', bases, prev, task.(fs := fs), task.(fs := fs, gs := gs));
  }

  lemma NextFits(m: Machine, mem1: Memory, rsp: int, next: nat, code: Code, room: nat)
    requires Sane(m, room) && next < |m.bases| && Left(m, mem1, rsp, next, code)
    requires Fits(m.bases[m.current], m.regs.rsp - 16, room)
    ensures Fits(m.bases[next], rsp + 8, room)
  {}

  /** What both parts of switch_to have done to memory. */
  ghost predicate MemorySwitched(m: Machine, mem': Memory, rsp: int, next: nat, code: Code, room: nat)
    requires m.current < |m.bases| && next < |m.bases|
  {
    var prev, task := TaskOf(m, m.current), NextTask(m, next, code);
    && TaskSet(m.mem, mem', m.bases, m.current, Saved(prev, m.regs, code))
    && TaskAt(mem', m.bases[next]) == task
    && rsp == task.rsp - 8 && Load(mem', rsp) == task.rip
    && forall x :: !(task.rsp - room <= x < task.rsp) && !(prev.thread <= x < prev.thread + THREAD_SIZE) ==>
         Load(mem', x) == Load(Pushed(m), x)
  }

  lemma SwitchedMemory(m: Machine, mem1: Memory, mem': Memory, rsp: int, next: nat, code: Code, room: nat, size: nat)
    requires Sane(m, room) && next < |m.bases| && size + 8 <= room && Fits(m.bases[m.current], m.regs.rsp - 16, room)
    requires Left(m, mem1, rsp, next, code)
    requires FramesSwitched(mem1, mem', m.bases, rsp, m.current, next, m.regs.fs, m.regs.gs, size)
    ensures MemorySwitched(m, mem', rsp, next, code, room)
    ensures ThreadWord(mem1, m.bases[next], 0) == NextTask(m, next, code).rsp0
  {
    var prev := TaskOf(m, m.current);
    NextFits(m, mem1, rsp, next, code, room);
    NoLiveThread(m.mem, m.bases, m.current, next);
    assert TaskAt(mem1, m.bases[m.current]) == prev.(rsp := m.regs.rsp - 16, rip := code.resume);
    assert TaskAt(mem1, m.bases[next]).rsp0 == NextTask(m, next, code).rsp0;
    SetAgain(m.mem, mem1, mem', m.bases, m.current, prev.(rsp := m.regs.rsp - 16, rip := code.resume),
             Saved(prev, m.regs, code));
  }

  /** Registers after the return, at label 1 or at a start address. */
  ghost predicate Arrived(mem: Memory, base: int, regs: Regs, rsp: int, code: Code) {
    && regs.fs == ThreadWord(mem, base, 3) && regs.gs == ThreadWord(mem, base, 4) && regs.rip == Load(mem, rsp)
    && if regs.rip == code.resume then
         regs.rsp == rsp + 24 && regs.rax == Load(mem, rsp + 8) && regs.rbp == Load(mem, rsp + 16)
       else regs.rsp == rsp + 8
  }

  lemma SwitchIsStep(m: Machine, m': Machine, rsp: int, next: nat, code: Code, room: nat)
    requires m.current < |m.bases| && next < |m.bases|
    requires m'.current == next && m'.bases == m.bases && m'.tssRsp0 == NextTask(m, next, code).rsp0
    requires MemorySwitched(m, m'.mem, rsp, next, code, room)
    requires Arrived(m'.mem, m.bases[next], m'.regs, rsp, code)
    ensures Switches(m, m', next, code, room)
  {
    forall t | 0 <= t < |m.bases|
      ensures TaskOf(m', t) == if t == m.current then Saved(TaskOf(m, t), m.regs, code) else TaskOf(m, t)
    {
      assert TaskOf(m', t) == TaskAt(m'.mem, m.bases[t]);
    }
  }

  // ----- do_fork

  const TASK_RUNNING: int := 1
  const TASK_UNINTERRUPTIBLE: int := 4
  const PF_KTHREAD: int := 1

  /** The new task, of the kind of its parent. */
  function ForkedFrom(m: Machine, base: int, rip: int, code: Code): Task
    requires m.current < |m.bases|
  {
    Forked(base, TaskOf(m, m.current).kthread, rip, Load(m.mem, base + 112), Load(m.mem, base + 120), code)
  }

  /** The PCB at `base` is the one at `from` before, but that it is running, has the next pid,
      and points to the thread_struct right behind it. The list node is not part of this. */
  ghost predicate PcbCopied(mem: Memory, mem': Memory, from: int, base: int) {
    && Load(mem', base + 16) == 1
    && Load(mem', base + 40) == base + 88
    && Load(mem', base + 56) == (Load(mem, from + 56) + 1) % 0x1_0000_0000_0000_0000
    && Load(mem', base + 24) == Load(mem, from + 24) && Load(mem', base + 32) == Load(mem, from + 32)
    && Load(mem', base + 48) == Load(mem, from + 48) && Load(mem', base + 64) == Load(mem, from + 64)
    && Load(mem', base + 72) == Load(mem, from + 72) && Load(mem', base + 80) == Load(mem, from + 80)
  }

  /** The words of the PCB at `from`. */
  function PcbWords(mem: Memory, from: int): (w: seq<int>)
    ensures |w| == 11 && forall i :: 0 <= i < 11 ==> w[i] == Load(mem, from + 8 * i)
  {
    seq(11, i => Load(mem, from + 8 * i))
  }

  function PcbUpdated(mem: Memory, base: int): Memory {
    Store(Store(Store(mem, base + 56, (Load(mem, base + 56) + 1) % TWO_64), base + 16, TASK_UNINTERRUPTIBLE),
          base + 40, base + PCB_SIZE)
  }

  function ThreadFilled(mem: Memory, base: int, rip: int): Memory {
    Store(Store(Store(mem, base + 88, base + STACK_SIZE), base + 104, base + STACK_SIZE - PT_REGS_SIZE),
          base + 96, rip)
  }

  /** memcpy of whole words. */
  function CopyWords(mem: Memory, at: int, words: seq<int>): Memory {
    if words == [] then mem
    else Store(CopyWords(mem, at, words[..|words| - 1]), at + 8 * (|words| - 1), words[|words| - 1])
  }

  lemma {:induction false} WordsCopied(mem: Memory, at: int, words: seq<int>)
    ensures Holds(CopyWords(mem, at, words), at, words)
    ensures SameOutside(mem, CopyWords(mem, at, words), at, at + 8 * |words|)
  {
    if words != [] {
      WordsCopied(mem, at, words[..|words| - 1]);
    }
  }

  /** The copy of a PCB word by word. */
  lemma PcbFilled(mem: Memory, from: int, base: int)
    ensures var mem' := PcbUpdated(CopyWords(mem, base, PcbWords(mem, from)), base);
      PcbCopied(mem, Store(mem', base + 16, 1), from, base) && SameOutside(mem, mem', base, base + PCB_SIZE)
  {
    var w := PcbWords(mem, from);
    var copied := CopyWords(mem, base, w);
    WordsCopied(mem, base, w);
    assert Load(copied, base + 8 * 3) == w[3] && Load(copied, base + 8 * 4) == w[4];
    assert Load(copied, base + 8 * 6) == w[6] && Load(copied, base + 8 * 7) == w[7];
    assert Load(copied, base + 8 * 8) == w[8] && Load(copied, base + 8 * 9) == w[9];
    assert Load(copied, base + 8 * 10) == w[10];
  }

  /** The copied PCB and registers. */
  function CopiedMemory(mem: Memory, from: int, base: int, pt: PtRegs): Memory {
    CopyWords(PcbUpdated(CopyWords(mem, base, PcbWords(mem, from)), base), base + STACK_SIZE - PT_REGS_SIZE, pt)
  }

  /** tsk->flags & PF_KTHREAD, after the copy */
  predicate IsKthread(mem: Memory, from: int, base: int, pt: PtRegs) {
    Load(CopiedMemory(mem, from, base, pt), base + 24) % 2 == 1
  }

  function ForkMemory(mem: Memory, from: int, base: int, pt: PtRegs, retFromIntr: int): Memory {
    var rip := if IsKthread(mem, from, base, pt) then pt[19] else retFromIntr;
    Store(ThreadFilled(CopiedMemory(mem, from, base, pt), base, rip), base + 16, TASK_RUNNING)
  }

  lemma ForkFills(m: Machine, m': Machine, pt: PtRegs, base: int, code: Code, room: nat)
    requires Sane(m, room) && Vacant(m, base) && room <= STACK_SIZE - FLOOR - PT_REGS_SIZE
    requires m'.mem == ForkMemory(m.mem, m.bases[m.current], base, pt, code.retFromIntr)
    requires m' == m.(mem := m'.mem, bases := m.bases + [base])
    ensures Forks(m, m', ForkedFrom(m, base, pt[19], code), room)
    ensures Holds(m'.mem, base + 32576, pt) && PcbCopied(m.mem, m'.mem, m.bases[m.current], base)
    ensures IsKthread(m.mem, m.bases[m.current], base, pt) <==> TaskOf(m, m.current).kthread
  {
    var from := m.bases[m.current];
    var mem1 := PcbUpdated(CopyWords(m.mem, base, PcbWords(m.mem, from)), base);
    var mem2 := CopiedMemory(m.mem, from, base, pt);
    PcbFilled(m.mem, from, base);
    WordsCopied(mem1, base + STACK_SIZE - PT_REGS_SIZE, pt);
    assert Load(mem2, base + 24) == Load(Store(mem1, base + 16, 1), base + 24) == Load(m.mem, from + 24);
    ForkFilled(m, mem1, mem2, m', pt, base, code, room);
  }

  lemma ForkFilled(m: Machine, mem1: Memory, mem2: Memory, m': Machine, pt: PtRegs, base: int, code: Code, room: nat)
    requires Sane(m, room) && Vacant(m, base) && room <= STACK_SIZE - FLOOR - PT_REGS_SIZE
    requires PcbCopied(m.mem, Store(mem1, base + 16, 1), m.bases[m.current], base)
    requires SameOutside(m.mem, mem1, base, base + PCB_SIZE)
    requires SameOutside(mem1, mem2, base + 32576, base + STACK_SIZE) && Holds(mem2, base + 32576, pt)
    requires var kthread := TaskOf(m, m.current).kthread;
      m'.mem == Store(ThreadFilled(mem2, base, if kthread then pt[19] else code.retFromIntr), base + 16, 1)
    requires m' == m.(mem := m'.mem, bases := m.bases + [base])
    ensures Forks(m, m', ForkedFrom(m, base, pt[19], code), room)
    ensures Holds(m'.mem, base + 32576, pt) && PcbCopied(m.mem, m'.mem, m.bases[m.current], base)
  {
    PcbStays(m.mem, mem1, mem2, m'.mem, m.bases[m.current], base);
    ThreadIsFork(m, mem2, m'.mem, base, pt[19], code);
    AreaIsFork(m, m', ForkedFrom(m, base, pt[19], code), room);
  }

  lemma PcbStays(mem: Memory, mem1: Memory, mem2: Memory, mem': Memory, from: int, base: int)
    requires PcbCopied(mem, Store(mem1, base + 16, 1), from, base)
    requires SameOutside(mem1, mem2, base + FLOOR, base + STACK_SIZE)
    requires Load(mem', base + 16) == 1
    requires forall x :: x !in {base + 16, base + 88, base + 96, base + 104} ==> Load(mem', x) == Load(mem2, x)
    ensures PcbCopied(mem, mem', from, base)
  {
    var set16 := Store(mem1, base + 16, 1);
    assert forall x :: base <= x < base + 88 && x != base + 16 ==> Load(mem', x) == Load(set16, x);
  }

  lemma ThreadIsFork(m: Machine, mem2: Memory, mem': Memory, base: int, rip: int, code: Code)
    requires m.current < |m.bases| && PcbCopied(m.mem, mem', m.bases[m.current], base)
    requires Load(mem2, base + 112) == Load(m.mem, base + 112) && Load(mem2, base + 120) == Load(m.mem, base + 120)
    requires var kthread := TaskOf(m, m.current).kthread;
      mem' == Store(ThreadFilled(mem2, base, if kthread then rip else code.retFromIntr), base + 16, 1)
    ensures TaskAt(mem', base) == ForkedFrom(m, base, rip, code)
  {
    var task, fork := TaskAt(mem', base), ForkedFrom(m, base, rip, code);
    assert task.rsp0 == fork.rsp0 && task.rip == fork.rip && task.rsp == fork.rsp;
    assert task.fs == fork.fs && task.gs == fork.gs;
  }

  /** What is written to a vacant area changes no task, and makes a new one. */
  lemma AreaIsFork(m: Machine, m': Machine, task: Task, room: nat)
    requires Sane(m, room) && Vacant(m, task.base)
    requires m' == m.(mem := m'.mem, bases := m.bases + [task.base]) && TaskAt(m'.mem, task.base) == task
    requires task.thread == task.base + PCB_SIZE && task.rsp0 == task.base + STACK_SIZE
    requires Fits(task.base, task.rsp, room)
    requires SameOutside(m.mem, m'.mem, task.base, task.base + STACK_SIZE)
    ensures Forks(m, m', task, room)
  {
    forall t | 0 <= t < |m.bases|
      ensures TaskOf(m', t) == TaskOf(m, t)
    {
      assert Apart(m.bases[t], task.base);
      assert t > 0 ==> TaskOf(m, t).thread == m.bases[t] + PCB_SIZE;
      WordMissed(m.mem, m'.mem, task.base, task.base + STACK_SIZE, m.bases[t]);
    }
  }
}
