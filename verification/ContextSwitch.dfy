/** Tasks, their PCBs, thread_structs and kernel stacks in memory, and switch_to as steps of a
    machine, over whole runs. */
module ContextSwitch {

  /** STACK_SIZE, sizeof(task_struct), sizeof(thread_struct) and sizeof(struct pt_regs) */
  const STACK_SIZE: int := 32768
  const PCB_SIZE: int := 88
  const THREAD_SIZE: int := 64
  const PT_REGS_SIZE: int := 192

  /** The lowest stack address of a task: its PCB and thread_struct lie below. */
  const FLOOR: int := PCB_SIZE + THREAD_SIZE

  const KERNEL_CS: int := 0x08
  const KERNEL_DS: int := 0x10

  datatype Regs = Regs(
    rax: int, rbx: int, rcx: int, rdx: int, rsi: int, rdi: int, rbp: int, rsp: int, rip: int,
    r8: int, r9: int, r10: int, r11: int, r12: int, r13: int, r14: int, r15: int,
    ds: int, es: int, fs: int, gs: int)

  /** A task as its PCB has it: where its 32 KiB area and its PCB start, whether it has
      PF_KTHREAD, and where its thread_struct is and what it holds. */
  datatype Task = Task(
    base: int, kthread: bool, thread: int, rsp0: int, rip: int, rsp: int, fs: int, gs: int)

  /** Memory by the address of its 8-byte words; those that are not in the map are 0. */
  type Memory = map<int, int>

  function Load(mem: Memory, a: int): int { if a in mem then mem[a] else 0 }

  function Store(mem: Memory, a: int, v: int): (mem': Memory)
    ensures forall x :: Load(mem', x) == if x == a then v else Load(mem, x)
  {
    mem[a := v]
  }

  /** tsk->flags & PF_KTHREAD, tsk->thread and the words behind it */
  function TaskAt(mem: Memory, base: int): Task {
    var thread := Load(mem, base + 40);
    Task(base, Load(mem, base + 24) % 2 == 1, thread,
         Load(mem, thread), Load(mem, thread + 8), Load(mem, thread + 16),
         Load(mem, thread + 24), Load(mem, thread + 32))
  }

  /** `bases` are the addresses of the tasks, the init task first. */
  datatype Machine = Machine(current: nat, regs: Regs, mem: Memory, bases: seq<int>, tssRsp0: int)

  function TaskOf(m: Machine, t: nat): Task
    requires t < |m.bases|
  {
    TaskAt(m.mem, m.bases[t])
  }

  /** Addresses of code: label 1 in switch_to, kernel_thread_func and ret_from_intr. */
  datatype Code = Code(resume: int, threadFunc: int, retFromIntr: int)

  ghost predicate Distinct(code: Code) {
    code.resume != code.threadFunc && code.resume != code.retFromIntr
  }

  /** The stack contents a task leaves behind: from its saved rsp to the top of its area. */
  predicate Live(task: Task, x: int) { task.rsp <= x < task.base + STACK_SIZE }

  predicate Apart(s: int, t: int) { s + STACK_SIZE <= t || t + STACK_SIZE <= s }

  /** The thread_struct at `thread` lies outside the area of the task at `base`. */
  predicate Outside(thread: int, base: int) { thread + THREAD_SIZE <= base || base + STACK_SIZE <= thread }

  /** The saved stack pointer leaves `room` bytes above the PCB for the frames of a switch. */
  predicate Fits(base: int, rsp: int, room: nat) {
    base + FLOOR + room <= rsp <= base + STACK_SIZE
  }

  /** The areas are apart. Every forked task's thread_struct lies right behind its PCB, and the
      init task's, which is a variable of the kernel, outside all areas. */
  ghost predicate HousedIn(mem: Memory, bases: seq<int>) {
    && (forall s, t :: 0 <= s < t < |bases| ==> Apart(bases[s], bases[t]))
    && (forall t :: 1 <= t < |bases| ==> TaskAt(mem, bases[t]).thread == bases[t] + PCB_SIZE)
    && (forall s :: 0 <= s < |bases| ==> Outside(TaskAt(mem, bases[0]).thread, bases[s]))
  }

  ghost predicate Housed(m: Machine) { HousedIn(m.mem, m.bases) }

  ghost predicate Sane(m: Machine, room: nat) {
    && m.current < |m.bases|
    && Housed(m)
    && m.tssRsp0 == TaskOf(m, m.current).rsp0
    && (forall t :: 0 <= t < |m.bases| ==> TaskOf(m, t).rsp0 == m.bases[t] + STACK_SIZE)
    && (forall t :: 0 <= t < |m.bases| && t != m.current ==> Fits(m.bases[t], TaskOf(m, t).rsp, room))
  }

  // ----- steps

  /** The running task does anything to registers and memory, but leaves alone the live
      stacks of the others, and the flags, thread pointer and thread_struct of every task. */
  ghost predicate Works(m: Machine, m': Machine) {
    && m'.current == m.current && m'.bases == m.bases && m'.tssRsp0 == m.tssRsp0
    && (forall t :: 0 <= t < |m.bases| ==> TaskOf(m', t) == TaskOf(m, t))
    && forall t, x :: 0 <= t < |m.bases| && t != m.current && Live(TaskOf(m, t), x) ==>
         Load(m'.mem, x) == Load(m.mem, x)
  }

  /** The state switch_to saves in prev's thread_struct. */
  function Saved(task: Task, regs: Regs, code: Code): Task {
    task.(rsp := regs.rsp - 16, rip := code.resume, fs := regs.fs, gs := regs.gs)
  }

  /** The stack after pushq %rbp and pushq %rax. */
  function Pushed(m: Machine): Memory {
    Store(Store(m.mem, m.regs.rsp - 8, m.regs.rbp), m.regs.rsp - 16, m.regs.rax)
  }

  /** The task switched to, as switch_to finds it. */
  function NextTask(m: Machine, next: nat, code: Code): Task
    requires m.current < |m.bases| && next < |m.bases|
  {
    if next == m.current then Saved(TaskOf(m, next), m.regs, code) else TaskOf(m, next)
  }

  /** switch_to(current, next), up to where the next task goes on: at label 1, with its two
      pops done, for a task that was switched out, at its start address for a new one. The
      frames of the switch lie below next's saved stack pointer. */
  ghost predicate Switches(m: Machine, m': Machine, next: nat, code: Code, room: nat)
    requires m.current < |m.bases| && next < |m.bases|
  {
    var prev, task := TaskOf(m, m.current), NextTask(m, next, code);
    && m'.current == next && m'.bases == m.bases && m'.tssRsp0 == task.rsp0
    && (forall t :: 0 <= t < |m.bases| ==>
          TaskOf(m', t) == if t == m.current then Saved(prev, m.regs, code) else TaskOf(m, t))
    && (forall x :: !(task.rsp - room <= x < task.rsp) && !(prev.thread <= x < prev.thread + THREAD_SIZE) ==>
          Load(m'.mem, x) == Load(Pushed(m), x))
    && m'.regs.fs == task.fs && m'.regs.gs == task.gs && m'.regs.rip == task.rip
    && if task.rip == code.resume then
         m'.regs.rsp == task.rsp + 16
         && m'.regs.rax == Load(m'.mem, task.rsp) && m'.regs.rbp == Load(m'.mem, task.rsp + 8)
       else
         m'.regs.rsp == task.rsp
  }

  /** A new task whose area is apart from all others and from the init task's thread_struct,
      with its own thread_struct in it and a stack pointer that leaves room. */
  ghost predicate Forks(m: Machine, m': Machine, task: Task, room: nat) {
    && m'.current == m.current && m'.bases == m.bases + [task.base] && m'.tssRsp0 == m.tssRsp0
    && TaskOf(m', |m.bases|) == task && task.thread == task.base + PCB_SIZE
    && task.rsp0 == task.base + STACK_SIZE && Fits(task.base, task.rsp, room)
    && Vacant(m, task.base)
    && (forall t :: 0 <= t < |m.bases| ==> TaskOf(m', t) == TaskOf(m, t))
    && forall t, x :: 0 <= t < |m.bases| && t != m.current && Live(TaskOf(m, t), x) ==>
         Load(m'.mem, x) == Load(m.mem, x)
  }

  /** The 32 KiB at `base` belong to no task. */
  ghost predicate Vacant(m: Machine, base: int) {
    && (forall s :: 0 <= s < |m.bases| ==> Apart(m.bases[s], base))
    && (m.bases != [] ==> Outside(TaskOf(m, 0).thread, base))
  }

  /** Areas at different multiples of 32 KiB are apart; such an area belongs to no task if no
      task has its PCB there and the init task's thread_struct is elsewhere. */
  lemma AlignedAreaIsVacant(m: Machine, base: int)
    requires base % 32768 == 0 && forall t :: 0 <= t < |m.bases| ==> m.bases[t] % 32768 == 0 && m.bases[t] != base
    requires m.bases != [] ==>
      var thread := Load(m.mem, m.bases[0] + 40); thread + 64 <= base || base + 32768 <= thread
    ensures Vacant(m, base)
  {}

  ghost predicate Step(m: Machine, m': Machine, code: Code, room: nat) {
    || Works(m, m')
    || (exists task :: Forks(m, m', task, room))
    || (m.current < |m.bases| && m'.current < |m.bases|
        && Fits(m.bases[m.current], m.regs.rsp - 16, room) && Fits(m.bases[m.current], m.regs.rsp, room)
        && Switches(m, m', m'.current, code, room))
  }

  ghost predicate StepAt(states: seq<Machine>, i: nat, code: Code, room: nat)
    requires i + 1 < |states|
  {
    Step(states[i], states[i + 1], code, room)
  }

  ghost predicate Run(states: seq<Machine>, code: Code, room: nat) {
    forall i :: 0 <= i < |states| - 1 ==> StepAt(states, i, code, room)
  }

  // ----- what every step keeps

  /** Steps that keep the areas where they are. */
  lemma SameHouses(mem: Memory, mem': Memory, bases: seq<int>)
    requires HousedIn(mem, bases)
    requires forall t :: 0 <= t < |bases| ==> TaskAt(mem', bases[t]).thread == TaskAt(mem, bases[t]).thread
    ensures HousedIn(mem', bases)
  {}

  lemma WorksKeepsSane(m: Machine, m': Machine, room: nat)
    requires Sane(m, room) && Works(m, m')
    ensures Sane(m', room)
  {
    SameHouses(m.mem, m'.mem, m.bases);
  }

  lemma ForkKeepsHoused(m: Machine, m': Machine, task: Task, room: nat)
    requires Sane(m, room) && Forks(m, m', task, room)
    ensures Housed(m')
  {
    forall s, t | 0 <= s < t < |m'.bases|
      ensures Apart(m'.bases[s], m'.bases[t])
    {
      if t < |m.bases| {
        assert Apart(m.bases[s], m.bases[t]);
      }
    }
    forall s | 0 <= s < |m'.bases|
      ensures Outside(TaskOf(m', 0).thread, m'.bases[s])
    {
      assert TaskOf(m', 0) == TaskOf(m, 0);
      if s < |m.bases| {
        assert Outside(TaskOf(m, 0).thread, m.bases[s]);
      }
    }
  }

  lemma ForkKeepsSane(m: Machine, m': Machine, task: Task, room: nat)
    requires Sane(m, room) && Forks(m, m', task, room)
    ensures Sane(m', room)
  {
    ForkKeepsHoused(m, m', task, room);
  }

  lemma SwitchKeepsSane(m: Machine, m': Machine, code: Code, room: nat)
    requires Sane(m, room) && m'.current < |m.bases|
    requires Fits(m.bases[m.current], m.regs.rsp - 16, room) && Switches(m, m', m'.current, code, room)
    ensures Sane(m', room)
  {
    SameHouses(m.mem, m'.mem, m.bases);
    forall t | 0 <= t < |m.bases|
      ensures TaskOf(m', t).rsp0 == m.bases[t] + STACK_SIZE
      ensures t != m'.current ==> Fits(m.bases[t], TaskOf(m', t).rsp, room)
    {
      assert TaskOf(m', t) == if t == m.current then Saved(TaskOf(m, t), m.regs, code) else TaskOf(m, t);
    }
  }

  lemma StepKeepsSane(m: Machine, m': Machine, code: Code, room: nat)
    requires Sane(m, room) && Step(m, m', code, room)
    ensures Sane(m', room)
  {
    if Works(m, m') {
      WorksKeepsSane(m, m', room);
    } else if task :| Forks(m, m', task, room) {
      ForkKeepsSane(m, m', task, room);
    } else {
      SwitchKeepsSane(m, m', code, room);
    }
  }

  /** In every reachable state no two tasks share a thread_struct, and the thread pointer in the
      PCB of a forked task, at offset 40, is the address right behind that PCB. */
  lemma ThreadsAreOwn(states: seq<Machine>, code: Code, room: nat, i: nat, s: nat, t: nat)
    requires Run(states, code, room) && i < |states| && Sane(states[0], room)
    requires s < t < |states[i].bases|
    ensures var m := states[i];
      var thread, thread' := Load(m.mem, m.bases[s] + 40), Load(m.mem, m.bases[t] + 40);
      && thread' == m.bases[t] + 88 && (s > 0 ==> thread == m.bases[s] + 88)
      && (thread + 64 <= thread' || thread' + 64 <= thread)
  {
    RunKeepsSane(states, code, room, i);
    var m := states[i];
    assert TaskOf(m, t).thread == m.bases[t] + PCB_SIZE;
    assert Apart(m.bases[s], m.bases[t]);
    if s > 0 {
      assert TaskOf(m, s).thread == m.bases[s] + PCB_SIZE;
    } else {
      assert Outside(TaskOf(m, 0).thread, m.bases[t]);
    }
  }

  /** In every reachable state the TSS names the running task's stack, the tasks' areas and
      thread_structs are where they belong, and every task that is not running has room below
      its saved stack pointer. */
  lemma {:induction false} RunKeepsSane(states: seq<Machine>, code: Code, room: nat, i: nat)
    requires Run(states, code, room) && i < |states| && Sane(states[0], room)
    ensures Sane(states[i], room)
  {
    if i != 0 {
      RunKeepsSane(states, code, room, i - 1);
      assert StepAt(states, i - 1, code, room);
      StepKeepsSane(states[i - 1], states[i], code, room);
    }
  }

  /** What a suspended task left is still there. */
  ghost predicate Kept(m: Machine, m': Machine, t: nat) {
    && t < |m.bases| && t < |m'.bases| && TaskOf(m', t) == TaskOf(m, t)
    && forall x :: Live(TaskOf(m, t), x) ==> Load(m'.mem, x) == Load(m.mem, x)
  }

  /** A switch writes to the frames below next's stack pointer, prev's thread_struct and two
      words below prev's stack pointer, and none of them is live in a task besides prev. */
  lemma SwitchKeepsLive(m: Machine, m': Machine, code: Code, room: nat, t: nat, x: int)
    requires Sane(m, room) && m'.current < |m.bases| && m'.current != m.current && room >= 16
    requires Fits(m.bases[m.current], m.regs.rsp - 16, room) && Fits(m.bases[m.current], m.regs.rsp, room)
    requires Switches(m, m', m'.current, code, room)
    requires t < |m.bases| && t != m.current && Live(TaskOf(m, t), x)
    ensures Load(m'.mem, x) == Load(m.mem, x)
  {
    var n, c := m'.current, m.current;
    assert Fits(m.bases[t], TaskOf(m, t).rsp, room) && Fits(m.bases[n], TaskOf(m, n).rsp, room);
    AreasApart(m.mem, m.bases, n, t);
    AreasApart(m.mem, m.bases, c, t);
    NoLiveThread(m.mem, m.bases, c, t);
  }

  lemma AreasApart(mem: Memory, bases: seq<int>, s: nat, t: nat)
    requires HousedIn(mem, bases) && s < |bases| && t < |bases|
    ensures s != t ==> Apart(bases[s], bases[t])
  {}

  /** A thread_struct lies outside the part of any area above the PCB and its thread_struct. */
  lemma NoLiveThread(mem: Memory, bases: seq<int>, s: nat, t: nat)
    requires HousedIn(mem, bases) && s < |bases| && t < |bases|
    ensures var thread := TaskAt(mem, bases[s]).thread;
      thread + THREAD_SIZE <= bases[t] + FLOOR || bases[t] + STACK_SIZE <= thread
  {
    AreasApart(mem, bases, s, t);
    if s == 0 {
      assert Outside(TaskAt(mem, bases[0]).thread, bases[t]);
    } else {
      assert TaskAt(mem, bases[s]).thread == bases[s] + PCB_SIZE;
    }
  }

  lemma StepKeepsSuspended(m: Machine, m': Machine, code: Code, room: nat, t: nat)
    requires Sane(m, room) && Step(m, m', code, room) && room >= 16
    requires t < |m.bases| && t != m.current && t != m'.current
    ensures Kept(m, m', t)
  {
    forall x | Live(TaskOf(m, t), x)
      ensures Load(m'.mem, x) == Load(m.mem, x)
    {
      if m'.current != m.current {
        SwitchKeepsLive(m, m', code, room, t, x);
      }
    }
  }

  lemma KeptOn(m: Machine, m': Machine, m'': Machine, t: nat)
    requires Kept(m, m', t) && Kept(m', m'', t)
    ensures Kept(m, m'', t)
  {}

  /** Task t does not run in the states from lo to hi. */
  ghost predicate Away(states: seq<Machine>, t: nat, lo: nat, hi: nat) {
    forall i {:trigger states[i]} :: lo <= i <= hi && i < |states| ==> states[i].current != t
  }

  lemma {:induction false} SuspendedIsKept(states: seq<Machine>, code: Code, room: nat, a: nat, b: nat, t: nat)
    requires Run(states, code, room) && a <= b < |states| && Sane(states[0], room) && room >= 16
    requires t < |states[a].bases| && Away(states, t, a, b)
    ensures Kept(states[a], states[b], t)
  {
    if a < b {
      SuspendedIsKept(states, code, room, a, b - 1, t);
      SuspendedStep(states, code, room, b - 1, t);
      KeptOn(states[a], states[b - 1], states[b], t);
    }
  }

  lemma SuspendedStep(states: seq<Machine>, code: Code, room: nat, i: nat, t: nat)
    requires Run(states, code, room) && i + 1 < |states| && Sane(states[0], room) && room >= 16
    requires t < |states[i].bases| && states[i].current != t && states[i + 1].current != t
    ensures Kept(states[i], states[i + 1], t)
  {
    RunKeepsSane(states, code, room, i);
    assert StepAt(states, i, code, room);
    StepKeepsSuspended(states[i], states[i + 1], code, room, t);
  }

  // ----- coming back

  lemma SwitchOutSaves(m: Machine, m': Machine, code: Code, room: nat)
    requires Sane(m, room) && Step(m, m', code, room) && room >= 16
    requires m'.current != m.current
    ensures m.current < |m'.bases| && TaskOf(m', m.current) == Saved(TaskOf(m, m.current), m.regs, code)
    ensures Fits(m.bases[m.current], m.regs.rsp - 16, room) && Fits(m.bases[m.current], m.regs.rsp, room)
    ensures Load(m'.mem, m.regs.rsp - 16) == m.regs.rax && Load(m'.mem, m.regs.rsp - 8) == m.regs.rbp
  {
    var n, c := m'.current, m.current;
    assert Fits(m.bases[n], TaskOf(m, n).rsp, room);
    AreasApart(m.mem, m.bases, n, c);
    NoLiveThread(m.mem, m.bases, c, c);
  }

  lemma SwitchInRestores(m: Machine, m': Machine, code: Code, room: nat)
    requires Sane(m, room) && Step(m, m', code, room) && room >= 16
    requires m'.current != m.current
    ensures m'.current < |m.bases|
    ensures var task := TaskOf(m, m'.current);
      && Switches(m, m', m'.current, code, room)
      && TaskOf(m', m'.current) == task
      && forall x :: Live(task, x) ==> Load(m'.mem, x) == Load(m.mem, x)
  {
    forall x | Live(TaskOf(m, m'.current), x)
      ensures Load(m'.mem, x) == Load(m.mem, x)
    {
      SwitchKeepsLive(m, m', code, room, m'.current, x);
    }
  }

  /** A task that is switched out at a and switched back in at b, whatever ran in between,
      goes on at label 1 with the rsp, rbp, rax, fs and gs it had. */
  lemma SwitchedBackInResumes(states: seq<Machine>, code: Code, room: nat, a: nat, b: nat)
    requires a < b < |states| - 1
    requires Run(states, code, room) && Sane(states[0], room) && room >= 16
    requires states[b + 1].current == states[a].current && Away(states, states[a].current, a + 1, b)
    ensures states[b + 1].regs.rip == code.resume && states[b + 1].regs.rsp == states[a].regs.rsp
    ensures states[b + 1].regs.rbp == states[a].regs.rbp && states[b + 1].regs.rax == states[a].regs.rax
    ensures states[b + 1].regs.fs == states[a].regs.fs && states[b + 1].regs.gs == states[a].regs.gs
  {
    SaneStep(states, code, room, a);
    SaneStep(states, code, room, b);
    SuspendedIsKept(states, code, room, a + 1, b, states[a].current);
    Resumes(states[a], states[a + 1], states[b], states[b + 1], code, room);
  }

  lemma SaneStep(states: seq<Machine>, code: Code, room: nat, i: nat)
    requires Run(states, code, room) && i + 1 < |states| && Sane(states[0], room)
    ensures Sane(states[i], room) && Step(states[i], states[i + 1], code, room)
    ensures states[i].current < |states[i + 1].bases|
  {
    RunKeepsSane(states, code, room, i);
    assert StepAt(states, i, code, room);
  }

  lemma Resumes(m0: Machine, m1: Machine, m2: Machine, m3: Machine, code: Code, room: nat)
    requires Sane(m0, room) && Step(m0, m1, code, room) && m1.current != m0.current && room >= 16
    requires Kept(m1, m2, m0.current)
    requires Sane(m2, room) && Step(m2, m3, code, room) && m2.current != m3.current == m0.current
    ensures m3.regs.rip == code.resume && m3.regs.rsp == m0.regs.rsp
    ensures m3.regs.rbp == m0.regs.rbp && m3.regs.rax == m0.regs.rax
    ensures m3.regs.fs == m0.regs.fs && m3.regs.gs == m0.regs.gs
  {
    SwitchOutSaves(m0, m1, code, room);
    SwitchInRestores(m2, m3, code, room);
    var task := TaskOf(m2, m0.current);
    assert task == Saved(TaskOf(m0, m0.current), m0.regs, code);
    assert Live(task, task.rsp) && Live(task, task.rsp + 8);
  }

  // ----- starting a thread

  /** The words of struct pt_regs, r15 first. */
  type PtRegs = w: seq<int> | |w| == 24 witness seq(24, _ => 0)

  /** The words `w` lie in memory from address `at` on. */
  ghost predicate Holds(mem: Memory, at: int, w: seq<int>) {
    forall i :: 0 <= i < |w| ==> Load(mem, at + 8 * i) == w[i]
  }

  /** kernel_thread_func up to its first call: the pops of pt_regs, and the call of *rbx
      with rdx as its argument. */
  function EnterThread(regs: Regs, mem: Memory): Regs {
    var sp := regs.rsp;
    Regs(
      rax := Load(mem, sp + 128), rbx := Load(mem, sp + 64), rcx := Load(mem, sp + 72), rdx := Load(mem, sp + 80),
      rsi := Load(mem, sp + 88), rdi := Load(mem, sp + 80), rbp := Load(mem, sp + 104),
      rsp := sp + PT_REGS_SIZE - 8, rip := Load(mem, sp + 64),
      r8 := Load(mem, sp + 56), r9 := Load(mem, sp + 48), r10 := Load(mem, sp + 40), r11 := Load(mem, sp + 32),
      r12 := Load(mem, sp + 24), r13 := Load(mem, sp + 16), r14 := Load(mem, sp + 8), r15 := Load(mem, sp),
      ds := Load(mem, sp + 112), es := Load(mem, sp + 120), fs := regs.fs, gs := regs.gs)
  }

  /** The pt_regs kernel_thread sets up. */
  function ThreadRegs(fn: int, arg: int, code: Code): seq<int> {
    [0, 0, 0, 0, 0, 0, 0, 0, fn, 0, arg, 0, 0, 0, KERNEL_DS, KERNEL_DS, 0, 0, 0,
     code.threadFunc, KERNEL_CS, 0x200, 0, KERNEL_DS]
  }

  /** The registers it finds are those of struct pt_regs, by the numbers of its words. */
  lemma PtRegsEnter(regs: Regs, mem: Memory, w: PtRegs)
    requires Holds(mem, regs.rsp, w)
    ensures var r := EnterThread(regs, mem);
      && [r.r15, r.r14, r.r13, r.r12, r.r11, r.r10, r.r9, r.r8] == w[0..8]
      && r.rip == r.rbx == w[8] && r.rcx == w[9] && r.rdi == r.rdx == w[10] && r.rsi == w[11] && r.rbp == w[13]
      && r.ds == w[14] && r.es == w[15] && r.rax == w[16] && r.rsp == regs.rsp + 184
  {
    assert Load(mem, regs.rsp + 8 * 0) == w[0] && Load(mem, regs.rsp + 8 * 1) == w[1];
    assert Load(mem, regs.rsp + 8 * 2) == w[2] && Load(mem, regs.rsp + 8 * 3) == w[3];
    assert Load(mem, regs.rsp + 8 * 4) == w[4] && Load(mem, regs.rsp + 8 * 5) == w[5];
    assert Load(mem, regs.rsp + 8 * 6) == w[6] && Load(mem, regs.rsp + 8 * 7) == w[7];
    assert Load(mem, regs.rsp + 8 * 8) == w[8] && Load(mem, regs.rsp + 8 * 9) == w[9];
    assert Load(mem, regs.rsp + 8 * 10) == w[10] && Load(mem, regs.rsp + 8 * 11) == w[11];
    assert Load(mem, regs.rsp + 8 * 13) == w[13] && Load(mem, regs.rsp + 8 * 14) == w[14];
    assert Load(mem, regs.rsp + 8 * 15) == w[15] && Load(mem, regs.rsp + 8 * 16) == w[16];
  }

  /** kernel_thread's have rbx and rdx for the function and its argument, the kernel's segments 8
      and 0x10, interrupts enabled, kernel_thread_func as rip, and 0 for all else. */
  lemma ThreadRegsInMemory(mem: Memory, at: int, fn: int, arg: int, code: Code, i: nat)
    requires Holds(mem, at, ThreadRegs(fn, arg, code)) && i < 24
    ensures Load(mem, at + 8 * i)
         == if i == 8 then fn else if i == 10 then arg
            else if i == 14 || i == 15 || i == 23 then 0x10
            else if i == 20 then 8
            else if i == 21 then 0x200
            else if i == 19 then code.threadFunc
            else 0
  {
    assert Load(mem, at + 8 * i) == ThreadRegs(fn, arg, code)[i];
  }

  /** The task do_fork makes at `base`: its stack starts below the copied pt_regs. */
  function Forked(base: int, kthread: bool, rip: int, fs: int, gs: int, code: Code): Task {
    Task(base, kthread, base + PCB_SIZE, base + STACK_SIZE, if kthread then rip else code.retFromIntr,
         base + STACK_SIZE - PT_REGS_SIZE, fs, gs)
  }

  /** A kernel thread forked at a and first switched to at b, whatever ran in between,
      reaches its function with its argument in rdi, kernel data segments, and the return
      address at the very top of its stack: before the call rsp was rsp0. */
  lemma ThreadReachesItsFunction(
      states: seq<Machine>, code: Code, room: nat, a: nat, b: nat, task: Task, fn: int, arg: int)
    requires a < b < |states| - 1
    requires Run(states, code, room) && Sane(states[0], room) && room >= 16 && Distinct(code)
    requires Forks(states[a], states[a + 1], task, room)
    requires task == Forked(task.base, true, code.threadFunc, task.fs, task.gs, code)
    requires Holds(states[a + 1].mem, task.rsp, ThreadRegs(fn, arg, code))
    requires states[b + 1].current == |states[a].bases| && Away(states, |states[a].bases|, a + 1, b)
    ensures var s := states[b + 1];
      && s.regs.rip == code.threadFunc
      && var r := EnterThread(s.regs, s.mem);
         && r.rip == fn && r.rdi == arg && r.ds == 0x10 && r.es == 0x10
         && r.rsp + 8 == task.rsp0 == s.tssRsp0
  {
    var t, s := |states[a].bases|, states[b + 1];
    RunKeepsSane(states, code, room, b);
    RunKeepsSane(states, code, room, b + 1);
    assert StepAt(states, b, code, room);
    SuspendedIsKept(states, code, room, a + 1, b, t);
    SwitchInRestores(states[b], s, code, room);
    FirstEntry(states[a + 1].mem, s, task, fn, arg, code);
  }

  lemma FirstEntry(mem: Memory, s: Machine, task: Task, fn: int, arg: int, code: Code)
    requires task == Forked(task.base, true, code.threadFunc, task.fs, task.gs, code)
    requires Holds(mem, task.rsp, ThreadRegs(fn, arg, code))
    requires forall x :: Live(task, x) ==> Load(s.mem, x) == Load(mem, x)
    requires s.regs.rsp == task.rsp
    ensures var r := EnterThread(s.regs, s.mem);
      && r.rip == fn && r.rdi == arg && r.ds == 0x10 && r.es == 0x10
      && r.rsp + 8 == task.rsp0
  {
    var w := ThreadRegs(fn, arg, code);
    assert Load(mem, task.rsp + 8 * 8) == w[8] && Load(mem, task.rsp + 8 * 10) == w[10];
    assert Load(mem, task.rsp + 8 * 14) == w[14] && Load(mem, task.rsp + 8 * 15) == w[15];
    assert Live(task, task.rsp + 64) && Live(task, task.rsp + 80);
    assert Live(task, task.rsp + 112) && Live(task, task.rsp + 120);
  }

  // ----- where a task's area puts things

  /** get_current: rsp & ~32767 is the task exactly for the stack pointers inside its area,
      not for the empty stack's, which is the next area's. */
  lemma GetCurrentIff(base: int, rsp: int)
    requires base % STACK_SIZE == 0
    ensures rsp - rsp % STACK_SIZE == base <==> base <= rsp < base + STACK_SIZE
  {}
}
