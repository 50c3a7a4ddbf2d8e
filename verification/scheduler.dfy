/**
 * The round-robin scheduler run on timer ticks: pick the bottom process of the
 * next started terminal after the current process's terminal, and switch the
 * kernel's program page, TSS stack and saved stack and frame pointers over to
 * it.
 */
module Scheduler {
  import opened Common
  import opened Process
  import Paging
  import Terminal
  import Syscall

  /** How many terminals are started. */
  function StartedCount(slots: seq<Terminal.Slot>): (n: nat)
    ensures n <= |slots|
    ensures n == 0 <==> forall i :: 0 <= i < |slots| ==> !slots[i].started
  {
    if slots == [] then 0
    else (if slots[0].started then 1 else 0) + StartedCount(slots[1..])
  }

  /** Steps forward from terminal `from` to terminal `to`, going round the three. */
  function Dist(from: int, to: int): (d: int)
    ensures 0 <= d < Terminal.NUM_TERMS
  {
    (to - from) % Terminal.NUM_TERMS
  }

  /**
   * `t` is the first started terminal after `from` in round-robin order: it is
   * started, it is not `from`, and no other started terminal comes sooner.
   */
  predicate IsNextStarted(slots: seq<Terminal.Slot>, from: int, t: int)
    requires |slots| == Terminal.NUM_TERMS
  {
    0 <= t < Terminal.NUM_TERMS && t != from && slots[t].started
    && forall u :: 0 <= u < Terminal.NUM_TERMS && u != from && slots[u].started ==> Dist(from, t) <= Dist(from, u)
  }

  /** The running process's terminal, as its PCB records it. */
  function CurrTerm(k: Syscall.Kernel): (t: int)
    requires Syscall.Valid(k) && k.curr.Some?
  {
    k.pcbs[k.curr.value].termIndex
  }

  /** What find_next_pid reads: a current process on one of the three terminals. */
  predicate Schedulable(k: Syscall.Kernel)
  {
    Syscall.Valid(k) && k.curr.Some? && 0 <= CurrTerm(k) < Terminal.NUM_TERMS
  }

  /**
   * The pid find_next_pid returns for terminal t: -1 when no PCB is recorded
   * there, otherwise the pid field of that PCB.
   */
  function PidOnTerm(k: Syscall.Kernel, t: int): (pid: int)
    requires Syscall.Valid(k) && 0 <= t < Terminal.NUM_TERMS
    ensures pid == -1 <==> k.terminalPcbs[t].None?
    ensures k.terminalPcbs[t].Some? ==> pid == k.terminalPcbs[t].value
  {
    match k.terminalPcbs[t]
    case None => -1
    case Some(p) => k.pcbs[p].pid
  }

  /** Two started terminals include one other than `from`, and the first of those after `from` exists. */
  lemma NextStartedExists(slots: seq<Terminal.Slot>, from: int)
    requires |slots| == Terminal.NUM_TERMS && 0 <= from < Terminal.NUM_TERMS && StartedCount(slots) >= 2
    ensures exists t :: IsNextStarted(slots, from, t)
  {
    assert StartedCount(slots) == StartedCount(slots[..1]) + StartedCount(slots[1..]) by {
      assert slots[..1] == [slots[0]] && slots[1..][1..] == slots[2..];
      assert StartedCount([slots[0]]) == if slots[0].started then 1 else 0 by {
        assert [slots[0]][1..] == [];
      }
    }
    var a := (from + 1) % Terminal.NUM_TERMS;
    var b := (from + 2) % Terminal.NUM_TERMS;
    assert slots[1..][1..][1..] == [];
    if slots[a].started {
      assert IsNextStarted(slots, from, a);
    } else {
      assert slots[b].started;
      assert IsNextStarted(slots, from, b);
    }
  }

  /** At most one terminal answers to IsNextStarted. */
  lemma NextStartedUnique(slots: seq<Terminal.Slot>, from: int, t: int, u: int)
    requires |slots| == Terminal.NUM_TERMS && 0 <= from < Terminal.NUM_TERMS
    requires IsNextStarted(slots, from, t) && IsNextStarted(slots, from, u)
    ensures t == u
  {
    assert Dist(from, t) == Dist(from, u);
  }

  /**
   * The scan of find_next_pid: from the terminal after `from`, step on round the
   * three until a started one is found. It stops at the next started terminal.
   */
  method NextStartedTerm(slots: seq<Terminal.Slot>, from: int) returns (next: int)
    requires |slots| == Terminal.NUM_TERMS && 0 <= from < Terminal.NUM_TERMS && StartedCount(slots) >= 2
    ensures IsNextStarted(slots, from, next)
  {
    NextStartedExists(slots, from);
    ghost var target :| IsNextStarted(slots, from, target);
    next := (from + 1) % Terminal.NUM_TERMS;
    assert Dist(from, next) == 1;
    while !slots[next].started
      invariant 0 <= next < Terminal.NUM_TERMS && 1 <= Dist(from, next) <= Dist(from, target)
      invariant forall u :: 0 <= u < Terminal.NUM_TERMS && Dist(from, u) < Dist(from, next) && u != from
                  ==> !slots[u].started
      decreases Dist(from, target) - Dist(from, next)
    {
      DistStep(from, next);
      next := (next + 1) % Terminal.NUM_TERMS;
    }
  }

  /** One step round the terminals moves one further from `from`, until the full circle. */
  lemma DistStep(from: int, t: int)
    requires 0 <= from < Terminal.NUM_TERMS && 0 <= t < Terminal.NUM_TERMS && Dist(from, t) < Terminal.NUM_TERMS - 1
    ensures Dist(from, (t + 1) % Terminal.NUM_TERMS) == Dist(from, t) + 1
  {
  }

  /**
   * find_next_pid: -1 when fewer than two terminals are started; otherwise the
   * pid recorded for the next started terminal after the current process's,
   * or -1 when none is recorded there.
   */
  method FindNextPid(k: Syscall.Kernel) returns (pid: int)
    requires Schedulable(k)
    ensures StartedCount(k.desk.slots) <= 1 ==> pid == -1
    ensures StartedCount(k.desk.slots) >= 2 ==>
      forall t :: IsNextStarted(k.desk.slots, CurrTerm(k), t) ==> pid == PidOnTerm(k, t)
    ensures -1 <= pid < MAX_PROCS
  {
    var slots := k.desk.slots;
    var count := 0;
    var i := 0;
    while i < Terminal.NUM_TERMS
      invariant 0 <= i <= Terminal.NUM_TERMS
      invariant count == StartedCount(slots[..i])
    {
      assert slots[..i + 1] == slots[..i] + [slots[i]];
      StartedCountAppend(slots[..i], slots[i]);
      count := count + (if slots[i].started then 1 else 0);
      i := i + 1;
    }
    assert slots[..i] == slots;
    if count <= 1 {
      return -1;
    }
    var next := NextStartedTerm(slots, CurrTerm(k));
    forall t | IsNextStarted(slots, CurrTerm(k), t)
      ensures t == next
    {
      NextStartedUnique(slots, CurrTerm(k), t, next);
    }
    if k.terminalPcbs[next].None? {
      return -1;
    }
    pid := k.pcbs[k.terminalPcbs[next].value].pid;
  }

  /** Counting one more terminal adds one exactly when it is started. */
  lemma {:induction false} StartedCountAppend(slots: seq<Terminal.Slot>, s: Terminal.Slot)
    ensures StartedCount(slots + [s]) == StartedCount(slots) + (if s.started then 1 else 0)
  {
    if slots == [] {
      assert [] + [s] == [s];
      assert [s][1..] == [];
    } else {
      assert (slots + [s])[1..] == slots[1..] + [s];
      StartedCountAppend(slots[1..], s);
    }
  }

  /**
   * context_switch: nothing happens when either pid is outside 0..5 or they are
   * equal. Otherwise the target's program page is mapped and the TLB flushed
   * again, the target's PCB becomes current, the TSS points at its kernel
   * stack, the running stack and frame pointers are saved in the source's PCB
   * and the target's saved ones are loaded.
   */
  function ContextSwitch(k: Syscall.Kernel, from: int, to: int): (k': Syscall.Kernel)
    requires Syscall.Valid(k)
    ensures Syscall.Valid(k')
    ensures (from < 0 || from >= MAX_PROCS || to < 0 || to >= MAX_PROCS || from == to) ==> k' == k
    ensures 0 <= from < MAX_PROCS && 0 <= to < MAX_PROCS && from != to ==>
      k'.curr == Some(to) && k'.cpu == k.pcbs[to].saved
      && k'.tss == Syscall.Tss(KernelData, KernelStackTop(to))
      && k'.tables.dir[32] == Paging.Entry(UserPage(to), Paging.PROGRAM_FLAGS | Paging.PRESENT)
      && k'.tables.flushes == k.tables.flushes + 2
      && k'.pcbs == k.pcbs[from := k.pcbs[from].(saved := k.cpu)]
      && k'.(curr := k.curr, cpu := k.cpu, tss := k.tss, tables := k.tables, pcbs := k.pcbs) == k
  {
    if from < 0 || from >= MAX_PROCS || to < 0 || to >= MAX_PROCS then k
    else if from == to then k
    else
      var tables := Paging.FlushTlb(Paging.AddProgramPage(k.tables, UserPage(to), 1));
      k.(tables := tables,
         curr := Some(to),
         tss := Syscall.Tss(KernelData, KernelStackTop(to)),
         pcbs := k.pcbs[from := k.pcbs[from].(saved := k.cpu)],
         cpu := k.pcbs[to].saved)
  }

  /**
   * Switching from a to b and back resumes a exactly where it was: its stack
   * and frame pointers run again, its page and kernel stack are back, b's PCB
   * holds what it held, and a's PCB holds the pointers a was switched away at.
   */
  lemma SwitchThereAndBack(k: Syscall.Kernel, a: int, b: int)
    requires Syscall.Valid(k) && 0 <= a < MAX_PROCS && 0 <= b < MAX_PROCS && a != b
    ensures var back := ContextSwitch(ContextSwitch(k, a, b), b, a);
      back.cpu == k.cpu && back.curr == Some(a)
      && back.tss == Syscall.Tss(KernelData, KernelStackTop(a))
      && back.tables.dir[32] == Paging.Entry(UserPage(a), Paging.PROGRAM_FLAGS | Paging.PRESENT)
      && back.pcbs[b] == k.pcbs[b] && back.pcbs[a] == k.pcbs[a].(saved := k.cpu)
      && back.procs == k.procs && back.fs == k.fs && back.desk == k.desk
  {
    var there := ContextSwitch(k, a, b);
    assert there.pcbs[b] == k.pcbs[b];
    assert there.pcbs[a].saved == k.cpu;
  }

  /**
   * scheduler_pass: the timer count is reset and the current process switches
   * to the one find_next_pid picks.
   */
  method SchedulerPass(k: Syscall.Kernel) returns (k': Syscall.Kernel)
    requires Schedulable(k)
    ensures Syscall.Valid(k') && k'.pitTicks == 0
    ensures StartedCount(k.desk.slots) <= 1 ==> k' == k.(pitTicks := 0)
    ensures forall t :: StartedCount(k.desk.slots) >= 2 && IsNextStarted(k.desk.slots, CurrTerm(k), t) ==>
      k' == ContextSwitch(k.(pitTicks := 0), k.curr.value, PidOnTerm(k, t))
  {
    var ticked := k.(pitTicks := 0);
    var next := FindNextPid(ticked);
    k' := ContextSwitch(ticked, ticked.pcbs[ticked.curr.value].pid, next);
  }

  /**
   * With at least two terminals started, a pass moves the processor to the
   * bottom process of another terminal whenever that terminal has a PCB
   * recorded and it is not the running one.
   */
  lemma PassLeavesTerminal(k: Syscall.Kernel, t: int)
    requires Schedulable(k) && StartedCount(k.desk.slots) >= 2 && IsNextStarted(k.desk.slots, CurrTerm(k), t)
    requires k.terminalPcbs[t].Some? && k.terminalPcbs[t].value != k.curr.value
    ensures t != CurrTerm(k)
    ensures var p := k.terminalPcbs[t].value;
      var k' := ContextSwitch(k.(pitTicks := 0), k.curr.value, PidOnTerm(k, t));
      k'.curr == Some(p) && k'.cpu == k.pcbs[p].saved && k'.pcbs[k.curr.value].saved == k.cpu
  {
  }

  /**
   * Round robin: from any terminal, the next started terminal after it is
   * reached, and every other started terminal is reached within two passes.
   */
  lemma EveryStartedTermIsReached(slots: seq<Terminal.Slot>, from: int, u: int, t1: int, t2: int)
    requires |slots| == Terminal.NUM_TERMS && 0 <= from < Terminal.NUM_TERMS && 0 <= u < Terminal.NUM_TERMS
    requires u != from && slots[u].started && slots[from].started
    requires IsNextStarted(slots, from, t1) && IsNextStarted(slots, t1, t2)
    ensures u == t1 || u == t2
  {
    assert Dist(from, t1) <= Dist(from, u);
    if u != t1 {
      assert Dist(t1, t2) <= Dist(t1, u);
    }
  }
}
