/**
 * The process table (kernel/proc/proc.c).
 *
 * Eight slots, a pid counter and the current process. Kernel stacks come
 * from the page allocator of kernel/mm/pmm.c. The context switch `swtch`
 * runs code this model cannot see: it is a parameter `run` that may change
 * the table arbitrarily. `wait_process` and `scheduler` loop forever; one
 * scan of wait and one sweep of the scheduler are modelled.
 */
module Proc {
  import opened RiscV
  import opened Pmm
  import opened Wrappers

  const NPROC: nat := 8
  const INT_MAX: int := 0x7FFF_FFFF

  datatype ProcState = Unused | Embryo | Runnable | Running | Sleeping | Zombie

  /** The registers `swtch` saves and restores. */
  datatype Context = Context(ra: u64, sp: u64)

  /** The saved user registers a system call reads and answers through. */
  datatype Trapframe = Trapframe(
    epc: u64, ra: u64, sp: u64,
    a0: u64, a1: u64, a2: u64, a3: u64, a4: u64, a5: u64, a6: u64, a7: u64)

  datatype Proc = Proc(
    state: ProcState,
    pid: i32,
    context: Context,
    pagetable: u64,
    kstack: u64,
    entry: u64,
    exitStatus: i32,
    parent: i32,
    trapframe: Trapframe)

  /** A slot of the table as the zero-initialised global array holds it. */
  const ZERO_PROC: Proc :=
    Proc(Unused, 0, Context(0, 0), 0, 0, 0, 0, 0, Trapframe(0, 0, 0, 0, 0, 0, 0, 0, 0, 0, 0))

  type ProcIndex = i: nat | i < NPROC

  /** `struct proc proc[NPROC]`. */
  type ProcArray = s: seq<Proc> | |s| == NPROC witness seq(NPROC, _ => ZERO_PROC)

  /** The process table, `current_proc` (a slot or null) and `next_pid`. */
  datatype Table = Table(procs: ProcArray, current: Option<ProcIndex>, nextPid: int)

  /** The lowest slot in state `s`, if there is one. */
  function FirstWith(procs: ProcArray, s: ProcState): (r: Option<ProcIndex>)
    ensures r.Some? ==> procs[r.value].state == s && forall j :: 0 <= j < r.value ==> procs[j].state != s
    ensures r.None? ==> forall j :: 0 <= j < NPROC ==> procs[j].state != s
  {
    FirstWithFrom(procs, s, 0)
  }

  /** The lowest slot at or after `k` in state `s`, if there is one. */
  function FirstWithFrom(procs: ProcArray, s: ProcState, k: nat): (r: Option<ProcIndex>)
    requires k <= NPROC
    ensures r.Some? ==> k <= r.value && procs[r.value].state == s
    ensures r.Some? ==> forall j :: k <= j < r.value ==> procs[j].state != s
    ensures r.None? ==> forall j :: k <= j < NPROC ==> procs[j].state != s
    decreases NPROC - k
  {
    if k == NPROC then None
    else if procs[k].state == s then Some(k)
    else FirstWithFrom(procs, s, k + 1)
  }

  /** What create_process leaves behind: its return value, the table and the free list. */
  datatype CreateResult = CreateResult(ret: int, table: Table, freelist: seq<u64>)

  /** `next_pid++` would overflow `int` only when a slot is free and the counter is at INT_MAX. */
  predicate CanCreate(t: Table) {
    FirstWith(t.procs, Unused).Some? ==> 1 <= t.nextPid < INT_MAX
  }

  /**
   * create_process(entry): the lowest UNUSED slot takes the next pid and the
   * entry, then a kernel stack. Without a slot nothing changes; without a
   * stack the slot keeps its pid but stays UNUSED and the call fails.
   */
  function Create(t: Table, fl: seq<u64>, entry: u64): (r: CreateResult)
    requires CanCreate(t)
    ensures FirstWith(t.procs, Unused).None? ==> r == CreateResult(-1, t, fl)
    ensures FirstWith(t.procs, Unused).Some? ==>
      var i := FirstWith(t.procs, Unused).value;
      && r.table.nextPid == t.nextPid + 1
      && r.freelist == AllocStep(fl).1
      && r.table.current == t.current
      && (forall j :: 0 <= j < NPROC && j != i ==> r.table.procs[j] == t.procs[j])
      && r.table.procs[i].pid == t.nextPid
      && r.table.procs[i].entry == entry
      && r.table.procs[i].kstack == AllocStep(fl).0
      && (AllocStep(fl).0 == 0 ==>
            && r.ret == -1
            && r.table.procs[i] == t.procs[i].(pid := t.nextPid, entry := entry, kstack := 0))
      && (AllocStep(fl).0 != 0 ==>
            && r.ret == t.nextPid
            && r.table.procs[i].state == Runnable
            && r.table.procs[i].context == Context(entry, (AllocStep(fl).0 + PGSIZE) % TWO_64)
            && r.table.procs[i] == t.procs[i].(pid := t.nextPid, entry := entry, kstack := AllocStep(fl).0,
                 context := Context(entry, (AllocStep(fl).0 + PGSIZE) % TWO_64), state := Runnable))
  {
    match FirstWith(t.procs, Unused)
    case None => CreateResult(-1, t, fl)
    case Some(i) =>
      var (kstack, fl') := AllocStep(fl);
      var p := t.procs[i].(pid := t.nextPid, entry := entry, kstack := kstack);
      if kstack == 0 then
        CreateResult(-1, t.(procs := t.procs[i := p], nextPid := t.nextPid + 1), fl')
      else
        var p' := p.(context := Context(entry, (kstack + PGSIZE) % TWO_64), state := Runnable);
        CreateResult(t.nextPid, t.(procs := t.procs[i := p'], nextPid := t.nextPid + 1), fl')
  }

  /** exit_process(status): the current process becomes a ZOMBIE holding its status. */
  function Exit(t: Table, status: i32): (t': Table)
    ensures t.current.None? ==> t' == t
    ensures t.current.Some? ==>
      var i := t.current.value;
      && t'.procs[i].state == Zombie && t'.procs[i].exitStatus == status
      && t'.procs[i] == t.procs[i].(exitStatus := status, state := Zombie)
      && t'.current == t.current && t'.nextPid == t.nextPid
      && forall j :: 0 <= j < NPROC && j != i ==> t'.procs[j] == t.procs[j]
  {
    match t.current
    case None => t
    case Some(i) => t.(procs := t.procs[i := t.procs[i].(exitStatus := status, state := Zombie)])
  }

  /** A reaped child: its pid and exit status. */
  datatype Reaped = Reaped(pid: i32, status: i32)

  datatype WaitResult = WaitResult(reaped: Option<Reaped>, table: Table, freelist: seq<u64>)

  /**
   * One scan of wait_process: the lowest ZOMBIE is reaped, its kernel stack
   * freed and its slot made UNUSED. With no zombie the scan changes nothing
   * (and wait_process would scan again).
   */
  function WaitScan(t: Table, base: u64, fl: seq<u64>): (r: WaitResult)
    ensures FirstWith(t.procs, Zombie).None? ==> r == WaitResult(None, t, fl)
    ensures FirstWith(t.procs, Zombie).Some? ==>
      var i := FirstWith(t.procs, Zombie).value;
      && r.reaped == Some(Reaped(t.procs[i].pid, t.procs[i].exitStatus))
      && r.freelist == FreeStep(base, fl, t.procs[i].kstack)
      && r.table.procs == t.procs[i := t.procs[i].(state := Unused)]
      && r.table.current == t.current && r.table.nextPid == t.nextPid
  {
    match FirstWith(t.procs, Zombie)
    case None => WaitResult(None, t, fl)
    case Some(i) =>
      var p := t.procs[i];
      WaitResult(Some(Reaped(p.pid, p.exitStatus)),
                 t.(procs := t.procs[i := p.(state := Unused)]),
                 FreeStep(base, fl, p.kstack))
  }

  /** The opaque process run by `swtch`: whatever it does to the table. */
  type Run = (Table, ProcIndex) -> Table

  /**
   * The table as `swtch` hands it to slot `i`: the slot is RUNNING, it is the
   * current process, and `swtch` has saved the scheduler's registers in
   * proc[0].context (the slot it is given to save into).
   */
  function Enter(t: Table, i: ProcIndex, sched: Context): (t': Table)
    ensures t'.current == Some(i) && t'.nextPid == t.nextPid
    ensures t'.procs[i].state == Running && t'.procs[0].context == sched
    ensures forall j :: 0 <= j < NPROC && j != i ==> t'.procs[j].state == t.procs[j].state
    ensures forall j :: 0 < j < NPROC ==> t'.procs[j].context == t.procs[j].context
    ensures forall j :: 0 <= j < NPROC ==>
      t'.procs[j] == t.procs[j].(state := t'.procs[j].state, context := t'.procs[j].context)
  {
    var procs := t.procs[i := t.procs[i].(state := Running)];
    t.(procs := procs[0 := procs[0].(context := sched)], current := Some(i))
  }

  /** One iteration of the scheduler's inner loop for a RUNNABLE slot `i`, as written. */
  function RunSlot(t: Table, i: ProcIndex, run: Run, sched: Context): (t': Table)
    ensures t'.current.None? && t'.procs[i].state == Runnable
  {
    var after := run(Enter(t, i, sched), i);
    after.(procs := after.procs[i := after.procs[i].(state := Runnable)], current := None)
  }

  /** The scheduler's inner loop from slot `k` on. */
  function SweepFrom(t: Table, run: Run, sched: Context, k: nat): Table
    requires k <= NPROC
    decreases NPROC - k
  {
    if k == NPROC then t
    else
      var t' := if t.procs[k].state == Runnable then RunSlot(t, k, run, sched) else t;
      SweepFrom(t', run, sched, k + 1)
  }

  /** One sweep of `scheduler`. */
  function Sweep(t: Table, run: Run, sched: Context): Table {
    SweepFrom(t, run, sched, 0)
  }

  /**
   * A sweep from slot `k` on runs the lowest RUNNABLE slot at or after `k`
   * and then goes on from the slot after it; with no RUNNABLE slot left it
   * changes nothing. Whatever the processes do, the slots are therefore
   * entered in index order, each one RUNNABLE at the moment the sweep
   * reaches it.
   */
  lemma {:induction false} SweepRunsNextRunnable(t: Table, run: Run, sched: Context, k: nat)
    requires k <= NPROC
    ensures FirstWithFrom(t.procs, Runnable, k).None? ==> SweepFrom(t, run, sched, k) == t
    ensures FirstWithFrom(t.procs, Runnable, k).Some? ==>
      var j := FirstWithFrom(t.procs, Runnable, k).value;
      SweepFrom(t, run, sched, k) == SweepFrom(RunSlot(t, j, run, sched), run, sched, j + 1)
    decreases NPROC - k
  {
    if k < NPROC && t.procs[k].state != Runnable {
      SweepRunsNextRunnable(t, run, sched, k + 1);
    }
  }

  /** A process that switches straight back without doing anything. */
  function Yield(t: Table, i: ProcIndex): Table {
    t
  }

  /** No two live processes share a pid, and every live pid was handed out by the counter. */
  ghost predicate PidsDistinct(t: Table) {
    && (forall i :: 0 <= i < NPROC && t.procs[i].state != Unused ==> 1 <= t.procs[i].pid < t.nextPid)
    && (forall i, j :: 0 <= i < j < NPROC && t.procs[i].state != Unused && t.procs[j].state != Unused ==>
          t.procs[i].pid != t.procs[j].pid)
  }

  /** create_process hands out the counter's value, and the counter only grows. */
  lemma CreateAdvancesPid(t: Table, fl: seq<u64>, entry: u64)
    requires CanCreate(t)
    ensures Create(t, fl, entry).table.nextPid >= t.nextPid
    ensures Create(t, fl, entry).ret != -1 ==>
      Create(t, fl, entry).ret == t.nextPid < Create(t, fl, entry).table.nextPid
  {
  }

  /** Two successful create_process calls in a row return increasing pids. */
  lemma CreatePidsIncrease(t: Table, fl: seq<u64>, e1: u64, e2: u64)
    requires CanCreate(t)
    requires CanCreate(Create(t, fl, e1).table)
    requires Create(t, fl, e1).ret != -1
    ensures var r1 := Create(t, fl, e1);
      var r2 := Create(r1.table, r1.freelist, e2);
      r2.ret != -1 ==> r1.ret < r2.ret
  {
    CreateAdvancesPid(t, fl, e1);
    var r1 := Create(t, fl, e1);
    CreateAdvancesPid(r1.table, r1.freelist, e2);
  }

  /** create_process keeps live pids distinct. */
  lemma CreateKeepsPidsDistinct(t: Table, fl: seq<u64>, entry: u64)
    requires CanCreate(t) && PidsDistinct(t)
    ensures PidsDistinct(Create(t, fl, entry).table)
  {
  }

  /** exit_process keeps live pids distinct when the current process is live. */
  lemma ExitKeepsPidsDistinct(t: Table, status: i32)
    requires PidsDistinct(t)
    requires t.current.Some? ==> t.procs[t.current.value].state != Unused
    ensures PidsDistinct(Exit(t, status))
  {
    var t' := Exit(t, status);
    assert forall j :: 0 <= j < NPROC ==> t'.procs[j].pid == t.procs[j].pid;
    assert forall j :: 0 <= j < NPROC && t'.procs[j].state != Unused ==> t.procs[j].state != Unused;
  }

  /** A wait scan keeps live pids distinct. */
  lemma WaitKeepsPidsDistinct(t: Table, base: u64, fl: seq<u64>)
    requires PidsDistinct(t)
    ensures PidsDistinct(WaitScan(t, base, fl).table)
  {
    var t' := WaitScan(t, base, fl).table;
    assert forall j :: 0 <= j < NPROC ==> t'.procs[j].pid == t.procs[j].pid;
    assert forall j :: 0 <= j < NPROC && t'.procs[j].state != Unused ==> t.procs[j].state != Unused;
  }

  /** A process that exits is what the next wait scan reaps, with its status. */
  lemma ExitThenWait(t: Table, status: i32, base: u64, fl: seq<u64>)
    requires t.current.Some?
    requires forall j :: 0 <= j < NPROC ==> t.procs[j].state != Zombie
    ensures var r := WaitScan(Exit(t, status), base, fl);
      && r.reaped == Some(Reaped(t.procs[t.current.value].pid, status))
      && r.table.procs[t.current.value].state == Unused
  {
    var t' := Exit(t, status);
    var i := t.current.value;
    assert forall j :: 0 <= j < NPROC && j != i ==> t'.procs[j].state != Zombie;
    assert FirstWith(t'.procs, Zombie) == Some(i);
  }

  /**
   * When every process yields at once, a sweep leaves every state as it was:
   * each RUNNABLE slot goes RUNNING and back. Only proc[0].context changes,
   * and only if some slot ran.
   */
  lemma {:induction false} SweepOfYieldsKeepsStates(t: Table, sched: Context, k: nat)
    requires k <= NPROC
    ensures var t' := SweepFrom(t, Yield, sched, k);
      && t'.nextPid == t.nextPid
      && (forall j :: 0 <= j < NPROC ==> t'.procs[j].state == t.procs[j].state)
      && (forall j :: 0 < j < NPROC ==> t'.procs[j] == t.procs[j])
      && (t'.procs[0].context == t.procs[0].context || t'.procs[0].context == sched)
    decreases NPROC - k
  {
    if k < NPROC {
      var t1 := if t.procs[k].state == Runnable then RunSlot(t, k, Yield, sched) else t;
      SweepOfYieldsKeepsStates(t1, sched, k + 1);
    }
  }

  /**
   * A process that exits while it runs is made RUNNABLE again when it
   * switches back: its ZOMBIE state is overwritten, so no wait scan can reap
   * it.
   */
  lemma ExitedProcessRevived(t: Table, i: ProcIndex, sched: Context, status: i32)
    ensures var t' := RunSlot(t, i, (u: Table, k: ProcIndex) => Exit(u, status), sched);
      && t'.procs[i].state == Runnable
      && t'.procs[i].exitStatus == status
      && (FirstWith(t.procs, Zombie).None? ==> WaitScan(t', 0, []).reaped.None?)
  {
    var run := (u: Table, k: ProcIndex) => Exit(u, status);
    var e := Enter(t, i, sched);
    var t' := RunSlot(t, i, run, sched);
    assert run(e, i) == Exit(e, status);
    assert forall j :: 0 <= j < NPROC && j != i ==> t'.procs[j].state == t.procs[j].state;
  }

  /** The scheduler step with the evident intent: only a slot still RUNNING goes back to RUNNABLE. */
  function RunSlotFixed(t: Table, i: ProcIndex, run: Run, sched: Context): (t': Table)
    ensures t'.current.None?
    ensures run(Enter(t, i, sched), i).procs[i].state == Running ==> t'.procs[i].state == Runnable
    ensures run(Enter(t, i, sched), i).procs[i].state != Running ==>
      t'.procs == run(Enter(t, i, sched), i).procs
  {
    var after := run(Enter(t, i, sched), i);
    if after.procs[i].state == Running then
      after.(procs := after.procs[i := after.procs[i].(state := Runnable)], current := None)
    else
      after.(current := None)
  }

  /** With the fixed step, a process that exits while it runs is reaped by the next wait scan. */
  lemma FixedSlotKeepsZombie(t: Table, i: ProcIndex, sched: Context, status: i32, base: u64, fl: seq<u64>)
    requires FirstWith(t.procs, Zombie).None?
    ensures var t' := RunSlotFixed(t, i, (u: Table, k: ProcIndex) => Exit(u, status), sched);
      && t'.procs[i].state == Zombie
      && WaitScan(t', base, fl).reaped == Some(Reaped(t.procs[i].pid, status))
  {
    var run := (u: Table, k: ProcIndex) => Exit(u, status);
    var e := Enter(t, i, sched);
    assert run(e, i) == Exit(e, status);
    var t' := RunSlotFixed(t, i, run, sched);
    assert forall j :: 0 <= j < NPROC && j != i ==> t'.procs[j].state == t.procs[j].state;
    assert FirstWith(t'.procs, Zombie) == Some(i);
  }

  /**
   * `swtch` saves the scheduler's registers into proc[0].context before it
   * loads the chosen slot's context. For slot 0 the context it loads is
   * therefore the scheduler's own, not the one create_process prepared.
   */
  lemma SlotZeroLoadsSchedulerContext(t: Table, fl: seq<u64>, entry: u64, sched: Context)
    requires CanCreate(t)
    requires t.procs[0].state == Unused
    requires AllocStep(fl).0 != 0
    requires sched.ra != entry
    ensures var c := Create(t, fl, entry);
      && c.table.procs[0].context.ra == entry
      && Enter(c.table, 0, sched).procs[0].context == sched
  {
    assert FirstWith(t.procs, Unused) == Some(0);
  }

  /** The switch with the evident intent: the scheduler's registers are kept outside the table. */
  function EnterFixed(t: Table, i: ProcIndex): (t': Table)
    ensures t'.procs[i].state == Running && t'.current == Some(i)
    ensures forall j :: 0 <= j < NPROC ==> t'.procs[j].context == t.procs[j].context
  {
    t.(procs := t.procs[i := t.procs[i].(state := Running)], current := Some(i))
  }

  /** With the fixed switch, a process created in any slot starts at its entry on its own stack. */
  lemma FixedEnterLoadsEntry(t: Table, fl: seq<u64>, entry: u64)
    requires CanCreate(t)
    requires FirstWith(t.procs, Unused).Some?
    requires AllocStep(fl).0 != 0
    ensures var c := Create(t, fl, entry);
      var i := FirstWith(t.procs, Unused).value;
      EnterFixed(c.table, i).procs[i].context == Context(entry, (AllocStep(fl).0 + PGSIZE) % TWO_64)
  {
  }

  class ProcTable {
    var procs: ProcArray
    var current: Option<ProcIndex>
    var nextPid: int
    const pmm: Allocator

    ghost predicate Valid()
      reads this, pmm
    {
      pmm.Valid()
    }

    /** The table as a value. */
    function State(): Table
      reads this
    {
      Table(procs, current, nextPid)
    }

    /** The zero-initialised globals: every slot UNUSED, no current process, next_pid = 1. */
    constructor (pmm: Allocator)
      requires pmm.Valid()
      ensures Valid() && this.pmm == pmm
      ensures procs == seq(NPROC, _ => ZERO_PROC) && current == None && nextPid == 1
    {
      this.pmm := pmm;
      procs := seq(NPROC, _ => ZERO_PROC);
      current := None;
      nextPid := 1;
    }

    /** proc_init: every slot's state becomes UNUSED; nothing else changes. */
    method ProcInit()
      modifies this
      ensures forall j :: 0 <= j < NPROC ==> procs[j] == old(procs[j]).(state := Unused)
      ensures current == old(current) && nextPid == old(nextPid)
    {
      for i := 0 to NPROC
        invariant forall j :: 0 <= j < i ==> procs[j] == old(procs[j]).(state := Unused)
        invariant forall j :: i <= j < NPROC ==> procs[j] == old(procs[j])
        invariant current == old(current) && nextPid == old(nextPid)
      {
        procs := procs[i := procs[i].(state := Unused)];
      }
    }

    /** create_process. */
    method CreateProcess(entry: u64) returns (ret: int)
      requires Valid() && CanCreate(State())
      modifies this, pmm
      ensures Valid()
      ensures CreateResult(ret, State(), pmm.freelist) == Create(old(State()), old(pmm.freelist), entry)
    {
      ghost var t := State();
      for i := 0 to NPROC
        invariant State() == t && pmm.freelist == old(pmm.freelist) && Valid()
        invariant forall j :: 0 <= j < i ==> procs[j].state != Unused
      {
        if procs[i].state == Unused {
          assert FirstWith(t.procs, Unused) == Some(i);
          var p := procs[i].(pid := nextPid, entry := entry);
          nextPid := nextPid + 1;
          var kstack := pmm.AllocPage();
          p := p.(kstack := kstack);
          if kstack == 0 {
            procs := procs[i := p];
            return -1;
          }
          p := p.(context := Context(entry, (kstack + PGSIZE) % TWO_64), state := Runnable);
          procs := procs[i := p];
          return p.pid;
        }
      }
      return -1;
    }

    /** exit_process. */
    method ExitProcess(status: i32)
      modifies this
      ensures State() == Exit(old(State()), status)
    {
      if current.Some? {
        var i := current.value;
        procs := procs[i := procs[i].(exitStatus := status, state := Zombie)];
      }
    }

    /** One scan of wait_process's loop; the exit status is returned rather than stored. */
    method WaitProcess() returns (r: Option<Reaped>)
      requires Valid()
      modifies this, pmm
      ensures Valid()
      ensures WaitResult(r, State(), pmm.freelist) == WaitScan(old(State()), pmm.base, old(pmm.freelist))
    {
      ghost var t := State();
      for i := 0 to NPROC
        invariant State() == t && pmm.freelist == old(pmm.freelist) && Valid()
        invariant forall j :: 0 <= j < i ==> procs[j].state != Zombie
      {
        if procs[i].state == Zombie {
          assert FirstWith(t.procs, Zombie) == Some(i);
          var pid := procs[i].pid;
          var status := procs[i].exitStatus;
          pmm.FreePage(procs[i].kstack);
          procs := procs[i := procs[i].(state := Unused)];
          return Some(Reaped(pid, status));
        }
      }
      return None;
    }

    /** One sweep of scheduler's loop; `run` is what happens between the two switches. */
    method SchedulerSweep(run: Run, sched: Context)
      modifies this
      ensures State() == Sweep(old(State()), run, sched)
    {
      for i := 0 to NPROC
        invariant SweepFrom(State(), run, sched, i) == Sweep(old(State()), run, sched)
      {
        if procs[i].state == Runnable {
          procs := procs[i := procs[i].(state := Running)];
          current := Some(i);
          procs := procs[0 := procs[0].(context := sched)];
          var after := run(State(), i);
          procs, current, nextPid := after.procs, after.current, after.nextPid;
          current := None;
          procs := procs[i := procs[i].(state := Runnable)];
        }
      }
    }
  }
}
