/**
 * System-call dispatch (kernel/syscall.c).
 *
 * The call number is in a7 of the current process's trapframe, the
 * arguments in a0..a2, and the result goes back in a0. User memory, which
 * sys_write reads through the raw pointer in a1, is a parameter: a function
 * from addresses to characters.
 */
module Syscall {
  import opened RiscV
  import opened Wrappers
  import opened CString
  import opened Console
  import opened Printf
  import opened Proc
  import opened Pmm

  const SYS_GETPID: int := 1
  const SYS_FORK: int := 2
  const SYS_EXIT: int := 3
  const SYS_WAIT: int := 4
  const SYS_WRITE: int := 5

  /** `sizeof(syscalls)/sizeof(syscalls[0])`: the table's highest index is SYS_write. */
  const NSYSCALLS: int := 6

  /** What the process's pointers read in user memory. */
  type Memory = u64 -> char

  /**
   * argint(n, ip): for n in 0..2 the register a_n cut to `int` is stored and
   * 0 returned; any other n returns -1 and leaves `*ip` as it was. The
   * result is the return value and the new `*ip`.
   */
  function ArgInt(tf: Trapframe, n: int, ip: i32): (r: (int, i32))
    ensures 0 <= n <= 2 <==> r.0 == 0
    ensures !(0 <= n <= 2) ==> r == (-1, ip)
    ensures n == 0 ==> r.1 % TWO_32 == tf.a0 % TWO_32
    ensures n == 1 ==> r.1 % TWO_32 == tf.a1 % TWO_32
    ensures n == 2 ==> r.1 % TWO_32 == tf.a2 % TWO_32
  {
    if n == 0 then (0, ToI32(tf.a0))
    else if n == 1 then (0, ToI32(tf.a1))
    else if n == 2 then (0, ToI32(tf.a2))
    else (-1, ip)
  }

  /** argaddr(n): a0, a1 or a2 for n = 0, 1, 2, and 0 for any other n. */
  function ArgAddr(tf: Trapframe, n: int): (r: u64)
    ensures !(0 <= n <= 2) ==> r == 0
    ensures n == 0 ==> r == tf.a0
    ensures n == 1 ==> r == tf.a1
    ensures n == 2 ==> r == tf.a2
  {
    if n == 0 then tf.a0 else if n == 1 then tf.a1 else if n == 2 then tf.a2 else 0
  }

  /** An argument that fits in 31 bits reaches the handler unchanged. */
  lemma ArgIntOfSmallValue(tf: Trapframe, v: i32)
    requires tf.a0 == ToU64(v)
    ensures ArgInt(tf, 0, 0) == (0, v)
  {
    I32RoundTrip(v);
  }

  /** The user bytes buf[0..count). */
  function UserBytes(mem: Memory, buf: u64, count: nat): (s: seq<char>)
    ensures |s| == count
    ensures forall k :: 0 <= k < count ==> s[k] == mem((buf + k) % TWO_64)
  {
    seq(count, k => mem((buf + k) % TWO_64))
  }

  /**
   * sys_write on the trapframe: -1 and no output unless fd (a0) is 1, buf
   * (a1) is not null and count (a2) is not negative; otherwise count, and
   * the count bytes at buf are printed in order.
   */
  function SysWriteOut(tf: Trapframe, mem: Memory): (r: (int, seq<char>))
    ensures r.0 == -1 || r.0 >= 0
    ensures r.0 >= 0 <==> ToI32(tf.a0) == 1 && tf.a1 != 0 && ToI32(tf.a2) >= 0
    ensures r.0 == -1 ==> r.1 == []
    ensures r.0 >= 0 ==> r.0 == ToI32(tf.a2) && r.1 == UserBytes(mem, tf.a1, r.0)
  {
    var fd := ArgInt(tf, 0, 0).1;
    var buf := ArgAddr(tf, 1);
    var count := ArgInt(tf, 2, 0).1;
    if fd != 1 then (-1, [])
    else if buf == 0 || count < 0 then (-1, [])
    else (count, UserBytes(mem, buf, count))
  }

  /** sys_write: prints the bytes one by one. */
  method SysWrite(con: Console, tf: Trapframe, mem: Memory) returns (ret: int)
    modifies con
    ensures ret == SysWriteOut(tf, mem).0
    ensures con.out == old(con.out) + SysWriteOut(tf, mem).1
  {
    var (_, fd) := ArgInt(tf, 0, 0);
    var buf := ArgAddr(tf, 1);
    var (_, count) := ArgInt(tf, 2, 0);
    if fd != 1 {
      return -1;
    }
    if buf == 0 || count < 0 {
      return -1;
    }
    for i := 0 to count
      invariant con.out == old(con.out) + UserBytes(mem, buf, i)
    {
      con.Putc(mem((buf + i) % TWO_64));
      assert UserBytes(mem, buf, i + 1) == UserBytes(mem, buf, i) + [mem((buf + i) % TWO_64)];
    }
    return count;
  }

  /** `p->trapframe->a0 = v` for slot `i`. */
  function SetA0(t: Table, i: ProcIndex, v: i32): Table {
    t.(procs := t.procs[i := t.procs[i].(trapframe := t.procs[i].trapframe.(a0 := ToU64(v)))])
  }

  const UNKNOWN_HEAD: seq<char> := "Unknown syscall "
  const UNKNOWN_FMT: seq<char> := UNKNOWN_HEAD + ("%d" + "\n")

  /** What is printed for an unknown call number. */
  function UnknownText(num: i32): seq<char> {
    UNKNOWN_HEAD + (Decimal(num) + "\n")
  }

  /** The message for an unknown call number prints the number in decimal. */
  lemma UnknownSyscallText(num: i32)
    ensures WellFormed(UNKNOWN_FMT, [Int(num)])
    ensures FormatText(UNKNOWN_FMT, [Int(num)]) == UnknownText(num)
    ensures Contents(UNKNOWN_FMT + ['\0']) == UNKNOWN_FMT
  {
    assert Contents(UNKNOWN_FMT + ['\0']) == UNKNOWN_FMT by {
      ContentsOfTerminated(UNKNOWN_FMT, []);
      assert UNKNOWN_FMT + ['\0'] + [] == UNKNOWN_FMT + ['\0'];
    }
    assert '%' !in UNKNOWN_HEAD;
    FormatOneConversion(UNKNOWN_HEAD, 'd', "\n", Int(num));
  }

  /** What a dispatch leaves behind; `blocked` when sys_wait found no zombie and keeps scanning. */
  datatype Outcome = Outcome(table: Table, out: seq<char>, freelist: seq<u64>, blocked: bool)

  /** syscall_dispatch on the whole kernel state. */
  function Dispatched(t: Table, out: seq<char>, fl: seq<u64>, base: u64, mem: Memory): Outcome {
    match t.current
    case None => Outcome(t, out, fl, false)
    case Some(i) =>
      var tf := t.procs[i].trapframe;
      var num := ToI32(tf.a7);
      if !(0 < num < NSYSCALLS) then
        Outcome(SetA0(t, i, -1), out + UnknownText(num), fl, false)
      else if num == SYS_GETPID then
        Outcome(SetA0(t, i, t.procs[i].pid), out, fl, false)
      else if num == SYS_FORK then
        Outcome(SetA0(t, i, -1), out, fl, false)
      else if num == SYS_EXIT then
        Outcome(SetA0(Exit(t, ArgInt(tf, 0, 0).1), i, 0), out, fl, false)
      else if num == SYS_WAIT then
        var w := WaitScan(t, base, fl);
        if w.reaped.None? then Outcome(w.table, out, w.freelist, true)
        else Outcome(SetA0(w.table, i, w.reaped.value.pid), out, w.freelist, false)
      else
        var (ret, text) := SysWriteOut(tf, mem);
        Outcome(SetA0(t, i, ret), out + text, fl, false)
  }

  /** With no current process dispatch changes nothing. */
  lemma DispatchWithoutProcess(t: Table, out: seq<char>, fl: seq<u64>, base: u64, mem: Memory)
    requires t.current.None?
    ensures Dispatched(t, out, fl, base, mem) == Outcome(t, out, fl, false)
  {
  }

  /**
   * A completed dispatch writes a0 of the caller's trapframe and no other
   * trapframe field: epc, in particular, is left for the trap handler.
   */
  lemma DispatchWritesOnlyA0(t: Table, out: seq<char>, fl: seq<u64>, base: u64, mem: Memory)
    requires t.current.Some?
    ensures var r := Dispatched(t, out, fl, base, mem);
      var i := t.current.value;
      && (forall j :: 0 <= j < NPROC ==>
            r.table.procs[j].trapframe == t.procs[j].trapframe.(a0 := r.table.procs[j].trapframe.a0))
      && (forall j :: 0 <= j < NPROC && j != i ==> r.table.procs[j].trapframe == t.procs[j].trapframe)
  {
    var i := t.current.value;
    var tf := t.procs[i].trapframe;
    var num := ToI32(tf.a7);
    var r := Dispatched(t, out, fl, base, mem);
    var mid: Table;
    if num == SYS_EXIT {
      mid := Exit(t, ArgInt(tf, 0, 0).1);
    } else if num == SYS_WAIT {
      mid := WaitScan(t, base, fl).table;
    } else {
      mid := t;
    }
    assert forall j :: 0 <= j < NPROC ==> mid.procs[j].trapframe == t.procs[j].trapframe;
    assert r.table == mid || exists v :: r.table == SetA0(mid, i, v);
  }

  /** An unknown call number prints a message and answers -1, as all ones in a0. */
  lemma UnknownSyscallFails(t: Table, out: seq<char>, fl: seq<u64>, base: u64, mem: Memory)
    requires t.current.Some?
    requires var num := ToI32(t.procs[t.current.value].trapframe.a7); num <= 0 || num >= 6
    ensures var r := Dispatched(t, out, fl, base, mem);
      var i := t.current.value;
      && r.table.procs[i].trapframe.a0 == TWO_64 - 1
      && ToI32(r.table.procs[i].trapframe.a0) == -1
      && r.out == out + "Unknown syscall " + Decimal(ToI32(t.procs[i].trapframe.a7)) + "\n"
  {
    I32RoundTrip(-1);
  }

  /** getpid answers the caller's pid, and fork always answers -1. */
  lemma GetpidAndFork(t: Table, out: seq<char>, fl: seq<u64>, base: u64, mem: Memory)
    requires t.current.Some?
    ensures var r := Dispatched(t, out, fl, base, mem);
      var i := t.current.value;
      var num := ToI32(t.procs[i].trapframe.a7);
      && (num == SYS_GETPID ==> ToI32(r.table.procs[i].trapframe.a0) == t.procs[i].pid)
      && (num == SYS_FORK ==> ToI32(r.table.procs[i].trapframe.a0) == -1 && r.table.procs == SetA0(t, i, -1).procs)
  {
    var i := t.current.value;
    I32RoundTrip(t.procs[i].pid);
    I32RoundTrip(-1);
  }

  /** exit makes the caller a ZOMBIE with status a0 (cut to `int`) and answers 0. */
  lemma ExitSyscall(t: Table, out: seq<char>, fl: seq<u64>, base: u64, mem: Memory)
    requires t.current.Some?
    requires ToI32(t.procs[t.current.value].trapframe.a7) == SYS_EXIT
    ensures var r := Dispatched(t, out, fl, base, mem);
      var i := t.current.value;
      && r.table.procs[i].state == Zombie
      && r.table.procs[i].exitStatus == ToI32(t.procs[i].trapframe.a0)
      && r.table.procs[i].trapframe.a0 == 0
      && r.out == out && !r.blocked
  {
  }

  /** write to fd 1 prints exactly the count user bytes at buf and answers count. */
  lemma WriteSyscall(t: Table, out: seq<char>, fl: seq<u64>, base: u64, mem: Memory)
    requires t.current.Some?
    requires var tf := t.procs[t.current.value].trapframe;
      ToI32(tf.a7) == SYS_WRITE && ToI32(tf.a0) == 1 && tf.a1 != 0 && ToI32(tf.a2) >= 0
    ensures var r := Dispatched(t, out, fl, base, mem);
      var tf := t.procs[t.current.value].trapframe;
      && r.out == out + UserBytes(mem, tf.a1, ToI32(tf.a2))
      && ToI32(r.table.procs[t.current.value].trapframe.a0) == ToI32(tf.a2)
  {
    var tf := t.procs[t.current.value].trapframe;
    I32RoundTrip(ToI32(tf.a2));
  }

  /**
   * wait blocks exactly when there is no zombie, and then changes nothing;
   * otherwise it reaps the lowest zombie, frees its stack and answers its pid.
   */
  lemma WaitSyscall(t: Table, out: seq<char>, fl: seq<u64>, base: u64, mem: Memory)
    requires t.current.Some?
    requires ToI32(t.procs[t.current.value].trapframe.a7) == SYS_WAIT
    ensures var r := Dispatched(t, out, fl, base, mem);
      && (r.blocked <==> FirstWith(t.procs, Zombie).None?)
      && (r.blocked ==> r.table == t && r.freelist == fl)
      && r.out == out
    ensures var r := Dispatched(t, out, fl, base, mem);
      var i := t.current.value;
      FirstWith(t.procs, Zombie).Some? ==>
        var z := FirstWith(t.procs, Zombie).value;
        && ToI32(r.table.procs[i].trapframe.a0) == t.procs[z].pid
        && r.table.procs[z].state == Unused
        && r.freelist == FreeStep(base, fl, t.procs[z].kstack)
  {
    if FirstWith(t.procs, Zombie).Some? {
      I32RoundTrip(t.procs[FirstWith(t.procs, Zombie).value].pid);
    }
  }

  /** syscall_dispatch. */
  method SyscallDispatch(pt: ProcTable, con: Console, mem: Memory) returns (blocked: bool)
    requires pt.Valid()
    modifies pt, pt.pmm, con
    ensures pt.Valid()
    ensures Outcome(pt.State(), con.out, pt.pmm.freelist, blocked)
         == Dispatched(old(pt.State()), old(con.out), old(pt.pmm.freelist), pt.pmm.base, mem)
  {
    if pt.current.None? {
      return false;
    }
    var num := ToI32(pt.procs[pt.current.value].trapframe.a7);
    if !(0 < num < NSYSCALLS) {
      DispatchUnknown(pt, con, mem);
      blocked := false;
    } else if num == SYS_WAIT {
      blocked := DispatchWait(pt, con, mem);
    } else {
      DispatchOther(pt, con, mem);
      blocked := false;
    }
  }

  /** An unknown call number: the message, then -1 in a0. */
  method DispatchUnknown(pt: ProcTable, con: Console, mem: Memory)
    requires pt.Valid() && pt.current.Some?
    requires var num := ToI32(pt.procs[pt.current.value].trapframe.a7); !(0 < num < NSYSCALLS)
    modifies pt, con
    ensures pt.Valid()
    ensures Outcome(pt.State(), con.out, pt.pmm.freelist, false)
         == Dispatched(old(pt.State()), old(con.out), old(pt.pmm.freelist), pt.pmm.base, mem)
  {
    var i := pt.current.value;
    var num := ToI32(pt.procs[i].trapframe.a7);
    ghost var before := con.out;
    UnknownSyscallText(num);
    var _ := Printf.Printf(con, UNKNOWN_FMT + ['\0'], [Int(num)]);
    assert con.out == before + UnknownText(num);
    pt.procs := pt.procs[i := pt.procs[i].(trapframe := pt.procs[i].trapframe.(a0 := ToU64(-1)))];
  }

  /** wait: blocked with nothing changed, or the reaped child's pid in a0. */
  method DispatchWait(pt: ProcTable, con: Console, mem: Memory) returns (blocked: bool)
    requires pt.Valid() && pt.current.Some?
    requires ToI32(pt.procs[pt.current.value].trapframe.a7) == SYS_WAIT
    modifies pt, pt.pmm
    ensures pt.Valid()
    ensures Outcome(pt.State(), con.out, pt.pmm.freelist, blocked)
         == Dispatched(old(pt.State()), con.out, old(pt.pmm.freelist), pt.pmm.base, mem)
  {
    var i := pt.current.value;
    var r := pt.WaitProcess();
    if r.None? {
      return true;
    }
    pt.procs := pt.procs[i := pt.procs[i].(trapframe := pt.procs[i].trapframe.(a0 := ToU64(r.value.pid)))];
    return false;
  }

  /** getpid, fork, exit and write: the handler's answer in a0. */
  method DispatchOther(pt: ProcTable, con: Console, mem: Memory)
    requires pt.Valid() && pt.current.Some?
    requires var num := ToI32(pt.procs[pt.current.value].trapframe.a7); 0 < num < NSYSCALLS && num != SYS_WAIT
    modifies pt, con
    ensures pt.Valid()
    ensures Outcome(pt.State(), con.out, pt.pmm.freelist, false)
         == Dispatched(old(pt.State()), old(con.out), old(pt.pmm.freelist), pt.pmm.base, mem)
  {
    var i := pt.current.value;
    var tf := pt.procs[i].trapframe;
    var num := ToI32(tf.a7);
    var ret: i32;
    if num == SYS_GETPID {
      ret := pt.procs[i].pid;
    } else if num == SYS_FORK {
      ret := -1;
    } else if num == SYS_EXIT {
      var (_, status) := ArgInt(tf, 0, 0);
      pt.ExitProcess(status);
      ret := 0;
    } else {
      var n := SysWrite(con, tf, mem);
      ret := n;
    }
    pt.procs := pt.procs[i := pt.procs[i].(trapframe := pt.procs[i].trapframe.(a0 := ToU64(ret)))];
  }
}
