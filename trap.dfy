/**
 * The kernel trap handler and interrupt set-up (kernel/trap/trap.c).
 *
 * The handler counts timer interrupts and prints a message every fifth one.
 * The CSRs it reads (scause, sepc, time) are parameters; the CSRs it writes
 * and the deadline passed to the firmware's set-timer call are fields.
 */
module Trap {
  import opened RiscV
  import opened Wrappers
  import opened CString
  import opened Console
  import opened Printf

  const INT_MAX: int := 0x7FFF_FFFF

  /** scause of a supervisor timer interrupt, compared with the whole register. */
  const SCAUSE_TIMER: u64 := 5

  /** The interval the handler asks the firmware for. */
  const TIMER_INTERVAL: nat := 1_000_000

  /** The UTF-8 bytes of U+23F0 (alarm clock), one character per byte sent. */
  const CLOCK: seq<char> := [0xE2 as char, 0x8F as char, 0xB0 as char]

  const TICK_PREFIX: seq<char> := "\n" + CLOCK + " Timer tick "
  const TICK_FMT: seq<char> := TICK_PREFIX + ("%d" + " - ")
  const RED_MSG: seq<char> := "Switching to RED output\n"
  const GREEN_MSG: seq<char> := "Switching to GREEN output\n"
  const UNEXPECTED_FMT: seq<char> := "Unexpected trap: scause=0x" + ("%l" + ("x sepc=0x" + ("%l" + "x\n")))

  /** What the handler prints once the counter has reached `n`. */
  function TickText(n: nat): seq<char>
    requires n < 0x8000_0000
  {
    if n % 5 != 0 then []
    else TICK_PREFIX + Decimal(n) + " - " + (if n % 10 == 0 then RED_MSG else GREEN_MSG)
  }

  /** A message is printed exactly on every fifth tick, RED on every tenth and GREEN otherwise. */
  lemma TickTextCases(n: nat)
    requires n < 0x8000_0000
    ensures TickText(n) != [] <==> n % 5 == 0
    ensures n % 5 == 0 ==> (TickText(n) == TICK_PREFIX + Decimal(n) + " - " + RED_MSG <==> n % 10 == 0)
    ensures TickText(n) != [] ==> TickText(n)[..|TICK_PREFIX|] == TICK_PREFIX
  {
    if n % 5 == 0 {
      var head := TICK_PREFIX + Decimal(n) + " - ";
      assert RED_MSG[13] != GREEN_MSG[13];
      if n % 10 != 0 {
        assert (head + GREEN_MSG)[|head| + 13] != (head + RED_MSG)[|head| + 13];
      }
      assert (head + (if n % 10 == 0 then RED_MSG else GREEN_MSG))[..|TICK_PREFIX|] == TICK_PREFIX;
    }
  }

  /** The diagnostic's "%lx" is not a conversion: the format is printed as it stands and no register value appears. */
  lemma UnexpectedTrapText(scause: u64, sepc: u64)
    ensures WellFormed(UNEXPECTED_FMT, [Ptr(scause), Ptr(sepc)])
    ensures FormatText(UNEXPECTED_FMT, [Ptr(scause), Ptr(sepc)]) == UNEXPECTED_FMT
    ensures Contents(UNEXPECTED_FMT + ['\0']) == UNEXPECTED_FMT
  {
    assert Contents(UNEXPECTED_FMT + ['\0']) == UNEXPECTED_FMT by {
      ContentsOfTerminated(UNEXPECTED_FMT, []);
      assert UNEXPECTED_FMT + ['\0'] + [] == UNEXPECTED_FMT + ['\0'];
    }
    FormatTwoLongs("Unexpected trap: scause=0x", "x sepc=0x", "x\n", [Ptr(scause), Ptr(sepc)]);
  }

  /** How the handler ends: it returns to the interrupted code, or it spins forever. */
  datatype TrapOutcome = Resumed | Halted

  class TrapState {
    /** `volatile int timer_ticks`. */
    var ticks: int
    /** The last deadline handed to the firmware's set-timer call, if any. */
    var deadline: Option<u64>
    var mideleg: u64
    var sie: u64
    var sstatus: u64
    var stvec: u64
    var sepc: u64

    ghost predicate Valid()
      reads this
    {
      0 <= ticks <= INT_MAX
    }

    constructor (mideleg: u64, sie: u64, sstatus: u64, stvec: u64, sepc: u64)
      ensures Valid() && ticks == 0 && deadline == None
      ensures this.mideleg == mideleg && this.sie == sie && this.sstatus == sstatus
      ensures this.stvec == stvec && this.sepc == sepc
    {
      ticks := 0;
      deadline := None;
      this.mideleg := mideleg;
      this.sie := sie;
      this.sstatus := sstatus;
      this.stvec := stvec;
      this.sepc := sepc;
    }

    /** get_time: the tick count, widened to 64 bits. */
    method GetTime() returns (t: u64)
      requires Valid()
      ensures t == ticks
    {
      t := ToU64(ticks);
    }

    /**
     * kerneltrap, with `scause`, `sepc` and `time` the values its CSR reads
     * return. A timer interrupt counts one tick, asks for the next interrupt
     * a million cycles on, prints every fifth tick and writes sepc back as it
     * was read; anything else prints the diagnostic and halts.
     */
    method KernelTrap(con: Console, scause: u64, sepcIn: u64, time: u64) returns (r: TrapOutcome)
      requires Valid()
      requires scause == SCAUSE_TIMER ==> ticks < INT_MAX
      modifies this, con
      ensures Valid()
      ensures scause == SCAUSE_TIMER ==>
        && r == Resumed
        && ticks == old(ticks) + 1
        && deadline == Some((time + TIMER_INTERVAL) % TWO_64)
        && sepc == sepcIn
        && con.out == old(con.out) + TickText(ticks)
      ensures scause != SCAUSE_TIMER ==>
        && r == Halted
        && ticks == old(ticks) && deadline == old(deadline) && sepc == old(sepc)
        && con.out == old(con.out) + UNEXPECTED_FMT
      ensures mideleg == old(mideleg) && sie == old(sie) && sstatus == old(sstatus) && stvec == old(stvec)
    {
      if scause == SCAUSE_TIMER {
        ticks := ticks + 1;
        deadline := Some((time + TIMER_INTERVAL) % TWO_64);
        if ticks % 5 == 0 {
          PrintTick(con, ticks);
        }
      } else {
        PrintUnexpected(con, scause, sepcIn);
        return Halted;
      }
      sepc := sepcIn;
      return Resumed;
    }

    /**
     * trap_init: sets bit 5 (supervisor timer) of mideleg and sie and bit 1
     * (SIE) of sstatus, keeping every other bit, points stvec at the vector,
     * and asks for the first interrupt.
     */
    method TrapInit(kernelvec: u64, time: u64)
      modifies this
      ensures mideleg == BitOr(old(mideleg), Pow2(5))
      ensures sie == BitOr(old(sie), Pow2(5))
      ensures sstatus == BitOr(old(sstatus), Pow2(1))
      ensures stvec == kernelvec
      ensures deadline == Some((time + TIMER_INTERVAL) % TWO_64)
      ensures ticks == old(ticks) && sepc == old(sepc)
    {
      SetBit(mideleg, 5);
      mideleg := BitOr(mideleg, Pow2(5));
      stvec := kernelvec;
      SetBit(sie, 5);
      sie := BitOr(sie, Pow2(5));
      SetBit(sstatus, 1);
      sstatus := BitOr(sstatus, Pow2(1));
      deadline := Some((time + TIMER_INTERVAL) % TWO_64);
    }
  }

  /** The tick format prints the prefix, the count in decimal and " - ". */
  lemma TickFormat(n: i32)
    ensures Contents(TICK_FMT + ['\0']) == TICK_FMT
    ensures WellFormed(TICK_FMT, [Int(n)])
    ensures FormatText(TICK_FMT, [Int(n)]) == TICK_PREFIX + Decimal(n) + " - "
  {
    FormatOneConversion(TICK_PREFIX, 'd', " - ", Int(n));
    ContentsOfTerminated(TICK_FMT, []);
    assert TICK_FMT + ['\0'] + [] == TICK_FMT + ['\0'];
  }

  /** The colour messages are printed as they stand. */
  lemma ColourMessagesPlain()
    ensures '%' !in RED_MSG && '\0' !in RED_MSG
    ensures '%' !in GREEN_MSG && '\0' !in GREEN_MSG
  {
  }

  /** The two printf calls of a fifth tick. */
  method PrintTick(con: Console, n: nat)
    requires n < 0x8000_0000 && n % 5 == 0
    modifies con
    ensures con.out == old(con.out) + TickText(n)
  {
    ghost var before := con.out;
    ghost var head := TICK_PREFIX + Decimal(n) + " - ";
    TickFormat(n);
    var _ := Printf.Printf(con, TICK_FMT + ['\0'], [Int(n)]);
    assert con.out == before + head;
    var msg := if n % 10 == 0 then RED_MSG else GREEN_MSG;
    assert '%' !in msg && '\0' !in msg by {
      ColourMessagesPlain();
    }
    PrintPlain(con, msg);
    assert TickText(n) == head + msg;
    AppendAssoc(before, head, msg);
  }

  /** The diagnostic printf of an unexpected trap. */
  method PrintUnexpected(con: Console, scause: u64, sepc: u64)
    modifies con
    ensures con.out == old(con.out) + UNEXPECTED_FMT
  {
    UnexpectedTrapText(scause, sepc);
    var _ := Printf.Printf(con, UNEXPECTED_FMT + ['\0'], [Ptr(scause), Ptr(sepc)]);
  }

  /** A printf call whose format has no conversion. */
  method PrintPlain(con: Console, msg: seq<char>)
    requires '%' !in msg && '\0' !in msg
    modifies con
    ensures con.out == old(con.out) + msg
  {
    FormatPlain(msg, [], []);
    assert msg + [] == msg;
    ContentsOfTerminated(msg, []);
    assert msg + ['\0'] + [] == msg + ['\0'];
    var _ := Printf.Printf(con, msg + ['\0'], []);
  }

  /** trap_init's updates set exactly the enable bits and keep every other bit. */
  lemma TrapInitBits(mideleg: u64, sie: u64, sstatus: u64)
    ensures forall k :: Bit(BitOr(mideleg, Pow2(5)), k) <==> Bit(mideleg, k) || k == 5
    ensures forall k :: Bit(BitOr(sie, Pow2(5)), k) <==> Bit(sie, k) || k == 5
    ensures forall k :: Bit(BitOr(sstatus, Pow2(1)), k) <==> Bit(sstatus, k) || k == 1
  {
    SetBit(mideleg, 5);
    SetBit(sie, 5);
    SetBit(sstatus, 1);
  }
}
