/**
 * The console (kernel/console.c): every character the kernel prints ends up
 * in `console_putc`, which hands it to the UART. The model records the
 * characters passed to `console_putc`, in order, as the console's output.
 */
module Console {
  import opened Wrappers
  import opened CString

  const ESC: char := 27 as char

  /** What clear_screen prints: erase the display, then home the cursor. */
  const CLEAR_SCREEN: seq<char> := [ESC] + "[2J" + [ESC] + "[H"

  /** What console_puts prints for a C string, or for a null pointer. */
  function PutsText(s: Option<seq<char>>): seq<char>
    requires s.Some? ==> '\0' in s.value
  {
    match s
    case None => "(null)"
    case Some(chars) => Contents(chars)
  }

  /**
   * console_puts emits exactly the characters before the terminator, none of
   * which is a NUL, and nothing at all for the empty string.
   */
  lemma PutsTextOfLiteral(t: seq<char>, rest: seq<char>)
    requires '\0' !in t
    ensures PutsText(Some(t + ['\0'] + rest)) == t
    ensures t == [] ==> PutsText(Some(t + ['\0'] + rest)) == []
  {
    ContentsOfTerminated(t, rest);
  }

  class Console {
    /** Every character passed to console_putc so far. */
    var out: seq<char>

    constructor ()
      ensures out == []
    {
      out := [];
    }

    /** console_putc. */
    method Putc(c: char)
      modifies this
      ensures out == old(out) + [c]
    {
      out := out + [c];
    }

    /** console_puts: "(null)" for a null pointer, otherwise the characters up to the NUL. */
    method Puts(s: Option<seq<char>>)
      requires s.Some? ==> '\0' in s.value
      modifies this
      ensures out == old(out) + PutsText(s)
    {
      if s.None? {
        Putc('(');
        Putc('n');
        Putc('u');
        Putc('l');
        Putc('l');
        Putc(')');
        return;
      }
      var chars := s.value;
      var i := 0;
      while chars[i] != '\0'
        invariant i <= StrLen(chars)
        invariant forall m :: 0 <= m < i ==> chars[m] != '\0'
        invariant out == old(out) + chars[..i]
        decreases StrLen(chars) - i
      {
        Putc(chars[i]);
        assert chars[..i + 1] == chars[..i] + [chars[i]];
        i := i + 1;
      }
      StrLenAt(chars, i);
    }

    /** clear_screen. */
    method ClearScreen()
      modifies this
      ensures out == old(out) + CLEAR_SCREEN
    {
      ContentsOfTerminated(CLEAR_SCREEN, []);
      Puts(Some(CLEAR_SCREEN + ['\0']));
    }
  }
}

/**
 * The cursor and colour helpers of kernel/console.c, which print ANSI
 * escape sequences through printf.
 */
module ConsoleEscapes {
  import opened RiscV
  import opened CString
  import opened Console
  import opened Printf

  const GOTO_FMT: seq<char> := [ESC] + "[" + ("%d" + (";" + ("%d" + "H")))

  /** goto_xy's format prints ESC "[", the row, ";", the column and "H". */
  lemma GotoFormat(x: i32, y: i32)
    ensures Contents(GOTO_FMT + ['\0']) == GOTO_FMT
    ensures WellFormed(GOTO_FMT, [Int(y), Int(x)])
    ensures FormatText(GOTO_FMT, [Int(y), Int(x)]) == [ESC] + "[" + Decimal(y) + ";" + Decimal(x) + "H"
  {
    FormatTwoConversions([ESC] + "[", 'd', ";", 'd', "H", Int(y), Int(x));
    assert [ESC] + "[" + (Decimal(y) + (";" + (Decimal(x) + "H"))) == [ESC] + "[" + Decimal(y) + ";" + Decimal(x) + "H";
    ContentsOfTerminated(GOTO_FMT, []);
    assert GOTO_FMT + ['\0'] + [] == GOTO_FMT + ['\0'];
  }

  /** goto_xy(x, y): ESC "[" row ";" column "H", both in decimal, row first. */
  method GotoXy(con: Console, x: i32, y: i32)
    modifies con
    ensures con.out == old(con.out) + [ESC] + "[" + Decimal(y) + ";" + Decimal(x) + "H"
  {
    ghost var before := con.out;
    GotoFormat(x, y);
    var _ := Printf.Printf(con, GOTO_FMT + ['\0'], [Int(y), Int(x)]);
    assert con.out == before + ([ESC] + "[" + Decimal(y) + ";" + Decimal(x) + "H");
  }

  const COLOR_FMT: seq<char> := [ESC] + "[" + ("%d" + "m")
  const RESET_FMT: seq<char> := [ESC] + "[0m"

  /** set_color's format prints ESC "[", the colour in decimal and "m"; reset_color's has no conversion. */
  lemma ColorFormats(fg: i32)
    ensures Contents(COLOR_FMT + ['\0']) == COLOR_FMT
    ensures WellFormed(COLOR_FMT, [Int(fg)])
    ensures FormatText(COLOR_FMT, [Int(fg)]) == [ESC] + "[" + Decimal(fg) + "m"
    ensures Contents(RESET_FMT + ['\0']) == RESET_FMT
    ensures WellFormed(RESET_FMT, []) && FormatText(RESET_FMT, []) == RESET_FMT
  {
    FormatOneConversion([ESC] + "[", 'd', "m", Int(fg));
    ContentsOfTerminated(COLOR_FMT, []);
    assert COLOR_FMT + ['\0'] + [] == COLOR_FMT + ['\0'];
    FormatPlain(RESET_FMT, [], []);
    assert RESET_FMT + [] == RESET_FMT;
    ContentsOfTerminated(RESET_FMT, []);
    assert RESET_FMT + ['\0'] + [] == RESET_FMT + ['\0'];
  }

  /** set_color(fg): ESC "[" fg "m". */
  method SetColor(con: Console, fg: i32)
    modifies con
    ensures con.out == old(con.out) + [ESC] + "[" + Decimal(fg) + "m"
  {
    ColorFormats(fg);
    var _ := Printf.Printf(con, COLOR_FMT + ['\0'], [Int(fg)]);
  }

  /** reset_color: ESC "[0m". */
  method ResetColor(con: Console)
    modifies con
    ensures con.out == old(con.out) + [ESC] + "[0m"
  {
    ColorFormats(0);
    var _ := Printf.Printf(con, RESET_FMT + ['\0'], []);
  }
}
