/**
 * Formatted output (kernel/printf.c).
 *
 * printf walks the format string up to its NUL, copies ordinary characters
 * to the console and interprets a `%` together with the character after it.
 * The variadic arguments are modelled as a list of tagged values, one per
 * conversion that consumes an argument; the format and the list must agree,
 * as C requires of `va_arg`.
 */
module Printf {
  import opened RiscV
  import opened Wrappers
  import opened CString
  import opened Console

  /** One variadic argument: an `int`, an `unsigned long long`, or a `char *` that may be null. */
  datatype Arg = Int(v: i32) | Ptr(p: u64) | Str(s: Option<seq<char>>)

  const DIGITS: seq<char> := "0123456789abcdef"

  /** The character for digit `d`: entry `d` of printint's table DIGITS. */
  function DigitChar(d: nat): (c: char)
    requires d < 16
  {
    if d < 10 then ('0' as int + d) as char else ('a' as int + d - 10) as char
  }

  lemma DigitCharIsTableEntry(d: nat)
    requires d < 16
    ensures DigitChar(d) == DIGITS[d]
  {
    assert DIGITS == ['0', '1', '2', '3', '4', '5', '6', '7', '8', '9', 'a', 'b', 'c', 'd', 'e', 'f'];
  }

  /** The value of a digit character of "0123456789abcdef". */
  function DigitValue(c: char): nat {
    if '0' <= c <= '9' then c as int - '0' as int
    else if 'a' <= c <= 'f' then c as int - 'a' as int + 10
    else 0
  }

  /** The digits of `x` in `base`, most significant first, with no leading zero. */
  function Digits(x: nat, base: nat): (ds: seq<char>)
    requires 2 <= base <= 16
    ensures |ds| >= 1
    decreases x
  {
    if x < base then [DigitChar(x)]
    else Digits(x / base, base) + [DigitChar(x % base)]
  }

  lemma DigitValueOfChar(d: nat)
    requires d < 16
    ensures DigitValue(DigitChar(d)) == d
  {
  }

  lemma DivMod(x: nat, base: nat)
    requires base >= 2
    ensures x == (x / base) * base + x % base && x % base < base && (x > 0 ==> x / base < x)
  {
  }

  /** Reading a digit string back as a number in `base`. */
  function ValueOf(ds: seq<char>, base: nat): nat
    decreases |ds|
  {
    if ds == [] then 0 else ValueOf(ds[..|ds| - 1], base) * base + DigitValue(ds[|ds| - 1])
  }

  /** Reading the digits of `x` back gives `x`. */
  lemma {:induction false} DigitsRoundTrip(x: nat, base: nat)
    requires 2 <= base <= 16
    ensures ValueOf(Digits(x, base), base) == x
    decreases x
  {
    DivMod(x, base);
    if x >= base {
      DigitsRoundTrip(x / base, base);
      var ds := Digits(x, base);
      assert ds[..|ds| - 1] == Digits(x / base, base);
      DigitValueOfChar(x % base);
    } else {
      DigitValueOfChar(x);
    }
  }

  /** The digit string starts with '0' only for zero, which is the single digit "0". */
  lemma {:induction false} DigitsNoLeadingZero(x: nat, base: nat)
    requires 2 <= base <= 16
    ensures Digits(x, base)[0] == '0' <==> x == 0
    ensures x == 0 ==> Digits(x, base) == "0"
    decreases x
  {
    if x >= base {
      DigitsNoLeadingZero(x / base, base);
    }
  }

  /** C's reinterpretation of an `int` as `unsigned int`. */
  function Unsigned32(x: i32): (u: nat)
    ensures u < TWO_32 && u % TWO_32 == x % TWO_32
  {
    x % TWO_32
  }

  /**
   * What printint(xx, base, sign) prints: for a signed negative value a '-'
   * and the digits of its magnitude (INT_MIN spelled out in full), otherwise
   * the digits of the value read as an unsigned 32-bit number.
   */
  function IntText(xx: i32, base: nat, sign: bool): seq<char>
    requires base == 10 || base == 16
  {
    if sign && xx == -0x8000_0000 then "-2147483648"
    else if sign && xx < 0 then "-" + Digits(-xx, base)
    else Digits(Unsigned32(xx), base)
  }

  /** What `%d` prints. */
  function Decimal(x: i32): seq<char> {
    IntText(x, 10, true)
  }

  lemma DigitsAppend(x: nat, d: nat)
    requires x >= 1 && d < 10
    ensures Digits(x * 10 + d, 10) == Digits(x, 10) + [DigitChar(d)]
  {
    assert (x * 10 + d) / 10 == x && (x * 10 + d) % 10 == d;
  }

  lemma IntMinDigits()
    ensures Digits(2147483648, 10) == "2147483648"
  {
    DigitsAppend(2, 1);
    DigitsAppend(21, 4);
    DigitsAppend(214, 7);
    DigitsAppend(2147, 4);
    DigitsAppend(21474, 8);
    DigitsAppend(214748, 3);
    DigitsAppend(2147483, 6);
    DigitsAppend(21474836, 4);
    DigitsAppend(214748364, 8);
  }

  function Magnitude(x: i32): nat {
    if x < 0 then -(x as int) else x
  }

  /**
   * `%d` prints a '-' exactly for negative values, then the decimal digits of
   * the magnitude with no leading zero; reading them back gives the
   * magnitude. The INT_MIN special case agrees with this rule.
   */
  lemma DecimalText(x: i32)
    ensures Decimal(x) == (if x < 0 then "-" else "") + Digits(Magnitude(x), 10)
    ensures ValueOf(Digits(Magnitude(x), 10), 10) == Magnitude(x)
    ensures Digits(Magnitude(x), 10)[0] == '0' <==> x == 0
  {
    if x == -0x8000_0000 {
      IntMinDigits();
    }
    DigitsRoundTrip(Magnitude(x), 10);
    DigitsNoLeadingZero(Magnitude(x), 10);
  }

  /** `%x` prints the lowercase hex digits of the value read as unsigned 32-bit. */
  lemma HexText(x: i32)
    ensures IntText(x, 16, false) == Digits(x % TWO_32, 16)
    ensures ValueOf(IntText(x, 16, false), 16) == x % TWO_32
    ensures forall k :: 0 <= k < |IntText(x, 16, false)| ==> IntText(x, 16, false)[k] in DIGITS
  {
    DigitsRoundTrip(x % TWO_32, 16);
    DigitsFromTable(x % TWO_32, 16);
  }

  lemma {:induction false} DigitsFromTable(x: nat, base: nat)
    requires 2 <= base <= 16
    ensures forall k :: 0 <= k < |Digits(x, base)| ==> Digits(x, base)[k] in DIGITS
    decreases x
  {
    DivMod(x, base);
    if x >= base {
      DigitsFromTable(x / base, base);
      DigitCharIsTableEntry(x % base);
    } else {
      DigitCharIsTableEntry(x);
    }
  }

  /** The conversions that take an argument. */
  predicate Consumes(c: char) {
    c == 'd' || c == 'x' || c == 'p' || c == 's' || c == 'c'
  }

  /** The argument has the type `va_arg` reads for conversion `c`. */
  predicate Fits(c: char, a: Arg) {
    && ((c == 'd' || c == 'x' || c == 'c') ==> a.Int?)
    && (c == 'p' ==> a.Ptr?)
    && (c == 's' ==> a.Str? && (a.s.Some? ==> '\0' in a.s.value))
  }

  /**
   * A format (its characters before the NUL) and an argument list that
   * agree: every '%' has a character after it, and every conversion that
   * consumes an argument finds one of its type. Extra arguments are allowed.
   */
  predicate WellFormed(f: seq<char>, args: seq<Arg>)
    decreases |f|
  {
    if f == [] then true
    else if f[0] != '%' then WellFormed(f[1..], args)
    else |f| >= 2 && Supplies(f[1], args) && WellFormed(f[2..], Remaining(f[1], args))
  }

  /** What one argument-consuming conversion prints. */
  function ConvText(c: char, a: Arg): seq<char>
    requires Consumes(c) && Fits(c, a)
  {
    if c == 'd' then IntText(a.v, 10, true)
    else if c == 'x' then IntText(a.v, 16, false)
    else if c == 'p' then "0x" + IntText(ToI32(a.p), 16, false)
    else if c == 's' then PutsText(a.s)
    else [Char8(a.v)]
  }

  /** What printf prints for the format characters `f`. */
  function FormatText(f: seq<char>, args: seq<Arg>): seq<char>
    requires WellFormed(f, args)
    decreases |f|
  {
    if f == [] then []
    else if f[0] != '%' then [f[0]] + FormatText(f[1..], args)
    else PercentText(f[1], args) + FormatText(f[2..], Remaining(f[1], args))
  }

  /** The argument list has what the conversion `c` reads from it. */
  predicate Supplies(c: char, args: seq<Arg>) {
    Consumes(c) ==> |args| >= 1 && Fits(c, args[0])
  }

  /** What printf prints for '%' followed by `c`. */
  function PercentText(c: char, args: seq<Arg>): seq<char>
    requires Supplies(c, args)
  {
    if Consumes(c) then ConvText(c, args[0])
    else if c == '%' then "%"
    else ['%', c]
  }

  /** The arguments left after the conversion `c`. */
  function Remaining(c: char, args: seq<Arg>): seq<Arg>
    requires Supplies(c, args)
  {
    if Consumes(c) then args[1..] else args
  }

  /** Characters other than '%' are printed unchanged and in order, consuming nothing. */
  lemma {:induction false} FormatPlain(p: seq<char>, rest: seq<char>, args: seq<Arg>)
    requires '%' !in p && WellFormed(rest, args)
    ensures WellFormed(p + rest, args)
    ensures FormatText(p + rest, args) == p + FormatText(rest, args)
    decreases |p|
  {
    var f := p + rest;
    if p == [] {
      assert f == rest;
    } else {
      assert f[0] == p[0] && p[0] != '%';
      assert f[1..] == p[1..] + rest;
      assert '%' !in p[1..];
      FormatPlain(p[1..], rest, args);
    }
  }

  /** A consuming conversion prints its argument's text and consumes exactly that argument. */
  lemma FormatConversion(c: char, rest: seq<char>, a: Arg, args: seq<Arg>)
    requires Consumes(c) && Fits(c, a) && WellFormed(rest, args)
    ensures WellFormed(['%', c] + rest, [a] + args)
    ensures FormatText(['%', c] + rest, [a] + args) == ConvText(c, a) + FormatText(rest, args)
  {
    var f := ['%', c] + rest;
    assert f[0] == '%' && f[1] == c && f[2..] == rest;
    assert ([a] + args)[0] == a && ([a] + args)[1..] == args;
  }

  /** A format with a single conversion between plain text prints the text around the argument's text. */
  lemma FormatOneConversion(p: seq<char>, c: char, q: seq<char>, a: Arg)
    requires '%' !in p && '%' !in q && Consumes(c) && Fits(c, a)
    ensures WellFormed(p + (['%', c] + q), [a])
    ensures FormatText(p + (['%', c] + q), [a]) == p + (ConvText(c, a) + q)
  {
    var f := ['%', c] + q;
    assert WellFormed(f, [a]) && FormatText(f, [a]) == ConvText(c, a) + q by {
      FormatPlain(q, [], []);
      assert q + [] == q;
      FormatConversion(c, q, a, []);
      assert [a] + [] == [a];
    }
    FormatPlain(p, f, [a]);
  }

  /**
   * "%%" prints one '%', and any other character after '%' that is not a
   * conversion prints as '%' followed by that character; neither consumes
   * an argument. So "%lx" prints "%l" and then a literal 'x'.
   */
  lemma FormatNonConversion(c: char, rest: seq<char>, args: seq<Arg>)
    requires !Consumes(c) && WellFormed(rest, args)
    ensures WellFormed(['%', c] + rest, args)
    ensures c == '%' ==> FormatText(['%', c] + rest, args) == "%" + FormatText(rest, args)
    ensures c != '%' ==> FormatText(['%', c] + rest, args) == ['%', c] + FormatText(rest, args)
    ensures c == 'l' && '%' !in rest ==> FormatText(['%', c] + rest, args) == "%l" + rest
  {
    var f := ['%', c] + rest;
    assert f[0] == '%' && f[1] == c && f[2..] == rest;
    if '%' !in rest {
      FormatPlain(rest, [], args);
      assert rest + [] == rest;
    }
  }

  /** A format with two conversions between plain text prints the text around both arguments' texts. */
  lemma FormatTwoConversions(p: seq<char>, c1: char, q: seq<char>, c2: char, r: seq<char>, a1: Arg, a2: Arg)
    requires '%' !in p && '%' !in q && '%' !in r
    requires Consumes(c1) && Fits(c1, a1) && Consumes(c2) && Fits(c2, a2)
    ensures WellFormed(p + (['%', c1] + (q + (['%', c2] + r))), [a1, a2])
    ensures FormatText(p + (['%', c1] + (q + (['%', c2] + r))), [a1, a2]) == p + (ConvText(c1, a1) + (q + (ConvText(c2, a2) + r)))
  {
    FormatConversionThenOne(c1, q, c2, r, a1, a2);
    FormatPlain(p, ['%', c1] + (q + (['%', c2] + r)), [a1, a2]);
  }

  /** The part of a two-conversion format from its first '%' on. */
  lemma FormatConversionThenOne(c1: char, q: seq<char>, c2: char, r: seq<char>, a1: Arg, a2: Arg)
    requires '%' !in q && '%' !in r
    requires Consumes(c1) && Fits(c1, a1) && Consumes(c2) && Fits(c2, a2)
    ensures WellFormed(['%', c1] + (q + (['%', c2] + r)), [a1, a2])
    ensures FormatText(['%', c1] + (q + (['%', c2] + r)), [a1, a2]) == ConvText(c1, a1) + (q + (ConvText(c2, a2) + r))
  {
    var g := q + (['%', c2] + r);
    assert WellFormed(g, [a2]) && FormatText(g, [a2]) == q + (ConvText(c2, a2) + r) by {
      FormatOneConversion(q, c2, r, a2);
    }
    FormatConversion(c1, g, a1, [a2]);
    assert [a1] + [a2] == [a1, a2];
  }

  /** A format whose only '%'s are two "%l"s prints exactly as written. */
  lemma FormatTwoLongs(p: seq<char>, q: seq<char>, r: seq<char>, args: seq<Arg>)
    requires '%' !in p && '%' !in q && '%' !in r
    ensures WellFormed(p + ("%l" + (q + ("%l" + r))), args)
    ensures FormatText(p + ("%l" + (q + ("%l" + r))), args) == p + ("%l" + (q + ("%l" + r)))
  {
    var g := "%l" + r;
    assert WellFormed(g, args) && FormatText(g, args) == g by {
      FormatPlain(r, [], args);
      assert r + [] == r;
      FormatNonConversion('l', r, args);
    }
    var f := "%l" + (q + g);
    assert WellFormed(f, args) && FormatText(f, args) == f by {
      FormatPlain(q, g, args);
      FormatNonConversion('l', q + g, args);
    }
    FormatPlain(p, f, args);
  }

  /** `%p` prints "0x" and the hex digits of the pointer's low 32 bits only. */
  lemma PointerText(p: u64)
    ensures ConvText('p', Ptr(p)) == "0x" + Digits(p % TWO_32, 16)
    ensures ValueOf(ConvText('p', Ptr(p))[2..], 16) == p % TWO_32
  {
    assert Unsigned32(ToI32(p)) == p % TWO_32;
    DigitsRoundTrip(p % TWO_32, 16);
  }

  function Reverse(s: seq<char>): (r: seq<char>)
    ensures |r| == |s|
  {
    if s == [] then [] else Reverse(s[1..]) + [s[0]]
  }

  lemma {:induction false} ReverseSnoc(s: seq<char>, c: char)
    ensures Reverse(s + [c]) == [c] + Reverse(s)
    decreases |s|
  {
    if s != [] {
      assert (s + [c])[1..] == s[1..] + [c];
      ReverseSnoc(s[1..], c);
    } else {
      assert Reverse([c]) == Reverse([]) + [c];
    }
  }

  lemma {:induction false} ReverseIndex(s: seq<char>, k: nat)
    requires k < |s|
    ensures Reverse(s)[k] == s[|s| - 1 - k]
    decreases |s|
  {
    if k < |s| - 1 {
      ReverseIndex(s[1..], k);
    }
  }

  /** printint's do-while loop: the digits of `x`, least significant first. */
  method FillDigits(x: nat, base: nat) returns (buf: seq<char>)
    requires base == 10 || base == 16
    ensures Reverse(buf) == Digits(x, base)
  {
    var y: nat := x;
    DivMod(y, base);
    buf := [DigitChar(y % base)];
    y := y / base;
    while y != 0
      invariant Digits(x, base) == (if y == 0 then [] else Digits(y, base)) + Reverse(buf)
      decreases y
    {
      DivMod(y, base);
      ReverseSnoc(buf, DigitChar(y % base));
      buf := buf + [DigitChar(y % base)];
      y := y / base;
    }
  }

  /** printint's final loop: the buffer from its last character to its first. */
  method PutsReversed(con: Console, buf: seq<char>)
    modifies con
    ensures con.out == old(con.out) + Reverse(buf)
  {
    var i := |buf|;
    while i > 0
      invariant 0 <= i <= |buf|
      invariant con.out == old(con.out) + Reverse(buf)[..|buf| - i]
    {
      i := i - 1;
      ReverseIndex(buf, |buf| - 1 - i);
      con.Putc(buf[i]);
      assert Reverse(buf)[..|buf| - i] == Reverse(buf)[..|buf| - i - 1] + [buf[i]];
    }
    assert Reverse(buf)[..|buf|] == Reverse(buf);
  }

  /** The unsigned value printint converts, and the INT_MIN test it makes on it. */
  lemma PrintIntValue(xx: i32, sign: bool)
    ensures var x := if sign && xx < 0 then (-(xx as int)) % TWO_32 else xx % TWO_32;
      x == (if sign && xx < 0 then -(xx as int) else Unsigned32(xx))
    ensures (xx % TWO_32 == 0x8000_0000) <==> xx == -0x8000_0000
  {
  }

  /**
   * printint: the sign for a signed negative value, then the digits of the
   * magnitude (or of the value read as unsigned), with INT_MIN printed as a
   * fixed string.
   */
  method PrintInt(con: Console, xx: i32, base: nat, sign: bool)
    requires base == 10 || base == 16
    modifies con
    ensures con.out == old(con.out) + IntText(xx, base, sign)
  {
    var neg := false;
    var x: nat;
    if sign && xx < 0 {
      neg := true;
      x := (-(xx as int)) % TWO_32;
    } else {
      x := xx % TWO_32;
    }
    PrintIntValue(xx, sign);
    // `xx == 0x80000000` compares xx converted to unsigned int.
    if sign && xx % TWO_32 == 0x8000_0000 {
      ContentsOfTerminated("-2147483648", []);
      con.Puts(Some("-2147483648" + ['\0']));
      return;
    }
    assert IntText(xx, base, sign) == (if neg then "-" else "") + Digits(x, base);
    var buf := FillDigits(x, base);
    if neg {
      con.Putc('-');
    }
    PutsReversed(con, buf);
  }

  /** printptr: "0x", then the pointer cut to `int` printed as unsigned hex. */
  method PrintPtr(con: Console, x: u64)
    modifies con
    ensures con.out == old(con.out) + ConvText('p', Ptr(x))
  {
    con.Putc('0');
    con.Putc('x');
    PrintInt(con, ToI32(x), 16, false);
  }

  /** The switch in printf's loop: one conversion, and the arguments it leaves. */
  method PrintPercent(con: Console, c: char, args: seq<Arg>) returns (rest: seq<Arg>)
    requires Supplies(c, args)
    modifies con
    ensures con.out == old(con.out) + PercentText(c, args)
    ensures rest == Remaining(c, args)
  {
    rest := args;
    if c == 'd' {
      PrintInt(con, rest[0].v, 10, true);
      rest := rest[1..];
    } else if c == 'x' {
      PrintInt(con, rest[0].v, 16, false);
      rest := rest[1..];
    } else if c == 'p' {
      PrintPtr(con, rest[0].p);
      rest := rest[1..];
    } else if c == 's' {
      con.Puts(rest[0].s);
      rest := rest[1..];
    } else if c == 'c' {
      con.Putc(Char8(rest[0].v));
      rest := rest[1..];
    } else if c == '%' {
      con.Putc('%');
    } else {
      con.Putc('%');
      con.Putc(c);
    }
  }

  /** One step of the format: a plain character, or a '%' and the character after it. */
  lemma FormatStep(f: seq<char>, args: seq<Arg>)
    requires WellFormed(f, args) && f != []
    ensures f[0] != '%' ==> WellFormed(f[1..], args) && FormatText(f, args) == [f[0]] + FormatText(f[1..], args)
    ensures f[0] == '%' ==>
      && |f| >= 2 && Supplies(f[1], args) && WellFormed(f[2..], Remaining(f[1], args))
      && FormatText(f, args) == PercentText(f[1], args) + FormatText(f[2..], Remaining(f[1], args))
  {
  }

  lemma AppendAssoc(a: seq<char>, b: seq<char>, c: seq<char>)
    ensures a + (b + c) == a + b + c
  {
  }

  /** printf: prints the format with its conversions expanded, and returns 0. */
  method Printf(con: Console, fmt: seq<char>, args: seq<Arg>) returns (r: int)
    requires '\0' in fmt && WellFormed(Contents(fmt), args)
    modifies con
    ensures con.out == old(con.out) + FormatText(Contents(fmt), args)
    ensures r == 0
  {
    ghost var n := StrLen(fmt);
    var rest := args;
    var i := 0;
    while fmt[i] != '\0'
      invariant i <= n
      invariant WellFormed(fmt[i..n], rest)
      invariant old(con.out) + FormatText(Contents(fmt), args) == con.out + FormatText(fmt[i..n], rest)
      decreases n - i
    {
      ghost var f := fmt[i..n];
      ghost var before := con.out;
      ghost var args0 := rest;
      assert i < n && f[0] == fmt[i];
      FormatStep(f, rest);
      var c := fmt[i];
      if c != '%' {
        con.Putc(c);
        assert f[1..] == fmt[i + 1..n];
        AppendAssoc(before, [c], FormatText(f[1..], rest));
        i := i + 1;
      } else {
        i := i + 1;
        c := fmt[i];
        assert f[1] == c && f[2..] == fmt[i + 1..n];
        rest := PrintPercent(con, c, rest);
        AppendAssoc(before, PercentText(c, args0), FormatText(f[2..], rest));
        i := i + 1;
      }
    }
    assert fmt[i..n] == [];
    return 0;
  }
}
