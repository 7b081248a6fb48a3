/**
 * The NUL-terminated string and byte-buffer routines of kernel/string.c.
 *
 * A C `char *` is an array together with an offset into it. Characters
 * stand for bytes: every character the kernel handles is below 256, and
 * `(unsigned char)` of a character is its code. The read-only routines are
 * specified by functions on the characters from the pointer onwards; the
 * routines that write are specified by the whole new array contents.
 */
module CString {
  import opened RiscV
  import opened Wrappers

  /** The characters of a C string: everything before its first NUL. */
  function Contents(s: seq<char>): (c: seq<char>)
    requires '\0' in s
    ensures '\0' !in c && c + ['\0'] <= s
  {
    s[..StrLen(s)]
  }

  /** The index of the first NUL. */
  function StrLen(s: seq<char>): (n: nat)
    requires '\0' in s
    ensures n < |s| && s[n] == '\0' && '\0' !in s[..n]
  {
    if s[0] == '\0' then 0
    else
      assert s == [s[0]] + s[1..];
      var n := 1 + StrLen(s[1..]);
      assert s[..n] == [s[0]] + s[1..][..n - 1];
      n
  }

  /** A NUL at `k` with none before it is the string's end. */
  lemma {:induction false} StrLenAt(s: seq<char>, k: nat)
    requires k < |s| && s[k] == '\0' && forall m :: 0 <= m < k ==> s[m] != '\0'
    ensures StrLen(s) == k
    decreases k
  {
    if k > 0 {
      assert s == [s[0]] + s[1..];
      StrLenAt(s[1..], k - 1);
    }
  }

  /** A literal followed by its terminator reads back as that literal, whatever follows. */
  lemma ContentsOfTerminated(t: seq<char>, rest: seq<char>)
    requires '\0' !in t
    ensures '\0' in t + ['\0'] + rest
    ensures StrLen(t + ['\0'] + rest) == |t| && Contents(t + ['\0'] + rest) == t
  {
    var s := t + ['\0'] + rest;
    assert s[|t|] == '\0';
    assert forall m :: 0 <= m < |t| ==> s[m] == t[m];
    StrLenAt(s, |t|);
    assert s[..|t|] == t;
  }

  /** C's `(char)c`: the low eight bits of an `int`. */
  function Char8(c: i32): (ch: char)
    ensures ch as int == c % 256
  {
    (c % 256) as char
  }

  /** strcmp: difference of the first pair of characters that differ or end the first string. */
  function StrCmp(s1: seq<char>, s2: seq<char>): int
    requires '\0' in s1 && '\0' in s2
    decreases |s1|
  {
    if s1[0] != '\0' && s1[0] == s2[0] then
      assert s2 == [s2[0]] + s2[1..];
      StrCmp(s1[1..], s2[1..])
    else s1[0] as int - s2[0] as int
  }

  /** strcmp returns 0 exactly when the two strings have the same characters. */
  lemma {:induction false} StrCmpZeroIff(s1: seq<char>, s2: seq<char>)
    requires '\0' in s1 && '\0' in s2
    ensures StrCmp(s1, s2) == 0 <==> Contents(s1) == Contents(s2)
    decreases |s1|
  {
    if s1[0] != '\0' && s1[0] == s2[0] {
      assert s1 == [s1[0]] + s1[1..] && s2 == [s2[0]] + s2[1..];
      StrCmpZeroIff(s1[1..], s2[1..]);
      assert Contents(s1) == [s1[0]] + Contents(s1[1..]);
      assert Contents(s2) == [s2[0]] + Contents(s2[1..]);
    } else if s1[0] == '\0' {
      assert Contents(s1) == [];
      assert s2[0] != '\0' ==> Contents(s2) != [] && Contents(s2)[0] == s2[0];
    } else {
      assert Contents(s1)[0] == s1[0];
      assert s2[0] != '\0' ==> Contents(s2)[0] == s2[0];
    }
  }

  /**
   * The sign of strcmp is that of the first position where the strings
   * differ, comparing the characters as unsigned codes.
   */
  lemma {:induction false} StrCmpAtDifference(s1: seq<char>, s2: seq<char>, k: nat)
    requires '\0' in s1 && '\0' in s2
    requires k < |s1| && k < |s2| && s1[..k] == s2[..k] && '\0' !in s1[..k] && s1[k] != s2[k]
    ensures StrCmp(s1, s2) == s1[k] as int - s2[k] as int
    decreases k
  {
    if k > 0 {
      assert s1[0] == s1[..k][0] && s2[0] == s2[..k][0];
      assert s1[1..][..k - 1] == s1[..k][1..] && s2[1..][..k - 1] == s2[..k][1..];
      assert s2 == [s2[0]] + s2[1..];
      StrCmpAtDifference(s1[1..], s2[1..], k - 1);
    }
  }

  /** strcmp is antisymmetric. */
  lemma {:induction false} StrCmpAntisymmetric(s1: seq<char>, s2: seq<char>)
    requires '\0' in s1 && '\0' in s2
    ensures StrCmp(s1, s2) == -StrCmp(s2, s1)
    decreases |s1|
  {
    if s1[0] != '\0' && s1[0] == s2[0] {
      assert s1 == [s1[0]] + s1[1..] && s2 == [s2[0]] + s2[1..];
      StrCmpAntisymmetric(s1[1..], s2[1..]);
    }
  }

  /** The first position before the NUL holding `ch`. */
  function IndexOf(s: seq<char>, ch: char): (r: Option<nat>)
    requires '\0' in s
    ensures r.Some? ==> r.value < StrLen(s) && s[r.value] == ch && ch !in s[..r.value]
    ensures r.None? ==> ch !in Contents(s)
    decreases |s|
  {
    if s[0] == '\0' then None
    else if s[0] == ch then Some(0)
    else
      assert s == [s[0]] + s[1..];
      assert Contents(s) == [s[0]] + Contents(s[1..]);
      match IndexOf(s[1..], ch)
      case None => None
      case Some(k) =>
        assert s[..k + 1] == [s[0]] + s[1..][..k];
        Some(k + 1)
  }

  /**
   * strchr: the first position before the NUL holding `(char)c`; failing
   * that, the position of the NUL itself when `c` is 0, and null otherwise.
   */
  function StrChr(s: seq<char>, c: i32): (r: Option<nat>)
    requires '\0' in s
    ensures r.Some? ==> r.value <= StrLen(s) && s[r.value] == Char8(c) && Char8(c) !in s[..r.value]
    ensures r.None? <==> Char8(c) !in Contents(s) && c != 0
  {
    match IndexOf(s, Char8(c))
    case Some(k) => Some(k)
    case None => if c == 0 then Some(StrLen(s)) else None
  }

  /** strcpy on values: `src` up to and including its NUL, written at `d`. */
  function StrCpyInto(dst: seq<char>, d: nat, src: seq<char>): seq<char>
    requires '\0' in src && d + StrLen(src) + 1 <= |dst|
  {
    dst[..d] + src[..StrLen(src) + 1] + dst[d + StrLen(src) + 1..]
  }

  /** After strcpy the destination holds the same string: strcmp of the two is 0. */
  lemma StrCpyThenCompare(dst: seq<char>, d: nat, src: seq<char>)
    requires '\0' in src && d + StrLen(src) + 1 <= |dst|
    ensures var r := StrCpyInto(dst, d, src)[d..];
      '\0' in r && Contents(r) == Contents(src) && StrCmp(r, src) == 0
  {
    var n := StrLen(src);
    var r := StrCpyInto(dst, d, src)[d..];
    assert r[..n + 1] == src[..n + 1];
    assert r[n] == '\0';
    assert r[..n] == src[..n];
    assert forall m :: 0 <= m < n ==> r[m] != '\0' by {
      forall m | 0 <= m < n ensures r[m] != '\0' {
        assert r[m] == src[..n][m];
      }
    }
    StrLenAt(r, n);
    StrCmpZeroIff(r, src);
  }

  /** memcpy: `n` bytes from `src[s..]` to `dst[d..]`; the buffers must not overlap. */
  method Memcpy(dst: array<char>, d: nat, src: array<char>, s: nat, n: u64)
    requires d + n <= dst.Length && s + n <= src.Length
    requires dst != src || d + n <= s || s + n <= d
    modifies dst
    ensures dst[..] == old(dst[..d]) + old(src[s..s + n]) + old(dst[d + n..])
  {
    ghost var src0 := src[..];
    var k: u64 := 0;
    while k < n
      invariant k <= n
      invariant forall j :: s <= j < s + n ==> src[j] == src0[j]
      invariant forall j :: 0 <= j < dst.Length ==>
        dst[j] == if d <= j < d + k then src0[s + j - d] else old(dst[j])
    {
      dst[d + k] := src[s + k];
      k := k + 1;
    }
    assert dst[..] == old(dst[..d]) + src0[s..s + n] + old(dst[d + n..]);
  }

  /** memset: `n` copies of `(char)c` from `dst[d]` on. */
  method Memset(dst: array<char>, d: nat, c: i32, n: u64)
    requires d + n <= dst.Length
    modifies dst
    ensures dst[..] == old(dst[..d]) + seq(n, _ => Char8(c)) + old(dst[d + n..])
  {
    var k: u64 := 0;
    while k < n
      invariant k <= n
      invariant forall j :: 0 <= j < dst.Length ==>
        dst[j] == if d <= j < d + k then Char8(c) else old(dst[j])
    {
      dst[d + k] := Char8(c);
      k := k + 1;
    }
    assert dst[..] == old(dst[..d]) + seq(n, _ => Char8(c)) + old(dst[d + n..]);
  }

  /** strlen. */
  method Strlen(a: array<char>, p: nat) returns (n: nat)
    requires p <= a.Length && '\0' in a[p..]
    ensures n == StrLen(a[p..])
  {
    n := 0;
    while a[p + n] != '\0'
      invariant n <= StrLen(a[p..])
      invariant forall m :: 0 <= m < n ==> a[p..][m] != '\0'
      decreases StrLen(a[p..]) - n
    {
      assert a[p..][n] == a[p + n];
      n := n + 1;
    }
    assert a[p..][n] == '\0';
    StrLenAt(a[p..], n);
  }

  /** strcmp. */
  method Strcmp(a: array<char>, i: nat, b: array<char>, j: nat) returns (r: int)
    requires i <= a.Length && j <= b.Length && '\0' in a[i..] && '\0' in b[j..]
    ensures r == StrCmp(a[i..], b[j..])
  {
    var k := 0;
    while a[i + k] != '\0' && a[i + k] == b[j + k]
      invariant i + k < a.Length && j + k < b.Length
      invariant '\0' in a[i + k..] && '\0' in b[j + k..]
      invariant StrCmp(a[i + k..], b[j + k..]) == StrCmp(a[i..], b[j..])
      decreases a.Length - k
    {
      assert a[i + k..] == [a[i + k]] + a[i + k + 1..];
      assert b[j + k..] == [b[j + k]] + b[j + k + 1..];
      assert a[i + k..][1..] == a[i + k + 1..] && b[j + k..][1..] == b[j + k + 1..];
      k := k + 1;
    }
    assert a[i + k..][0] == a[i + k] && b[j + k..][0] == b[j + k];
    r := a[i + k] as int - b[j + k] as int;
  }

  /** Scanning up to `k` without meeting `ch` or a NUL decides IndexOf at `k`. */
  lemma {:induction false} IndexOfScan(s: seq<char>, ch: char, k: nat)
    requires '\0' in s && k < |s|
    requires forall m :: 0 <= m < k ==> s[m] != ch && s[m] != '\0'
    ensures s[k] == '\0' ==> IndexOf(s, ch) == None
    ensures s[k] != '\0' && s[k] == ch ==> IndexOf(s, ch) == Some(k)
    decreases k
  {
    if k > 0 {
      assert s == [s[0]] + s[1..];
      IndexOfScan(s[1..], ch, k - 1);
    }
  }

  /** strchr: a position relative to `p`, or null. */
  method Strchr(a: array<char>, p: nat, c: i32) returns (r: Option<nat>)
    requires p <= a.Length && '\0' in a[p..]
    ensures r == StrChr(a[p..], c)
  {
    var k := 0;
    while a[p + k] != '\0'
      invariant k <= StrLen(a[p..])
      invariant forall m :: 0 <= m < k ==> a[p..][m] != Char8(c) && a[p..][m] != '\0'
      decreases StrLen(a[p..]) - k
    {
      assert a[p..][k] == a[p + k];
      if a[p + k] == Char8(c) {
        IndexOfScan(a[p..], Char8(c), k);
        return Some(k);
      }
      k := k + 1;
    }
    assert a[p..][k] == '\0';
    IndexOfScan(a[p..], Char8(c), k);
    if c == 0 {
      StrLenAt(a[p..], k);
      return Some(k);
    }
    return None;
  }

  /** strcpy: `src[s..]` up to and including its NUL, into `dst[d..]`. */
  method Strcpy(dst: array<char>, d: nat, src: array<char>, s: nat)
    requires s <= src.Length && '\0' in src[s..]
    requires d + StrLen(src[s..]) + 1 <= dst.Length
    requires dst != src
    modifies dst
    ensures dst[..] == StrCpyInto(old(dst[..]), d, src[s..])
  {
    ghost var n := StrLen(src[s..]);
    var k := 0;
    while src[s + k] != '\0'
      invariant k <= n
      invariant forall j :: 0 <= j < k ==> src[s..][j] != '\0'
      invariant forall j :: 0 <= j < dst.Length ==>
        dst[j] == if d <= j < d + k then src[s + j - d] else old(dst[j])
      decreases n - k
    {
      assert src[s..][k] == src[s + k];
      dst[d + k] := src[s + k];
      k := k + 1;
    }
    // The terminating NUL is copied as well.
    dst[d + k] := src[s + k];
    assert src[s..][k] == '\0';
    StrLenAt(src[s..], k);
    assert dst[..] == StrCpyInto(old(dst[..]), d, src[s..]);
  }
}
