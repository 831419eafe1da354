/** Numbers to text and back (lib/string.c): itoa, isnum, strtol, and number, which serves the
    integer conversions of printf. A C string is modelled without its closing NUL. */
module Numbers {
  import opened Basics

  type u8 = x: int | 0 <= x < 0x100
  type u32 = x: int | 0 <= x < 0x1_0000_0000
  type i32 = x: int | -0x8000_0000 <= x < 0x8000_0000

  /** A result of 32-bit signed arithmetic. */
  function Wrap(x: int): (w: i32)
    ensures (w - x) % 0x1_0000_0000 == 0
  {
    (x + 0x8000_0000) % 0x1_0000_0000 - 0x8000_0000
  }

  lemma WrapSame(x: int, y: int)
    requires (x - y) % 0x1_0000_0000 == 0
    ensures Wrap(x) == Wrap(y)
  {
  }

  // ---------- itoa ----------

  /** The character for a digit, in 8-bit arithmetic: 0 to 9, then letters. */
  function DigitChar(d: u8, small: bool): char {
    var ch := (d + 0x30) % 0x100;
    (if ch > 0x39 then (ch + if small then 0x27 else 7) % 0x100 else ch) as char
  }

  /** Which characters those are: for number's small tables a to z, else A to Z. */
  lemma DigitCharIs(d: nat, small: bool)
    requires d < 36
    ensures d < 10 ==> DigitChar(d, small) as int == '0' as int + d
    ensures d >= 10 ==> DigitChar(d, small) as int == (if small then 'a' else 'A') as int + d - 10
  {
  }

  /** The digits of n, most significant first. */
  function Digits(n: nat, base: nat, small: bool): (s: string)
    requires 2 <= base <= 0xFF
    ensures |s| >= 1
  {
    Quotient(n, base);
    if n < base then [DigitChar(n, small)] else Digits(n / base, base, small) + [DigitChar(n % base, small)]
  }

  function Reversed(s: string): (r: string)
    ensures |r| == |s|
  {
    if s == [] then [] else [s[|s| - 1]] + Reversed(s[..|s| - 1])
  }

  lemma {:induction false} ReversedAt(s: string, k: nat)
    requires k < |s|
    ensures Reversed(s)[k] == s[|s| - 1 - k]
  {
    if k > 0 {
      ReversedAt(s[..|s| - 1], k - 1);
    }
  }

  lemma ReversedNext(s: string, c: char)
    ensures Reversed(s + [c]) == [c] + Reversed(s)
  {
    assert (s + [c])[..|s|] == s;
  }

  lemma {:induction false} DigitsBound(n: nat, base: nat, k: nat, small: bool)
    requires 2 <= base <= 0xFF && n < Power(2, k) && k >= 1
    ensures |Digits(n, base, small)| <= k
  {
    PowerStep(k);
    hide Digits, Power;
    DigitsLast(n, base, small);
    if n / base != 0 {
      DivBound(n, base, Power(2, k - 1));
      PowerStep(k - 1);
      DigitsBound(n / base, base, k - 1, small);
    }
  }

  lemma PowerStep(k: nat)
    ensures Power(2, 0) == 1 && (k > 0 ==> Power(2, k) == 2 * Power(2, k - 1))
  {
  }

  lemma DivBound(n: nat, base: nat, p: nat)
    requires n < 2 * p && base >= 2
    ensures n / base < p
  {
    var q := n / base;
    assert n >= q * base >= q * 2;
  }

  /** 33 characters are enough for any n. */
  lemma DigitsFit(n: u32, base: nat, small: bool)
    requires 2 <= base <= 0xFF
    ensures |Digits(n, base, small)| < 33
  {
    assert Power(2, 8) == 0x100 && Power(2, 16) == Power(2, 8) * 0x100 && Power(2, 32) == 0x1_0000_0000 by {
      PowerAdd(8, 8);
      PowerAdd(16, 16);
    }
    DigitsBound(n, base, 32, small);
  }

  lemma {:induction false} PowerAdd(i: nat, j: nat)
    ensures Power(2, i + j) == Power(2, i) * Power(2, j)
  {
    if j > 0 {
      PowerAdd(i, j - 1);
      assert Power(2, i + j) == 2 * (Power(2, i) * Power(2, j - 1));
    }
  }

  function Power(b: nat, k: nat): nat {
    if k == 0 then 1 else b * Power(b, k - 1)
  }

  /** itoa (lib/string.c:109-132): the digits of n are in the buffer, closed by a NUL, and
      nothing after them was touched. */
  method Itoa(n: u32, buf: array<char>, base: u8) returns (len: nat)
    requires base >= 2 && buf.Length > |Digits(n, base, false)|
    modifies buf
    ensures len == |Digits(n, base, false)| && buf[..len] == Digits(n, base, false) && buf[len] == '\0'
    ensures buf[len + 1..] == old(buf[len + 1..])
  {
    hide Digits, Reversed;
    len := Split(n, buf, base);
    ghost var back := buf[..len];
    buf[len] := '\0';
    assert buf[..len] == back;
    Reverse(buf, len);
  }

  /** The first loop of itoa (lib/string.c:115-121): the digits, least significant first. */
  method Split(n: u32, buf: array<char>, base: u8) returns (index: nat)
    requires base >= 2 && buf.Length > |Digits(n, base, false)|
    modifies buf
    ensures index == |Digits(n, base, false)| && Reversed(buf[..index]) == Digits(n, base, false)
    ensures buf[index..] == old(buf[index..])
  {
    hide Digits, Reversed, DigitChar;
    var tmp: nat := n;
    index := 0;
    ghost var all := Digits(n, base, false);
    ReversedNone();
    while true
      invariant index + |Digits(tmp, base, false)| == |all|
      invariant Digits(tmp, base, false) + Reversed(buf[..index]) == all
      invariant buf[|all|..] == old(buf[|all|..])
      decreases tmp
    {
      var q, r := Divide(tmp, base);
      SplitStep(tmp, base, false, q, r, buf[..index], all);
      Put(buf, index, DigitChar(r, false), |all|);
      index := index + 1;
      tmp := q;
      if tmp == 0 {
        break;
      }
    }
  }

  method Divide(n: nat, base: nat) returns (q: nat, r: nat)
    requires base >= 2
    ensures q == n / base && r == n % base && r < base && (q != 0 ==> q < n)
  {
    Quotient(n, base);
    q, r := n / base, n % base;
  }

  method Put(buf: array<char>, index: nat, c: char, ghost end: nat)
    requires index < end <= buf.Length
    modifies buf
    ensures buf[..index + 1] == old(buf[..index]) + [c] && buf[end..] == old(buf[end..])
  {
    buf[index] := c;
  }

  /** Splitting off the last digit. */
  lemma SplitStep(n: nat, base: nat, small: bool, q: nat, r: u8, back: string, all: string)
    requires 2 <= base <= 0xFF && q == n / base && r == n % base && Digits(n, base, small) + Reversed(back) == all
    ensures q == 0 ==> Reversed(back + [DigitChar(r, small)]) == all && |back| + 1 == |all|
    ensures q != 0 ==> Digits(q, base, small) + Reversed(back + [DigitChar(r, small)]) == all
    ensures q != 0 ==> |back| + 1 + |Digits(q, base, small)| == |all|
  {
    hide Digits, Reversed, DigitChar;
    DigitsLast(n, base, small);
    ReversedNext(back, DigitChar(r, small));
  }

  lemma ReversedNone()
    ensures Reversed("") == ""
  {
  }

  lemma DigitsLast(n: nat, base: nat, small: bool)
    requires 2 <= base <= 0xFF
    ensures n / base == 0 ==> Digits(n, base, small) == [DigitChar(n % base, small)]
    ensures n / base != 0 ==> Digits(n, base, small) == Digits(n / base, base, small) + [DigitChar(n % base, small)]
    ensures n / base != 0 ==> n / base < n
  {
    hide DigitChar;
    Quotient(n, base);
  }

  /** No zeros lead, but for 0 itself. */
  lemma {:induction false} DigitsLead(n: nat, base: nat, small: bool)
    requires 2 <= base <= 0xFF
    ensures n == 0 ==> Digits(n, base, small) == "0"
    ensures n > 0 ==> Digits(n, base, small)[0] != '0'
    decreases n
  {
    DigitsLast(n, base, small);
    Quotient(n, base);
    if n >= base {
      DigitsLead(n / base, base, small);
    }
  }

  lemma Quotient(n: nat, base: nat)
    requires base >= 2
    ensures n / base == 0 <==> n < base
    ensures n < base ==> n % base == n
    ensures n >= base ==> n / base < n
    ensures n % base < base
  {
    if n >= base {
      DivBound(n, base, n);
      var q := n / base;
      assert n - q * base < base;
      assert q == 0 ==> q * base == 0;
    }
  }

  /** The reversal in itoa (lib/string.c:125-130). */
  method Reverse(buf: array<char>, len: nat)
    requires 1 <= len <= buf.Length
    modifies buf
    ensures buf[..len] == Reversed(old(buf[..len])) && buf[len..] == old(buf[len..])
  {
    ghost var was := buf[..len];
    var i, j := 0, len - 1;
    while i < j
      invariant 0 <= i <= len && -1 <= j < len && i + j == len - 1
      invariant forall k :: 0 <= k < i || j < k < len ==> buf[k] == was[len - 1 - k]
      invariant forall k :: i <= k <= j ==> buf[k] == was[k]
      invariant buf[len..] == old(buf[len..])
    {
      buf[i], buf[j] := buf[j], buf[i];
      i, j := i + 1, j - 1;
    }
    forall k | 0 <= k < len
      ensures buf[..len][k] == Reversed(was)[k]
    {
      ReversedAt(was, k);
    }
  }

  // ---------- isnum and strtol ----------

  /** The value of a digit in any base up to 16; 255 for a character that is none. */
  function NumOf(ch: char): u8 {
    if '0' <= ch <= '9' then ch as int - '0' as int
    else if 'a' <= ch <= 'f' then ch as int - 'a' as int + 10
    else if 'A' <= ch <= 'F' then ch as int - 'A' as int + 10
    else 255
  }

  /** Which characters are digits, and which digits they are. */
  lemma NumOfIs(ch: char)
    ensures NumOf(ch) == 255 <==> ch !in "0123456789abcdefABCDEF"
    ensures NumOf(ch) != 255 ==>
      NumOf(ch) < 16 && ("0123456789abcdef"[NumOf(ch)] == ch || "0123456789ABCDEF"[NumOf(ch)] == ch)
  {
    var lower, upper := "0123456789abcdef", "0123456789ABCDEF";
    if NumOf(ch) != 255 {
      assert lower[NumOf(ch)] == Hex(NumOf(ch), 'a') && upper[NumOf(ch)] == Hex(NumOf(ch), 'A');
      HexNum(ch);
      assert "0123456789abcdefABCDEF"[if 'A' <= ch <= 'F' then NumOf(ch) + 6 else NumOf(ch)] == ch;
    }
  }

  /** isnum (lib/string.c:67-77): its -1 comes out as 255, for the result is unsigned. */
  method IsNum(ch: char) returns (r: u8)
    ensures r == NumOf(ch)
  {
    var codeA, codeB := "0123456789abcdef", "0123456789ABCDEF";
    HexNum(ch);
    var i := 0;
    while i < |codeA|
      invariant 0 <= i <= |codeA| && i <= NumOf(ch)
    {
      assert codeA[i] == Hex(i, 'a') && codeB[i] == Hex(i, 'A');
      if codeA[i] == ch || codeB[i] == ch {
        return i;
      }
      i := i + 1;
    }
    return -1 % 0x100;
  }

  function Hex(k: nat, a: char): char
    requires k < 16 && (a == 'a' || a == 'A')
  {
    (if k < 10 then '0' as int + k else a as int + k - 10) as char
  }

  lemma HexNum(ch: char)
    ensures forall k :: 0 <= k < 16 ==> (Hex(k, 'a') == ch || Hex(k, 'A') == ch <==> NumOf(ch) == k)
    ensures NumOf(ch) < 16 || NumOf(ch) == 255
  {
  }

  /** What strtol makes of a string. */
  function Parsed(s: string, base: int): i32 {
    if base == 0 || s == [] then 0 else Wrap(Parsed(s[..|s| - 1], base) * base + NumOf(s[|s| - 1]))
  }

  /** strtol (lib/string.c:79-100): the test for a character that is no digit compares an
      unsigned char with -1, so the branch that reports the error is never taken. */
  method Strtol(src: string, base: int) returns (ret: i32, errPos: int)
    ensures ret == Parsed(src, base)
    ensures errPos == -1
  {
    ret, errPos := 0, -1;
    if base == 0 {
      return;
    }
    var i := 0;
    while i < |src|
      invariant 0 <= i <= |src| && ret == Parsed(src[..i], base) && errPos == -1
    {
      var nr := IsNum(src[i]);
      assert src[..i + 1][..i] == src[..i];
      i := i + 1;
      if -1 != nr {
        ret := Wrap(ret * base + nr);
      } else {
        assert false;
      }
    }
    assert src[..i] == src;
  }

  /** For every base that its digits serve, strtol of itoa is the number, as far as 32 signed
      bits go. */
  lemma {:induction false} RoundTrip(n: nat, base: nat)
    requires 2 <= base <= 16
    ensures Parsed(Digits(n, base, false), base) == Wrap(n)
    decreases n
  {
    hide Wrap, NumOf, DigitChar, Digits, Parsed;
    var q, r := n / base, n % base;
    Quotient(n, base);
    NumOfDigit(r);
    DigitsLast(n, base, false);
    if q == 0 {
      ParsedLast("", DigitChar(r, false), base);
      ParsedNone(base);
      assert "" + [DigitChar(r, false)] == [DigitChar(r, false)];
    } else {
      RoundTrip(q, base);
      ParsedLast(Digits(q, base, false), DigitChar(r, false), base);
      WrapTimes(q, base, r);
      Divided(n, base);
    }
  }

  lemma Divided(n: nat, base: nat)
    requires base >= 2
    ensures n / base * base + n % base == n
  {
  }

  lemma ParsedNone(base: int)
    ensures Parsed("", base) == 0
  {
  }

  lemma ParsedLast(s: string, ch: char, base: int)
    requires base != 0
    ensures Parsed(s + [ch], base) == Wrap(Parsed(s, base) * base + NumOf(ch))
  {
    assert (s + [ch])[..|s|] == s;
  }

  /** So it is the number itself exactly if that is below 2 to the 31st. */
  lemma RoundTripExact(n: u32, base: nat)
    requires 2 <= base <= 16
    ensures Parsed(Digits(n, base, false), base) == n <==> n < 0x8000_0000
  {
    RoundTrip(n, base);
  }

  lemma NumOfDigit(d: nat)
    requires d < 16
    ensures NumOf(DigitChar(d, false)) == d
  {
  }

  lemma WrapTimes(x: int, b: int, c: int)
    ensures Wrap(Wrap(x) * b + c) == Wrap(x * b + c)
  {
    var k := (Wrap(x) - x) / 0x1_0000_0000;
    assert Wrap(x) == x + 0x1_0000_0000 * k;
    assert Wrap(x) * b + c - (x * b + c) == 0x1_0000_0000 * (k * b) by {
      assert (x + 0x1_0000_0000 * k) * b == x * b + 0x1_0000_0000 * (k * b);
    }
    WrapSame(Wrap(x) * b + c, x * b + c);
  }

  /** How many characters come before the first that is no digit. */
  function DigitsBefore(s: string): (k: nat)
    ensures k <= |s| && forall i :: 0 <= i < k ==> NumOf(s[i]) != 255
    ensures k < |s| ==> NumOf(s[k]) == 255
  {
    if s == [] || NumOf(s[0]) == 255 then 0 else 1 + DigitsBefore(s[1..])
  }

  /** What strtol is written to deliver: the value of the digits before the first character that
      is none, and where it stopped, just behind that character (lib/string.c:88-97); no position
      if all are digits. With base 0 it gives up before it looks (line 85). */
  function Meant(s: string, base: int): (i32, int) {
    var k := DigitsBefore(s);
    if base == 0 || k == |s| then (Parsed(s, base), -1) else (Parsed(s[..k], base), k + 1)
  }

  /** It delivers that exactly if every character is a digit. Even the value alone is right with
      one stray character, at the end, only by overflow: 255 more than base - 1 times what it
      should be has to vanish in 32 bits. */
  lemma MeantExactly(s: string, base: int)
    ensures (Parsed(s, base), -1) == Meant(s, base) <==> base == 0 || forall i :: 0 <= i < |s| ==> NumOf(s[i]) != 255
    ensures base != 0 && DigitsBefore(s) + 1 == |s| ==>
      (Parsed(s, base) == Meant(s, base).0 <==> ((base - 1) * Meant(s, base).0 + 255) % 0x1_0000_0000 == 0)
  {
    hide Parsed, NumOf, Wrap;
    if base != 0 && DigitsBefore(s) + 1 == |s| {
      MeantValue(s, base);
    }
  }

  lemma MeantValue(s: string, base: int)
    requires base != 0 && DigitsBefore(s) + 1 == |s|
    ensures Parsed(s, base) == Meant(s, base).0 <==> ((base - 1) * Meant(s, base).0 + 255) % 0x1_0000_0000 == 0
  {
    hide Parsed, NumOf, Wrap;
    var k := DigitsBefore(s);
    ParsedLast(s[..k], s[k], base);
    assert s == s[..k] + [s[k]];
    StrayDigit(Parsed(s[..k], base), base);
  }

  lemma StrayDigit(x: i32, base: int)
    ensures Wrap(x * base + 255) == x <==> ((base - 1) * x + 255) % 0x1_0000_0000 == 0
  {
    WrapFixed(x, x * base + 255);
    hide Wrap;
    assert (base - 1) * x == x * base - x;
  }

  lemma WrapFixed(x: i32, y: int)
    ensures Wrap(y) == x <==> (y - x) % 0x1_0000_0000 == 0
  {
  }

  /** "1x" is read as the number 265, without a position, instead of as 1, stopped after the x. */
  lemma NoDigitCounts()
    ensures Parsed("1x", 10) == 265 && Meant("1x", 10) == (1, 2)
  {
    ParsedNone(10);
    ParsedLast("", '1', 10);
    ParsedLast("1", 'x', 10);
    assert NumOf('1') == 1 && NumOf('x') == 255;
    hide NumOf, Parsed;
    assert "" + ['1'] == "1" && "1" + ['x'] == "1x" && "1x"[..1] == "1";
    assert "1x"[1..] == "x" && DigitsBefore("x") == 0 && DigitsBefore("1x") == 1;
  }

  // ---------- number ----------

  /** The bits of number's type argument (lib/string.c:156-162). */
  datatype Flags = Flags(zeroPad: bool, sign: bool, plus: bool, space: bool, left: bool, special: bool, small: bool)

  /** Whether a minus sign is printed. */
  predicate Minus(num: i32, f: Flags) {
    f.sign && num < 0
  }

  /** What the digits stand for: the bits of num read as unsigned, or of -num if it has a minus
      sign, in 32-bit arithmetic. */
  function Magnitude(num: i32, f: Flags): u32 {
    var n: int := num;
    (if Minus(num, f) then Wrap(-n) else n) % 0x1_0000_0000
  }

  function SignPart(num: i32, f: Flags): string {
    if Minus(num, f) then "-" else if f.plus then "+" else if f.space then " " else ""
  }

  function Prefix(base: int, f: Flags): string {
    if !f.special then "" else if base == 8 then "0" else if base == 16 then ['0', if f.small then 'x' else 'X'] else ""
  }

  /** n times c; nothing if n is negative. */
  function Repeat(c: char, n: int): (s: string)
    ensures |s| == if n < 0 then 0 else n
    decreases if n < 0 then 0 else n
  {
    if n <= 0 then "" else Repeat(c, n - 1) + [c]
  }

  /** Sign, prefix and digits, with no padding to the width. */
  function Core(num: i32, base: int, precision: int, f: Flags): string
    requires 2 <= base <= 36
  {
    var d := Digits(Magnitude(num, f), base, f.small);
    Repeat('0', precision - |d|) + d
  }

  /** What number prints. */
  function Printed(num: i32, base: int, size: int, precision: int, f: Flags): string
    requires 2 <= base <= 36
  {
    var head, core := SignPart(num, f) + Prefix(base, f), Core(num, base, precision, f);
    Laid(head, core, size - |head| - |core|, f)
  }

  /** Where the padding goes: behind, between sign and digits as zeros, or in front. */
  function Laid(head: string, core: string, pad: int, f: Flags): string {
    if f.left then head + core + Repeat(' ', pad)
    else if f.zeroPad then head + Repeat('0', pad) + core
    else Repeat(' ', pad) + head + core
  }

  /** What comes first: a minus sign, or the plus or the space asked for; then 0, or 0 and an x of the
      case of the digits. */
  lemma HeadIs(num: i32, base: int, f: Flags)
    ensures f.sign && num < 0 ==> SignPart(num, f) == "-"
    ensures !(f.sign && num < 0) ==>
      (f.plus ==> SignPart(num, f) == "+") && (!f.plus && f.space ==> SignPart(num, f) == " ")
      && (!f.plus && !f.space ==> SignPart(num, f) == "")
    ensures f.special && base == 8 ==> Prefix(base, f) == "0"
    ensures f.special && base == 16 ==> Prefix(base, f) == ['0', DigitChar(33, f.small)]
    ensures f.special && base == 16 ==> (Prefix(base, f) == "0x" <==> f.small)
    ensures !f.special || (base != 8 && base != 16) ==> Prefix(base, f) == ""
  {
  }

  /** Where the padding to the width is: spaces behind if the number goes to the left; else zeros
      between head and digits if asked for; else spaces in front. The precision is filled with zeros. */
  lemma PrintedIs(num: i32, base: int, size: int, precision: int, f: Flags) returns (fill: string, zeros: string)
    requires 2 <= base <= 36
    ensures var head, d := SignPart(num, f) + Prefix(base, f), Digits(Magnitude(num, f), base, f.small);
      && Printed(num, base, size, precision, f) ==
         (if f.left then head + (zeros + d) + fill else if f.zeroPad then head + fill + (zeros + d) else fill + head + (zeros + d))
      && |zeros| == Max(0, precision - |d|) && |fill| == Max(0, size - |head| - |zeros| - |d|)
    ensures forall i :: 0 <= i < |zeros| ==> zeros[i] == '0'
    ensures forall i :: 0 <= i < |fill| ==> fill[i] == if f.zeroPad && !f.left then '0' else ' '
  {
    hide Digits, Repeat, Magnitude, SignPart, Prefix;
    var head, d := SignPart(num, f) + Prefix(base, f), Digits(Magnitude(num, f), base, f.small);
    zeros := Repeat('0', precision - |d|);
    fill := Repeat(if f.zeroPad && !f.left then '0' else ' ', size - |head| - |zeros| - |d|);
    RepeatIs('0', precision - |d|);
    RepeatIs(if f.zeroPad && !f.left then '0' else ' ', size - |head| - |zeros| - |d|);
  }

  lemma {:induction false} RepeatIs(c: char, n: int)
    ensures forall i :: 0 <= i < |Repeat(c, n)| ==> Repeat(c, n)[i] == c
    decreases if n < 0 then 0 else n
  {
    if n > 0 {
      RepeatIs(c, n - 1);
    }
  }

  /** The width law: as wide as asked, and as wide as precision or digits, sign and prefix need. */
  lemma PrintedLength(num: i32, base: int, size: int, precision: int, f: Flags)
    requires 2 <= base <= 36
    ensures var d, head := |Digits(Magnitude(num, f), base, f.small)|, |SignPart(num, f)| + |Prefix(base, f)|;
      |Printed(num, base, size, precision, f)| == Max(size, Max(precision, d) + head)
  {
    hide Digits, Repeat, Magnitude, SignPart, Prefix;
  }

  /** The value of a digit of number's tables. */
  function DigitValue(ch: char): int {
    if '0' <= ch <= '9' then ch as int - '0' as int
    else if 'a' <= ch <= 'z' then ch as int - 'a' as int + 10
    else if 'A' <= ch <= 'Z' then ch as int - 'A' as int + 10
    else -1
  }

  /** The number that a string of digits denotes. */
  function Value(s: string, base: int): int {
    if s == "" then 0 else Value(s[..|s| - 1], base) * base + DigitValue(s[|s| - 1])
  }

  lemma ValueLast(s: string, ch: char, base: int)
    ensures Value(s + [ch], base) == Value(s, base) * base + DigitValue(ch)
  {
    assert (s + [ch])[..|s|] == s;
  }

  lemma DigitValueOf(d: nat, small: bool)
    requires d < 36
    ensures DigitValue(DigitChar(d, small)) == d
  {
  }

  lemma {:induction false} ValueOfDigits(n: nat, base: nat, small: bool)
    requires 2 <= base <= 36
    ensures Value(Digits(n, base, small), base) == n
    decreases n
  {
    hide Digits, DigitChar, DigitValue, Value;
    var q, r := n / base, n % base;
    Quotient(n, base);
    DigitsLast(n, base, small);
    DigitValueOf(r, small);
    if q == 0 {
      ValueNone(base);
      ValueLast("", DigitChar(r, small), base);
      assert "" + [DigitChar(r, small)] == [DigitChar(r, small)];
    } else {
      ValueOfDigits(q, base, small);
      ValueLast(Digits(q, base, small), DigitChar(r, small), base);
      Divided(n, base);
    }
  }

  lemma ValueNone(base: int)
    ensures Value("", base) == 0
  {
  }

  /** Zeros in front change nothing. */
  lemma {:induction false} ValueZeros(k: int, s: string, base: int)
    ensures Value(Repeat('0', k) + s, base) == Value(s, base)
    decreases |s|, if k < 0 then 0 else k
  {
    if s != "" {
      var s', c := s[..|s| - 1], s[|s| - 1];
      ValueZeros(k, s', base);
      ValueLast(Repeat('0', k) + s', c, base);
      assert Repeat('0', k) + s == (Repeat('0', k) + s') + [c];
    } else {
      assert Repeat('0', k) + s == Repeat('0', k);
      if k > 0 {
        ValueZeros(k - 1, s, base);
        assert Repeat('0', k - 1) + s == Repeat('0', k - 1);
        ValueLast(Repeat('0', k - 1), '0', base);
      }
    }
  }

  /** The digits printed denote num: with a sign, num itself, the least int included; without,
      the unsigned number with the same 32 bits. */
  lemma PrintedDenotes(num: i32, base: int, precision: int, f: Flags)
    requires 2 <= base <= 36
    ensures var v := Value(Core(num, base, precision, f), base);
      && (f.sign ==> (if SignPart(num, f) == "-" then -v else v) == num)
      && (!f.sign ==> v == num % 0x1_0000_0000 && SignPart(num, f) != "-")
  {
    hide Digits, Value, Repeat, Magnitude;
    var n := Magnitude(num, f);
    var d := Digits(n, base, f.small);
    ValueOfDigits(n, base, f.small);
    ValueZeros(precision - |d|, d, base);
    MagnitudeIs(num, f);
  }

  lemma MagnitudeIs(num: i32, f: Flags)
    ensures Minus(num, f) ==> Magnitude(num, f) + num == 0
    ensures !Minus(num, f) && f.sign ==> Magnitude(num, f) == num
    ensures !f.sign ==> Magnitude(num, f) == num % 0x1_0000_0000
  {
  }

  /** while (size-- > 0) *str++ = c (lib/string.c:199, 211, 217). */
  method Pad(out: string, c: char, size: int) returns (out': string, size': int)
    ensures out' == out + Repeat(c, size)
    ensures size' == if size > 0 then -1 else size - 1
  {
    out', size' := out, size;
    while size' > 0
      invariant size > 0 ==> 0 <= size' <= size
      invariant size <= 0 ==> size' == size
      invariant out' == out + Repeat(c, size - size')
    {
      out' := out' + [c];
      size' := size' - 1;
    }
    size' := size' - 1;
  }

  /** n characters in a row from c on. */
  function Row(c: char, n: nat): string
    requires c as int + n < 0x80
  {
    seq(n, i requires 0 <= i < n => (c as int + i) as char)
  }

  const LOWER := Row('0', 10) + Row('a', 26)
  const UPPER := Row('0', 10) + Row('A', 26)

  /** A table of the characters for the digits. */
  predicate IsTable(digits: string, small: bool) {
    |digits| == 36 && forall d :: 0 <= d < 36 ==> digits[d] == DigitChar(d, small)
  }

  lemma LowerTable()
    ensures IsTable(LOWER, true)
  {
  }

  lemma UpperTable()
    ensures IsTable(UPPER, false)
  {
  }

  /** The digits in the local buffer (lib/string.c:191-195), least significant first. */
  method SplitNumber(num: u32, base: int, digits: string, ghost small: bool, tmp: array<char>) returns (i: nat)
    requires 2 <= base <= 36 && tmp.Length == 36 && IsTable(digits, small)
    modifies tmp
    ensures i == |Digits(num, base, small)| <= 36 && Reversed(tmp[..i]) == Digits(num, base, small)
  {
    hide Digits, Reversed, DigitChar;
    ghost var all := Digits(num, base, small);
    DigitsFit(num, base, small);
    ReversedNone();
    i := 0;
    if num == 0 {
      SplitStep(0, base, small, 0, 0, "", all);
      ZeroChar(small);
      Put(tmp, 0, '0', 36);
      i := 1;
    } else {
      var n: nat := num;
      while n != 0
        invariant n == 0 ==> i == |all| && Reversed(tmp[..i]) == all
        invariant n != 0 ==> i + |Digits(n, base, small)| == |all| && Digits(n, base, small) + Reversed(tmp[..i]) == all
        decreases n
      {
        var q, r := Divide(n, base);
        SplitStep(n, base, small, q, r, tmp[..i], all);
        Put(tmp, i, digits[r], 36);
        i := i + 1;
        n := q;
      }
    }
  }

  lemma ZeroChar(small: bool)
    ensures DigitChar(0, small) == '0'
  {
  }

  /** The digits from the local buffer, last one first (lib/string.c:215-216). */
  method Unload(out: string, tmp: array<char>, count: nat) returns (out': string)
    requires count <= tmp.Length
    ensures out' == out + Reversed(tmp[..count])
  {
    out' := out;
    var i := count;
    while i > 0
      invariant 0 <= i <= count && out' + Reversed(tmp[..i]) == out + Reversed(tmp[..count])
    {
      i := i - 1;
      ReversedNext(tmp[..i], tmp[i]);
      assert tmp[..i + 1] == tmp[..i] + [tmp[i]];
      assert (out' + [tmp[i]]) + Reversed(tmp[..i]) == out' + ([tmp[i]] + Reversed(tmp[..i]));
      out' := out' + [tmp[i]];
    }
    ReversedNone();
    assert tmp[..0] == "";
  }

  /** number (lib/string.c:170-220): nothing for a base out of range. */
  method Number(num: i32, base: int, width: int, digitsMin: int, f: Flags) returns (str: Option<string>)
    ensures str == if 2 <= base <= 36 then Some(Printed(num, base, width, digitsMin, f)) else None
  {
    hide Digits, Reversed, Repeat, Row, DigitChar, Magnitude, IsTable;
    var size, precision := width, digitsMin;
    var digits := if f.small then LOWER else UPPER;
    if base < 2 || base > 36 {
      return None;
    }
    var n: u32 := Magnitude(num, f);
    var sign := SignPart(num, f);
    size := size - |sign|;
    if f.special {
      if base == 16 {
        size := size - 2;
      } else if base == 8 {
        size := size - 1;
      }
    }
    var tmp := new char[36];
    Tables();
    var i := SplitNumber(n, base, digits, f.small, tmp);
    if i > precision {
      precision := i;
    }
    size := size - precision;
    var out := Emit(sign, Prefix(base, f), size, precision, i, tmp, f);
    NoRepeat();
    return Some(out);
  }

  /** The part of number that writes the text (lib/string.c:198-218). */
  method Emit(sign: string, prefix: string, pad: int, precision: int, i: nat, tmp: array<char>, f: Flags)
    returns (out: string)
    requires i <= tmp.Length && i <= precision
    ensures out == Laid(sign + prefix, Repeat('0', precision - i) + Reversed(tmp[..i]), pad, f)
  {
    hide Reversed, Repeat;
    NoRepeat();
    var size := pad;
    out := "";
    if !f.zeroPad && !f.left {
      out, size := Pad(out, ' ', size);
    }
    out := out + sign;
    out := out + prefix;
    if !f.left {
      out, size := Pad(out, if f.zeroPad then '0' else ' ', size);
    }
    var left;
    out, left := Pad(out, '0', precision - i);
    out := Unload(out, tmp, i);
    out, size := Pad(out, ' ', size);
  }

  lemma NoRepeat()
    ensures forall c, n :: n <= 0 ==> Repeat(c, n) == ""
  {
  }

  lemma Tables()
    ensures IsTable(LOWER, true) && IsTable(UPPER, false)
  {
    LowerTable();
    UpperTable();
  }
}
