/** Numbers as text: what number_to_string (lib/string.c) and num_to_decimal and num_to_hex
    (drivers/serial.c) are meant to print, and how each does it. */
module Numbers {
  import opened Machine

  const INT_MIN := -0x8000_0000
  const INT_MAX := 0x7FFF_FFFF
  type Int32 = n: int | INT_MIN <= n <= INT_MAX

  const MINUS: Byte := 0x2D
  const ZERO: Byte := 0x30

  function DigitChar(d: nat): Byte
    requires d < 16
  {
    if d < 10 then ZERO + d else 0x61 + (d - 10)
  }

  function UpperDigit(d: nat): Byte
    requires d < 16
  {
    if d < 10 then ZERO + d else 0x41 + (d - 10)
  }

  /** The digits of n, most significant first, without leading zeros. */
  function Digits(n: nat, base: nat): (s: seq<Byte>)
    requires base == 10 || base == 16
    ensures |s| > 0
  {
    if n < base then [DigitChar(n)] else Digits(n / base, base) + [DigitChar(n % base)]
  }

  function Decimal(n: int): seq<Byte> {
    if n < 0 then [MINUS] + Digits(-n, 10) else Digits(n, 10)
  }

  function Unsigned(n: Int32): Word { if n < 0 then n + 0x1_0000_0000 else n }

  /** The unsigned number whose digits are printed. */
  function Magnitude(n: Int32, base: nat): nat {
    if n < 0 && base == 10 then -(n as int) else Unsigned(n)
  }

  /** What number_to_string prints. */
  function NumberText(n: Int32, base: nat): seq<Byte>
    requires base == 10 || base == 16
  {
    if base == 10 then Decimal(n) else Digits(Unsigned(n), 16)
  }

  // ---- Parsing back ----

  function DigitValue(c: Byte): int {
    if ZERO <= c < ZERO + 10 then c - ZERO else if 0x61 <= c < 0x67 then c - 0x61 + 10
      else if 0x41 <= c < 0x47 then c - 0x41 + 10 else -1
  }

  function Value(s: seq<Byte>, base: nat): int {
    if s == [] then 0 else Value(s[..|s| - 1], base) * base + DigitValue(s[|s| - 1])
  }

  function ParseDecimal(s: seq<Byte>): int {
    if s != [] && s[0] == MINUS then -Value(s[1..], 10) else Value(s, 10)
  }

  lemma DivideUp(n: nat, base: nat)
    requires base == 10 || base == 16
    ensures n == n / base * base + n % base && n / base <= n && (n >= base ==> n / base < n)
  {
    if base == 10 {
      assert n == 10 * (n / 10) + n % 10;
    } else {
      assert n == 16 * (n / 16) + n % 16;
    }
  }

  lemma CharValue(d: nat)
    requires d < 16
    ensures DigitValue(DigitChar(d)) == d && DigitValue(UpperDigit(d)) == d && DigitChar(d) != MINUS
    ensures d > 0 ==> DigitChar(d) != ZERO
  {
  }

  lemma ValueSnoc(s: seq<Byte>, c: Byte, base: nat)
    ensures Value(s + [c], base) == Value(s, base) * base + DigitValue(c)
  {
    assert (s + [c])[..|s + [c]| - 1] == s;
  }

  lemma DigitsStep(n: nat, base: nat)
    requires (base == 10 || base == 16) && n >= base
    ensures n % base < base && Digits(n, base) == Digits(n / base, base) + [DigitChar(n % base)]
  {
    hide DigitChar;
  }

  lemma OneDigit(n: nat, base: nat)
    requires (base == 10 || base == 16) && n < base
    ensures Value(Digits(n, base), base) == n
  {
    hide DigitChar, DigitValue;
    CharValue(n);
    ValueSnoc([], DigitChar(n), base);
    assert [] + [DigitChar(n)] == [DigitChar(n)];
  }

  lemma {:induction false} DigitsParse(n: nat, base: nat)
    requires base == 10 || base == 16
    ensures Value(Digits(n, base), base) == n
  {
    hide DigitValue, DigitChar, Digits, Value;
    if n < base {
      OneDigit(n, base);
    } else {
      DivideUp(n, base);
      DigitsStep(n, base);
      CharValue(n % base);
      DigitsParse(n / base, base);
      ValueSnoc(Digits(n / base, base), DigitChar(n % base), base);
    }
  }

  lemma {:induction false} DigitsAreDigits(n: nat, base: nat)
    requires base == 10 || base == 16
    ensures forall k :: 0 <= k < |Digits(n, base)| ==> 0 <= DigitValue(Digits(n, base)[k]) < base
    ensures Digits(n, base)[0] != MINUS && (n > 0 ==> Digits(n, base)[0] != ZERO)
  {
    hide DigitValue, DigitChar;
    CharValue(n % base);
    if n >= base {
      DivideUp(n, base);
      DigitsAreDigits(n / base, base);
    }
  }

  /** Parsing what is printed returns the number. */
  lemma DecimalParses(n: int)
    ensures ParseDecimal(Decimal(n)) == n
  {
    var m := if n < 0 then -n else n;
    DigitsParse(m, 10);
    DigitsAreDigits(m, 10);
    if n < 0 {
      assert Decimal(n)[1..] == Digits(m, 10);
    }
  }

  /** A negative number prints as its value modulo 2^32. */
  lemma HexParses(n: Int32)
    ensures Value(NumberText(n, 16), 16) == n % 0x1_0000_0000
  {
    DigitsParse(Unsigned(n), 16);
  }

  // ---- How long they get ----

  function Power(base: nat, k: nat): nat {
    if k == 0 then 1 else base * Power(base, k - 1)
  }

  lemma QuotientBelow(n: nat, base: nat, p: nat)
    requires (base == 10 || base == 16) && n < base * p
    ensures n / base < p
  {
  }

  lemma {:induction false} DigitsLength(n: nat, base: nat, k: nat)
    requires (base == 10 || base == 16) && n < Power(base, k) && k > 0
    ensures |Digits(n, base)| <= k
    decreases k
  {
    if n >= base && k > 1 {
      QuotientBelow(n, base, Power(base, k - 1));
      DigitsLength(n / base, base, k - 1);
    }
  }

  lemma TenPowers()
    ensures Power(10, 10) == 10_000_000_000
  {
    assert Power(10, 2) == 100;
    assert Power(10, 4) == 10_000;
    assert Power(10, 6) == 1_000_000;
    assert Power(10, 8) == 100_000_000;
  }

  lemma SixteenPowers()
    ensures Power(16, 8) == 0x1_0000_0000
  {
    assert Power(16, 2) == 0x100;
    assert Power(16, 4) == 0x1_0000;
    assert Power(16, 6) == 0x100_0000;
  }

  /** Eleven characters hold any int in base 10, eight any in base 16. */
  lemma NumberTextLength(n: Int32, base: nat)
    requires base == 10 || base == 16
    ensures 1 <= |NumberText(n, base)| <= if base == 10 then 11 else 8
  {
    TenPowers();
    SixteenPowers();
    if base == 10 {
      DigitsLength(Magnitude(n, 10), 10, 10);
    } else {
      DigitsLength(Unsigned(n), 16, 8);
    }
  }

  // ---- Least significant digit first, as both printers produce them ----

  function LowFirst(n: nat, base: nat): (s: seq<Byte>)
    requires base == 10 || base == 16
    ensures |s| > 0
  {
    if n < base then [DigitChar(n)] else [DigitChar(n % base)] + LowFirst(n / base, base)
  }

  function Reverse(s: seq<Byte>): (r: seq<Byte>)
    ensures |r| == |s| && forall k :: 0 <= k < |s| ==> r[k] == s[|s| - 1 - k]
  {
    if s == [] then [] else Reverse(s[1..]) + [s[0]]
  }

  lemma {:induction false} LowFirstReversed(n: nat, base: nat)
    requires base == 10 || base == 16
    ensures Reverse(LowFirst(n, base)) == Digits(n, base)
  {
    if n >= base {
      LowFirstReversed(n / base, base);
      assert LowFirst(n, base)[1..] == LowFirst(n / base, base);
    }
  }

  lemma ReverseSign(s: seq<Byte>, c: Byte)
    ensures Reverse(s + [c]) == [c] + Reverse(s)
  {
  }

  /** What is in the temporary buffer once all digits, and the sign, are in it. */
  lemma BufferedText(n: Int32, base: nat)
    requires base == 10 || base == 16
    ensures var s := LowFirst(Magnitude(n, base), base);
            && Reverse(if n < 0 && base == 10 then s + [MINUS] else s) == NumberText(n, base)
            && |s| <= 11 && |NumberText(n, base)| <= 11
  {
    hide LowFirst, Digits;
    LowFirstReversed(Magnitude(n, base), base);
    ReverseSign(LowFirst(Magnitude(n, base), base), MINUS);
    NumberTextLength(n, base);
  }

  // ---- The printers ----

  /** Writes the text at pos and returns the position after it. The buffer must have room for it. */
  method NumberToString(buffer: array<Byte>, pos: nat, num: Int32, base: nat) returns (end: nat)
    requires base == 10 || base == 16
    requires base == 10 ==> num > INT_MIN
    requires pos + |NumberText(num, base)| <= buffer.Length
    modifies buffer
    ensures end == pos + |NumberText(num, base)|
    ensures buffer[..] == old(buffer[..pos]) + NumberText(num, base) + old(buffer[end..])
  {
    hide LowFirst, Digits, DigitChar, NumberText;
    var numBuf := new Byte[32];
    var isNeg := num < 0 && base == 10;
    var unum: nat := if isNeg then -(num as int) else Unsigned(num);
    BufferedText(num, base);
    var numPos := PushDigits(numBuf, unum, base);
    if isNeg {
      numBuf[numPos] := MINUS;
      numPos := numPos + 1;
    }
    assert Reverse(numBuf[..numPos]) == NumberText(num, base);
    end := PopDigits(numBuf, numPos, buffer, pos);
  }

  /** The last loop of number_to_string: what was pushed comes off in reverse. */
  method PopDigits(numBuf: array<Byte>, count: nat, buffer: array<Byte>, pos: nat) returns (end: nat)
    requires numBuf != buffer && count <= numBuf.Length && pos + count <= buffer.Length
    modifies buffer
    ensures end == pos + count
    ensures buffer[..] == old(buffer[..pos]) + Reverse(numBuf[..count]) + old(buffer[end..])
  {
    ghost var pushed := numBuf[..count];
    var numPos := count;
    end := pos;
    while numPos > 0
      invariant 0 <= numPos <= count && end == pos + count - numPos
      invariant forall x :: 0 <= x < buffer.Length ==>
                  buffer[x] == if pos <= x < end then Reverse(pushed)[x - pos] else old(buffer[x])
    {
      numPos := numPos - 1;
      buffer[end] := numBuf[numPos];
      end := end + 1;
    }
    assert buffer[..] == old(buffer[..pos]) + Reverse(pushed) + old(buffer[end..]);
  }

  lemma LowFirstStep(n: nat, base: nat)
    requires base == 10 || base == 16
    ensures n % base < base <= 16 && LowFirst(n, base)[0] == DigitChar(n % base)
    ensures if n >= base then LowFirst(n, base)[1..] == LowFirst(n / base, base) else |LowFirst(n, base)| == 1
  {
  }

  /** The do-while loop: digits from the low end. */
  method PushDigits(numBuf: array<Byte>, num: nat, base: nat) returns (numPos: nat)
    requires (base == 10 || base == 16) && |LowFirst(num, base)| <= numBuf.Length
    modifies numBuf
    ensures numPos == |LowFirst(num, base)| && numBuf[..numPos] == LowFirst(num, base)
  {
    hide LowFirst, DigitChar;
    var unum := num;
    ghost var all := LowFirst(num, base);
    LowFirstStep(unum, base);
    numBuf[0] := DigitChar(unum % base);
    numPos := 1;
    while unum >= base
      invariant 1 <= numPos <= |all| && numBuf[..numPos] == all[..numPos]
      invariant if unum >= base then all[numPos..] == LowFirst(unum / base, base) else numPos == |all|
      decreases unum
    {
      DivideUp(unum, base);
      unum := unum / base;
      LowFirstStep(unum, base);
      assert all[numPos] == all[numPos..][0] && all[numPos + 1..] == all[numPos..][1..];
      numBuf[numPos] := DigitChar(unum % base);
      numPos := numPos + 1;
    }
  }

  /** num_to_decimal: digits from the low end, the sign, an in-place reversal, and a terminator. */
  method NumToDecimal(n: Int32, buf: array<Byte>)
    requires n > INT_MIN && buf.Length >= 12
    modifies buf
    ensures |Decimal(n)| < 12 && buf[..|Decimal(n)|] == Decimal(n) && buf[|Decimal(n)|] == 0
  {
    hide Decimal, Reverse;
    var i := PushDecimal(n, buf);
    ReversePart(buf, i);
    buf[i] := 0;
  }

  /** Its first half: the digits, least significant first, and the sign. */
  method PushDecimal(n: Int32, buf: array<Byte>) returns (i: nat)
    requires n > INT_MIN && buf.Length >= 12
    modifies buf
    ensures i == |Decimal(n)| <= 11 && Reverse(buf[..i]) == Decimal(n)
  {
    hide LowFirst, Digits, DigitChar;
    BufferedText(n, 10);
    var isNegative := n < 0;
    var num: nat := if isNegative then -(n as int) else n;
    ghost var digits := LowFirst(num, 10);
    if num == 0 {
      ZeroDigit();
      buf[0] := ZERO;
      i := 1;
    } else {
      i := DigitsOf(buf, num);
    }
    assert buf[..i] == digits;
    hide Decimal, Reverse;
    if isNegative {
      buf[i] := MINUS;
      i := i + 1;
      assert buf[..i] == digits + [MINUS];
    }
  }

  lemma ZeroDigit()
    ensures LowFirst(0, 10) == [ZERO]
  {
  }

  /** The digit loop of num_to_decimal, which runs while the number is positive. */
  method DigitsOf(buf: array<Byte>, n: nat) returns (i: nat)
    requires n > 0 && |LowFirst(n, 10)| <= buf.Length
    modifies buf
    ensures i == |LowFirst(n, 10)| && buf[..i] == LowFirst(n, 10)
  {
    hide LowFirst;
    var num := n;
    i := 0;
    ghost var all := LowFirst(n, 10);
    assert all[0..] == all;
    while num > 0
      invariant i <= |all| && buf[..i] == all[..i]
      invariant if num > 0 then all[i..] == LowFirst(num, 10) else i == |all|
      decreases num
    {
      LowFirstStep(num, 10);
      assert all[i] == all[i..][0] && all[i + 1..] == all[i..][1..];
      buf[i] := ZERO + num % 10;
      num := num / 10;
      i := i + 1;
    }
  }

  method ReversePart(buf: array<Byte>, i: nat)
    requires i <= buf.Length
    modifies buf
    ensures buf[..i] == Reverse(old(buf[..i])) && buf[i..] == old(buf[i..])
  {
    ghost var was := buf[..i];
    var start, end := 0, i - 1;
    while start < end
      invariant 0 <= start <= i && start + end == i - 1
      invariant forall x :: 0 <= x < i && start <= x <= end ==> buf[x] == was[x]
      invariant forall x :: 0 <= x < i && !(start <= x <= end) ==> buf[x] == was[i - 1 - x]
      invariant buf[i..] == old(buf[i..])
    {
      ghost var a, b := buf[start], buf[end];
      assert a == was[start] && b == was[end] && i - 1 - start == end;
      buf[start], buf[end] := buf[end], buf[start];
      assert buf[start] == was[i - 1 - start] && buf[end] == was[i - 1 - end];
      start := start + 1;
      end := end - 1;
    }
    assert buf[..i] == Reverse(was);
  }

  // ---- Fixed-width hexadecimal ----

  function HexChar(d: nat, upper: bool): Byte
    requires d < 16
  {
    if upper then UpperDigit(d) else DigitChar(d)
  }

  /** The low k hexadecimal digits of a number, most significant first. */
  function HexDigits(n: nat, k: nat, upper: bool): (s: seq<Byte>)
    ensures |s| == k
  {
    if k == 0 then [] else HexDigits(n / 16, k - 1, upper) + [HexChar(n % 16, upper)]
  }

  lemma {:induction false} HexDigitsParse(n: nat, k: nat, upper: bool)
    requires n < Power(16, k)
    ensures Value(HexDigits(n, k, upper), 16) == n
    decreases k
  {
    hide DigitValue, UpperDigit, DigitChar;
    if k > 0 {
      QuotientBelow(n, 16, Power(16, k - 1));
      HexDigitsParse(n / 16, k - 1, upper);
      ValueSnoc(HexDigits(n / 16, k - 1, upper), HexChar(n % 16, upper), 16);
      CharValue(n % 16);
    }
  }

  /** num_to_hex: eight digits, filled in from the back. */
  method NumToHex(n: Word, buf: array<Byte>)
    requires buf.Length >= 9
    modifies buf
    ensures buf[..8] == HexDigits(n, 8, true) && buf[8] == 0
    ensures Value(buf[..8], 16) == n
  {
    var num := n;
    var i := 8;
    assert HexDigits(num, 8, true) + [] == HexDigits(n, 8, true);
    while i > 0
      invariant 0 <= i <= 8 && num >= 0
      invariant HexDigits(num, i, true) + buf[i..8] == HexDigits(n, 8, true)
    {
      i := i - 1;
      ghost var tail := buf[i + 1..8];
      buf[i] := UpperDigit(num % 16);
      assert HexDigits(num, i + 1, true) + tail == HexDigits(num / 16, i, true) + buf[i..8];
      num := num / 16;
    }
    buf[8] := 0;
    SixteenPowers();
    HexDigitsParse(n, 8, true);
  }
}
