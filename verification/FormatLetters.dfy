/** What each directive of vsnprintf prints, letter by letter, and how formats put together print. */
module FormatLetters {
  import opened Machine
  import opened Numbers
  import opened Formatting

  /** The arguments a format leaves over. */
  function LeftOver(fmt: seq<Byte>, args: seq<Arg>): seq<Arg>
    requires Fits(fmt, args)
    decreases |fmt|
  {
    if fmt == [] then args
    else if !Directive(fmt) then LeftOver(fmt[1..], args)
    else LeftOver(fmt[2..], Rest(fmt[1], args))
  }

  /** The arguments fit the format, and it takes all of them. */
  ghost predicate Takes(fmt: seq<Byte>, args: seq<Arg>) {
    Fits(fmt, args) && LeftOver(fmt, args) == []
  }

  // ---- One directive ----

  lemma OneLetter(c: Byte, args: seq<Arg>)
    requires c != 0x25 && HasArg(c, args)
    ensures Fits([0x25, c], args) && Expand([0x25, c], args) == Piece(c, args)
    ensures LeftOver([0x25, c], args) == Rest(c, args)
  {
    hide Piece, KindOf, HasArg;
    var fmt := [0x25, c];
    assert fmt[2..] == [] && Directive(fmt);
    assert Fits([], Rest(c, args)) && Expand([], Rest(c, args)) == [] && LeftOver([], Rest(c, args)) == Rest(c, args);
    assert Piece(c, args) + [] == Piece(c, args);
  }

  /** %d, %i and %u print a number in decimal: a minus sign if it is negative, and digits without a leading zero. */
  lemma DecimalLetters(n: Int32, c: Byte)
    requires n > -0x8000_0000 && (c == 0x64 || c == 0x69 || c == 0x75)
    ensures Takes([0x25, c], [Int(n)]) && Expand([0x25, c], [Int(n)]) == Decimal(n)
    ensures n < 0 ==> Decimal(n) != [] && Decimal(n)[0] == 0x2D
    ensures var (digits, m) := if n < 0 then (Decimal(n)[1..], -(n as int)) else (Decimal(n), n as int);
            && digits != [] && Value(digits, 10) == m && (m != 0 ==> digits[0] != 0x30)
            && forall k :: 0 <= k < |digits| ==> 0x30 <= digits[k] < 0x3A
  {
    hide Digits, Value, DigitChar, DigitValue;
    OneLetter(c, [Int(n)]);
    var m: nat := if n < 0 then -(n as int) else n;
    DigitsParse(m, 10);
    LowerCase(m, 10);
    DigitsAreDigits(m, 10);
    if n < 0 {
      assert Decimal(n)[1..] == Digits(m, 10);
    }
  }

  /** %x and %X print its digits in base 16, as an unsigned number and in lower case. */
  lemma HexLetters(n: Int32, c: Byte)
    requires c == 0x78 || c == 0x58
    ensures Takes([0x25, c], [Int(n)])
    ensures var t := Expand([0x25, c], [Int(n)]);
            && Value(t, 16) == n % 0x1_0000_0000 && |t| > 0 && (n != 0 ==> t[0] != 0x30)
            && forall k :: 0 <= k < |t| ==> 0x30 <= t[k] < 0x3A || 0x61 <= t[k] < 0x67
  {
    hide Digits, Value, DigitChar;
    OneLetter(c, [Int(n)]);
    HexParses(n);
    LowerCase(Unsigned(n), 16);
    DigitsAreDigits(Unsigned(n), 16);
  }

  /** Digits are printed with lower-case letters. */
  lemma {:induction false} LowerCase(n: nat, base: nat)
    requires base == 10 || base == 16
    ensures forall k :: 0 <= k < |Digits(n, base)| ==>
              0x30 <= Digits(n, base)[k] < 0x3A || 0x61 <= Digits(n, base)[k] < 0x67
    ensures base == 10 ==> forall k :: 0 <= k < |Digits(n, base)| ==> 0x30 <= Digits(n, base)[k] < 0x3A
  {
    hide Digits;
    if n >= base {
      DivideUp(n, base);
      DigitsStep(n, base);
      LowerCase(n / base, base);
    } else {
      assert Digits(n, base) == [DigitChar(n)] by { OnlyDigit(n, base); }
    }
  }

  lemma OnlyDigit(n: nat, base: nat)
    requires (base == 10 || base == 16) && n < base
    ensures Digits(n, base) == [DigitChar(n)]
  {
    hide DigitChar;
  }

  /** %p prints 0x and eight digits, lower case, that read back as the address. */
  lemma PointerLetter(address: Word)
    ensures Takes([0x25, 0x70], [Pointer(address)])
    ensures var t := Expand([0x25, 0x70], [Pointer(address)]);
            && |t| == 10 && t[0] == 0x30 && t[1] == 0x78 && Value(t[2..], 16) == address
            && forall k :: 2 <= k < 10 ==> 0x30 <= t[k] < 0x3A || 0x61 <= t[k] < 0x67
  {
    hide Value, HexDigits;
    OneLetter(0x70, [Pointer(address)]);
    PointerParses(address);
    HexCase(address, 8, false);
  }

  /** The case of a fixed number of hexadecimal digits. */
  lemma {:induction false} HexCase(n: nat, k: nat, upper: bool)
    ensures forall x :: 0 <= x < k ==>
              var c := HexDigits(n, k, upper)[x];
              0x30 <= c < 0x3A || (if upper then 0x41 <= c < 0x47 else 0x61 <= c < 0x67)
  {
    if k > 0 {
      HexCase(n / 16, k - 1, upper);
    }
  }

  /** %s prints the text, and (null) for a null pointer. */
  lemma StringLetter(text: seq<Byte>)
    requires 0 !in text
    ensures Takes([0x25, 0x73], [Str(text)]) && Expand([0x25, 0x73], [Str(text)]) == text
    ensures Takes([0x25, 0x73], [Null]) && Expand([0x25, 0x73], [Null]) == [0x28, 0x6E, 0x75, 0x6C, 0x6C, 0x29]
  {
    OneLetter(0x73, [Str(text)]);
    OneLetter(0x73, [Null]);
  }

  /** %c prints the character. */
  lemma CharacterLetter(c: Byte)
    ensures Takes([0x25, 0x63], [Char(c)]) && Expand([0x25, 0x63], [Char(c)]) == [c]
  {
    OneLetter(0x63, [Char(c)]);
  }

  /** Any other letter behind a percent sign is printed with it, and takes no argument. */
  lemma OtherLetters(c: Byte)
    requires c !in [0x64, 0x69, 0x75, 0x78, 0x58, 0x70, 0x73, 0x63, 0x25]
    ensures Takes([0x25, c], []) && Expand([0x25, c], []) == [0x25, c]
  {
    assert KindOf(c).Unknown?;
    OneLetter(c, []);
  }

  /** Any character but the percent sign stands for itself. */
  lemma Literal(c: Byte)
    requires c != 0x25
    ensures Takes([c], []) && Expand([c], []) == [c]
  {
    assert [c][1..] == [];
  }

  /** A percent sign before another one stands for itself; the other one goes on to start a directive. */
  lemma DoublePercent(fmt: seq<Byte>, args: seq<Arg>)
    requires Takes(fmt, args) && fmt != [] && fmt[0] == 0x25
    ensures Takes([0x25] + fmt, args) && Expand([0x25] + fmt, args) == [0x25] + Expand(fmt, args)
  {
    assert ([0x25] + fmt)[1..] == fmt;
  }

  // ---- Formats put together ----

  lemma EnoughArgs(c: Byte, args: seq<Arg>, more: seq<Arg>)
    requires HasArg(c, args)
    ensures HasArg(c, args + more) && Piece(c, args + more) == Piece(c, args)
    ensures Rest(c, args + more) == Rest(c, args) + more
  {
    hide NumberText, AddressText, NullText;
    if !KindOf(c).Unknown? {
      assert (args + more)[1..] == args[1..] + more;
    }
  }

  lemma FitsNext(fmt: seq<Byte>, args: seq<Arg>, g: seq<Byte>)
    requires fmt != [] && Fits(fmt, args)
    ensures Directive(fmt + g) == Directive(fmt)
    ensures !Directive(fmt) ==> (fmt + g)[1..] == fmt[1..] + g
    ensures Directive(fmt) ==>
              |fmt| > 1 && HasArg(fmt[1], args) && (fmt + g)[2..] == fmt[2..] + g && (fmt + g)[1] == fmt[1]
  {
    hide HasArg, Rest;
  }

  /** Two formats, one after the other, print one after the other, each with its own arguments. With the lemmas on
      single directives and characters this fixes what every format prints. */
  lemma {:induction false} FormatsConcatenate(f: seq<Byte>, args: seq<Arg>, g: seq<Byte>, more: seq<Arg>)
    requires Takes(f, args) && Takes(g, more)
    ensures Takes(f + g, args + more) && Expand(f + g, args + more) == Expand(f, args) + Expand(g, more)
    decreases |f|
  {
    hide Piece, HasArg, Rest, KindOf, Directive;
    if f == [] {
      assert f + g == g && args + more == more;
    } else {
      FitsNext(f, args, g);
      if !Directive(f) {
        FormatsConcatenate(f[1..], args, g, more);
        assert [f[0]] + (Expand(f[1..], args) + Expand(g, more)) == Expand(f, args) + Expand(g, more);
      } else {
        EnoughArgs(f[1], args, more);
        FormatsConcatenate(f[2..], Rest(f[1], args), g, more);
        assert Piece(f[1], args) + (Expand(f[2..], Rest(f[1], args)) + Expand(g, more))
            == Expand(f, args) + Expand(g, more);
      }
    }
  }
}
