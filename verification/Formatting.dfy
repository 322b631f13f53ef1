/** vsnprintf of lib/string.c. */
module Formatting {
  import opened Machine
  import opened CStrings
  import opened Numbers

  const PERCENT: Byte := 0x25

  /** What va_arg yields: an int (for %d, %i, %u, %x and %X), a pointer, a string or NULL, or a character. */
  datatype Arg = Int(num: Int32) | Pointer(address: Word) | Str(text: seq<Byte>) | Null | Char(c: Byte)

  datatype Kind = DecimalNumber | HexNumber | Address | String | Character | Unknown

  function KindOf(c: Byte): Kind {
    if c == 0x64 || c == 0x69 || c == 0x75 then DecimalNumber       // d i u
    else if c == 0x78 || c == 0x58 then HexNumber                  // x X
    else if c == 0x70 then Address                                 // p
    else if c == 0x73 then String                                  // s
    else if c == 0x63 then Character                               // c
    else Unknown
  }

  /** A directive: a percent sign that is not followed by another. */
  predicate Directive(fmt: seq<Byte>)
    requires fmt != []
  {
    fmt[0] == PERCENT && !(|fmt| > 1 && fmt[1] == PERCENT)
  }

  predicate FitsKind(kind: Kind, arg: Arg) {
    match kind
    case DecimalNumber => arg.Int? && arg.num > INT_MIN
    case HexNumber => arg.Int?
    case Address => arg.Pointer?
    case String => arg.Null? || (arg.Str? && 0 !in arg.text)
    case Character => arg.Char?
    case Unknown => true
  }

  /** The argument directive c takes, if it takes any, is there and of its kind. */
  predicate HasArg(c: Byte, args: seq<Arg>) {
    KindOf(c).Unknown? || (args != [] && FitsKind(KindOf(c), args[0]))
  }

  function Rest(c: Byte, args: seq<Arg>): seq<Arg>
    requires HasArg(c, args)
  {
    if KindOf(c).Unknown? then args else args[1..]
  }

  /** The arguments are of the kinds the directives ask for, and the format does not end in a bare percent sign. */
  predicate Fits(fmt: seq<Byte>, args: seq<Arg>)
    decreases |fmt|
  {
    if fmt == [] then true
    else if !Directive(fmt) then Fits(fmt[1..], args)
    else |fmt| > 1 && HasArg(fmt[1], args) && Fits(fmt[2..], Rest(fmt[1], args))
  }

  function NullText(): (s: seq<Byte>)
    ensures 0 !in s
  {
    [0x28, 0x6E, 0x75, 0x6C, 0x6C, 0x29] // (null)
  }

  /** The text of an address. */
  function AddressText(address: Word): (s: seq<Byte>)
    ensures |s| == 10
  {
    [ZERO, 0x78] + HexDigits(address, 8, false)
  }

  /** An address reads back from the digits of its text. */
  lemma PointerParses(address: Word)
    ensures Value(AddressText(address)[2..], 16) == address
  {
    SixteenPowers();
    HexDigitsParse(address, 8, false);
    assert AddressText(address)[2..] == HexDigits(address, 8, false);
  }

  /** The text a directive stands for. */
  function Piece(c: Byte, args: seq<Arg>): seq<Byte>
    requires HasArg(c, args)
  {
    match KindOf(c)
    case DecimalNumber => NumberText(args[0].num, 10)
    case HexNumber => NumberText(args[0].num, 16)
    case Address => AddressText(args[0].address)
    case String => if args[0].Str? then args[0].text else NullText()
    case Character => [args[0].c]
    case Unknown => [PERCENT, c]
  }

  /** The full expansion of a format. */
  function Expand(fmt: seq<Byte>, args: seq<Arg>): seq<Byte>
    requires Fits(fmt, args)
    decreases |fmt|
  {
    if fmt == [] then []
    else if !Directive(fmt) then [fmt[0]] + Expand(fmt[1..], args)
    else Piece(fmt[1], args) + Expand(fmt[2..], Rest(fmt[1], args))
  }

  /** The part of that text that is written at pos when the buffer has room for limit characters: only %s
      looks at the limit as it goes. */
  function Written(c: Byte, args: seq<Arg>, limit: nat, pos: nat): seq<Byte>
    requires HasArg(c, args) && pos <= limit
  {
    if KindOf(c).String? then Prefix(Piece(c, args), limit - pos) else Piece(c, args)
  }

  /** What is written from pos on: the loop looks at the limit before each literal and each directive. */
  function Render(fmt: seq<Byte>, args: seq<Arg>, limit: nat, pos: nat): seq<Byte>
    requires Fits(fmt, args)
    decreases |fmt|
  {
    if fmt == [] || pos >= limit then []
    else if !Directive(fmt) then [fmt[0]] + Render(fmt[1..], args, limit, pos + 1)
    else
      var piece := Written(fmt[1], args, limit, pos);
      piece + Render(fmt[2..], Rest(fmt[1], args), limit, pos + |piece|)
  }

  // ---- Where the output is cut ----

  lemma PrefixOfSum(a: seq<Byte>, b: seq<Byte>, n: nat)
    ensures Prefix(a + b, n) == if |a| <= n then a + Prefix(b, n - |a|) else a[..n]
  {
  }

  lemma PrefixLength(t: seq<Byte>, n: nat)
    ensures |Prefix(t, n)| <= n && (n == 0 ==> Prefix(t, n) == []) && (t == [] ==> Prefix(t, n) == [])
  {
  }

  /** No number, address, character or unknown directive that starts before the limit ends after it. */
  predicate NoneStraddles(fmt: seq<Byte>, args: seq<Arg>, limit: nat, pos: nat)
    requires Fits(fmt, args)
    decreases |fmt|
  {
    if fmt == [] || pos >= limit then true
    else if !Directive(fmt) then NoneStraddles(fmt[1..], args, limit, pos + 1)
    else
      var end := pos + |Written(fmt[1], args, limit, pos)|;
      end <= limit && NoneStraddles(fmt[2..], Rest(fmt[1], args), limit, end)
  }

  lemma {:induction false} StaysWithinIff(fmt: seq<Byte>, args: seq<Arg>, limit: nat, pos: nat)
    requires Fits(fmt, args) && pos <= limit
    ensures NoneStraddles(fmt, args, limit, pos) <==> pos + |Render(fmt, args, limit, pos)| <= limit
    decreases |fmt|
  {
    hide Written;
    if fmt != [] && pos < limit {
      if !Directive(fmt) {
        StaysWithinIff(fmt[1..], args, limit, pos + 1);
      } else {
        var end := pos + |Written(fmt[1], args, limit, pos)|;
        if end <= limit {
          StaysWithinIff(fmt[2..], Rest(fmt[1], args), limit, end);
        }
      }
    }
  }

  lemma CutDirective(c: Byte, args: seq<Arg>, limit: nat, pos: nat, rest: seq<Byte>)
    requires HasArg(c, args) && pos < limit
    ensures var piece := Written(c, args, limit, pos);
            && (pos + |piece| <= limit ==>
                  Prefix(Piece(c, args) + rest, limit - pos) == piece + Prefix(rest, limit - pos - |piece|))
  {
    hide Piece;
    PrefixOfSum(Piece(c, args), rest, limit - pos);
    assert Prefix(rest, 0) == [];
  }

  lemma {:induction false} Truncates(fmt: seq<Byte>, args: seq<Arg>, limit: nat, pos: nat)
    requires Fits(fmt, args) && pos <= limit && NoneStraddles(fmt, args, limit, pos)
    ensures Render(fmt, args, limit, pos) == Prefix(Expand(fmt, args), limit - pos)
    decreases |fmt|
  {
    hide Written, Piece, Prefix;
    PrefixLength(Expand(fmt, args), limit - pos);
    if fmt != [] && pos < limit {
      if !Directive(fmt) {
        Truncates(fmt[1..], args, limit, pos + 1);
        PrefixOfSum([fmt[0]], Expand(fmt[1..], args), limit - pos);
      } else {
        var end := pos + |Written(fmt[1], args, limit, pos)|;
        CutDirective(fmt[1], args, limit, pos, Expand(fmt[2..], Rest(fmt[1], args)));
        Truncates(fmt[2..], Rest(fmt[1], args), limit, end);
      }
    }
  }

  /** The output is the expansion cut off at the limit exactly when no such directive straddles the limit;
      otherwise it is too long. */
  lemma TruncatesExactlyIff(fmt: seq<Byte>, args: seq<Arg>, limit: nat)
    requires Fits(fmt, args)
    ensures NoneStraddles(fmt, args, limit, 0) <==> Render(fmt, args, limit, 0) == Prefix(Expand(fmt, args), limit)
    ensures NoneStraddles(fmt, args, limit, 0) <==> |Render(fmt, args, limit, 0)| <= limit
  {
    hide Render, Expand, NoneStraddles;
    StaysWithinIff(fmt, args, limit, 0);
    PrefixLength(Expand(fmt, args), limit);
    if NoneStraddles(fmt, args, limit, 0) {
      Truncates(fmt, args, limit, 0);
    }
  }

  ghost predicate TextOnly(fmt: seq<Byte>)
    decreases |fmt|
  {
    if fmt == [] then true
    else if !Directive(fmt) then TextOnly(fmt[1..])
    else |fmt| > 1 && (KindOf(fmt[1]).String? || KindOf(fmt[1]).Character?) && TextOnly(fmt[2..])
  }

  lemma {:induction false} TextNeverStraddles(fmt: seq<Byte>, args: seq<Arg>, limit: nat, pos: nat)
    requires Fits(fmt, args) && TextOnly(fmt) && pos <= limit
    ensures NoneStraddles(fmt, args, limit, pos)
    decreases |fmt|
  {
    if fmt != [] && pos < limit {
      if !Directive(fmt) {
        TextNeverStraddles(fmt[1..], args, limit, pos + 1);
      } else {
        TextNeverStraddles(fmt[2..], Rest(fmt[1], args), limit, pos + |Written(fmt[1], args, limit, pos)|);
      }
    }
  }

  /** A format of literals, %s and %c is cut off at exactly size - 1 characters, so a buffer of size is enough. */
  lemma TextIsCutToSize(fmt: seq<Byte>, args: seq<Arg>, size: nat)
    requires size >= 1 && Fits(fmt, args) && TextOnly(fmt)
    ensures Render(fmt, args, size - 1, 0) == Prefix(Expand(fmt, args), size - 1)
    ensures |Render(fmt, args, size - 1, 0)| < size
  {
    TextNeverStraddles(fmt, args, size - 1, 0);
    TruncatesExactlyIff(fmt, args, size - 1);
  }

  /** A number that starts just before the limit runs over: "%d" of the least number printed, with size 2. */
  lemma NumbersRunOver()
    ensures var fmt, args := [PERCENT, 0x64], [Int(INT_MIN + 1)];
            Fits(fmt, args) && !NoneStraddles(fmt, args, 1, 0)
  {
    hide Digits, Fits, NoneStraddles;
    var fmt, args: seq<Arg> := [PERCENT, 0x64], [Int(INT_MIN + 1)];
    assert Fits(fmt, args) by { OneDirective(fmt, args, 1); }
    OneDirective(fmt, args, 1);
  }

  lemma OneDirective(fmt: seq<Byte>, args: seq<Arg>, limit: nat)
    requires |fmt| == 2 && Directive(fmt) && HasArg(fmt[1], args) && limit > 0
    ensures Fits(fmt, args)
    ensures NoneStraddles(fmt, args, limit, 0) <==> |Written(fmt[1], args, limit, 0)| <= limit
  {
    hide Written;
    assert Fits(fmt[2..], Rest(fmt[1], args));
  }

  // ---- All formats ----

  lemma PieceLength(c: Byte, args: seq<Arg>)
    requires HasArg(c, args) && !KindOf(c).String?
    ensures |Piece(c, args)| <= 11
  {
    hide NumberText, DigitChar;
    if KindOf(c).DecimalNumber? || KindOf(c).HexNumber? {
      NumberTextLength(args[0].num, 10);
      NumberTextLength(args[0].num, 16);
    }
  }

  /** A number or address that starts within the limit may run past it, by at most 10 characters. */
  lemma {:induction false} Overrun(fmt: seq<Byte>, args: seq<Arg>, limit: nat, pos: nat)
    requires Fits(fmt, args) && pos <= limit + 10
    ensures pos + |Render(fmt, args, limit, pos)| <= limit + 10
    decreases |fmt|
  {
    hide Piece, NumberText;
    if fmt != [] && pos < limit {
      if !Directive(fmt) {
        Overrun(fmt[1..], args, limit, pos + 1);
      } else {
        var piece := Written(fmt[1], args, limit, pos);
        if !KindOf(fmt[1]).String? {
          PieceLength(fmt[1], args);
        }
        Overrun(fmt[2..], Rest(fmt[1], args), limit, pos + |piece|);
      }
    }
  }

  // ---- The method ----

  method PointerToString(buffer: array<Byte>, pos: nat, address: Word) returns (end: nat)
    requires pos + 10 <= buffer.Length
    modifies buffer
    ensures end == pos + 10
    ensures buffer[..] == old(buffer[..pos]) + AddressText(address) + old(buffer[end..])
  {
    buffer[pos] := ZERO;
    buffer[pos + 1] := 0x78;
    end := pos + 2;
    ghost var digits := HexDigits(address, 8, false);
    var k := 8;
    while k > 0
      invariant 0 <= k <= 8 && end == pos + 10 - k
      invariant forall x :: 0 <= x < buffer.Length ==>
                  buffer[x] == if x == pos then ZERO else if x == pos + 1 then 0x78
                               else if pos + 2 <= x < end then digits[x - pos - 2] else old(buffer[x])
    {
      k := k - 1;
      PointerDigitAt(address, 8, 7 - k);
      var digit := AddressTop(address, k) % 16;
      buffer[end] := DigitChar(digit);
      end := end + 1;
    }
    assert buffer[..] == old(buffer[..pos]) + AddressText(address) + old(buffer[end..]);
  }

  /** address >> (k * 4) */
  function AddressTop(address: nat, k: nat): nat {
    if k == 0 then address else AddressTop(address / 16, k - 1)
  }

  lemma {:induction false} PointerDigitAt(n: nat, k: nat, x: nat)
    requires x < k
    ensures HexDigits(n, k, false)[x] == DigitChar(AddressTop(n, k - 1 - x) % 16)
  {
    if x < k - 1 {
      PointerDigitAt(n / 16, k - 1, x);
    }
  }

  /** The %s loop. */
  method PutString(buffer: array<Byte>, pos: nat, text: seq<Byte>, limit: nat) returns (end: nat)
    requires pos <= limit && 0 !in text && pos + |Prefix(text, limit - pos)| <= buffer.Length
    modifies buffer
    ensures end == pos + |Prefix(text, limit - pos)|
    ensures buffer[..] == old(buffer[..pos]) + Prefix(text, limit - pos) + old(buffer[end..])
  {
    var str := Stored(text);
    StoredText(text);
    var p := 0;
    end := pos;
    while str[p] != 0 && end < limit
      invariant p <= |text| && end == pos + p <= limit
      invariant forall x :: 0 <= x < buffer.Length ==>
                  buffer[x] == if pos <= x < end then text[x - pos] else old(buffer[x])
      decreases |text| - p
    {
      buffer[end] := str[p];
      end := end + 1;
      p := p + 1;
    }
    assert str[p] == 0 ==> p == |text| by { assert p < |text| ==> text[p] in text; }
    assert buffer[..] == old(buffer[..pos]) + Prefix(text, limit - pos) + old(buffer[end..]);
  }

  /** One directive: its text at pos. */
  method PutDirective(buffer: array<Byte>, pos: nat, c: Byte, args: seq<Arg>, limit: nat) returns (end: nat)
    requires HasArg(c, args) && pos < limit && pos + |Written(c, args, limit, pos)| <= buffer.Length
    modifies buffer
    ensures end == pos + |Written(c, args, limit, pos)|
    ensures buffer[..] == old(buffer[..pos]) + Written(c, args, limit, pos) + old(buffer[end..])
  {
    hide NumberText, AddressText, NullText, Prefix;
    match KindOf(c) {
      case DecimalNumber => end := NumberToString(buffer, pos, args[0].num, 10);
      case HexNumber => end := NumberToString(buffer, pos, args[0].num, 16);
      case Address => end := PointerToString(buffer, pos, args[0].address);
      case String => end := PutString(buffer, pos, if args[0].Str? then args[0].text else NullText(), limit);
      case Character =>
        buffer[pos] := args[0].c;
        end := pos + 1;
        assert buffer[..] == old(buffer[..pos]) + [args[0].c] + old(buffer[end..]);
      case Unknown =>
        buffer[pos] := PERCENT;
        buffer[pos + 1] := c;
        end := pos + 2;
        assert buffer[..] == old(buffer[..pos]) + [PERCENT, c] + old(buffer[end..]);
    }
  }

  /** What is written so far, with what the rest of the format from place f on yields, is all of the output. */
  ghost predicate SoFar(written: seq<Byte>, text: seq<Byte>, f: nat, args: seq<Arg>, limit: nat, all: seq<Byte>) {
    f <= |text| && Fits(text[f..], args) && written + Render(text[f..], args, limit, |written|) == all
  }

  lemma LiteralStep(written: seq<Byte>, text: seq<Byte>, f: nat, args: seq<Arg>, limit: nat, all: seq<Byte>)
    requires SoFar(written, text, f, args, limit, all) && f < |text| && |written| < limit
    requires !(text[f] == PERCENT && !(f + 1 < |text| && text[f + 1] == PERCENT))
    ensures |written| < |all| && SoFar(written + [text[f]], text, f + 1, args, limit, all)
  {
    assert text[f..][1..] == text[f + 1..];
    var rest := Render(text[f + 1..], args, limit, |written| + 1);
    assert written + ([text[f]] + rest) == (written + [text[f]]) + rest;
  }

  lemma DirectiveStep(written: seq<Byte>, text: seq<Byte>, f: nat, args: seq<Arg>, limit: nat, all: seq<Byte>)
    requires SoFar(written, text, f, args, limit, all) && f < |text| && |written| < limit
    requires text[f] == PERCENT && !(f + 1 < |text| && text[f + 1] == PERCENT)
    ensures f + 1 < |text| && HasArg(text[f + 1], args)
    ensures var piece := Written(text[f + 1], args, limit, |written|);
            && |written| + |piece| <= |all|
            && SoFar(written + piece, text, f + 2, Rest(text[f + 1], args), limit, all)
  {
    hide Written, HasArg, Rest;
    assert f + 1 < |text| && HasArg(text[f + 1], args);
    assert text[f..][2..] == text[f + 2..];
    var piece := Written(text[f + 1], args, limit, |written|);
    var rest := Render(text[f + 2..], Rest(text[f + 1], args), limit, |written| + |piece|);
    assert written + (piece + rest) == (written + piece) + rest;
  }

  lemma AllDone(written: seq<Byte>, text: seq<Byte>, f: nat, args: seq<Arg>, limit: nat, all: seq<Byte>)
    requires SoFar(written, text, f, args, limit, all) && (f == |text| || |written| >= limit)
    ensures written == all
  {
  }

  lemma Dropped(s: seq<Byte>, i: nat, j: nat)
    requires i <= j <= |s|
    ensures s[i..][j - i..] == s[j..]
  {
  }

  /** Writes what Render says and a NUL. The format is the text stored at position at; the buffer must have room
      for what is written, which for some formats is more than size. */
  method Vsnprintf(buffer: array<Byte>, size: nat, format: seq<Byte>, at: nat, arguments: seq<Arg>) returns (r: nat)
    requires size >= 1 && Terminated(format, at) && Fits(Text(format, at), arguments)
    requires |Render(Text(format, at), arguments, size - 1, 0)| < buffer.Length
    modifies buffer
    ensures r == |Render(Text(format, at), arguments, size - 1, 0)|
    ensures buffer[..r] == Render(Text(format, at), arguments, size - 1, 0) && buffer[r] == 0
    ensures buffer[r + 1..] == old(buffer[r + 1..])
  {
    hide CStrings.Text, Length, Piece, Written, Render, Fits, HasArg, Rest;
    ghost var text, was := Text(format, at), buffer[..];
    ghost var all := Render(text, arguments, size - 1, 0);
    var pos, f, args := 0, 0, arguments;
    assert text[0..] == text;
    assert SoFar(buffer[..0], text, 0, args, size - 1, all);
    CharIs(format, at, 0);
    hide SoFar;
    while format[at + f] != 0 && pos < size - 1
      invariant f <= |text| == Length(format, at) && at + f < |format| && pos <= |all|
      invariant SoFar(buffer[..pos], text, f, args, size - 1, all)
      invariant buffer[pos..] == was[pos..]
      decreases |text| - f
    {
      CharIs(format, at, f);
      CharIs(format, at, f + 1);
      ghost var before := buffer[..pos];
      if format[at + f] == PERCENT && format[at + f + 1] != PERCENT {
        DirectiveStep(before, text, f, args, size - 1, all);
        var c := format[at + f + 1];
        var end := PutDirective(buffer, pos, c, args, size - 1);
        assert buffer[..end] == before + Written(c, args, size - 1, pos);
        Dropped(was, pos, end);
        pos, f, args := end, f + 2, Rest(c, args);
      } else {
        LiteralStep(before, text, f, args, size - 1, all);
        buffer[pos] := format[at + f];
        assert buffer[..pos + 1] == before + [text[f]];
        Dropped(was, pos, pos + 1);
        pos, f := pos + 1, f + 1;
      }
      CharIs(format, at, f);
    }
    CharIs(format, at, f);
    AllDone(buffer[..pos], text, f, args, size - 1, all);
    ghost var tail := buffer[pos..];
    buffer[pos] := 0;
    assert buffer[pos + 1..] == tail[1..];
    Dropped(was, pos, pos + 1);
    return pos;
  }
}
