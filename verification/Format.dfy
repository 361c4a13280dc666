/** The bounded formatter of src/logger.c against the unbounded rendering of its format. */
module Format {
  import opened Words
  import opened Sequences
  import opened Strings
  import opened Decimal

  const PERCENT: byte := 37
  const LETTER_A: byte := 97
  const LETTER_D: byte := 100
  const LETTER_S: byte := 115
  const LETTER_X: byte := 120

  /** An argument of the format: a string, a null string, a signed or an unsigned number. */
  datatype Arg = Str(text: seq<byte>) | Null | Int(n: int) | Unsigned(value: nat)

  function HexDigit(d: nat): byte
    requires d < 16
  {
    if d < 10 then ZERO + d else LETTER_A + (d - 10)
  }

  /** The hexadecimal numeral, most significant digit first. */
  function HexNumeral(n: nat): (s: seq<byte>)
    ensures s != []
  {
    if n < 16 then [HexDigit(n)] else HexNumeral(n / 16) + [HexDigit(n % 16)]
  }

  predicate IsDirective(format: seq<byte>) {
    |format| > 1 && format[0] == PERCENT
  }

  /** The argument that the directive letter `c` calls for. */
  predicate Suits(arg: Arg, c: byte) {
    && (c == LETTER_S ==> arg.Null? || (arg.Str? && 0 !in arg.text))
    && (c == LETTER_D ==> arg.Int? && -0x8000_0000 <= arg.n < 0x8000_0000)
    && (c == LETTER_X ==> arg.Unsigned? && arg.value < WORD)
  }

  predicate TakesArg(c: byte) {
    c == LETTER_S || c == LETTER_D || c == LETTER_X
  }

  /** The arguments supply what the format asks for, in order. */
  predicate Matches(format: seq<byte>, args: seq<Arg>)
    decreases |format|
  {
    if format == [] then true
    else if IsDirective(format) && TakesArg(format[1]) then
      args != [] && Suits(args[0], format[1]) && Matches(format[2..], args[1..])
    else if IsDirective(format) then Matches(format[2..], args)
    else Matches(format[1..], args)
  }

  function Expansion(arg: Arg): seq<byte> {
    match arg
    case Str(text) => text
    case Null => []
    case Int(n) => Printed(n)
    case Unsigned(n) => HexNumeral(n)
  }

  /** A decimal argument expands to its numeral if and only if it is not -2^31. */
  lemma IntExpandsToNumeral(n: int)
    requires Suits(Int(n), LETTER_D)
    ensures Expansion(Int(n)) == SignedNumeral(n) <==> n != -0x8000_0000
  {
    PrintsNumeralUnlessMin(n);
  }

  /** The unbounded rendering. A percent sign that ends the format stands for itself; an unknown
      directive stands for its letter. */
  function Render(format: seq<byte>, args: seq<Arg>): seq<byte>
    requires Matches(format, args)
    decreases |format|
  {
    if format == [] then []
    else if IsDirective(format) && TakesArg(format[1]) then
      Expansion(args[0]) + Render(format[2..], args[1..])
    else if IsDirective(format) then [format[1]] + Render(format[2..], args)
    else [format[0]] + Render(format[1..], args)
  }

  /** What each directive renders: `%s` its string, or nothing for NULL; `%d` digits that read back as
      the number (off -2^31); `%x` digits that read back as the number; a percent sign before any
      other character that character; anything else itself. */
  lemma RenderReads(rest: seq<byte>, args: seq<Arg>, text: seq<byte>, n: int, value: nat, c: byte)
    requires Matches(rest, args)
    requires 0 !in text && -0x8000_0000 <= n < 0x8000_0000 && value < WORD
    requires c != 115 && c != 100 && c != 120
    ensures Matches([37, 115] + rest, [Str(text)] + args) && Matches([37, 115] + rest, [Null] + args)
    ensures Render([37, 115] + rest, [Str(text)] + args) == text + Render(rest, args)
    ensures Render([37, 115] + rest, [Null] + args) == Render(rest, args)
    ensures Matches([37, 100] + rest, [Int(n)] + args)
    ensures SignedValue(SignedNumeral(n)) == n
    ensures n != -0x8000_0000 ==> Render([37, 100] + rest, [Int(n)] + args) == SignedNumeral(n) + Render(rest, args)
    ensures Matches([37, 120] + rest, [Unsigned(value)] + args)
    ensures HexValue(HexNumeral(value)) == value
    ensures Render([37, 120] + rest, [Unsigned(value)] + args) == HexNumeral(value) + Render(rest, args)
    ensures Matches([37, c] + rest, args) && Render([37, c] + rest, args) == [c] + Render(rest, args)
    ensures c != 37 ==> Matches([c] + rest, args) && Render([c] + rest, args) == [c] + Render(rest, args)
    ensures Matches([37], args) && Render([37], args) == [37]
  {
    RenderArg(rest, args, Str(text), 115);
    RenderArg(rest, args, Null, 115);
    RenderArg(rest, args, Int(n), 100);
    RenderArg(rest, args, Unsigned(value), 120);
    RenderPlain(rest, args, c);
    IntExpandsToNumeral(n);
    SignedNumeralDenotes(n);
    HexNumeralDenotes(value);
    assert [] + Render(rest, args) == Render(rest, args);
  }

  lemma {:induction false} RenderArg(rest: seq<byte>, args: seq<Arg>, arg: Arg, c: byte)
    requires Matches(rest, args) && TakesArg(c) && Suits(arg, c)
    ensures Matches([37, c] + rest, [arg] + args)
    ensures Render([37, c] + rest, [arg] + args) == Expansion(arg) + Render(rest, args)
  {
    var format, all := [37, c] + rest, [arg] + args;
    assert format[2..] == rest && all[1..] == args && format[0] == PERCENT;
  }

  lemma {:induction false} RenderPlain(rest: seq<byte>, args: seq<Arg>, c: byte)
    requires Matches(rest, args) && !TakesArg(c)
    ensures Matches([37, c] + rest, args) && Render([37, c] + rest, args) == [c] + Render(rest, args)
    ensures c != 37 ==> Matches([c] + rest, args) && Render([c] + rest, args) == [c] + Render(rest, args)
    ensures Matches([37], args) && Render([37], args) == [37]
  {
    assert ([37, c] + rest)[2..] == rest && ([c] + rest)[1..] == rest && [37][1..] == [];
  }

  // ---------------------------------------------------------------- hexadecimal

  function HexValue(s: seq<byte>): int {
    if s == [] then 0
    else
      var c := s[|s| - 1];
      16 * HexValue(s[..|s| - 1]) + if c < LETTER_A then c - ZERO else c - LETTER_A + 10
  }

  predicate IsHexDigit(c: byte) {
    48 <= c <= 57 || 97 <= c <= 102
  }

  /** Reading a hexadecimal numeral back gives the number; a numeral consists of the digits 0-9 and
      a-f, and starts with a zero only when it is the numeral of zero. */
  lemma {:induction false} HexNumeralDenotes(n: nat)
    ensures HexValue(HexNumeral(n)) == n
    ensures forall i :: 0 <= i < |HexNumeral(n)| ==> IsHexDigit(HexNumeral(n)[i])
    ensures HexNumeral(n)[0] == 48 <==> n == 0
  {
    if n < 16 {
      assert HexNumeral(n)[..0] == [];
    } else {
      HexNumeralDenotes(n / 16);
      var s := HexNumeral(n / 16);
      assert (s + [HexDigit(n % 16)])[..|s|] == s;
    }
  }

  function HexLowFirst(n: nat): seq<byte> {
    if n == 0 then [] else [HexDigit(n % 16)] + HexLowFirst(n / 16)
  }

  lemma {:induction false} HexReversed(n: nat)
    requires 0 < n
    ensures Reversed(HexLowFirst(n)) == HexNumeral(n)
  {
    if n < 16 {
      assert HexLowFirst(n / 16) == [];
    } else {
      HexReversed(n / 16);
      assert Reversed(HexLowFirst(n)) == Reversed(HexLowFirst(n / 16)) + [HexDigit(n % 16)];
    }
  }

  function Pow16(k: nat): nat {
    if k == 0 then 1 else 16 * Pow16(k - 1)
  }

  lemma {:induction false} HexLowFirstLength(n: nat, k: nat)
    requires n < Pow16(k)
    ensures |HexLowFirst(n)| <= k
  {
    if n > 0 {
      HexLowFirstLength(n / 16, k - 1);
    }
  }

  /** Copy characters while they fit; `size` counts the terminator. */
  method Emit(buffer: array<byte>, size: nat, at: nat, str: seq<byte>) returns (written: nat)
    requires at < size <= buffer.Length && 0 in str
    modifies buffer
    ensures at <= written < size && buffer[..written] == Clip(old(buffer[..at]) + Text(str), size - 1)
    ensures forall k :: size <= k < buffer.Length ==> buffer[k] == old(buffer[k])
  {
    written := at;
    var i := 0;
    ghost var before := buffer[..at];
    while str[i] != 0 && written < size - 1
      invariant i < |str| && 0 !in str[..i]
      invariant written == at + i < size && buffer[..written] == before + str[..i]
      invariant forall k :: size <= k < buffer.Length ==> buffer[k] == old(buffer[k])
      decreases |str| - i
    {
      ghost var sofar := buffer[..written];
      buffer[written] := str[i];
      assert buffer[..written] == sofar;
      assert buffer[..written + 1] == sofar + [str[i]];
      i := i + 1;
      written := written + 1;
      assert 0 in str && 0 !in str[..i];
    }
    TextFrom(str, i);
    assert (before + Text(str))[..written] == before + str[..i];
  }

  /** The characters before position `i` begin the text, and end it at a zero. */
  lemma {:induction false} TextFrom(str: seq<byte>, i: nat)
    requires i < |str| && 0 in str && 0 !in str[..i]
    ensures |Text(str)| >= i && Text(str)[..i] == str[..i]
    ensures str[i] == 0 ==> Text(str) == str[..i]
    decreases i
  {
    if i > 0 {
      assert str[0] in str[..i] && str[1..][..i - 1] == str[..i][1..];
      assert 0 in str[1..] by {
        var k :| 0 <= k < |str| && str[k] == 0;
        assert str[1..][k - 1] == 0;
      }
      TextFrom(str[1..], i - 1);
    }
  }

  /** Put one character if it fits. */
  method PutByte(buffer: array<byte>, size: nat, at: nat, c: byte) returns (written: nat)
    requires at < size <= buffer.Length
    modifies buffer
    ensures at <= written < size && buffer[..written] == Clip(old(buffer[..at]) + [c], size - 1)
    ensures forall k :: size <= k < buffer.Length ==> buffer[k] == old(buffer[k])
  {
    written := at;
    if written < size - 1 {
      buffer[written] := c;
      written := written + 1;
      assert buffer[..at] == old(buffer[..at]);
    }
  }

  /** The hexadecimal branch: digits go to a scratch array, then out in reverse while they fit. */
  method EmitHex(buffer: array<byte>, size: nat, at: nat, num: nat) returns (written: nat)
    requires at < size <= buffer.Length && num < WORD
    modifies buffer
    ensures at <= written < size && buffer[..written] == Clip(old(buffer[..at]) + HexNumeral(num), size - 1)
    ensures forall k :: size <= k < buffer.Length ==> buffer[k] == old(buffer[k])
  {
    if num == 0 {
      written := PutByte(buffer, size, at, ZERO);
      return;
    }
    ghost var before, hex := buffer[..at], HexNumeral(num);
    var temp, pos := HexDigits(num);
    HexReversed(num);
    written := EmitReversed(buffer, size, at, temp, pos);
    assert Reversed(temp[..pos]) == hex;
  }

  method EmitReversed(buffer: array<byte>, size: nat, at: nat, temp: array<byte>, pos: nat) returns (written: nat)
    requires at < size <= buffer.Length && pos <= temp.Length && temp != buffer
    modifies buffer
    ensures at <= written < size && buffer[..written] == Clip(old(buffer[..at]) + Reversed(temp[..pos]), size - 1)
    ensures forall k :: size <= k < buffer.Length ==> buffer[k] == old(buffer[k])
  {
    hide Clip;
    written := at;
    ghost var before, text := buffer[..at], Reversed(temp[..pos]);
    ClipPrefix(before, text[..0], size - 1);
    var j := pos;
    while j > 0
      invariant j <= pos && at <= written < size && text == Reversed(temp[..pos])
      invariant buffer[..written] == Clip(before + text[..pos - j], size - 1)
      invariant forall k :: size <= k < buffer.Length ==> buffer[k] == old(buffer[k])
    {
      j := j - 1;
      ClipExtends(before, text, pos - 1 - j, size - 1);
      assert temp[j] == text[pos - 1 - j];
      written := PutByte(buffer, size, written, temp[j]);
    }
    assert text[..pos] == text;
  }

  lemma ClipExtends(before: seq<byte>, s: seq<byte>, k: nat, n: nat)
    requires k < |s| && |before| <= n
    ensures Clip(Clip(before + s[..k], n) + [s[k]], n) == Clip(before + s[..k + 1], n)
  {
  }

  method HexDigits(num: nat) returns (temp: array<byte>, pos: nat)
    requires num < WORD
    ensures fresh(temp) && pos <= temp.Length == 16 && temp[..pos] == HexLowFirst(num)
  {
    hide HexLowFirst, Pow16;
    temp := new byte[16];
    pos := 0;
    var n: nat := num;
    Pow16Of8();
    HexLowFirstLength(num, 8);
    while n > 0
      invariant pos + |HexLowFirst(n)| == |HexLowFirst(num)| <= 8
      invariant temp[..pos] + HexLowFirst(n) == HexLowFirst(num)
    {
      HexUnfolds(n);
      ghost var sofar := temp[..pos];
      var digit := n % 16;
      temp[pos] := if digit < 10 then ZERO + digit else LETTER_A + (digit - 10);
      assert temp[..pos + 1] == sofar + [HexDigit(digit)];
      Associates(sofar, [HexDigit(digit)], HexLowFirst(n / 16));
      pos := pos + 1;
      n := n / 16;
    }
    HexUnfolds(0);
    assert temp[..pos] + [] == temp[..pos];
  }

  lemma {:induction false} HexUnfolds(n: nat)
    ensures HexLowFirst(n) == if n == 0 then [] else [HexDigit(n % 16)] + HexLowFirst(n / 16)
  {
  }

  lemma Pow16Of8()
    ensures Pow16(8) == WORD
  {
  }

  /** The decimal branch: print to a scratch array, then copy while it fits. */
  method EmitInt(buffer: array<byte>, size: nat, at: nat, num: int) returns (written: nat)
    requires at < size <= buffer.Length && -0x8000_0000 <= num < 0x8000_0000
    modifies buffer
    ensures at <= written < size && buffer[..written] == Clip(old(buffer[..at]) + Printed(num), size - 1)
    ensures forall k :: size <= k < buffer.Length ==> buffer[k] == old(buffer[k])
  {
    hide Printed;
    PrintedFits(num);
    var numStr := new byte[16];
    IntToString(num, numStr);
    ghost var n := |Printed(num)|;
    assert numStr[..][n] == 0 && numStr[..][..n] == Printed(num);
    TextIs(numStr[..], n);
    written := Emit(buffer, size, at, numStr[..]);
  }

  // ---------------------------------------------------------------- the formatter

  lemma ClipIdempotent(a: seq<byte>, b: seq<byte>, c: seq<byte>, n: nat)
    ensures Clip(Clip(a + b, n) + c, n) == Clip(a + (b + c), n)
  {
    hide Clip;
    Associates(a, b, c);
    ClipAgain(a + b, c, n);
  }

  lemma ClipAgain(s: seq<byte>, c: seq<byte>, n: nat)
    ensures Clip(Clip(s, n) + c, n) == Clip(s + c, n)
  {
    if |s| > n {
      assert (s[..n] + c)[..n] == s[..n] == (s + c)[..n];
    }
  }

  /** The three branches that take an argument. */
  method EmitArg(buffer: array<byte>, size: nat, at: nat, arg: Arg, c: byte) returns (written: nat)
    requires at < size <= buffer.Length && TakesArg(c) && Suits(arg, c)
    modifies buffer
    ensures at <= written < size && buffer[..written] == Clip(old(buffer[..at]) + Expansion(arg), size - 1)
    ensures forall k :: size <= k < buffer.Length ==> buffer[k] == old(buffer[k])
  {
    match arg {
      case Str(text) =>
        TextIs(text + [0], |text|);
        assert (text + [0])[..|text|] == text;
        written := Emit(buffer, size, at, text + [0]);
      case Null =>
        written := at;
        assert buffer[..at] + [] == buffer[..at];
      case Int(n) => written := EmitInt(buffer, size, at, n);
      case Unsigned(value) => written := EmitHex(buffer, size, at, value);
    }
  }

  /** How many characters of the format one turn of the loop consumes. */
  function Taken(rest: seq<byte>): nat {
    if IsDirective(rest) then 2 else 1
  }

  function ArgsTaken(rest: seq<byte>): nat {
    if IsDirective(rest) && TakesArg(rest[1]) then 1 else 0
  }

  /** What one turn of the loop renders. */
  function Piece(rest: seq<byte>, left: seq<Arg>): seq<byte>
    requires rest != [] && Matches(rest, left)
  {
    if ArgsTaken(rest) == 1 then Expansion(left[0]) else [rest[Taken(rest) - 1]]
  }

  lemma {:induction false} RenderUnfolds(rest: seq<byte>, left: seq<Arg>)
    requires rest != [] && Matches(rest, left)
    ensures Taken(rest) <= |rest| && ArgsTaken(rest) <= |left|
    ensures ArgsTaken(rest) == 1 ==> TakesArg(rest[1]) && Suits(left[0], rest[1])
    ensures Matches(rest[Taken(rest)..], left[ArgsTaken(rest)..])
    ensures Render(rest, left) == Piece(rest, left) + Render(rest[Taken(rest)..], left[ArgsTaken(rest)..])
  {
  }

  lemma RenderEnds(left: seq<Arg>)
    ensures Matches([], left) && Render([], left) == []
  {
  }

  lemma ClipPrefix(a: seq<byte>, b: seq<byte>, n: nat)
    requires |a| == n || (|a| <= n && b == [])
    ensures Clip(a + b, n) == a
  {
  }

  /** One character into a string that has not ended. */
  lemma TextStep(str: seq<byte>)
    requires 0 in str && str[0] != 0
    ensures |str| > 1 && 0 in str[1..]
    ensures Text(str) != [] && Text(str)[0] == str[0] && Text(str)[1..] == Text(str[1..])
    ensures Text(str[1..]) == [] <==> str[1] == 0
  {
    var k :| 0 <= k < |str| && str[k] == 0;
    assert str[1..][k - 1] == 0;
  }

  /** `simple_format_string`: for every format string, every argument list that matches it and every
      buffer size of at least one, the buffer receives exactly the first `size - 1` characters of
      the rendering, a terminator, and nothing beyond `size`; the result is their number. */
  method FormatString(buffer: array<byte>, size: nat, format: seq<byte>, args: seq<Arg>) returns (written: nat)
    requires 1 <= size <= buffer.Length && 0 in format && Matches(Text(format), args)
    modifies buffer
    ensures written < size && buffer[written] == NUL
    ensures buffer[..written] == Clip(Render(Text(format), args), size - 1)
    ensures forall k :: size <= k < buffer.Length ==> buffer[k] == old(buffer[k])
  {
    hide Render, Matches, Clip, Expansion, Suits, Text;
    var src, left := format, args;
    ghost var rest := Text(format);
    ghost var full := Clip(Render(rest, args), size - 1);
    written := 0;
    assert buffer[..0] + Render(rest, args) == Render(rest, args);
    while src[0] != 0 && written < size - 1
      invariant written < size && 0 in src && rest == Text(src) && Matches(rest, left)
      invariant Clip(buffer[..written] + Render(rest, left), size - 1) == full
      invariant forall k :: size <= k < buffer.Length ==> buffer[k] == old(buffer[k])
      decreases |src|
    {
      TextStep(src);
      RenderUnfolds(rest, left);
      ghost var rest', left' := rest[Taken(rest)..], left[ArgsTaken(rest)..];
      ClipIdempotent(buffer[..written], Piece(rest, left), Render(rest', left'), size - 1);
      if src[0] == PERCENT && src[1] != 0 {
        TextStep(src[1..]);
        assert IsDirective(rest) && rest[1] == src[1];
        if TakesArg(src[1]) {
          written := EmitArg(buffer, size, written, left[0], src[1]);
          left := left[1..];
        } else {
          written := PutByte(buffer, size, written, src[1]);
        }
        src := src[2..];
      } else {
        written := PutByte(buffer, size, written, src[0]);
        src := src[1..];
      }
      rest := rest';
      assert left == left' && rest == Text(src);
    }
    if src[0] == 0 {
      TextIs(src, 0);
      RenderEnds(left);
    }
    ClipPrefix(buffer[..written], Render(rest, left), size - 1);
    ghost var text := buffer[..written];
    buffer[written] := NUL;
    assert buffer[..written] == text;
  }
}
