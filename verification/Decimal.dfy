/** The integer printers of src/terminal.c: digits are produced from the low end, then reversed
    in place. Characters are byte values, strings end with a zero byte. */
module Decimal {
  import opened Words
  import opened Sequences

  const ZERO: byte := 48
  const MINUS: byte := 45
  const NUL: byte := 0

  function Digit(d: nat): byte
    requires d < 10
  {
    ZERO + d
  }

  predicate IsDigit(c: byte) {
    ZERO <= c < ZERO + 10
  }

  /** The decimal numeral of `n`, most significant digit first. */
  function Numeral(n: nat): (s: seq<byte>)
    ensures s != []
  {
    if n < 10 then [Digit(n)] else Numeral(n / 10) + [Digit(n % 10)]
  }

  function SignedNumeral(n: int): seq<byte> {
    if n < 0 then [MINUS] + Numeral(-n) else Numeral(n)
  }

  /** The number that a string of digits denotes. */
  function Value(s: seq<byte>): int {
    if s == [] then 0 else 10 * Value(s[..|s| - 1]) + (s[|s| - 1] - ZERO)
  }

  function SignedValue(s: seq<byte>): int {
    if s != [] && s[0] == MINUS then -Value(s[1..]) else Value(s)
  }

  // ---------------------------------------------------------------- numerals denote their number

  /** Reading a numeral back gives the number; a numeral consists of digits, and starts with a
      zero only when it is the numeral of zero. */
  lemma {:induction false} NumeralDenotes(n: nat)
    ensures Value(Numeral(n)) == n
    ensures forall i :: 0 <= i < |Numeral(n)| ==> 48 <= Numeral(n)[i] <= 57
    ensures Numeral(n)[0] == 48 <==> n == 0
  {
    if n < 10 {
      assert Numeral(n)[..0] == [];
    } else {
      NumeralDenotes(n / 10);
      var s := Numeral(n / 10);
      assert (s + [Digit(n % 10)])[..|s|] == s;
    }
  }

  /** The signed round trip; a minus sign stands in front exactly when the number is negative. */
  lemma SignedNumeralDenotes(n: int)
    ensures SignedValue(SignedNumeral(n)) == n
    ensures SignedNumeral(n) != [] && (SignedNumeral(n)[0] == 45 <==> n < 0)
  {
    if n < 0 {
      NumeralDenotes(-n);
      assert SignedNumeral(n)[1..] == Numeral(-n);
    } else {
      NumeralDenotes(n);
      assert IsDigit(Numeral(n)[0]);
    }
  }

  function Pow10(k: nat): nat {
    if k == 0 then 1 else 10 * Pow10(k - 1)
  }

  lemma {:induction false} NumeralLength(n: nat, k: nat)
    requires 0 < k && n < Pow10(k)
    ensures |Numeral(n)| <= k
  {
    if n >= 10 {
      assert k > 1;
      NumeralLength(n / 10, k - 1);
    }
  }

  /** With its terminator every 32-bit unsigned numeral fits 11 bytes, every signed one 12. */
  lemma NumeralsFit()
    ensures forall n: nat :: n < WORD ==> |Numeral(n)| + 1 <= 11
    ensures forall n: int :: -0x8000_0000 <= n < 0x8000_0000 ==> |SignedNumeral(n)| + 1 <= 12
  {
    Pow10Of10();
    forall n: nat | n < WORD
      ensures |Numeral(n)| <= 10
    {
      NumeralLength(n, 10);
    }
    forall n: int | -0x8000_0000 <= n < 0x8000_0000
      ensures |SignedNumeral(n)| <= 11
    {
      NumeralLength(if n < 0 then -n else n, 10);
    }
  }

  // ---------------------------------------------------------------- digits from the low end

  /** The digits of `n`, least significant first; none for zero. */
  function LowFirst(n: nat): seq<byte> {
    if n == 0 then [] else [Digit(n % 10)] + LowFirst(n / 10)
  }

  function Reversed<T>(s: seq<T>): (r: seq<T>)
    ensures |r| == |s| && forall i :: 0 <= i < |r| ==> r[i] == s[|s| - 1 - i]
  {
    seq(|s|, i requires 0 <= i < |s| => s[|s| - 1 - i])
  }

  lemma ReversedAppend<T>(s: seq<T>, x: T)
    ensures Reversed(s + [x]) == [x] + Reversed(s)
  {
  }

  lemma {:induction false} ReversedDigits(n: nat)
    requires 0 < n
    ensures Reversed(LowFirst(n)) == Numeral(n)
  {
    if n < 10 {
      assert LowFirst(n / 10) == [];
    } else {
      ReversedDigits(n / 10);
      assert Reversed(LowFirst(n)) == Reversed(LowFirst(n / 10)) + [Digit(n % 10)];
    }
  }

  // ---------------------------------------------------------------- what is printed

  /** Division by ten as the machine does it, towards zero. */
  function Div10(n: int): int {
    if n < 0 then -((-n) / 10) else n / 10
  }

  /** The remainder that goes with it has the sign of `n`. */
  function Mod10(n: int): (r: int)
    ensures -10 < r < 10 && (n >= 0 ==> r == n % 10)
  {
    n - 10 * Div10(n)
  }

  /** What the digit loop produces for a number of either sign. */
  function RawDigits(n: int): seq<byte>
    decreases if n < 0 then -n else n
  {
    if n == 0 then [] else [ZERO + Mod10(n)] + RawDigits(Div10(n))
  }

  /** 32-bit negation with wrap-around: the most negative number is its own negation. */
  function Neg32(n: int): int {
    if n == -0x8000_0000 then n else -n
  }

  /** The characters `int_to_string` leaves in the buffer, for every 32-bit number. */
  function Printed(num: int): seq<byte> {
    if num == 0 then [ZERO]
    else if num < 0 then Reversed(RawDigits(Neg32(num)) + [MINUS])
    else Reversed(RawDigits(num))
  }

  lemma {:induction false} RawUnfolds(n: int)
    ensures RawDigits(n) == if n == 0 then [] else [ZERO + Mod10(n)] + RawDigits(Div10(n))
  {
  }

  lemma {:induction false} RawDigitsOfPositive(n: nat)
    ensures RawDigits(n) == LowFirst(n)
  {
    if n > 0 {
      RawDigitsOfPositive(n / 10);
    }
  }

  /** The last character printed for the most negative number is below '0'. */
  lemma MinPrintsNoDigit(num: int)
    requires num == -0x8000_0000
    ensures Printed(num) != [] && Printed(num)[|Printed(num)| - 1] == ZERO - 8
  {
    hide RawDigits;
    RawUnfolds(num);
  }

  lemma SignedNumeralEnds(n: int)
    ensures SignedNumeral(n) != [] && IsDigit(SignedNumeral(n)[|SignedNumeral(n)| - 1])
  {
  }

  lemma OthersPrintNumeral(num: int)
    requires -0x8000_0000 < num < 0x8000_0000
    ensures Printed(num) == SignedNumeral(num)
  {
    hide RawDigits, LowFirst, Reversed;
    if num > 0 {
      RawDigitsOfPositive(num);
      ReversedDigits(num);
    } else if num < 0 {
      RawDigitsOfPositive(-num);
      ReversedDigits(-num);
      ReversedAppend(LowFirst(-num), MINUS);
    }
  }

  /** Over all 32-bit numbers the printed characters are the signed numeral exactly when the
      number is not the most negative one. */
  lemma PrintsNumeralUnlessMin(num: int)
    requires -0x8000_0000 <= num < 0x8000_0000
    ensures Printed(num) == SignedNumeral(num) <==> num != -0x8000_0000
  {
    hide Printed, SignedNumeral;
    if num == -0x8000_0000 {
      MinPrintsNoDigit(num);
      SignedNumeralEnds(num);
    } else {
      OthersPrintNumeral(num);
    }
  }

  lemma {:induction false} RawDigitsLength(n: int, k: nat)
    requires n < Pow10(k) && -n < Pow10(k)
    ensures |RawDigits(n)| <= k && 0 !in RawDigits(n)
    decreases k
  {
    if n != 0 {
      assert k > 0;
      RawDigitsLength(Div10(n), k - 1);
    }
  }

  lemma Pow10Of10()
    ensures Pow10(10) == 10_000_000_000
  {
    assert Pow10(5) == 100_000;
    assert Pow10(10) == 10 * (10 * (10 * (10 * (10 * Pow10(5)))));
  }

  /** What is printed for any 32-bit number fits 12 bytes with its terminator, and holds no other
      zero byte. */
  lemma PrintedFits(num: int)
    requires -0x8000_0000 <= num < 0x8000_0000
    ensures |Printed(num)| + 1 <= 12 && 0 !in Printed(num)
  {
    hide RawDigits, Pow10;
    Pow10Of10();
    var n := if num < 0 then Neg32(num) else num;
    RawDigitsLength(n, 10);
    forall i | 0 <= i < |Printed(num)|
      ensures Printed(num)[i] != 0
    {
      assert num != 0 ==> Printed(num)[i] in RawDigits(n) + [MINUS];
    }
  }

  // ---------------------------------------------------------------- the printers

  /** The digit loop: it leaves the digits of `num` at the start of the buffer, low end first. */
  method WriteDigits(num: int, buffer: array<byte>) returns (i: nat)
    requires |RawDigits(num)| <= buffer.Length
    modifies buffer
    ensures i == |RawDigits(num)| && buffer[..i] == RawDigits(num)
    ensures forall k :: i <= k < buffer.Length ==> buffer[k] == old(buffer[k])
  {
    hide RawDigits;
    i := 0;
    var n := num;
    while n != 0
      invariant i + |RawDigits(n)| == |RawDigits(num)|
      invariant buffer[..i] + RawDigits(n) == RawDigits(num)
      invariant forall k :: i <= k < buffer.Length ==> buffer[k] == old(buffer[k])
      decreases if n < 0 then -n else n
    {
      RawUnfolds(n);
      ghost var before, d := buffer[..i], ZERO + Mod10(n);
      buffer[i] := Mod10(n) + ZERO;
      assert buffer[..i + 1] == before + [d];
      Associates(before, [d], RawDigits(Div10(n)));
      i := i + 1;
      n := Div10(n);
    }
    RawUnfolds(0);
  }

  /** The reversal loop over the first `length` bytes. */
  method ReverseInPlace(buffer: array<byte>, length: nat)
    requires length <= buffer.Length
    modifies buffer
    ensures buffer[..length] == Reversed(old(buffer[..length]))
    ensures forall k :: length <= k < buffer.Length ==> buffer[k] == old(buffer[k])
  {
    var start, end := 0, length - 1;
    while start < end
      invariant 0 <= start <= length && start + end == length - 1
      invariant forall k :: 0 <= k < start || end < k < length ==> buffer[k] == old(buffer[length - 1 - k])
      invariant forall k :: start <= k <= end || length <= k < buffer.Length ==> buffer[k] == old(buffer[k])
    {
      buffer[start], buffer[end] := buffer[end], buffer[start];
      start, end := start + 1, end - 1;
    }
    assert forall k :: 0 <= k < length ==> buffer[k] == old(buffer[length - 1 - k]);
  }

  /** `uint_to_string` writes the numeral and a terminator, and nothing beyond them. */
  method UintToString(num: nat, buffer: array<byte>)
    requires num < WORD && |Numeral(num)| + 1 <= buffer.Length
    modifies buffer
    ensures buffer[..|Numeral(num)|] == Numeral(num) && buffer[|Numeral(num)|] == NUL
    ensures forall k :: |Numeral(num)| < k < buffer.Length ==> buffer[k] == old(buffer[k])
  {
    if num == 0 {
      buffer[0] := ZERO;
      buffer[1] := NUL;
      return;
    }
    RawDigitsOfPositive(num);
    ReversedDigits(num);
    WriteReversed(num, [], buffer);
  }

  /** `int_to_string`, for every 32-bit number, with a negation that wraps around: by
      `PrintsNumeralUnlessMin` the characters are the numeral, unless the number is -2^31. */
  method IntToString(num: int, buffer: array<byte>)
    requires -0x8000_0000 <= num < 0x8000_0000 && |Printed(num)| + 1 <= buffer.Length
    modifies buffer
    ensures buffer[..|Printed(num)|] == Printed(num) && buffer[|Printed(num)|] == NUL
    ensures forall k :: |Printed(num)| < k < buffer.Length ==> buffer[k] == old(buffer[k])
  {
    if num == 0 {
      buffer[0] := ZERO;
      buffer[1] := NUL;
      return;
    }
    var sign, n := [], num;
    if num < 0 {
      sign, n := [MINUS], Neg32(num);
    }
    assert RawDigits(n) + [] == RawDigits(n);
    WriteReversed(n, sign, buffer);
  }

  /** Digits, then the sign if there is one, then the terminator, then the reversal. */
  method WriteReversed(n: int, sign: seq<byte>, buffer: array<byte>)
    requires |sign| <= 1 && |RawDigits(n) + sign| + 1 <= buffer.Length
    modifies buffer
    ensures var low := RawDigits(n) + sign;
            && buffer[..|low|] == Reversed(low) && buffer[|low|] == NUL
            && forall k :: |low| < k < buffer.Length ==> buffer[k] == old(buffer[k])
  {
    hide RawDigits;
    ghost var low := RawDigits(n) + sign;
    var i := WriteDigits(n, buffer);
    if sign != [] {
      buffer[i] := sign[0];
      i := i + 1;
    }
    buffer[i] := NUL;
    assert buffer[..i] == low;
    ReverseInPlace(buffer, i);
  }
}
