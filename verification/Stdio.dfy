/**
 stdio.c: printf_number in radix 10.
 */
module Stdio {
  import opened Utilities

  const TWO_64: nat := 0x1_0000_0000_0000_0000
  const RADIX: word := 10
  const BUFFER_SIZE: nat := 32

  datatype Length = ShortShort | Short | Default | Long | LongLong

  /** One more than the largest argument of a length; long is a 32-bit type. */
  function Modulus(length: Length): nat {
    if length == LongLong then TWO_64 else TWO_32
  }

  const CHARS: string := "0123456789"

  // ----- decimal numerals -------------------------------------------------------------

  function Digit(n: nat): char
    requires n < 10
  {
    CHARS[n]
  }

  /** The decimal numeral of n. */
  function Decimal(n: nat): (s: string)
    ensures |s| > 0
  {
    if n < 10 then [Digit(n)] else Decimal(n / 10) + [Digit(n % 10)]
  }

  predicate IsDigit(c: char) { '0' <= c <= '9' }

  /** The number that a string of digits denotes, Horner style. */
  function ParseDigits(s: string): int {
    if s == [] then 0 else 10 * ParseDigits(s[..|s| - 1]) + (s[|s| - 1] as int - '0' as int)
  }

  function ParseNumber(s: string): int {
    if s != [] && s[0] == '-' then -ParseDigits(s[1..]) else ParseDigits(s)
  }

  lemma DigitIs(n: nat)
    requires n < 10
    ensures Digit(n) as int == '0' as int + n && IsDigit(Digit(n))
  {
  }

  lemma {:induction false} DecimalParses(n: nat)
    ensures ParseDigits(Decimal(n)) == n
    ensures forall i :: 0 <= i < |Decimal(n)| ==> IsDigit(Decimal(n)[i])
    ensures n > 0 ==> Decimal(n)[0] != '0'
  {
    DigitIs(n % 10);
    var s := Decimal(n);
    if n < 10 {
      assert s[..0] == [];
      assert ParseDigits(s) == 10 * ParseDigits(s[..0]) + n;
    } else {
      DecimalParses(n / 10);
      assert s[..|s| - 1] == Decimal(n / 10);
    }
  }

  lemma {:induction false} DecimalLength(n: nat, k: nat, bound: nat)
    requires k > 0 && n < bound && bound == Tens(k)
    ensures |Decimal(n)| <= k
    decreases k
  {
    if n >= 10 {
      assert k > 1;
      DecimalLength(n / 10, k - 1, Tens(k - 1));
    }
  }

  function Tens(k: nat): nat {
    if k == 0 then 1 else 10 * Tens(k - 1)
  }

  lemma WordDecimalLength(n: word)
    ensures |Decimal(n)| <= 10
  {
    assert Tens(2) == 100 && Tens(4) == 10000 && Tens(6) == 1000000 && Tens(8) == 100000000;
    assert Tens(10) == 10000000000;
    DecimalLength(n, 10, Tens(10));
  }

  function Reverse(s: string): string {
    if s == [] then [] else Reverse(s[1..]) + [s[0]]
  }

  lemma {:induction false} ReverseSnoc(s: string, c: char)
    ensures Reverse(s + [c]) == [c] + Reverse(s)
  {
    if s != [] {
      assert (s + [c])[1..] == s[1..] + [c];
      ReverseSnoc(s[1..], c);
    }
  }

  // ----- the value of an argument -----------------------------------------------------

  /** The value that the format asks for: the argument as a signed or unsigned number. */
  function ValueOf(arg: nat, length: Length, sign: bool): int {
    if sign && 2 * arg >= Modulus(length) then arg - Modulus(length) else arg
  }

  /**
   Two's complement: the value is the one number of the range asked for that agrees with the
   argument modulo the argument's width.
   */
  lemma ValueIsTwosComplement(arg: nat, length: Length, sign: bool)
    requires arg < Modulus(length)
    ensures var v, m: int := ValueOf(arg, length, sign), Modulus(length);
      && v % m == arg
      && (sign ==> -m <= 2 * v < m)
      && (!sign ==> 0 <= v < m)
  {
    var v, m: int := ValueOf(arg, length, sign), Modulus(length);
    if v < 0 { ModShift(v, m); }
  }

  lemma ModShift(v: int, m: int)
    requires -m <= v < 0
    ensures v % m == v + m
  {
  }

  function Magnitude(v: int): nat {
    if v < 0 then -v else v
  }

  /** The numeral that is shown for a value: its sign, and its magnitude cut to 32 bits. */
  function Shown(v: int): string {
    (if v < 0 then "-" else "") + Decimal(Magnitude(v) % TWO_32)
  }

  /** -n on a signed number, which wraps at the least one. */
  function Negate(n: int, length: Length): int {
    if 2 * n + Modulus(length) == 0 then n else -n
  }

  /**
   What is shown has at most ten digits and a sign, and no leading zero but "0" itself. It
   reads back as the value exactly when the magnitude is below 2^32: always for arguments of
   32 bits, and not for longer ones, whose division sees their low 32 bits only.
   */
  lemma ShownReadsBack(arg: nat, length: Length, sign: bool)
    requires arg < Modulus(length)
    ensures var v := ValueOf(arg, length, sign); var s := Shown(v);
      && ParseNumber(s) == (if v < 0 then -(Magnitude(v) % TWO_32) else Magnitude(v) % TWO_32)
      && (ParseNumber(s) == v <==> Magnitude(v) < TWO_32)
      && (s[0] == '-' <==> v < 0)
      && (length != LongLong ==> ParseNumber(s) == v)
      && |s| <= 11 < BUFFER_SIZE
      && (Magnitude(v) % TWO_32 != 0 ==> s[if v < 0 then 1 else 0] != '0')
      && (Magnitude(v) % TWO_32 == 0 ==> s == if v < 0 then "-0" else "0")
  {
    var v := ValueOf(arg, length, sign);
    var m := Magnitude(v) % TWO_32;
    DecimalParses(m);
    WordDecimalLength(m);
    DigitIs(0);
    SignReads(v, Decimal(m));
  }

  lemma SignReads(v: int, s: string)
    requires s != [] && s[0] != '-'
    ensures ParseNumber((if v < 0 then "-" else "") + s) == if v < 0 then -ParseDigits(s) else ParseDigits(s)
  {
    if v < 0 { assert ("-" + s)[1..] == s; } else { assert "" + s == s; }
  }

  // ----- printf_number ----------------------------------------------------------------

  /** One turn of the digit loop on the 64-bit number, with 32-bit division. */
  method NextDigit(number: nat) returns (remainder: nat, quotient: word)
    requires number < TWO_64
    ensures quotient == number % TWO_32 / 10 && remainder == number % TWO_32 % 10
  {
    var q, _, _, _ := DivideUnsigned(number % TWO_32, RADIX);
    quotient := q;
    remainder := (number - Wrap(quotient * RADIX)) % TWO_32;
  }

  /** The digit loop: fills the buffer with the digits of the number modulo 2^32, last one first. */
  method FillDigits(buffer: array<char>, n: nat) returns (pos: nat)
    requires buffer.Length == BUFFER_SIZE && n < TWO_64
    modifies buffer
    ensures pos <= 10 && Reverse(buffer[..pos]) == Decimal(n % TWO_32)
  {
    hide Decimal, Reverse;
    ReverseEmpty();
    pos := 0;
    var number: nat := n;
    ghost var digits := Decimal(n % TWO_32);
    WordDecimalLength(n % TWO_32);
    var more := true;
    while more
      invariant pos <= 10 && number < TWO_64 && (pos > 0 ==> number < TWO_32)
      invariant more ==> digits == Decimal(number % TWO_32) + Reverse(buffer[..pos])
      invariant !more ==> digits == Reverse(buffer[..pos])
      decreases more, number
    {
      ghost var done := buffer[..pos];
      DecimalStep(number % TWO_32);
      var remainder, quotient := NextDigit(number);
      number := quotient;
      buffer[pos] := CHARS[remainder];
      ReverseSnoc(done, CHARS[remainder]);
      ReverseLength(done);
      pos := pos + 1;
      assert buffer[..pos] == done + [CHARS[remainder]];
      more := number > 0;
      assert digits == (if more then Decimal(quotient) + [CHARS[remainder]] else [CHARS[remainder]]) + Reverse(done);
      DecimalCarry(digits, Decimal(quotient), CHARS[remainder], Reverse(done), Reverse(buffer[..pos]), more);
    }
  }

  /**
   Emits the number, last digit first into the buffer and then backwards; returns what
   putchar gets and how many argument slots the length takes.
   */
  method PrintfNumber(arg: nat, length: Length, sign: bool) returns (out: string, slots: nat)
    requires arg < Modulus(length)
    ensures out == Shown(ValueOf(arg, length, sign))
    ensures slots == if length == LongLong then 4 else if length == Long then 2 else 1
  {
    hide Decimal, Reverse;
    ReverseEmpty();
    var buffer := new char[BUFFER_SIZE];
    var number: nat := arg;
    var numberSign := 1;
    var pos: nat;
    if sign {
      var n: int := if 2 * arg >= Modulus(length) then arg - Modulus(length) else arg;
      if n < 0 {
        n := Negate(n, length);
        numberSign := -1;
      }
      number := n % TWO_64;
    }
    slots := match length case LongLong => 4 case Long => 2 case _ => 1;
    MagnitudeIs(arg, length, sign);
    pos := FillDigits(buffer, number);
    ghost var done := buffer[..pos];
    if sign && numberSign < 0 {
      buffer[pos] := '-';
      pos := pos + 1;
      assert buffer[..pos] == done + ['-'];
      ReverseSnoc(done, '-');
    }
    out := Emit(buffer, pos);
  }

  /** Hands the buffer to putchar, last character first. */
  method Emit(buffer: array<char>, count: nat) returns (out: string)
    requires count <= buffer.Length
    ensures out == Reverse(buffer[..count])
  {
    var pos: nat := count;
    out := [];
    while pos > 0
      invariant pos <= count && Reverse(buffer[..count]) == out + Reverse(buffer[..pos])
    {
      pos := pos - 1;
      assert buffer[..pos + 1] == buffer[..pos] + [buffer[pos]];
      ReverseSnoc(buffer[..pos], buffer[pos]);
      out := out + [buffer[pos]];
    }
  }

  lemma DecimalCarry(digits: string, rest: string, c: char, done: string, done': string, more: bool)
    requires done' == [c] + done
    requires digits == (if more then rest + [c] else [c]) + done
    ensures digits == if more then rest + done' else done'
  {
    assert rest + [c] + done == rest + ([c] + done);
  }

  lemma ReverseEmpty()
    ensures Reverse([]) == []
  {
  }

  lemma ReverseLength(s: string)
    ensures |Reverse(s)| == |s|
  {
  }

  lemma DecimalStep(n: nat)
    ensures Decimal(n) == if n < 10 then [Digit(n)] else Decimal(n / 10) + [Digit(n % 10)]
  {
  }

  /** The 64-bit number that the loop starts from agrees with the magnitude modulo 2^32. */
  lemma MagnitudeIs(arg: nat, length: Length, sign: bool)
    requires arg < Modulus(length)
    ensures var v := ValueOf(arg, length, sign);
      (if v < 0 then Negate(v, length) % TWO_64 else v) % TWO_32 == Magnitude(v) % TWO_32
  {
  }
}
