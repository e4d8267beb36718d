/**
 Unsigned 32-bit arithmetic: the helpers of utilities.c.
 */
module Utilities {

  const TWO_32: nat := 0x1_0000_0000

  type word = n: nat | n < TWO_32

  function Wrap(n: int): word { n % TWO_32 }

  lemma WrapSmall(n: int)
    requires 0 <= n < TWO_32
    ensures Wrap(n) == n
  {
  }

  function Pow2(e: nat): (p: nat)
    ensures p > 0
  {
    if e == 0 then 1 else 2 * Pow2(e - 1)
  }

  /** The number whose binary digits are set at the given exponents. */
  function Binary(exponents: seq<nat>): nat {
    if exponents == [] then 0
    else Binary(exponents[..|exponents| - 1]) + Pow2(exponents[|exponents| - 1])
  }

  ghost predicate Descending(s: seq<nat>) {
    forall i, j :: 0 <= i < j < |s| ==> s[i] > s[j]
  }

  function Mul(q: nat, d: nat): nat { q * d }

  /** d doubled e times. */
  function Shifted(d: nat, e: nat): nat {
    if e == 0 then d else 2 * Shifted(d, e - 1)
  }

  lemma MulAdd(q: nat, p: nat, d: nat)
    ensures Mul(q + p, d) == Mul(q, d) + Mul(p, d)
  {
  }

  lemma MulDouble(q: nat, d: nat)
    ensures Mul(2 * q, d) == 2 * Mul(q, d)
  {
  }

  lemma MulGrows(q: nat, d: nat)
    requires d > 0
    ensures q <= Mul(q, d)
    ensures Mul(0, d) == 0
  {
  }

  lemma {:induction false} ShiftedIsMul(d: nat, e: nat)
    ensures Shifted(d, e) == Mul(Pow2(e), d)
  {
    if e > 0 {
      ShiftedIsMul(d, e - 1);
      MulDouble(Pow2(e - 1), d);
    }
  }

  lemma MulLess(a: nat, b: nat, d: nat)
    requires a < b
    ensures Mul(a, d) + d <= Mul(b, d)
  {
    MulAdd(a + 1, b - a - 1, d);
    MulAdd(a, 1, d);
  }

  lemma QuotientUnique(n: nat, d: nat, q: nat, r: nat)
    requires d > 0 && n == Mul(q, d) + r && r < d
    ensures q == n / d
  {
    hide Mul;
    var q' := n / d;
    QuotientBounds(n, d);
    if q < q' { MulLess(q, q', d); }
    if q' < q { MulLess(q', q, d); }
  }

  lemma QuotientBounds(n: nat, d: nat)
    requires d > 0
    ensures Mul(n / d, d) <= n < Mul(n / d, d) + d
  {
    var q := n / d;
  }

  lemma {:induction false} Pow2Add(a: nat, b: nat)
    ensures Pow2(a + b) == Mul(Pow2(a), Pow2(b))
  {
    if a > 0 {
      Pow2Add(a - 1, b);
      MulDouble(Pow2(a - 1), Pow2(b));
    }
  }

  lemma Pow2At31()
    ensures Pow2(31) == 0x8000_0000
  {
    assert Pow2(1) == 2 && Pow2(2) == 4 && Pow2(3) == 8 && Pow2(4) == 16;
    Pow2Add(4, 4);
    Pow2Add(8, 8);
    Pow2Add(16, 8);
    Pow2Add(24, 4);
    Pow2Add(28, 3);
  }

  lemma {:induction false} Pow2Bound(e: nat)
    requires Pow2(e) < 0x8000_0000
    ensures e <= 30
  {
    if e > 30 {
      Pow2Least(31, e);
      Pow2At31();
    }
  }

  lemma {:induction false} Pow2Least(a: nat, b: nat)
    requires a <= b
    ensures Pow2(a) <= Pow2(b)
  {
    if a < b { Pow2Least(a, b - 1); }
  }

  lemma NoSteps()
    ensures Binary([]) == 0 && Descending([])
  {
  }

  lemma PushStep(steps: seq<nat>, e: nat)
    ensures Binary(steps + [e]) == Binary(steps) + Pow2(e)
    ensures Descending(steps) && (forall i :: 0 <= i < |steps| ==> e < steps[i]) ==> Descending(steps + [e])
  {
    assert (steps + [e])[..|steps|] == steps;
  }

  lemma Doubled(d: nat, e: nat)
    ensures Shifted(d, 0) == d && Pow2(0) == 1
    ensures Shifted(d, e + 1) == 2 * Shifted(d, e) && Pow2(e + 1) == 2 * Pow2(e)
    ensures e > 0 ==> Shifted(d, e) == 2 * Shifted(d, e - 1) && Pow2(e) == 2 * Pow2(e - 1)
  {
  }

  /**
   Shift-and-subtract division. `ups` and `downs` count the doublings and halvings of the
   shifted divisor, `steps` the shift at each subtraction: no shift is subtracted twice.
   */
  method DivideUnsigned(dividend: word, divisor: word)
    returns (quotient: word, ghost ups: nat, ghost downs: nat, ghost steps: seq<nat>)
    ensures quotient == if divisor == 0 then 0 else dividend / divisor
    ensures downs <= ups <= 31 && |steps| <= 32
    ensures Descending(steps) && (forall i :: 0 <= i < |steps| ==> steps[i] <= ups)
    ensures quotient == Binary(steps)
  {
    hide Mul, Binary, Descending, Shifted, Pow2;
    NoSteps();
    Doubled(divisor, 0);
    quotient, ups, downs, steps := 0, 0, 0, [];
    var rest: word := dividend;
    var tempDivisor := divisor;
    var tempQuotient: word := 1;
    if divisor == 0 { return; }
    while tempDivisor < rest && tempDivisor < 0x8000_0000
      invariant tempDivisor == Shifted(divisor, ups) && tempQuotient == Pow2(ups) <= tempDivisor
      invariant ups <= 31
      decreases TWO_32 - tempDivisor
    {
      Pow2Bound(ups);
      Doubled(divisor, ups);
      ups := ups + 1;
      tempDivisor := Wrap(2 * tempDivisor);
      tempQuotient := Wrap(2 * tempQuotient);
    }
    ghost var e: nat := ups;
    MulGrows(0, divisor);
    while rest >= divisor
      invariant tempDivisor == Shifted(divisor, e) && tempQuotient == Pow2(e)
      invariant e + downs == ups && rest < 2 * tempDivisor
      invariant dividend == Mul(quotient, divisor) + rest
      invariant quotient == Binary(steps) && Descending(steps)
      invariant forall i :: 0 <= i < |steps| ==> e <= steps[i] <= ups
      invariant steps != [] ==> rest < tempDivisor
      invariant |steps| <= downs + 1
    {
      while rest < tempDivisor
        invariant tempDivisor == Shifted(divisor, e) && tempQuotient == Pow2(e)
        invariant e + downs == ups && rest < 2 * tempDivisor
        invariant forall i :: 0 <= i < |steps| ==> e <= steps[i] <= ups
        invariant rest < tempDivisor || forall i :: 0 <= i < |steps| ==> e < steps[i]
        invariant |steps| <= downs + (if rest < tempDivisor then 1 else 0)
        decreases e
      {
        Doubled(divisor, e);
        e := e - 1;
        downs := downs + 1;
        tempDivisor := tempDivisor / 2;
        tempQuotient := tempQuotient / 2;
      }
      MulAdd(quotient, tempQuotient, divisor);
      ShiftedIsMul(divisor, e);
      MulGrows(quotient + tempQuotient, divisor);
      PushStep(steps, e);
      steps := steps + [e];
      rest := rest - tempDivisor;
      quotient := quotient + tempQuotient;
    }
    QuotientUnique(dividend, divisor, quotient, rest);
  }

  /** Division by repeated subtraction; it does not return for a zero divisor. */
  method SlowDivide(dividend: word, divisor: word) returns (quotient: word)
    requires divisor > 0
    ensures quotient == dividend / divisor
  {
    hide Mul;
    quotient := 0;
    var rest: word := dividend;
    MulGrows(0, divisor);
    while rest >= divisor
      invariant dividend == Mul(quotient, divisor) + rest
    {
      MulAdd(quotient, 1, divisor);
      MulGrows(quotient + 1, divisor);
      MulOne(divisor);
      rest := rest - divisor;
      quotient := quotient + 1;
    }
    QuotientUnique(dividend, divisor, quotient, rest);
  }

  lemma MulOne(d: nat)
    ensures Mul(1, d) == d
  {
  }

  /** (dividend + divisor - 1) / divisor + 1: one more than the ceiling. */
  function DivAbsoluteCeil(dividend: word, divisor: word): word
    requires divisor > 0
  {
    Wrap(Wrap(dividend + divisor - 1) / divisor + 1)
  }

  /** (dividend - 1) / divisor + 1. */
  function DivCeil(dividend: word, divisor: word): word
    requires divisor > 0
  {
    Wrap(Wrap(dividend - 1) / divisor + 1)
  }

  ghost predicate IsCeiling(n: nat, d: nat, r: nat) {
    n <= Mul(r, d) && (r > 0 ==> Mul(r - 1, d) < n)
  }

  lemma CeilingAfter(n: nat, d: nat, q: nat)
    requires n > 0 && Mul(q, d) < n <= Mul(q, d) + d
    ensures IsCeiling(n, d, q + 1)
  {
    hide Mul;
    MulAdd(q, 1, d);
    MulOne(d);
  }

  lemma DivCeilValue(n: word, d: word)
    requires d > 0 && n > 0
    ensures DivCeil(n, d) == (n - 1) / d + 1
  {
    hide Wrap;
    WrapSmall(n - 1);
    QuotientAtMost(n - 1, d);
    WrapSmall((n - 1) / d + 1);
  }

  lemma QuotientAtMost(n: nat, d: nat)
    requires d > 0
    ensures n / d <= n
  {
    hide Mul;
    QuotientBounds(n, d);
    MulGrows(n / d, d);
  }

  lemma DivCeilPositive(n: word, d: word)
    requires d > 0 && n > 0
    ensures IsCeiling(n, d, DivCeil(n, d))
  {
    hide Mul, DivCeil, IsCeiling;
    DivCeilValue(n, d);
    QuotientBounds(n - 1, d);
    CeilingAfter(n, d, (n - 1) / d);
  }

  lemma DivCeilOfZero(d: word)
    requires d > 0
    ensures DivCeil(0, d) == 0 <==> d == 1
  {
    var q := (TWO_32 - 1) / d;
    if d >= 2 { QuotientShrinks(TWO_32 - 1, d); }
    assert DivCeil(0, d) == Wrap(q + 1);
  }

  /** DivCeil is the ceiling, but not of 0, where the subtraction wraps. */
  lemma DivCeilIsCeiling(n: word, d: word)
    requires d > 0
    ensures IsCeiling(n, d, DivCeil(n, d)) <==> n > 0 || d == 1
  {
    hide DivCeil;
    if n > 0 {
      DivCeilPositive(n, d);
    } else {
      DivCeilOfZero(d);
    }
  }

  lemma QuotientShrinks(n: nat, d: nat)
    requires d >= 2
    ensures n / d <= n / 2
  {
    hide Mul;
    QuotientBounds(n, d);
    var q := n / d;
    MulAtLeastDouble(q, d);
  }

  lemma MulAtLeastDouble(q: nat, d: nat)
    requires d >= 2
    ensures 2 * q <= Mul(q, d)
  {
  }

  function Modulo(dividend: word, divisor: word): word
    requires divisor > 0
  {
    Wrap(dividend - Wrap(divisor * (dividend / divisor)))
  }

  /** The remainder by multiplication never wraps. */
  lemma ModuloIsRemainder(n: word, d: word)
    requires d > 0
    ensures Modulo(n, d) == n % d
  {
    var p := d * (n / d);
    assert p == n - n % d;
  }

  function AlignUp(n: word, a: word): word
    requires a > 0
  {
    if n % a == 0 then n else Wrap(n + (a - n % a))
  }

  function AlignDown(n: word, a: word): word
    requires a > 0
  {
    n - n % a
  }

  /**
   AlignUp gives the least multiple of a that is no less than n, exactly when a 32-bit word
   can hold it.
   */
  lemma AlignUpLeast(n: word, a: word)
    requires a > 0
    ensures n <= AlignUp(n, a) <==> n % a == 0 || AlignDown(n, a) + a < TWO_32
    ensures n <= AlignUp(n, a) ==> AlignUp(n, a) % a == 0 && AlignUp(n, a) < n + a
    ensures n > AlignUp(n, a) ==> AlignUp(n, a) == AlignDown(n, a) + a - TWO_32
  {
    if n % a != 0 {
      var m := n - n % a;
      NextMultiple(n, a);
    }
  }

  /** AlignDown gives the greatest multiple of a that is no more than n. */
  lemma AlignDownGreatest(n: word, a: word)
    requires a > 0
    ensures AlignDown(n, a) <= n < AlignDown(n, a) + a && AlignDown(n, a) % a == 0
  {
    var q := n / a;
    assert n - n % a == q * a;
    MultipleOf(q, a);
  }

  lemma NextMultiple(n: nat, a: nat)
    requires a > 0
    ensures (n - n % a + a) % a == 0
  {
    var q := n / a;
    assert n - n % a + a == (q + 1) * a;
    MultipleOf(q + 1, a);
  }

  lemma MultipleOf(q: nat, a: nat)
    requires a > 0
    ensures (q * a) % a == 0
  {
    var n := q * a;
    QuotientUnique(n, a, q, 0);
  }
}
