/** Fixed-width arithmetic as the Go and C code performs it. */
module Machine {

  const TWO_32: int := 0x1_0000_0000
  const TWO_63: int := 0x8000_0000_0000_0000
  const TWO_64: int := 0x1_0000_0000_0000_0000

  /** Conversion to an unsigned 32-bit integer. */
  function ToUint32(x: int): nat { x % TWO_32 }

  /** Conversion to an unsigned 64-bit integer. */
  function ToUint64(x: int): nat { x % TWO_64 }

  /** Conversion to a signed 64-bit integer (two's complement). */
  function ToInt64(x: int): int {
    var u := x % TWO_64;
    if u < TWO_63 then u else u - TWO_64
  }

  /** Integer division by a positive divisor, truncating toward zero as Go and C do. */
  function TruncDiv(a: int, b: int): int
    requires b > 0
  {
    if a >= 0 then a / b else -((-a) / b)
  }

  /** Truncating division by any nonzero divisor. */
  function TruncDivAny(a: int, b: int): int
    requires b != 0
  {
    if b > 0 then TruncDiv(a, b) else -TruncDiv(a, -b)
  }

  /** The remainder that goes with truncating division: it has the sign of the dividend. */
  function TruncRem(a: int, b: int): (r: int)
    requires b != 0
    ensures (if r < 0 then -r else r) < (if b < 0 then -b else b)
  {
    var m := if b < 0 then -b else b;
    if a >= 0 then a % m else -((-a) % m)
  }

  lemma InRangeIsUnchanged(x: int)
    ensures 0 <= x < TWO_32 ==> ToUint32(x) == x
    ensures 0 <= x < TWO_64 ==> ToUint64(x) == x
    ensures -TWO_63 <= x < TWO_63 ==> ToInt64(x) == x
  {
  }

  /** A wrapping 32-bit counter counts modulo 2^32. */
  lemma CounterStep(n: nat, d: nat)
    ensures (n % TWO_32 + d) % TWO_32 == (n + d) % TWO_32
  {
  }

  lemma DivMonotonic(a: int, b: int, d: int)
    requires d > 0 && a <= b
    ensures a / d <= b / d
  {
    var q, q' := a / d, b / d;
    Quotient(a, d);
    Quotient(b, d);
    if q > q' {
      TimesMonotonic(d, q' + 1, q);
    }
  }

  lemma Quotient(a: int, d: int)
    requires d > 0
    ensures d * (a / d) <= a < d * (a / d + 1)
  {
  }

  lemma TimesMonotonic(d: int, x: int, y: int)
    requires d > 0 && x <= y
    ensures d * x <= d * y
  {
  }

  function Absolute(x: int): nat { if x < 0 then -x else x }

  lemma TruncatedShape(a: int, b: int)
    requires b != 0
    ensures var q, r := Absolute(a) / Absolute(b), Absolute(a) % Absolute(b);
            && TruncDivAny(a, b) == (if (a < 0) == (b < 0) then q else -q)
            && TruncRem(a, b) == (if a < 0 then -r else r)
  {
  }

  /** Truncating quotient and remainder belong together, and the remainder has the sign of the dividend. */
  lemma QuotientRemainder(a: int, b: int)
    requires b != 0
    ensures a == b * TruncDivAny(a, b) + TruncRem(a, b)
    ensures Absolute(TruncRem(a, b)) < Absolute(b)
    ensures a >= 0 ==> TruncRem(a, b) >= 0
    ensures a <= 0 ==> TruncRem(a, b) <= 0
  {
    TruncatedShape(a, b);
    hide TruncDivAny, TruncRem;
    DivisionWithRest(Absolute(a), Absolute(b));
    Recombine(a, b, Absolute(a) / Absolute(b), Absolute(a) % Absolute(b));
  }

  lemma Recombine(a: int, b: int, q: int, r: int)
    requires b != 0 && Absolute(a) == Absolute(b) * q + r && 0 <= r < Absolute(b)
    ensures a == b * (if (a < 0) == (b < 0) then q else -q) + (if a < 0 then -r else r)
  {
    Negate(Absolute(b), q);
  }

  lemma DivisionWithRest(n: int, m: int)
    requires n >= 0 && m > 0
    ensures n == m * (n / m) + n % m && 0 <= n % m < m
  {
  }

  lemma Negate(m: int, q: int)
    ensures (-m) * q == -(m * q) == m * (-q) && (-m) * (-q) == m * q
  {
  }
}
