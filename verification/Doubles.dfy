/** Which decimal numbers fit a double of IEEE 754 (binary64).  std::stod, which
    src/c7json/lexer.cpp calls, throws where strtod sets ERANGE: here as glibc does it on
    x86-64 when rounding to nearest. */
module Doubles {
  import opened Powers

  function Pow10(k: nat): (r: nat)
    ensures r > 0
  {
    if k == 0 then 1 else 10 * Pow10(k - 1)
  }

  /** 2^1024 - 2^970, from which on a number is nearer to 2^1024 than to the greatest double,
      2^1024 - 2^971. */
  function Limit(): nat {
    (Pow2(54) - 1) * Pow2(970)
  }

  /** m * 10^e is rounded to more than the greatest double. */
  predicate Overflows(m: nat, e: int) {
    if e >= 0 then m * Pow10(e) >= Limit() else m >= Limit() * Pow10(-e)
  }

  /** m * 10^e is too small to be rounded to a normal double, 2^-1022 or more, and no multiple of
      the least double, 2^-1074. */
  predicate Underflows(m: nat, e: int) {
    && e < 0
    && m * Pow2(1076) < (Pow2(54) - 1) * Pow10(-e)
    && m * Pow2(1074) % Pow10(-e) != 0
  }

  predicate InRange(m: nat, e: int) {
    !Overflows(m, e) && !Underflows(m, e)
  }

  lemma {:induction false} Pow2Monotone(a: nat, b: nat)
    requires a <= b
    ensures Pow2(a) <= Pow2(b)
    decreases b - a
  {
    if a < b { Pow2Monotone(a, b - 1); }
  }

  /** 8^k <= 10^k <= 16^k. */
  lemma {:induction false} Pow10Between(k: nat)
    ensures Pow2(3 * k) <= Pow10(k) <= Pow2(4 * k)
  {
    if k > 0 {
      Pow10Between(k - 1);
      assert Pow2(3 * k) == 2 * Pow2(3 * k - 1) == 4 * Pow2(3 * k - 2) == 8 * Pow2(3 * (k - 1));
      assert Pow2(4 * k) == 2 * Pow2(4 * k - 1) == 4 * Pow2(4 * k - 2) == 8 * Pow2(4 * k - 3) == 16 * Pow2(4 * (k - 1));
    }
  }

  lemma ProductMonotone(a: nat, b: nat, c: nat, d: nat)
    requires a <= b && c <= d
    ensures a * c <= b * d
  {
    assert a * c <= b * c;
    assert b * c <= b * d;
  }

  lemma LimitBetween()
    ensures Pow2(1023) <= Limit() <= Pow2(1024)
  {
    hide Pow2;
    Pow2Add(53, 970);
    Pow2Add(54, 970);
    PowersDouble(53);
    ProductMonotone(Pow2(53), Pow2(54) - 1, Pow2(970), Pow2(970));
    ProductMonotone(Pow2(54) - 1, Pow2(54), Pow2(970), Pow2(970));
  }

  lemma PowersDouble(k: nat)
    ensures Pow2(k + 1) == 2 * Pow2(k)
  {
  }

  /** Zero, and what has up to 18 digits and a modest exponent, is in range. */
  lemma ModestIsInRange(m: nat, e: int)
    requires m == 0 || (m < 0x8000_0000_0000_0000 && -240 <= e <= 240)
    ensures InRange(m, e)
  {
    hide Overflows, Underflows;
    if m == 0 {
      ZeroFits(e);
    } else {
      NoOverflow(m, e);
      NoUnderflow(m, e);
    }
  }

  lemma ZeroFits(e: int)
    ensures !Overflows(0, e) && !Underflows(0, e)
  {
    hide Pow2, Pow10, Limit;
    LimitBetween();
    if e < 0 { ProductMonotone(1, Limit(), 1, Pow10(-e)); }
  }

  lemma NoOverflow(m: nat, e: int)
    requires 0 < m < 0x8000_0000_0000_0000 && e <= 240
    ensures !Overflows(m, e)
  {
    hide Pow2, Pow10, Limit;
    LimitBetween();
    Pow2Of63();
    if e >= 0 {
      Pow10Between(e);
      Pow2Monotone(4 * e, 960);
      Pow2Add(63, 960);
      ProductMonotone(m, Pow2(63) - 1, Pow10(e), Pow2(960));
      assert (Pow2(63) - 1) * Pow2(960) == Pow2(63) * Pow2(960) - Pow2(960);
    } else {
      Pow2Monotone(63, 1023);
      ProductMonotone(Limit(), Limit(), 1, Pow10(-e));
    }
  }

  lemma NoUnderflow(m: nat, e: int)
    requires m > 0 && e >= -240
    ensures !Underflows(m, e)
  {
    hide Pow2, Pow10;
    if e < 0 {
      Pow10Between(-e);
      Pow2Monotone(4 * -e, 960);
      Pow2Add(54, 960);
      Pow2Monotone(54 + 960, 1076);
      ProductMonotone(Pow2(54) - 1, Pow2(54), Pow10(-e), Pow2(960));
      ProductMonotone(1, m, Pow2(1076), Pow2(1076));
    }
  }

  /** Whatever is not zero overflows with an exponent of 342 or more. */
  lemma HugeOverflows(m: nat, e: int)
    requires m > 0 && e >= 342
    ensures Overflows(m, e)
  {
    hide Pow2, Pow10, Limit;
    LimitBetween();
    Pow10Between(e);
    Pow2Monotone(1024, 3 * e);
    ProductMonotone(1, m, Pow10(e), Pow10(e));
  }
}
