/** Unsigned words as natural numbers, and their bits: what the radix sort needs to know
    about the key, the key mask and the test mask. */
module Radix {

  import opened Numbers
  import opened Powers

  /** The operator & of C++ on unsigned words. */
  function And(x: nat, y: nat): nat {
    if x == 0 || y == 0 then 0 else 2 * And(x / 2, y / 2) + (x % 2) * (y % 2)
  }

  predicate Bit(x: nat, b: nat) {
    if b == 0 then x % 2 == 1 else Bit(x / 2, b - 1)
  }

  lemma {:induction false} NoBits(b: nat)
    ensures !Bit(0, b)
  {
    if b > 0 { NoBits(b - 1); }
  }

  /** Bit b of a number, from its quotient. */
  lemma {:induction false} BitIs(x: nat, b: nat)
    ensures Bit(x, b) <==> Quotient(x, Pow2(b)) % 2 == 1
  {
    if b > 0 {
      BitIs(x / 2, b - 1);
      HalvedFirst(x, Pow2(b - 1));
    }
  }

  lemma HalvedFirst(x: nat, n: nat)
    requires n > 0
    ensures Quotient(x / 2, n) == Quotient(x, 2 * n)
  {
    var h := x / 2;
    var q, r := h / n, h % n;
    assert h == n * q + r && 2 * (n * q) == 2 * n * q;
    DivisionIs(x, q, 2 * r + x % 2, 2 * n);
  }

  /** The bits of x & y are those that both have. */
  lemma {:induction false} AndIsBitwise(x: nat, y: nat, b: nat)
    ensures Bit(And(x, y), b) <==> Bit(x, b) && Bit(y, b)
  {
    if x == 0 || y == 0 {
      NoBits(b);
    } else {
      assert And(x, y) % 2 == (x % 2) * (y % 2) && And(x, y) / 2 == And(x / 2, y / 2);
      if b > 0 { AndIsBitwise(x / 2, y / 2, b - 1); }
    }
  }

  /** Testing with a mask of one bit. */
  lemma {:induction false} AndOneBit(x: nat, b: nat)
    ensures And(x, Pow2(b)) != 0 <==> Bit(x, b)
  {
    if x == 0 {
      NoBits(b);
    } else if b > 0 {
      AndOneBit(x / 2, b - 1);
    }
  }

  /** x and y have the same masked bits from b on. */
  ghost predicate AgreeFrom(mask: nat, b: nat, x: nat, y: nat) {
    forall c: nat :: b <= c && Bit(mask, c) ==> Bit(x, c) == Bit(y, c)
  }

  lemma AgreeHalf(mask: nat, b: nat, x: nat, y: nat)
    requires AgreeFrom(mask, b, x, y)
    ensures AgreeFrom(mask / 2, if b == 0 then 0 else b - 1, x / 2, y / 2)
  {
    forall c: nat | b <= c + 1 && Bit(mask / 2, c)
      ensures Bit(x / 2, c) == Bit(y / 2, c)
    {
      assert Bit(mask, c + 1) && Bit(x, c + 1) == Bit(x / 2, c) && Bit(y, c + 1) == Bit(y / 2, c);
    }
  }

  lemma {:induction false} AgreeOnAll(mask: nat, x: nat, y: nat)
    requires AgreeFrom(mask, 0, x, y)
    ensures And(x, mask) == And(y, mask)
    decreases mask
  {
    if mask > 0 {
      AgreeHalf(mask, 0, x, y);
      AgreeOnAll(mask / 2, x / 2, y / 2);
      AndUnfolds(x, mask);
      AndUnfolds(y, mask);
      assert Bit(mask, 0) ==> Bit(x, 0) == Bit(y, 0);
    }
  }

  lemma AndUnfolds(x: nat, y: nat)
    ensures And(x, y) == 2 * And(x / 2, y / 2) + (x % 2) * (y % 2)
  {
  }

  /** The highest masked bit in which two words differ decides their order. */
  lemma {:induction false} HighestBitDecides(mask: nat, b: nat, x: nat, y: nat)
    requires Bit(mask, b) && AgreeFrom(mask, b + 1, x, y)
    requires !Bit(x, b) && Bit(y, b)
    ensures And(x, mask) < And(y, mask)
    decreases b
  {
    AgreeHalf(mask, b + 1, x, y);
    AndUnfolds(x, mask);
    AndUnfolds(y, mask);
    if b == 0 {
      AgreeOnAll(mask / 2, x / 2, y / 2);
    } else {
      HighestBitDecides(mask / 2, b - 1, x / 2, y / 2);
    }
  }

  lemma {:induction false} NoBitsAbove(x: nat, k: nat, b: nat)
    requires x < Pow2(k) && k <= b
    ensures !Bit(x, b)
  {
    if k > 0 {
      NoBitsAbove(x / 2, k - 1, b - 1);
    } else {
      NoBits(b);
    }
  }

  /** Words below 2^k have no bits to differ in from k on. */
  lemma AgreeAboveWidth(mask: nat, k: nat, x: nat, y: nat)
    requires mask < Pow2(k)
    ensures AgreeFrom(mask, k, x, y)
  {
    forall c: nat | k <= c
      ensures !Bit(mask, c)
    {
      NoBitsAbove(mask, k, c);
    }
  }
}
