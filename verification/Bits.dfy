/** Bitwise operations on unbounded natural numbers, by their bits. */
module Bits {
  import opened Arith

  /** Bit i of x: x >> i & 1. */
  function Bit(x: nat, i: nat): bool {
    if i == 0 then x % 2 == 1 else Bit(x / 2, i - 1)
  }

  function Xor(x: nat, y: nat): nat
    decreases x + y
  {
    if x == 0 && y == 0 then 0 else (if x % 2 != y % 2 then 1 else 0) + 2 * Xor(x / 2, y / 2)
  }

  function And(x: nat, y: nat): nat {
    if x == 0 then 0 else (if x % 2 == 1 && y % 2 == 1 then 1 else 0) + 2 * And(x / 2, y / 2)
  }

  /** x & ~y */
  function AndNot(x: nat, y: nat): nat {
    if x == 0 then 0 else (if x % 2 == 1 && y % 2 == 0 then 1 else 0) + 2 * AndNot(x / 2, y / 2)
  }

  lemma {:induction false} BitOfZero(i: nat)
    ensures !Bit(0, i)
  {
    if i > 0 { BitOfZero(i - 1); }
  }

  lemma {:induction false} BitOfXor(x: nat, y: nat, i: nat)
    ensures Bit(Xor(x, y), i) <==> Bit(x, i) != Bit(y, i)
    decreases i
  {
    if x == 0 && y == 0 {
      BitOfZero(i);
    } else {
      var low := if x % 2 != y % 2 then 1 else 0;
      assert Xor(x, y) % 2 == low && Xor(x, y) / 2 == Xor(x / 2, y / 2);
      if i > 0 { BitOfXor(x / 2, y / 2, i - 1); }
    }
  }

  lemma {:induction false} BitOfAnd(x: nat, y: nat, i: nat)
    ensures Bit(And(x, y), i) <==> Bit(x, i) && Bit(y, i)
    decreases i
  {
    if x == 0 {
      BitOfZero(i);
    } else {
      assert And(x, y) / 2 == And(x / 2, y / 2);
      if i > 0 { BitOfAnd(x / 2, y / 2, i - 1); }
    }
  }

  lemma {:induction false} BitOfAndNot(x: nat, y: nat, i: nat)
    ensures Bit(AndNot(x, y), i) <==> Bit(x, i) && !Bit(y, i)
    decreases i
  {
    if x == 0 {
      BitOfZero(i);
    } else {
      assert AndNot(x, y) / 2 == AndNot(x / 2, y / 2);
      if i > 0 { BitOfAndNot(x / 2, y / 2, i - 1); }
    }
  }

  function Power(k: nat): nat { if k == 0 then 1 else 2 * Power(k - 1) }

  /** Bit i of x is bit 0 of x shifted right by i. */
  lemma {:induction false} BitIs(x: nat, i: nat)
    ensures Power(i) > 0 && (Bit(x, i) <==> x / Power(i) % 2 == 1)
  {
    if i > 0 {
      BitIs(x / 2, i - 1);
      HalfThenShift(x, Power(i - 1));
    }
  }

  lemma HalfThenShift(x: nat, p: nat)
    requires p > 0
    ensures x / 2 / p == x / (2 * p)
  {
    var h := x / 2;
    var q := h / p;
    assert h == q * p + h % p && x == 2 * h + x % 2;
    DivUnique(x, 2 * p, q, 2 * (h % p) + x % 2);
  }

  lemma {:induction false} PowerIsPositive(k: nat)
    ensures Power(k) > 0
  {
    if k > 0 { PowerIsPositive(k - 1); }
  }

  lemma BitStep(x: nat, i: nat)
    requires i > 0
    ensures Bit(x, i) == Bit(x / 2, i - 1)
  {
  }

  /** x >> k */
  function Shift(x: nat, k: nat): nat { if k == 0 then x else Shift(x / 2, k - 1) }

  /** The bits of a number shifted right ... */
  lemma {:induction false} BitOfShift(x: nat, k: nat, i: nat)
    ensures Bit(Shift(x, k), i) == Bit(x, k + i)
  {
    hide Bit;
    if k > 0 {
      BitOfShift(x / 2, k - 1, i);
      BitStep(x, k + i);
    }
  }

  lemma {:induction false} ShiftIs(x: nat, k: nat, p: nat)
    requires p == Power(k)
    ensures p > 0 && Shift(x, k) == x / p
  {
    PowerIsPositive(k);
    if k > 0 {
      PowerIsPositive(k - 1);
      ShiftIs(x / 2, k - 1, Power(k - 1));
      HalfThenShift(x, Power(k - 1));
    }
  }

  /** ... and of its low part. */
  lemma {:induction false} BitOfLow(x: nat, k: nat, i: nat)
    requires i < k
    ensures Power(k) > 0 && Bit(x % Power(k), i) == Bit(x, i)
  {
    PowerIsPositive(k - 1);
    LowHalf(x, Power(k - 1));
    if i > 0 { BitOfLow(x / 2, k - 1, i - 1); }
  }

  lemma LowHalf(x: nat, p: nat)
    requires p > 0
    ensures x % (2 * p) % 2 == x % 2 && x % (2 * p) / 2 == x / 2 % p
  {
    var q, low := x / (2 * p), x % (2 * p);
    assert x == q * (2 * p) + low && q * (2 * p) == 2 * (q * p);
    DivUnique(x, 2, q * p + low / 2, low % 2);
    DivUnique(x / 2, p, q, low / 2);
  }

  /** Numbers with the same bits are equal. */
  lemma {:induction false} SameBits(x: nat, y: nat)
    requires forall i: nat :: Bit(x, i) == Bit(y, i)
    ensures x == y
    decreases x + y
  {
    if x > 0 || y > 0 {
      forall i: nat ensures Bit(x / 2, i) == Bit(y / 2, i) {
        assert Bit(x, i + 1) == Bit(y, i + 1);
      }
      assert Bit(x, 0) == Bit(y, 0);
      SameBits(x / 2, y / 2);
    }
  }
}
