/**
 * Bitwise operations on natural numbers, defined digit by digit, and what they amount to in the
 * arithmetic of powers of two.
 */
module BitOps {
  function Pow2(k: nat): (r: nat)
    ensures r > 0
  {
    if k == 0 then 1 else 2 * Pow2(k - 1)
  }

  function And(a: nat, b: nat): nat {
    if a == 0 && b == 0 then 0
    else (if a % 2 == 1 && b % 2 == 1 then 1 else 0) + 2 * And(a / 2, b / 2)
  }

  function Or(a: nat, b: nat): nat
    decreases a + b
  {
    if a == 0 && b == 0 then 0
    else (if a % 2 == 1 || b % 2 == 1 then 1 else 0) + 2 * Or(a / 2, b / 2)
  }

  function Xor(a: nat, b: nat): nat
    decreases a + b
  {
    if a == 0 && b == 0 then 0
    else (if a % 2 != b % 2 then 1 else 0) + 2 * Xor(a / 2, b / 2)
  }

  function ShiftRight(a: nat, k: nat): nat {
    if k == 0 then a else ShiftRight(a / 2, k - 1)
  }

  function ShiftLeft(a: nat, k: nat): nat
    decreases k
  {
    if k == 0 then a else ShiftLeft(2 * a, k - 1)
  }

  predicate Bit(a: nat, k: nat) {
    if k == 0 then a % 2 == 1 else Bit(a / 2, k - 1)
  }

  /** The position of the highest one. */
  function Log2(a: nat): nat
    requires a > 0
  {
    if a < 2 then 0 else 1 + Log2(a / 2)
  }

  // ---------------------------------------------------------------- single bits

  lemma {:induction false} BitOfZero(k: nat)
    ensures !Bit(0, k)
  {
    if k > 0 { BitOfZero(k - 1); }
  }

  lemma {:induction false} AndBit(a: nat, b: nat, k: nat)
    ensures Bit(And(a, b), k) <==> Bit(a, k) && Bit(b, k)
  {
    BitOfZero(k);
    if k > 0 && !(a == 0 && b == 0) { AndBit(a / 2, b / 2, k - 1); }
  }

  lemma {:induction false} TopIsSet(a: nat)
    requires a > 0
    ensures Bit(a, Log2(a))
  {
    if a >= 2 { TopIsSet(a / 2); }
  }

  lemma {:induction false} NothingAboveTop(a: nat, k: nat)
    requires a > 0 && Bit(a, k)
    ensures k <= Log2(a)
  {
    if k > 0 {
      if a < 2 { BitOfZero(k - 1); } else { NothingAboveTop(a / 2, k - 1); }
    }
  }

  lemma {:induction false} Log2Unique(a: nat, k: nat)
    requires Pow2(k) <= a < 2 * Pow2(k)
    ensures Log2(a) == k
  {
    if k > 0 { Log2Unique(a / 2, k - 1); }
  }

  lemma {:induction false} Log2Bounds(a: nat)
    requires a > 0
    ensures Pow2(Log2(a)) <= a < 2 * Pow2(Log2(a))
  {
    if a >= 2 { Log2Bounds(a / 2); }
  }

  lemma {:induction false} Log2Monotone(a: nat, b: nat)
    requires 0 < a <= b
    ensures Log2(a) <= Log2(b)
  {
    if a >= 2 { Log2Monotone(a / 2, b / 2); }
  }

  // ---------------------------------------------------------------- masks and shifts

  lemma {:induction false} AndZero(a: nat)
    ensures And(a, 0) == 0
  {
    if a != 0 { AndZero(a / 2); }
  }

  /** Masking with shifted ones masks the shifted number. */
  lemma {:induction false} AndShifted(a: nat, m: nat, k: nat)
    ensures And(a, ShiftLeft(m, k)) == ShiftLeft(And(ShiftRight(a, k), m), k)
  {
    if k > 0 {
      ShiftLeftOut(m, k - 1);
      ShiftLeftOut(And(ShiftRight(a, k), m), k - 1);
      AndShifted(a / 2, m, k - 1);
    }
  }

  lemma {:induction false} ShiftLeftOut(a: nat, k: nat)
    ensures ShiftLeft(2 * a, k) == 2 * ShiftLeft(a, k)
    decreases k
  {
    if k > 0 { ShiftLeftOut(2 * a, k - 1); }
  }

  lemma {:induction false} ShiftBack(a: nat, k: nat)
    ensures ShiftRight(ShiftLeft(a, k), k) == a
  {
    if k > 0 { ShiftLeftOut(a, k - 1); ShiftBack(a, k - 1); }
  }

  lemma {:induction false} OrDisjoint(h: nat, q: nat, k: nat)
    requires q < Pow2(k)
    ensures Or(ShiftLeft(h, k), q) == ShiftLeft(h, k) + q
  {
    if k > 0 {
      ShiftLeftOut(h, k - 1);
      OrDisjoint(h, q / 2, k - 1);
    } else {
      OrZero(h);
    }
  }

  lemma {:induction false} OrBit(a: nat, b: nat, k: nat)
    ensures Bit(Or(a, b), k) <==> Bit(a, k) || Bit(b, k)
  {
    BitOfZero(k);
    if k > 0 && !(a == 0 && b == 0) { OrBit(a / 2, b / 2, k - 1); }
  }

  lemma {:induction false} OrBelow(a: nat, b: nat, k: nat)
    requires a < Pow2(k) && b < Pow2(k)
    ensures Or(a, b) < Pow2(k)
  {
    if k > 0 { OrBelow(a / 2, b / 2, k - 1); }
  }

  lemma {:induction false} OrZero(a: nat)
    ensures Or(a, 0) == a
  {
    if a != 0 { OrZero(a / 2); }
  }

  /** A number below 2^k or-ed with its k ones becomes those ones; one above keeps its height. */
  lemma {:induction false} Log2OfOrOnes(a: nat, k: nat)
    ensures Or(a, Pow2(k) - 1) > 0 || k == a == 0
    ensures k > 0 ==> Log2(Or(a, Pow2(k) - 1)) == if a < Pow2(k) then k - 1 else Log2(a)
  {
    if k == 0 {
      OrZero(a);
    } else if k == 1 {
      OrZero(a / 2);
    } else {
      var half := Pow2(k - 1);
      Log2OfOrOnes(a / 2, k - 1);
      assert (2 * half - 1) / 2 == half - 1;
    }
  }

  lemma Quotient(a: nat, d: nat, q: nat, r: nat)
    requires r < d && a == d * q + r
    ensures a / d == q
  {
    var k := a / d - q;
    assert d * k == r - a % d;
    assert k >= 1 ==> d * k >= d;
    assert k <= -1 ==> d * k <= -1 * d;
  }

  /** Halving first and dividing then is dividing by the double. */
  lemma DivideTwice(a: nat, d: nat)
    requires d > 0
    ensures a / (2 * d) == a / 2 / d
    ensures a % (2 * d) == 2 * (a / 2 % d) + a % 2
  {
    var q, r := a / 2 / d, a / 2 % d;
    assert a / 2 == d * q + r;
    DoubledProduct(d, q);
    Quotient(a, 2 * d, q, 2 * r + a % 2);
  }

  lemma DoubledProduct(d: nat, q: int)
    ensures 2 * d * q == 2 * (d * q)
  {
  }

  lemma {:induction false} ShiftRightDivides(a: nat, k: nat)
    ensures ShiftRight(a, k) == a / Pow2(k)
  {
    if k > 0 {
      ShiftRightDivides(a / 2, k - 1);
      DivideTwice(a, Pow2(k - 1));
    }
  }

  lemma {:induction false} ShiftLeftMultiplies(a: nat, k: nat)
    ensures ShiftLeft(a, k) == Pow2(k) * a
    decreases k
  {
    if k > 0 { ShiftLeftMultiplies(2 * a, k - 1); }
  }

  lemma {:induction false} AndOnes(a: nat, k: nat)
    ensures And(a, Pow2(k) - 1) == a % Pow2(k)
  {
    if k == 0 {
      AndZero(a);
    } else {
      DivideTwice(a, Pow2(k - 1));
      AndOnes(a / 2, k - 1);
      assert (2 * Pow2(k - 1) - 1) / 2 == Pow2(k - 1) - 1;
    }
  }

  lemma {:induction false} OrAtMostSum(a: nat, b: nat)
    ensures Or(a, b) <= a + b
    decreases a + b
  {
    if a + b > 0 { OrAtMostSum(a / 2, b / 2); }
  }

  // ---------------------------------------------------------------- exclusive or

  lemma {:induction false} XorOnes(a: nat, k: nat)
    requires a < Pow2(k)
    ensures Xor(a, Pow2(k) - 1) == Pow2(k) - 1 - a
  {
    if k > 0 {
      assert (2 * Pow2(k - 1) - 1) / 2 == Pow2(k - 1) - 1;
      XorOnes(a / 2, k - 1);
    }
  }

  lemma {:induction false} XorZero(a: nat)
    ensures Xor(a, 0) == a
  {
    if a != 0 { XorZero(a / 2); }
  }

  lemma {:induction false} XorBit(a: nat, b: nat, k: nat)
    ensures Bit(Xor(a, b), k) <==> Bit(a, k) != Bit(b, k)
  {
    BitOfZero(k);
    if k > 0 && !(a == 0 && b == 0) { XorBit(a / 2, b / 2, k - 1); }
  }

  lemma {:induction false} XorSelf(m: nat)
    ensures Xor(m, m) == 0
  {
    if m != 0 { XorSelf(m / 2); }
  }

  lemma {:induction false} XorAssociative(a: nat, b: nat, c: nat)
    ensures Xor(Xor(a, b), c) == Xor(a, Xor(b, c))
    decreases a + b + c
  {
    if a + b + c > 0 { XorAssociative(a / 2, b / 2, c / 2); }
  }

  lemma {:induction false} XorCommutes(a: nat, b: nat)
    ensures Xor(a, b) == Xor(b, a)
    decreases a + b
  {
    if a + b > 0 { XorCommutes(a / 2, b / 2); }
  }

  lemma {:induction false} XorPowerAbove(a: nat, k: nat)
    requires a < Pow2(k)
    ensures Xor(a, Pow2(k)) == a + Pow2(k)
  {
    if k > 0 {
      var p := Pow2(k - 1);
      assert 2 * p / 2 == p && 2 * p % 2 == 0;
      XorPowerAbove(a / 2, k - 1);
    }
  }

  lemma {:induction false} XorBelow(a: nat, b: nat, k: nat)
    requires a < Pow2(k) && b < Pow2(k)
    ensures Xor(a, b) < Pow2(k)
  {
    if k > 0 { XorBelow(a / 2, b / 2, k - 1); }
  }
}
