/** The bit operators of C on non-negative integers, and what they compute on masks;
    `1 << p` is `Pow2(p)`. */
module Bits {

  function Pow2(p: nat): (r: nat)
    ensures r >= 1
  {
    if p == 0 then 1 else 2 * Pow2(p - 1)
  }

  function And(a: nat, b: nat): nat {
    if a == 0 || b == 0 then 0 else 2 * And(a / 2, b / 2) + (if a % 2 == 1 && b % 2 == 1 then 1 else 0)
  }

  function Or(a: nat, b: nat): nat {
    if a == 0 then b else if b == 0 then a
    else 2 * Or(a / 2, b / 2) + (if a % 2 == 1 || b % 2 == 1 then 1 else 0)
  }

  function Xor(a: nat, b: nat): nat {
    if a == 0 then b else if b == 0 then a
    else 2 * Xor(a / 2, b / 2) + (if a % 2 != b % 2 then 1 else 0)
  }

  // Bit `i` of a number.
  predicate Bit(a: nat, i: nat)
    decreases i
  {
    if i == 0 then a % 2 == 1 else Bit(a / 2, i - 1)
  }

  /** Exclusive or, bit by bit. */
  lemma {:induction false} XorBit(a: nat, b: nat, i: nat)
    ensures Bit(Xor(a, b), i) <==> Bit(a, i) != Bit(b, i)
    decreases i
  {
    if a == 0 || b == 0 {
      NoBit(i);
    } else if i > 0 {
      XorBit(a / 2, b / 2, i - 1);
    }
  }

  lemma {:induction false} NoBit(i: nat)
    ensures !Bit(0, i)
  {
    if i > 0 {
      NoBit(i - 1);
    }
  }

  // `a >> s`.
  function Down(a: nat, s: nat): nat
    decreases s
  {
    if s == 0 then a else Down(a / 2, s - 1)
  }

  /** Shifting down moves the bits. */
  lemma {:induction false} ShiftBit(a: nat, s: nat, i: nat)
    ensures Bit(Down(a, s), i) == Bit(a, i + s)
    decreases s
  {
    if s > 0 {
      ShiftBit(a / 2, s - 1, i);
    }
  }

  lemma {:induction false} DownTwice(a: nat, s: nat, t: nat)
    ensures Down(Down(a, s), t) == Down(a, s + t)
    decreases s
  {
    if s > 0 {
      DownTwice(a / 2, s - 1, t);
    }
  }

  lemma {:induction false} MulAtLeast(m: nat, d: nat)
    requires d > 0
    ensures m * d >= m
  {
    if d > 1 {
      MulAtLeast(m, d - 1);
      assert m * d == m * (d - 1) + m;
    }
  }

  lemma MulFar(m: int, d: int)
    requires m >= 0
    ensures d > 0 ==> m * d >= m
    ensures d < 0 ==> m * d <= -m
  {
    if d > 0 {
      MulAtLeast(m, d);
    } else if d < 0 {
      MulAtLeast(m, -d);
      assert m * -d == -(m * d);
    }
  }

  // Division is unique.
  lemma ModIs(a: nat, m: nat, q: nat, r: nat)
    requires r < m && a == m * q + r
    ensures a / m == q && a % m == r
  {
    var d := a / m - q;
    assert a == m * (a / m) + a % m;
    assert m * d == r - a % m by {
      assert m * d == m * (a / m) - m * q;
    }
    MulFar(m, d);
  }

  lemma ModDouble(a: nat, k: nat)
    requires k > 0
    ensures a % (2 * k) == 2 * ((a / 2) % k) + a % 2
  {
    var h := a / 2;
    assert h == k * (h / k) + h % k;
    assert 2 * k * (h / k) == 2 * (k * (h / k));
    ModIs(a, 2 * k, h / k, 2 * (h % k) + a % 2);
  }

  lemma AndMaskStep(a: nat, k: nat)
    requires k > 0 && And(a / 2, k - 1) == (a / 2) % k
    ensures And(a, 2 * k - 1) == a % (2 * k)
  {
    assert (2 * k - 1) / 2 == k - 1 && (2 * k - 1) % 2 == 1;
    ModDouble(a, k);
  }

  /** Masking with 2^p - 1 is the remainder. */
  lemma {:induction false} AndMask(a: nat, p: nat)
    ensures And(a, Pow2(p) - 1) == a % Pow2(p)
    decreases p
  {
    if p > 0 {
      AndMask(a / 2, p - 1);
      AndMaskStep(a, Pow2(p - 1));
    }
  }

  /** Setting bit p of a multiple of 2^(p+1) adds 2^p. */
  lemma {:induction false} OrBit(a: nat, p: nat)
    requires a % Pow2(p + 1) == 0
    ensures Or(a, Pow2(p)) == a + Pow2(p)
    decreases p
  {
    ModDouble(a, Pow2(p));
    if p > 0 {
      assert Pow2(p) / 2 == Pow2(p - 1) && Pow2(p) % 2 == 0;
      OrBit(a / 2, p - 1);
    } else {
      assert a % 2 == 0;
      assert Or(a / 2, 0) == a / 2;
    }
  }

  // The lowest set bit.
  function LowBit(a: nat): (r: nat)
    requires a > 0
    ensures 0 < r <= a
  {
    if a % 2 == 1 then 1 else 2 * LowBit(a / 2)
  }

  function LowExp(a: nat): nat
    requires a > 0
  {
    if a % 2 == 1 then 0 else 1 + LowExp(a / 2)
  }

  // The lowest set bit of an even number is that of its half, doubled.
  lemma LowHalf(a: nat)
    requires a > 0 && a % 2 == 0
    ensures LowBit(a) == 2 * LowBit(a / 2) && LowExp(a) == LowExp(a / 2) + 1
    ensures (a - LowBit(a)) % 2 == 0 && (a - LowBit(a)) / 2 == a / 2 - LowBit(a / 2)
  {
  }

  // A number is a multiple of 2 * k if its half is one of k.
  lemma DoubleMultiple(x: nat, k: nat)
    requires k > 0 && x % 2 == 0 && (x / 2) % k == 0
    ensures x % (2 * k) == 0
  {
    ModDouble(x, k);
  }

  /** Clearing the lowest set bit, 2^e, leaves a multiple of 2^(e+1). */
  lemma {:induction false} ClearLowBit(a: nat)
    requires a > 0
    ensures LowBit(a) == Pow2(LowExp(a)) && (a - LowBit(a)) % Pow2(LowExp(a) + 1) == 0
  {
    if a % 2 == 0 {
      var e := LowExp(a / 2);
      ClearLowBit(a / 2);
      LowHalf(a);
      DoubleMultiple(a - LowBit(a), Pow2(e + 1));
      assert Pow2(e + 2) == 2 * Pow2(e + 1) && Pow2(e + 1) == 2 * Pow2(e);
    } else {
      assert Pow2(1) == 2 * Pow2(0);
    }
  }

  /** Adding 2^p to a multiple of 2^(p+1) makes it the lowest set bit. */
  lemma {:induction false} LowBitIs(a: nat, p: nat)
    requires a % Pow2(p + 1) == 0
    ensures LowBit(a + Pow2(p)) == Pow2(p) && LowExp(a + Pow2(p)) == p
    decreases p
  {
    ModDouble(a, Pow2(p));
    if p > 0 {
      LowBitIs(a / 2, p - 1);
    }
  }

  lemma {:induction false} Pow2Increases(p: nat, q: nat)
    requires p < q
    ensures Pow2(p) < Pow2(q)
  {
    if p + 1 < q {
      Pow2Increases(p, q - 1);
    }
  }
}
