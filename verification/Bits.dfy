/** Bitwise operators on natural numbers, defined bit by bit, and how they relate to arithmetic. */
module Bits {
  import opened Arithmetic

  function Pow2(n: nat): (p: nat)
    ensures p >= 1
  {
    if n == 0 then 1 else 2 * Pow2(n - 1)
  }

  function Xor(a: nat, b: nat): nat {
    if a == 0 && b == 0 then 0 else (a + b) % 2 + 2 * Xor(a / 2, b / 2)
  }

  function Or(a: nat, b: nat): nat {
    if a == 0 && b == 0 then 0 else (if a % 2 == 1 || b % 2 == 1 then 1 else 0) + 2 * Or(a / 2, b / 2)
  }

  /** The right shift by n places. */
  function Shr(a: nat, n: nat): nat {
    if n == 0 then a else Shr(a / 2, n - 1)
  }

  lemma {:induction false} XorDigits(a: nat, b: nat)
    ensures Xor(a, b) % 2 == (a + b) % 2
    ensures Xor(a, b) / 2 == Xor(a / 2, b / 2)
  {
    DigitsOf((a + b) % 2, Xor(a / 2, b / 2));
  }

  lemma {:induction false} OrDigits(a: nat, b: nat)
    ensures Or(a, b) % 2 == if a % 2 == 1 || b % 2 == 1 then 1 else 0
    ensures Or(a, b) / 2 == Or(a / 2, b / 2)
  {
    DigitsOf(if a % 2 == 1 || b % 2 == 1 then 1 else 0, Or(a / 2, b / 2));
  }

  lemma DigitsOf(d: nat, q: nat)
    requires d < 2
    ensures (d + 2 * q) % 2 == d && (d + 2 * q) / 2 == q
  {
  }

  lemma SameDigits(x: nat, y: nat)
    requires x % 2 == y % 2 && x / 2 == y / 2
    ensures x == y
  {
  }

  lemma {:induction false} XorTwice(a: nat, b: nat)
    ensures Xor(Xor(a, b), b) == a
  {
    hide Xor;
    if a == 0 && b == 0 {
      ZeroIsUnit(0);
    } else {
      XorTwice(a / 2, b / 2);
      XorDigits(a, b);
      XorDigits(Xor(a, b), b);
      Parity(Xor(a, b), a, b);
      SameDigits(Xor(Xor(a, b), b), a);
    }
  }

  lemma Parity(x: nat, a: nat, b: nat)
    requires x % 2 == (a + b) % 2
    ensures (x + b) % 2 == a % 2
  {
  }

  lemma {:induction false} XorCommutes(a: nat, b: nat)
    ensures Xor(a, b) == Xor(b, a)
  {
    hide Xor;
    if a == 0 && b == 0 {
    } else {
      XorCommutes(a / 2, b / 2);
      XorDigits(a, b);
      XorDigits(b, a);
      SameDigits(Xor(a, b), Xor(b, a));
    }
  }

  lemma XorCancel(a: nat, b: nat, c: nat)
    requires Xor(a, b) == Xor(a, c)
    ensures b == c
  {
    hide Xor;
    XorCommutes(a, b);
    XorCommutes(a, c);
    XorTwice(b, a);
    XorTwice(c, a);
  }

  lemma {:induction false} XorBound(a: nat, b: nat, n: nat)
    requires a < Pow2(n) && b < Pow2(n)
    ensures Xor(a, b) < Pow2(n)
  {
    if n == 0 {
    } else if a != 0 || b != 0 {
      XorBound(a / 2, b / 2, n - 1);
    }
  }

  /** Where the two operands have no bit in common, both operators add. */
  lemma {:induction false} DisjointBitsAdd(a: nat, b: nat, n: nat)
    requires b < Pow2(n)
    ensures Xor(a * Pow2(n), b) == a * Pow2(n) + b == Or(a * Pow2(n), b)
  {
    hide Xor, Or;
    if n == 0 {
      ZeroIsUnit(a);
    } else {
      var high := a * Pow2(n - 1);
      Regroup(Pow2(n - 1), a);
      assert a * Pow2(n) == 2 * high;
      DisjointBitsAdd(a, b / 2, n - 1);
      EvenPlus(high, b);
    }
  }

  lemma EvenPlus(high: nat, b: nat)
    requires Xor(high, b / 2) == high + b / 2 == Or(high, b / 2)
    ensures Xor(2 * high, b) == 2 * high + b == Or(2 * high, b)
  {
    hide Xor, Or;
    XorDigits(2 * high, b);
    OrDigits(2 * high, b);
    SameDigits(Xor(2 * high, b), 2 * high + b);
    SameDigits(Or(2 * high, b), 2 * high + b);
  }

  lemma {:induction false} ZeroIsUnit(a: nat)
    ensures Xor(a, 0) == a == Or(a, 0)
  {
    if a != 0 {
      ZeroIsUnit(a / 2);
    }
  }

  /** The exclusive-or of two numbers, cut at one place. */
  lemma {:induction false} XorSplits(a: nat, b: nat, c: nat, d: nat, n: nat)
    requires b < Pow2(n) && d < Pow2(n)
    ensures Xor(a * Pow2(n) + b, c * Pow2(n) + d) == Xor(a, c) * Pow2(n) + Xor(b, d)
  {
    hide Xor;
    if n == 0 {
      ZeroIsUnit(0);
    } else {
      var p := Pow2(n - 1);
      Regroup(p, a);
      Regroup(p, c);
      Regroup(p, Xor(a, c));
      XorSplits(a, b / 2, c, d / 2, n - 1);
      OneMoreDigit(a * p, b, c * p, d, Xor(a, c) * p);
    }
  }

  lemma OneMoreDigit(h: nat, b: nat, k: nat, d: nat, x: nat)
    requires Xor(h + b / 2, k + d / 2) == x + Xor(b / 2, d / 2)
    ensures Xor(2 * h + b, 2 * k + d) == 2 * x + Xor(b, d)
  {
    hide Xor;
    Halves(h, b);
    Halves(k, d);
    Halves(x, Xor(b, d));
    XorDigits(2 * h + b, 2 * k + d);
    XorDigits(b, d);
    SameDigits(Xor(2 * h + b, 2 * k + d), 2 * x + Xor(b, d));
  }

  lemma Halves(h: nat, b: nat)
    ensures (2 * h + b) / 2 == h + b / 2 && (2 * h + b) % 2 == b % 2
  {
  }

  lemma DivDiv(a: nat, p: nat)
    requires p > 0
    ensures a / 2 / p == a / (2 * p)
  {
    var q, r := a / 2 / p, a / 2 % p;
    assert a == 2 * (p * q + r) + a % 2;
    assert a == (2 * p) * q + (2 * r + a % 2);
    DivUnique(a, 2 * p, q, 2 * r + a % 2);
  }

  lemma {:induction false} ShrIsDiv(a: nat, n: nat)
    ensures Shr(a, n) == a / Pow2(n)
  {
    if n == 0 {
    } else {
      ShrIsDiv(a / 2, n - 1);
      DivDiv(a, Pow2(n - 1));
    }
  }

  lemma {:induction false} XorShiftsDown(a: nat, b: nat, n: nat)
    ensures Shr(Xor(a, b), n) == Xor(Shr(a, n), Shr(b, n))
  {
    if n == 0 {
    } else {
      XorDigits(a, b);
      XorShiftsDown(a / 2, b / 2, n - 1);
    }
  }

  lemma {:induction false} Pow2Adds(m: nat, n: nat)
    ensures Pow2(m + n) == Pow2(m) * Pow2(n)
  {
    if m != 0 {
      Pow2Adds(m - 1, n);
      assert Pow2(m) * Pow2(n) == 2 * (Pow2(m - 1) * Pow2(n));
    }
  }

  lemma {:induction false} Pow2Monotone(m: nat, n: nat)
    requires m < n
    ensures Pow2(m) < Pow2(n)
  {
    if m + 1 < n {
      Pow2Monotone(m, n - 1);
    }
  }

  /** Reading one more binary digit of n. */
  lemma NextDigit(n: nat, k: nat)
    ensures n % Pow2(k + 1) == n % Pow2(k) + (if Shr(n, k) % 2 == 1 then Pow2(k) else 0)
  {
    ShrIsDiv(n, k);
    DigitAbove(n, Pow2(k));
  }

  lemma DigitAbove(n: nat, p: nat)
    requires p > 0
    ensures n % (2 * p) == n % p + (if n / p % 2 == 1 then p else 0)
  {
    var q, r := n / p, n % p;
    assert n == p * q + r;
    if q % 2 == 1 {
      OddTimes(p, q);
      DivUnique(n, 2 * p, q / 2, p + r);
    } else {
      EvenTimes(p, q);
      DivUnique(n, 2 * p, q / 2, r);
    }
  }

  lemma OddTimes(p: nat, q: nat)
    requires q % 2 == 1
    ensures p * q == 2 * p * (q / 2) + p
  {
    assert q == 2 * (q / 2) + 1;
  }

  lemma EvenTimes(p: nat, q: nat)
    requires q % 2 == 0
    ensures p * q == 2 * p * (q / 2)
  {
    assert q == 2 * (q / 2);
  }

  lemma Pow2Values()
    ensures Pow2(8) == 0x100 && Pow2(16) == 0x1_0000 && Pow2(24) == 0x100_0000
    ensures Pow2(32) == 0x1_0000_0000 && Pow2(33) == 0x2_0000_0000
    ensures Pow2(40) == 0x100_0000_0000 && Pow2(48) == 0x1_0000_0000_0000
    ensures Pow2(56) == 0x100_0000_0000_0000 && Pow2(64) == 0x1_0000_0000_0000_0000
  {
    assert Pow2(8) == 0x100;
    Pow2Adds(8, 8);
    Pow2Adds(8, 16);
    Pow2Adds(16, 16);
    Pow2Adds(1, 32);
    Pow2Adds(8, 32);
    Pow2Adds(16, 32);
    Pow2Adds(24, 32);
    Pow2Adds(32, 32);
  }
}
