/** Bitwise operations on unbounded naturals, bit by bit, and shifts as powers of two. */
module BitOps {
  function Pow2(n: nat): (p: nat)
    ensures p > 0
  {
    if n == 0 then 1 else 2 * Pow2(n - 1)
  }

  lemma {:induction false} Pow2Add(m: nat, n: nat)
    ensures Pow2(m + n) == Pow2(m) * Pow2(n)
  {
    if m != 0 {
      Pow2Add(m - 1, n);
    }
  }

  lemma Pow2Of5()
    ensures Pow2(5) == 32
  {
  }

  lemma Pow2Of6()
    ensures Pow2(6) == 64
  {
  }

  lemma Pow2Of8()
    ensures Pow2(8) == 0x100
  {
    assert Pow2(4) == 16;
    Pow2Add(4, 4);
  }

  lemma Pow2Of32()
    ensures Pow2(32) == 0x1_0000_0000
  {
    assert Pow2(4) == 16;
    Pow2Add(4, 4);
    Pow2Add(8, 8);
    Pow2Add(16, 16);
  }

  lemma Pow2Of20()
    ensures Pow2(1) == 2 && Pow2(2) == 4 && Pow2(5) == 0x20 && Pow2(10) == 0x400 && Pow2(20) == 0x10_0000
  {
    assert Pow2(5) == 0x20;
    Pow2Add(5, 5);
    Pow2Add(10, 10);
  }

  lemma Pow2Of100()
    ensures Pow2(50) == 0x4_0000_0000_0000 && Pow2(100) == 0x10_0000_0000_0000_0000_0000_0000
  {
    Pow2Of20();
    Pow2Add(20, 20);
    Pow2Add(40, 10);
    Pow2Add(50, 50);
  }

  function Or(a: nat, b: nat): nat
  {
    if a == 0 && b == 0 then 0
    else 2 * Or(a / 2, b / 2) + (if a % 2 == 0 && b % 2 == 0 then 0 else 1)
  }

  function And(a: nat, b: nat): nat
  {
    if a == 0 || b == 0 then 0
    else 2 * And(a / 2, b / 2) + (if a % 2 == 1 && b % 2 == 1 then 1 else 0)
  }

  function Xor(a: nat, b: nat): nat
  {
    if a == 0 && b == 0 then 0
    else 2 * Xor(a / 2, b / 2) + (if a % 2 == b % 2 then 0 else 1)
  }

  /** Or of numbers with no bit in common is their sum. */
  lemma {:induction false} OrDisjoint(n: nat, a: nat, c: nat)
    requires a < Pow2(n)
    ensures Or(a, c * Pow2(n)) == a + c * Pow2(n)
  {
    if n == 0 {
      OrZero(c);
    } else {
      var b := c * Pow2(n - 1);
      assert c * Pow2(n) == 2 * b;
      OrDisjoint(n - 1, a / 2, c);
    }
  }

  lemma {:induction false} OrZero(c: nat)
    ensures Or(0, c) == c
  {
    if c != 0 {
      OrZero(c / 2);
    }
  }

  lemma {:induction false} XorBound(n: nat, a: nat, b: nat)
    requires a < Pow2(n) && b < Pow2(n)
    ensures Xor(a, b) < Pow2(n)
  {
    if n != 0 {
      XorBound(n - 1, a / 2, b / 2);
    }
  }

  /** Xor with b undoes xor with b. */
  lemma {:induction false} XorCancel(a: nat, b: nat)
    ensures Xor(a, Xor(a, b)) == b && Xor(b, Xor(a, b)) == a
    decreases a + b
  {
    if a != 0 || b != 0 {
      XorCancel(a / 2, b / 2);
      assert Xor(a, b) / 2 == Xor(a / 2, b / 2);
    }
  }

  lemma {:induction false} XorZero(a: nat)
    ensures Xor(a, 0) == a
  {
    if a != 0 {
      XorZero(a / 2);
    }
  }

  lemma {:induction false} AndMask(n: nat, a: nat)
    requires a < Pow2(n)
    ensures And(a, Pow2(n) - 1) == a
  {
    if a != 0 {
      AndMask(n - 1, a / 2);
    }
  }

  /** A mask of n ones drops everything from bit n on. */
  lemma {:induction false} AndLow(n: nat, q: nat, r: nat)
    requires r < Pow2(n)
    ensures And(q * Pow2(n) + r, Pow2(n) - 1) == r
  {
    if n != 0 {
      var b := q * Pow2(n - 1);
      assert q * Pow2(n) == 2 * b;
      AndLow(n - 1, q, r / 2);
    }
  }

  lemma And127(a: nat)
    ensures And(a, 127) == a % 128
  {
    assert Pow2(3) == 8 && Pow2(4) == 16;
    Pow2Add(4, 3);
    AndLow(7, a / 128, a % 128);
  }

  lemma ModUnique(a: int, d: int, q: int, r: int)
    requires 0 <= r < d && a == d * q + r
    ensures a % d == r
  {
    var t := a / d;
    assert a == d * t + a % d;
    MulGap(d, q - t);
  }

  lemma MulGap(d: int, k: int)
    requires 0 < d
    ensures k < 0 ==> d * k <= -d
    ensures k > 0 ==> d * k >= d
  {
  }

  lemma And248(a: nat)
    requires a < 0x100
    ensures And(a, 248) == a - a % 8
  {
    assert Pow2(5) == 32;
    AndMask(5, a / 8);
    assert And(a / 2, 124) == 2 * And(a / 4, 62);
    assert And(a / 4, 62) == 2 * And(a / 8, 31);
  }

  lemma And1(a: nat)
    ensures And(1, a) == a % 2
  {
    assert And(0, a / 2) == 0;
  }

  lemma {:induction false} OrSet(n: nat, r: nat)
    requires r < Pow2(n)
    ensures Or(Pow2(n) + r, Pow2(n)) == Pow2(n) + r
  {
    if n == 0 {
      assert Or(1, 1) == 1;
    } else {
      OrSet(n - 1, r / 2);
    }
  }

  lemma Or64(a: nat)
    requires a < 0x80
    ensures Or(a, 64) == a % 64 + 64
  {
    hide Or, Pow2;
    Pow2Of6();
    if a < 64 {
      OrDisjoint(6, a, 1);
    } else {
      OrSet(6, a - 64);
    }
  }
}
