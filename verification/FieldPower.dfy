/** Powers of field elements. */
module FieldPower {
  import opened BitOps
  import opened Field25519

  /** The prime is 2^255 - 19. */
  lemma PrimeIs()
    ensures P == Pow2(255) - 19
  {
    Pow2Of20();
    Pow2Of100();
    hide Pow2;
    Pow2Add(100, 100);
    Pow2Add(200, 50);
    Pow2Add(250, 5);
  }

  /** z to the n, by n multiplications. */
  ghost function Power(z: int, n: nat): (r: int)
    ensures 0 <= r < P
  {
    if n == 0 then 1 else Mul(z, Power(z, n - 1))
  }

  lemma MulAssociates(a: int, b: int, c: int)
    ensures Mul(a, Mul(b, c)) == Mul(Mul(a, b), c)
  {
    MulRes(a, b * c);
    MulRes(a * b, c);
    MulResLeft(a, b * c);
    MulResLeft(c, a * b);
    assert a * (b * c) == (a * b) * c;
  }

  /** One operand may be reduced or not. */
  lemma MulResLeft(a: int, b: int)
    ensures Mul(a, Res(b)) == Res(a * b) && Mul(Res(b), a) == Res(b * a)
  {
    var k := b / P;
    MulShift(b, Res(b), k, a);
    ResShift(a * b, a * Res(b), a * k);
    ResShift(b * a, Res(b) * a, k * a);
  }

  lemma MulOne(a: int)
    requires 0 <= a < P
    ensures Mul(1, a) == a
  {
  }

  lemma {:induction false} PowerAdd(z: int, m: nat, n: nat)
    ensures Power(z, m + n) == Mul(Power(z, m), Power(z, n))
  {
    hide Mul;
    if m == 0 {
      MulOne(Power(z, n));
    } else {
      PowerAdd(z, m - 1, n);
      MulAssociates(z, Power(z, m - 1), Power(z, n));
    }
  }

  /** Squaring n times multiplies the exponent by 2^n. */
  ghost function SquareN(a: int, n: nat): int
  {
    if n == 0 then a else Mul(SquareN(a, n - 1), SquareN(a, n - 1))
  }

  lemma TwicePower(e: nat, n: nat)
    requires n > 0
    ensures e * Pow2(n - 1) + e * Pow2(n - 1) == e * Pow2(n)
  {
    var p := Pow2(n - 1);
    assert Pow2(n) == 2 * p;
    hide Pow2;
    assert e * (2 * p) == e * p + e * p;
  }

  lemma {:induction false} SquareNPower(z: int, e: nat, n: nat)
    ensures SquareN(Power(z, e), n) == Power(z, e * Pow2(n))
  {
    if n != 0 {
      var m := e * Pow2(n - 1);
      SquareNPower(z, e, n - 1);
      PowerAdd(z, m, m);
      TwicePower(e, n);
    }
  }
}
