/** The prime field of Curve25519 as residues, and radix-2^25.5 integers. */
module Field25519 {
  const P: int := 0x7fffffff_ffffffff_ffffffff_ffffffff_ffffffff_ffffffff_ffffffff_ffffffed

  /** The residue of x modulo 2^255 - 19. */
  function Res(x: int): (r: int)
    ensures 0 <= r < P
  {
    x % P
  }

  function Add(a: int, b: int): int { Res(a + b) }
  function Sub(a: int, b: int): int { Res(a - b) }
  function Mul(a: int, b: int): int { Res(a * b) }

  /** Two integers that differ by a multiple of P have the same residue. */
  lemma ResShift(a: int, b: int, k: int)
    requires a == b + k * P
    ensures Res(a) == Res(b)
  {
    var q := a / P - b / P - k;
    assert Res(b) - Res(a) == q * P;
  }

  lemma AddRes(a: int, b: int)
    ensures Add(Res(a), Res(b)) == Res(a + b)
  {
    var k, l := a / P, b / P;
    ResShift(a + b, Res(a) + Res(b), k + l);
  }

  lemma SubRes(a: int, b: int)
    ensures Sub(Res(a), Res(b)) == Res(a - b)
  {
    var k, l := a / P, b / P;
    ResShift(a - b, Res(a) - Res(b), k - l);
  }

  lemma MulRes(a: int, b: int)
    ensures Mul(Res(a), Res(b)) == Res(a * b)
  {
    var k, l := a / P, b / P;
    var x, y := Res(a), Res(b);
    MulShift(a, x, k, b);
    MulShift(b, y, l, x);
    ResShift(a * b, x * b, k * b);
    ResShift(x * b, x * y, x * l);
  }

  lemma MulShift(a: int, x: int, k: int, b: int)
    requires a == x + k * P
    ensures a * b == x * b + (k * b) * P
    ensures b * a == b * x + (b * k) * P
  {
    calc {
      a * b;
      (x + k * P) * b;
      x * b + (k * P) * b;
      x * b + (k * b) * P;
    }
  }
}
