/** fe_invert: the addition chain for the exponent P - 2 = 2^255 - 21. */
module FeInversion {
  import opened MachineInts
  import opened BitOps
  import opened Field25519
  import opened FieldPower
  import opened Limbs
  import opened FeMultiply
  import opened FeSquare

  /** 2^n for the runs of squarings that the chain uses. */
  ghost function Factor(n: nat): nat
  {
    if n == 1 then 2 else if n == 2 then 4 else if n == 5 then 0x20 else if n == 10 then 0x400
    else if n == 20 then 0x10_0000 else if n == 50 then 0x4_0000_0000_0000
    else if n == 100 then 0x10_0000_0000_0000_0000_0000_0000 else 0
  }

  lemma FactorIsPow2(n: nat)
    requires Factor(n) != 0
    ensures Factor(n) == Pow2(n)
  {
    if n <= 20 {
      Pow2Of20();
    } else {
      Pow2Of100();
    }
  }

  /** h = f squared n times: one fe_sq from f and a loop of n - 1 more; h may be f. */
  method SquareTimes(h: array<int32>, f: array<int32>, n: nat, ghost z: int, ghost e: nat, ghost r: nat)
    requires h.Length == 10
    requires f.Length == 10 && Bounded(Of(f[..]), E165, O165) && El(f[..]) == Power(z, e)
    requires Factor(n) != 0 && r == e * Factor(n)
    modifies h
    ensures Bounded(Of(h[..]), E101, O101)
    ensures El(h[..]) == Power(z, r)
  {
    FeSq(h, f);
    var i := 1;
    while i < n
      invariant 1 <= i <= n
      invariant Bounded(Of(h[..]), E101, O101)
      invariant El(h[..]) == SquareN(Power(z, e), i)
    {
      FeSq(h, h);
      i := i + 1;
    }
    FactorIsPow2(n);
    SquareNPower(z, e, n);
  }

  /** h = f * g for powers f and g of one element; h may be f or g. */
  method MulPowers(h: array<int32>, f: array<int32>, g: array<int32>, ghost z: int, ghost m: nat, ghost n: nat,
                   ghost r: nat)
    requires h.Length == 10
    requires f.Length == 10 && Bounded(Of(f[..]), E165, O165) && El(f[..]) == Power(z, m)
    requires g.Length == 10 && Bounded(Of(g[..]), E165, O165) && El(g[..]) == Power(z, n)
    requires m + n == r
    modifies h
    ensures Bounded(Of(h[..]), E101, O101)
    ensures El(h[..]) == Power(z, r)
  {
    PowerAdd(z, m, n);
    FeMul(h, f, g);
  }

  lemma PowerOne(z: int)
    requires 0 <= z < P
    ensures Power(z, 1) == z
  {
    assert Power(z, 1) == Mul(z, Power(z, 0));
  }

  /** The start of the chain: x^11 in t0 and x^(2^10 - 1) in t1. */
  method InvertHead(t0: array<int32>, t1: array<int32>, t2: array<int32>, z: array<int32>, ghost x: int)
    requires t0.Length == t1.Length == t2.Length == z.Length == 10
    requires t0 != t1 && t0 != t2 && t1 != t2 && z != t0 && z != t1 && z != t2
    requires Bounded(Of(z[..]), E165, O165) && El(z[..]) == Power(x, 1)
    modifies t0, t1, t2
    ensures Bounded(Of(t0[..]), E101, O101) && El(t0[..]) == Power(x, 11)
    ensures Bounded(Of(t1[..]), E101, O101) && El(t1[..]) == Power(x, 0x3ff)
  {
    SquareTimes(t0, z, 1, x, 1, 2);
    SquareTimes(t1, t0, 2, x, 2, 8);
    MulPowers(t1, z, t1, x, 1, 8, 9);
    MulPowers(t0, t0, t1, x, 2, 9, 11);
    SquareTimes(t2, t0, 1, x, 11, 22);
    MulPowers(t1, t1, t2, x, 9, 22, 31);
    SquareTimes(t2, t1, 5, x, 31, 992);
    MulPowers(t1, t2, t1, x, 992, 31, 0x3ff);
  }

  /** The middle of the chain: from x^(2^10 - 1) to x^(2^50 - 1) in t1. */
  method InvertMiddle(t1: array<int32>, t2: array<int32>, t3: array<int32>, ghost x: int)
    requires t1.Length == t2.Length == t3.Length == 10 && t1 != t2 && t1 != t3 && t2 != t3
    requires Bounded(Of(t1[..]), E101, O101) && El(t1[..]) == Power(x, 0x3ff)
    modifies t1, t2, t3
    ensures Bounded(Of(t1[..]), E101, O101) && El(t1[..]) == Power(x, E50)
  {
    SquareTimes(t2, t1, 10, x, 0x3ff, 0xffc00);
    MulPowers(t2, t2, t1, x, 0xffc00, 0x3ff, 0xfffff);
    SquareTimes(t3, t2, 20, x, 0xfffff, 0xfffff00000);
    MulPowers(t2, t3, t2, x, 0xfffff00000, 0xfffff, 0xffffffffff);
    SquareTimes(t2, t2, 10, x, 0xffffffffff, 0x3fffffffffc00);
    MulPowers(t1, t2, t1, x, 0x3fffffffffc00, 0x3ff, E50);
  }

  /** out = z to the P - 2; out may be z. */
  method FeInvert(out: array<int32>, z: array<int32>)
    requires out.Length == 10
    requires z.Length == 10 && Bounded(Of(z[..]), E165, O165)
    modifies out
    ensures Bounded(Of(out[..]), E101, O101)
    ensures El(out[..]) == Power(old(El(z[..])), P - 2)
  {
    var t0, t1, t2, t3 := new int32[10], new int32[10], new int32[10], new int32[10];
    ghost var x := El(z[..]);
    PowerOne(x);
    InvertHead(t0, t1, t2, z, x);
    InvertMiddle(t1, t2, t3, x);
    InvertTail(out, t0, t1, t2, t3, x);
  }

  /** The second half of the chain, from x^(2^50 - 1) in t1 and x^11 in t0. */
  method InvertTail(out: array<int32>, t0: array<int32>, t1: array<int32>, t2: array<int32>, t3: array<int32>,
                    ghost x: int)
    requires out.Length == t0.Length == t1.Length == t2.Length == t3.Length == 10
    requires t0 != t1 && t0 != t2 && t0 != t3 && t1 != t2 && t1 != t3 && t2 != t3
    requires out != t0 && out != t1 && out != t2 && out != t3
    requires Bounded(Of(t0[..]), E101, O101) && El(t0[..]) == Power(x, 11)
    requires Bounded(Of(t1[..]), E101, O101) && El(t1[..]) == Power(x, E50)
    modifies out, t1, t2, t3
    ensures Bounded(Of(out[..]), E101, O101)
    ensures El(out[..]) == Power(x, P - 2)
  {
    SquareTimes(t2, t1, 50, x, E50, E50 * 0x4000000000000);
    MulPowers(t2, t2, t1, x, E50 * 0x4000000000000, E50, E100);
    SquareTimes(t3, t2, 100, x, E100, E100 * 0x10000000000000000000000000);
    MulPowers(t2, t3, t2, x, E100 * 0x10000000000000000000000000, E100, E200);
    SquareTimes(t2, t2, 50, x, E200, E200 * 0x4000000000000);
    MulPowers(t1, t2, t1, x, E200 * 0x4000000000000, E50, E250);
    SquareTimes(t1, t1, 5, x, E250, E250 * 0x20);
    MulPowers(out, t1, t0, x, E250 * 0x20, 11, P - 2);
  }

  // 2^50 - 1, 2^100 - 1, 2^200 - 1 and 2^250 - 1
  const E50: nat := 0x3ffffffffffff
  const E100: nat := 0xfffffffffffffffffffffffff
  const E200: nat := 0xffffffffffffffffffffffffffffffffffffffffffffffffff
  const E250: nat := 0x3ffffffffffffffffffffffffffffffffffffffffffffffffffffffffffffff
}
