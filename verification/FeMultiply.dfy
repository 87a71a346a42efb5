/** fe_mul: schoolbook columns followed by twelve carries, which fe_sq has too. */
module FeMultiply {
  import opened MachineInts
  import opened Field25519
  import opened Limbs

  // No column sum, nor any partial sum of it, exceeds this.
  const COLUMN: int := 228 * E165 * E165

  ghost function Scale(x: int, g: Limbs): Limbs
  {
    Limbs(x * g.l0, x * g.l1, x * g.l2, x * g.l3, x * g.l4,
          x * g.l5, x * g.l6, x * g.l7, x * g.l8, x * g.l9)
  }

  ghost function Plus(f: Limbs, g: Limbs): Limbs
  {
    Limbs(f.l0 + g.l0, f.l1 + g.l1, f.l2 + g.l2, f.l3 + g.l3, f.l4 + g.l4,
          f.l5 + g.l5, f.l6 + g.l6, f.l7 + g.l7, f.l8 + g.l8, f.l9 + g.l9)
  }

  /** g times 2^26: limbs move up by one, odd ones double because 25.5 is rounded up
      twice, and what wraps past 2^255 re-enters times 19. */
  ghost function Up26(g: Limbs): Limbs
  {
    Limbs(38 * g.l9, g.l0, 2 * g.l1, g.l2, 2 * g.l3, g.l4, 2 * g.l5, g.l6, 2 * g.l7, g.l8)
  }

  /** g times 2^51: limbs move up by two. */
  ghost function Up51(g: Limbs): Limbs
  {
    Limbs(19 * g.l8, 19 * g.l9, g.l0, g.l1, g.l2, g.l3, g.l4, g.l5, g.l6, g.l7)
  }

  /** Two rows of the schoolbook product: x * g and, one limb up, y * g. */
  ghost function TwoRows(x: int, y: int, g: Limbs): Limbs
  {
    Plus(Scale(x, g), Scale(y, Up26(g)))
  }

  /** The ten columns of f * g before any carry, two rows at a time. */
  ghost function Product(f: Limbs, g: Limbs): Limbs
  {
    Plus(TwoRows(f.l0, f.l1, g), Up51(
    Plus(TwoRows(f.l2, f.l3, g), Up51(
    Plus(TwoRows(f.l4, f.l5, g), Up51(
    Plus(TwoRows(f.l6, f.l7, g), Up51(
         TwoRows(f.l8, f.l9, g)))))))))
  }

  ghost function Col0(f: Limbs, g: Limbs): int
  {
    (f.l0 * g.l0) + 38 * (f.l1 * g.l9) + 19 * (f.l2 * g.l8) + 38 * (f.l3 * g.l7) + 19 * (f.l4 * g.l6)
    + 38 * (f.l5 * g.l5) + 19 * (f.l6 * g.l4) + 38 * (f.l7 * g.l3) + 19 * (f.l8 * g.l2) + 38 * (f.l9 * g.l1)
  }

  ghost function Col1(f: Limbs, g: Limbs): int
  {
    (f.l0 * g.l1) + (f.l1 * g.l0) + 19 * (f.l2 * g.l9) + 19 * (f.l3 * g.l8) + 19 * (f.l4 * g.l7)
    + 19 * (f.l5 * g.l6) + 19 * (f.l6 * g.l5) + 19 * (f.l7 * g.l4) + 19 * (f.l8 * g.l3) + 19 * (f.l9 * g.l2)
  }

  ghost function Col2(f: Limbs, g: Limbs): int
  {
    (f.l0 * g.l2) + 2 * (f.l1 * g.l1) + (f.l2 * g.l0) + 38 * (f.l3 * g.l9) + 19 * (f.l4 * g.l8)
    + 38 * (f.l5 * g.l7) + 19 * (f.l6 * g.l6) + 38 * (f.l7 * g.l5) + 19 * (f.l8 * g.l4) + 38 * (f.l9 * g.l3)
  }

  ghost function Col3(f: Limbs, g: Limbs): int
  {
    (f.l0 * g.l3) + (f.l1 * g.l2) + (f.l2 * g.l1) + (f.l3 * g.l0) + 19 * (f.l4 * g.l9)
    + 19 * (f.l5 * g.l8) + 19 * (f.l6 * g.l7) + 19 * (f.l7 * g.l6) + 19 * (f.l8 * g.l5) + 19 * (f.l9 * g.l4)
  }

  ghost function Col4(f: Limbs, g: Limbs): int
  {
    (f.l0 * g.l4) + 2 * (f.l1 * g.l3) + (f.l2 * g.l2) + 2 * (f.l3 * g.l1) + (f.l4 * g.l0)
    + 38 * (f.l5 * g.l9) + 19 * (f.l6 * g.l8) + 38 * (f.l7 * g.l7) + 19 * (f.l8 * g.l6) + 38 * (f.l9 * g.l5)
  }

  ghost function Col5(f: Limbs, g: Limbs): int
  {
    (f.l0 * g.l5) + (f.l1 * g.l4) + (f.l2 * g.l3) + (f.l3 * g.l2) + (f.l4 * g.l1)
    + (f.l5 * g.l0) + 19 * (f.l6 * g.l9) + 19 * (f.l7 * g.l8) + 19 * (f.l8 * g.l7) + 19 * (f.l9 * g.l6)
  }

  ghost function Col6(f: Limbs, g: Limbs): int
  {
    (f.l0 * g.l6) + 2 * (f.l1 * g.l5) + (f.l2 * g.l4) + 2 * (f.l3 * g.l3) + (f.l4 * g.l2)
    + 2 * (f.l5 * g.l1) + (f.l6 * g.l0) + 38 * (f.l7 * g.l9) + 19 * (f.l8 * g.l8) + 38 * (f.l9 * g.l7)
  }

  ghost function Col7(f: Limbs, g: Limbs): int
  {
    (f.l0 * g.l7) + (f.l1 * g.l6) + (f.l2 * g.l5) + (f.l3 * g.l4) + (f.l4 * g.l3)
    + (f.l5 * g.l2) + (f.l6 * g.l1) + (f.l7 * g.l0) + 19 * (f.l8 * g.l9) + 19 * (f.l9 * g.l8)
  }

  ghost function Col8(f: Limbs, g: Limbs): int
  {
    (f.l0 * g.l8) + 2 * (f.l1 * g.l7) + (f.l2 * g.l6) + 2 * (f.l3 * g.l5) + (f.l4 * g.l4)
    + 2 * (f.l5 * g.l3) + (f.l6 * g.l2) + 2 * (f.l7 * g.l1) + (f.l8 * g.l0) + 38 * (f.l9 * g.l9)
  }

  ghost function Col9(f: Limbs, g: Limbs): int
  {
    (f.l0 * g.l9) + (f.l1 * g.l8) + (f.l2 * g.l7) + (f.l3 * g.l6) + (f.l4 * g.l5)
    + (f.l5 * g.l4) + (f.l6 * g.l3) + (f.l7 * g.l2) + (f.l8 * g.l1) + (f.l9 * g.l0)
  }

  /** Two rows with the factors in front of the products. */
  lemma TwoRowsLimbs(x: int, y: int, g: Limbs)
    ensures TwoRows(x, y, g)
         == Limbs((x * g.l0) + 38 * (y * g.l9), (x * g.l1) + (y * g.l0),
                  (x * g.l2) + 2 * (y * g.l1), (x * g.l3) + (y * g.l2),
                  (x * g.l4) + 2 * (y * g.l3), (x * g.l5) + (y * g.l4),
                  (x * g.l6) + 2 * (y * g.l5), (x * g.l7) + (y * g.l6),
                  (x * g.l8) + 2 * (y * g.l7), (x * g.l9) + (y * g.l8))
  {
    FactorsOut(y, g.l1);
    FactorsOut(y, g.l3);
    FactorsOut(y, g.l5);
    FactorsOut(y, g.l7);
    FactorsOut(y, g.l9);
  }

  lemma FactorsOut(y: int, z: int)
    ensures y * (2 * z) == 2 * (y * z) && y * (38 * z) == 38 * (y * z)
  {
  }

  lemma ProductColumns(f: Limbs, g: Limbs)
    ensures Product(f, g) == Limbs(Col0(f, g), Col1(f, g), Col2(f, g), Col3(f, g), Col4(f, g),
                                   Col5(f, g), Col6(f, g), Col7(f, g), Col8(f, g), Col9(f, g))
  {
    hide TwoRows;
    TwoRowsLimbs(f.l0, f.l1, g);
    TwoRowsLimbs(f.l2, f.l3, g);
    TwoRowsLimbs(f.l4, f.l5, g);
    TwoRowsLimbs(f.l6, f.l7, g);
    TwoRowsLimbs(f.l8, f.l9, g);
  }

  lemma RadixScale(x: int, g: Limbs)
    ensures Radix(Scale(x, g)) == x * Radix(g)
  {
  }

  lemma RadixPlus(f: Limbs, g: Limbs)
    ensures Radix(Plus(f, g)) == Radix(f) + Radix(g)
  {
  }

  lemma RadixUp(g: Limbs)
    ensures 0x400_0000 * Radix(g) == Radix(Up26(g)) + (2 * g.l9) * P
    ensures 0x8_0000_0000_0000 * Radix(g) == Radix(Up51(g)) + (g.l8 + 0x400_0000 * g.l9) * P
  {
  }

  lemma TwoRowsValue(x: int, y: int, g: Limbs) returns (k: int)
    ensures (x + 0x400_0000 * y) * Radix(g) == Radix(TwoRows(x, y, g)) + k * P
  {
    RadixScale(x, g);
    RadixScale(y, Up26(g));
    RadixPlus(Scale(x, g), Scale(y, Up26(g)));
    RadixUp(g);
    hide Radix, Up26, Up51, Plus, Scale;
    k := y * (2 * g.l9);
    RowsArithmetic(x, y, Radix(g), Radix(Up26(g)), 2 * g.l9);
  }

  lemma RowsArithmetic(x: int, y: int, v: int, u: int, m: int)
    requires 0x400_0000 * v == u + m * P
    ensures (x + 0x400_0000 * y) * v == x * v + y * u + (y * m) * P
  {
    Distribute(x, 0x400_0000 * y, v);
    Associate(0x400_0000, y, v);
    Associate(y, m, P);
    Distribute(u, m * P, y);
    assert 0x400_0000 * (y * v) == y * (0x400_0000 * v);
  }

  lemma Distribute(a: int, b: int, c: int)
    ensures (a + b) * c == a * c + b * c
  {
  }

  lemma Associate(a: int, b: int, c: int)
    ensures (a * b) * c == a * (b * c)
  {
  }

  /** One step of Horner's rule in 2^51. */
  lemma HornerStep(x: int, y: int, g: Limbs, rest: Limbs, r: int)
    ensures Res(Radix(rest)) == Res(r * Radix(g)) ==>
              var row := (x + 0x400_0000 * y + 0x8_0000_0000_0000 * r) * Radix(g);
              Res(Radix(Plus(TwoRows(x, y, g), Up51(rest)))) == Res(row)
  {
    hide Radix, TwoRows, Up51, Plus;
    var v, a, b := Radix(g), Radix(TwoRows(x, y, g)), Radix(Up51(rest));
    if Res(Radix(rest)) == Res(r * v) {
      var k := TwoRowsValue(x, y, g);
      RadixPlus(TwoRows(x, y, g), Up51(rest));
      RadixUp(rest);
      var s, t := x + 0x400_0000 * y, 0x8_0000_0000_0000;
      var m, n := Radix(rest) / P, (r * v) / P;
      assert (s + t * r) * v == s * v + t * (r * v);
      ResShift((s + t * r) * v, a + b, k + rest.l8 + 0x400_0000 * rest.l9 + t * (n - m));
    }
  }

  /** The columns represent the product, modulo P. */
  lemma ProductIsProduct(f: Limbs, g: Limbs)
    ensures Res(Radix(Product(f, g))) == Mul(Res(Radix(f)), Res(Radix(g)))
  {
    hide TwoRows, Plus, Up51;
    var r8 := f.l8 + 0x400_0000 * f.l9;
    var r6 := f.l6 + 0x400_0000 * f.l7 + 0x8_0000_0000_0000 * r8;
    var r4 := f.l4 + 0x400_0000 * f.l5 + 0x8_0000_0000_0000 * r6;
    var r2 := f.l2 + 0x400_0000 * f.l3 + 0x8_0000_0000_0000 * r4;
    var p8 := TwoRows(f.l8, f.l9, g);
    var p6 := Plus(TwoRows(f.l6, f.l7, g), Up51(p8));
    var p4 := Plus(TwoRows(f.l4, f.l5, g), Up51(p6));
    var p2 := Plus(TwoRows(f.l2, f.l3, g), Up51(p4));
    var k := TwoRowsValue(f.l8, f.l9, g);
    ResShift(r8 * Radix(g), Radix(p8), k);
    assert Radix(f) == f.l0 + 0x400_0000 * f.l1 + 0x8_0000_0000_0000 * r2;
    hide Radix;
    HornerStep(f.l6, f.l7, g, p8, r8);
    HornerStep(f.l4, f.l5, g, p6, r6);
    HornerStep(f.l2, f.l3, g, p4, r4);
    HornerStep(f.l0, f.l1, g, p2, r2);
    MulRes(Radix(f), Radix(g));
  }

  /** Splits off the nearest multiple of 2^26, halves rounding up: `carry >> 26` is c
      and `carry & kTop38Bits` is c * 2^26. */
  method Carry26(h: int64) returns (c: int64, low: int64)
    requires h as int <= 2 * COLUMN
    ensures h as int == c as int * 0x400_0000 + low as int
    ensures -0x200_0000 <= low < 0x200_0000
  {
    var carry := h + 0x200_0000;
    c := carry / 0x400_0000;
    low := h - c * 0x400_0000;
  }

  /** The same at 2^25, for odd limbs. */
  method Carry25(h: int64) returns (c: int64, low: int64)
    requires h as int <= 2 * COLUMN
    ensures h as int == c as int * 0x200_0000 + low as int
    ensures -0x100_0000 <= low < 0x100_0000
  {
    var carry := h + 0x100_0000;
    c := carry / 0x200_0000;
    low := h - c * 0x200_0000;
  }

  /** The twelve carries that end fe_mul and fe_sq. */
  method ReduceProduct(g0: int64, g1: int64, g2: int64, g3: int64, g4: int64,
                       g5: int64, g6: int64, g7: int64, g8: int64, g9: int64)
    returns (h0: int64, h1: int64, h2: int64, h3: int64, h4: int64,
             h5: int64, h6: int64, h7: int64, h8: int64, h9: int64)
    requires Bounded(OfWide(g0, g1, g2, g3, g4, g5, g6, g7, g8, g9), COLUMN, COLUMN)
    ensures Bounded(OfWide(h0, h1, h2, h3, h4, h5, h6, h7, h8, h9), E101, O101)
    ensures Res(Radix(OfWide(h0, h1, h2, h3, h4, h5, h6, h7, h8, h9)))
         == Res(Radix(OfWide(g0, g1, g2, g3, g4, g5, g6, g7, g8, g9)))
  {
    h0, h1, h2, h3, h4, h5, h6, h7, h8, h9 := g0, g1, g2, g3, g4, g5, g6, g7, g8, g9;
    var c: int64;
    c, h0 := Carry26(h0); h1 := h1 + c;
    c, h4 := Carry26(h4); h5 := h5 + c;

    c, h1 := Carry25(h1); h2 := h2 + c;
    c, h5 := Carry25(h5); h6 := h6 + c;

    c, h2 := Carry26(h2); h3 := h3 + c;
    c, h6 := Carry26(h6); h7 := h7 + c;

    c, h3 := Carry25(h3); h4 := h4 + c;
    c, h7 := Carry25(h7); h8 := h8 + c;

    c, h4 := Carry26(h4); h5 := h5 + c;
    c, h8 := Carry26(h8); h9 := h9 + c;

    c, h9 := Carry25(h9); h0 := h0 + c * 19;
    ghost var k := c as int;

    c, h0 := Carry26(h0); h1 := h1 + c;
    ResShift(Radix(OfWide(g0, g1, g2, g3, g4, g5, g6, g7, g8, g9)),
             Radix(OfWide(h0, h1, h2, h3, h4, h5, h6, h7, h8, h9)), k);
  }

  /** A 64-bit product of two 32-bit factors. */
  function Times(a: int32, b: int32): (p: int64)
    requires -2 * E165 <= a as int <= 2 * E165 && -19 * E165 <= b as int <= 19 * E165
    ensures p as int == a as int * b as int
    ensures -38 * E165 * E165 <= p as int <= 38 * E165 * E165
  {
    TimesBound(a as int, b as int, 2 * E165, 19 * E165);
    a as int64 * b as int64
  }

  lemma TimesBound(a: int, b: int, x: int, y: int)
    requires -x <= a <= x && -y <= b <= y
    ensures -x * y <= a * b <= x * y
  {
    if 0 <= b {
      MulLe(a, x, b); MulLe(-x, a, b); MulLe(b, y, x);
    } else {
      MulLe(a, x, -b); MulLe(-x, a, -b); MulLe(-b, y, x);
    }
  }

  lemma MulLe(a: int, b: int, c: int)
    requires a <= b && 0 <= c
    ensures a * c <= b * c && c * a <= c * b
  {
  }

  method Column0(f: array<int32>, g: array<int32>) returns (h: int64)
    requires f.Length == 10 && Bounded(Of(f[..]), E165, O165)
    requires g.Length == 10 && Bounded(Of(g[..]), E165, O165)
    ensures h as int == Col0(Of(f[..]), Of(g[..])) && -COLUMN <= h as int <= COLUMN
  {
    h := Times(f[0], g[0]) + Times(2 * f[1], 19 * g[9]) + Times(f[2], 19 * g[8]) + Times(2 * f[3], 19 * g[7])
       + Times(f[4], 19 * g[6]) + Times(2 * f[5], 19 * g[5]) + Times(f[6], 19 * g[4])
       + Times(2 * f[7], 19 * g[3]) + Times(f[8], 19 * g[2]) + Times(2 * f[9], 19 * g[1]);
  }

  method Column1(f: array<int32>, g: array<int32>) returns (h: int64)
    requires f.Length == 10 && Bounded(Of(f[..]), E165, O165)
    requires g.Length == 10 && Bounded(Of(g[..]), E165, O165)
    ensures h as int == Col1(Of(f[..]), Of(g[..])) && -COLUMN <= h as int <= COLUMN
  {
    h := Times(f[0], g[1]) + Times(f[1], g[0]) + Times(f[2], 19 * g[9]) + Times(f[3], 19 * g[8])
       + Times(f[4], 19 * g[7]) + Times(f[5], 19 * g[6]) + Times(f[6], 19 * g[5])
       + Times(f[7], 19 * g[4]) + Times(f[8], 19 * g[3]) + Times(f[9], 19 * g[2]);
  }

  method Column2(f: array<int32>, g: array<int32>) returns (h: int64)
    requires f.Length == 10 && Bounded(Of(f[..]), E165, O165)
    requires g.Length == 10 && Bounded(Of(g[..]), E165, O165)
    ensures h as int == Col2(Of(f[..]), Of(g[..])) && -COLUMN <= h as int <= COLUMN
  {
    h := Times(f[0], g[2]) + Times(2 * f[1], g[1]) + Times(f[2], g[0]) + Times(2 * f[3], 19 * g[9])
       + Times(f[4], 19 * g[8]) + Times(2 * f[5], 19 * g[7]) + Times(f[6], 19 * g[6])
       + Times(2 * f[7], 19 * g[5]) + Times(f[8], 19 * g[4]) + Times(2 * f[9], 19 * g[3]);
  }

  method Column3(f: array<int32>, g: array<int32>) returns (h: int64)
    requires f.Length == 10 && Bounded(Of(f[..]), E165, O165)
    requires g.Length == 10 && Bounded(Of(g[..]), E165, O165)
    ensures h as int == Col3(Of(f[..]), Of(g[..])) && -COLUMN <= h as int <= COLUMN
  {
    h := Times(f[0], g[3]) + Times(f[1], g[2]) + Times(f[2], g[1]) + Times(f[3], g[0])
       + Times(f[4], 19 * g[9]) + Times(f[5], 19 * g[8]) + Times(f[6], 19 * g[7])
       + Times(f[7], 19 * g[6]) + Times(f[8], 19 * g[5]) + Times(f[9], 19 * g[4]);
  }

  method Column4(f: array<int32>, g: array<int32>) returns (h: int64)
    requires f.Length == 10 && Bounded(Of(f[..]), E165, O165)
    requires g.Length == 10 && Bounded(Of(g[..]), E165, O165)
    ensures h as int == Col4(Of(f[..]), Of(g[..])) && -COLUMN <= h as int <= COLUMN
  {
    h := Times(f[0], g[4]) + Times(2 * f[1], g[3]) + Times(f[2], g[2]) + Times(2 * f[3], g[1])
       + Times(f[4], g[0]) + Times(2 * f[5], 19 * g[9]) + Times(f[6], 19 * g[8])
       + Times(2 * f[7], 19 * g[7]) + Times(f[8], 19 * g[6]) + Times(2 * f[9], 19 * g[5]);
  }

  method Column5(f: array<int32>, g: array<int32>) returns (h: int64)
    requires f.Length == 10 && Bounded(Of(f[..]), E165, O165)
    requires g.Length == 10 && Bounded(Of(g[..]), E165, O165)
    ensures h as int == Col5(Of(f[..]), Of(g[..])) && -COLUMN <= h as int <= COLUMN
  {
    h := Times(f[0], g[5]) + Times(f[1], g[4]) + Times(f[2], g[3]) + Times(f[3], g[2])
       + Times(f[4], g[1]) + Times(f[5], g[0]) + Times(f[6], 19 * g[9])
       + Times(f[7], 19 * g[8]) + Times(f[8], 19 * g[7]) + Times(f[9], 19 * g[6]);
  }

  method Column6(f: array<int32>, g: array<int32>) returns (h: int64)
    requires f.Length == 10 && Bounded(Of(f[..]), E165, O165)
    requires g.Length == 10 && Bounded(Of(g[..]), E165, O165)
    ensures h as int == Col6(Of(f[..]), Of(g[..])) && -COLUMN <= h as int <= COLUMN
  {
    h := Times(f[0], g[6]) + Times(2 * f[1], g[5]) + Times(f[2], g[4]) + Times(2 * f[3], g[3])
       + Times(f[4], g[2]) + Times(2 * f[5], g[1]) + Times(f[6], g[0])
       + Times(2 * f[7], 19 * g[9]) + Times(f[8], 19 * g[8]) + Times(2 * f[9], 19 * g[7]);
  }

  method Column7(f: array<int32>, g: array<int32>) returns (h: int64)
    requires f.Length == 10 && Bounded(Of(f[..]), E165, O165)
    requires g.Length == 10 && Bounded(Of(g[..]), E165, O165)
    ensures h as int == Col7(Of(f[..]), Of(g[..])) && -COLUMN <= h as int <= COLUMN
  {
    h := Times(f[0], g[7]) + Times(f[1], g[6]) + Times(f[2], g[5]) + Times(f[3], g[4])
       + Times(f[4], g[3]) + Times(f[5], g[2]) + Times(f[6], g[1])
       + Times(f[7], g[0]) + Times(f[8], 19 * g[9]) + Times(f[9], 19 * g[8]);
  }

  method Column8(f: array<int32>, g: array<int32>) returns (h: int64)
    requires f.Length == 10 && Bounded(Of(f[..]), E165, O165)
    requires g.Length == 10 && Bounded(Of(g[..]), E165, O165)
    ensures h as int == Col8(Of(f[..]), Of(g[..])) && -COLUMN <= h as int <= COLUMN
  {
    h := Times(f[0], g[8]) + Times(2 * f[1], g[7]) + Times(f[2], g[6]) + Times(2 * f[3], g[5])
       + Times(f[4], g[4]) + Times(2 * f[5], g[3]) + Times(f[6], g[2])
       + Times(2 * f[7], g[1]) + Times(f[8], g[0]) + Times(2 * f[9], 19 * g[9]);
  }

  method Column9(f: array<int32>, g: array<int32>) returns (h: int64)
    requires f.Length == 10 && Bounded(Of(f[..]), E165, O165)
    requires g.Length == 10 && Bounded(Of(g[..]), E165, O165)
    ensures h as int == Col9(Of(f[..]), Of(g[..])) && -COLUMN <= h as int <= COLUMN
  {
    h := Times(f[0], g[9]) + Times(f[1], g[8]) + Times(f[2], g[7]) + Times(f[3], g[6])
       + Times(f[4], g[5]) + Times(f[5], g[4]) + Times(f[6], g[3])
       + Times(f[7], g[2]) + Times(f[8], g[1]) + Times(f[9], g[0]);
  }

  /** h = f * g; h may be f or g. */
  method FeMul(h: array<int32>, f: array<int32>, g: array<int32>)
    requires h.Length == 10
    requires f.Length == 10 && Bounded(Of(f[..]), E165, O165)
    requires g.Length == 10 && Bounded(Of(g[..]), E165, O165)
    modifies h
    ensures Bounded(Of(h[..]), E101, O101)
    ensures El(h[..]) == Mul(old(El(f[..])), old(El(g[..])))
  {
    var h0 := Column0(f, g);
    var h1 := Column1(f, g);
    var h2 := Column2(f, g);
    var h3 := Column3(f, g);
    var h4 := Column4(f, g);
    var h5 := Column5(f, g);
    var h6 := Column6(f, g);
    var h7 := Column7(f, g);
    var h8 := Column8(f, g);
    var h9 := Column9(f, g);
    ProductColumns(Of(f[..]), Of(g[..]));
    ProductIsProduct(Of(f[..]), Of(g[..]));
    h0, h1, h2, h3, h4, h5, h6, h7, h8, h9 := ReduceProduct(h0, h1, h2, h3, h4, h5, h6, h7, h8, h9);
    Store(h, h0, h1, h2, h3, h4, h5, h6, h7, h8, h9);
  }

  method Store(h: array<int32>, h0: int64, h1: int64, h2: int64, h3: int64, h4: int64,
               h5: int64, h6: int64, h7: int64, h8: int64, h9: int64)
    requires h.Length == 10
    requires Bounded(OfWide(h0, h1, h2, h3, h4, h5, h6, h7, h8, h9), E055, O055)
    modifies h
    ensures Of(h[..]) == OfWide(h0, h1, h2, h3, h4, h5, h6, h7, h8, h9)
  {
    h[0] := h0 as int32; h[1] := h1 as int32; h[2] := h2 as int32; h[3] := h3 as int32; h[4] := h4 as int32;
    h[5] := h5 as int32; h[6] := h6 as int32; h[7] := h7 as int32; h[8] := h8 as int32; h[9] := h9 as int32;
  }
}
