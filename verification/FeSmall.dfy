/** fe_add, fe_sub, fe_copy, fe_0, fe_1, fe_cswap and fe_mul121666. */
module FeSmall {
  import opened MachineInts
  import opened Field25519
  import opened Limbs
  import opened FeMultiply
  import opened BitOps

  lemma LimbBound(h: seq<int32>, i: nat)
    requires |h| == 10 && i < 10 && Bounded(Of(h), E055, O055)
    ensures -E055 <= h[i] as int <= E055
  {
  }

  lemma SumLimbs(f: seq<int32>, g: seq<int32>, h: seq<int32>)
    requires |f| == |g| == |h| == 10
    requires Bounded(Of(f), E055, O055) && Bounded(Of(g), E055, O055)
    requires forall j :: 0 <= j < 10 ==> h[j] as int == f[j] as int + g[j] as int
    ensures Bounded(Of(h), E110, O110) && El(h) == Add(El(f), El(g))
  {
    hide Radix;
    hide Res;
    assert Of(h) == Plus(Of(f), Of(g));
    RadixPlus(Of(f), Of(g));
    AddRes(Radix(Of(f)), Radix(Of(g)));
  }

  /** h = f + g; h may be f or g. */
  method FeAdd(h: array<int32>, f: array<int32>, g: array<int32>)
    requires h.Length == 10
    requires f.Length == 10 && Bounded(Of(f[..]), E055, O055)
    requires g.Length == 10 && Bounded(Of(g[..]), E055, O055)
    modifies h
    ensures Bounded(Of(h[..]), E110, O110)
    ensures El(h[..]) == Add(old(El(f[..])), old(El(g[..])))
  {
    ghost var u, v := f[..], g[..];
    var i := 0;
    while i < 10
      invariant 0 <= i <= 10
      invariant forall j :: 0 <= j < i ==> h[j] as int == u[j] as int + v[j] as int
      invariant forall j :: i <= j < 10 ==> f[j] == u[j] && g[j] == v[j]
    {
      LimbBound(u, i);
      LimbBound(v, i);
      h[i] := f[i] + g[i];
      i := i + 1;
    }
    SumLimbs(u, v, h[..]);
  }

  lemma DifferenceLimbs(f: seq<int32>, g: seq<int32>, h: seq<int32>)
    requires |f| == |g| == |h| == 10
    requires Bounded(Of(f), E055, O055) && Bounded(Of(g), E055, O055)
    requires forall j :: 0 <= j < 10 ==> h[j] as int == f[j] as int - g[j] as int
    ensures Bounded(Of(h), E110, O110) && Radix(Of(f)) == Radix(Of(h)) + Radix(Of(g))
  {
    assert Of(f) == Plus(Of(h), Of(g));
    RadixPlus(Of(h), Of(g));
  }

  lemma ResidueOfDifference(a: int, b: int, c: int)
    requires a == c + b
    ensures Res(c) == Sub(Res(a), Res(b))
  {
    hide Res;
    SubRes(a, b);
  }

  /** h = f - g; h may be f or g. */
  method FeSub(h: array<int32>, f: array<int32>, g: array<int32>)
    requires h.Length == 10
    requires f.Length == 10 && Bounded(Of(f[..]), E055, O055)
    requires g.Length == 10 && Bounded(Of(g[..]), E055, O055)
    modifies h
    ensures Bounded(Of(h[..]), E110, O110)
    ensures El(h[..]) == Sub(old(El(f[..])), old(El(g[..])))
  {
    hide Radix, Res, Sub;
    ghost var u, v := f[..], g[..];
    var i := 0;
    while i < 10
      invariant 0 <= i <= 10
      invariant forall j :: 0 <= j < i ==> h[j] as int == u[j] as int - v[j] as int
      invariant forall j :: i <= j < 10 ==> f[j] == u[j] && g[j] == v[j]
    {
      LimbBound(u, i);
      LimbBound(v, i);
      h[i] := f[i] - g[i];
      i := i + 1;
    }
    DifferenceLimbs(u, v, h[..]);
    ResidueOfDifference(Radix(Of(u)), Radix(Of(v)), Radix(Of(h[..])));
  }

  /** The ten carries that end fe_mul121666 and fe_frombytes: odd limbs, then even ones. */
  method ReduceParallel(g0: int64, g1: int64, g2: int64, g3: int64, g4: int64,
                        g5: int64, g6: int64, g7: int64, g8: int64, g9: int64)
    returns (h0: int64, h1: int64, h2: int64, h3: int64, h4: int64,
             h5: int64, h6: int64, h7: int64, h8: int64, h9: int64)
    requires Bounded(OfWide(g0, g1, g2, g3, g4, g5, g6, g7, g8, g9), 121666 * E110, 121666 * O110)
    ensures Bounded(OfWide(h0, h1, h2, h3, h4, h5, h6, h7, h8, h9), E055, O055)
    ensures Res(Radix(OfWide(h0, h1, h2, h3, h4, h5, h6, h7, h8, h9)))
         == Res(Radix(OfWide(g0, g1, g2, g3, g4, g5, g6, g7, g8, g9)))
  {
    h0, h1, h2, h3, h4, h5, h6, h7, h8, h9 := g0, g1, g2, g3, g4, g5, g6, g7, g8, g9;
    var c: int64;
    c, h9 := Carry25(h9); h0 := h0 + c * 19;
    ghost var k := c as int;
    c, h1 := Carry25(h1); h2 := h2 + c;
    c, h3 := Carry25(h3); h4 := h4 + c;
    c, h5 := Carry25(h5); h6 := h6 + c;
    c, h7 := Carry25(h7); h8 := h8 + c;

    c, h0 := Carry26(h0); h1 := h1 + c;
    c, h2 := Carry26(h2); h3 := h3 + c;
    c, h4 := Carry26(h4); h5 := h5 + c;
    c, h6 := Carry26(h6); h7 := h7 + c;
    c, h8 := Carry26(h8); h9 := h9 + c;
    ResShift(Radix(OfWide(g0, g1, g2, g3, g4, g5, g6, g7, g8, g9)),
             Radix(OfWide(h0, h1, h2, h3, h4, h5, h6, h7, h8, h9)), k);
  }

  /** h = f * 121666; h may be f. */
  method FeMul121666(h: array<int32>, f: array<int32>)
    requires h.Length == 10
    requires f.Length == 10 && Bounded(Of(f[..]), E110, O110)
    modifies h
    ensures Bounded(Of(h[..]), E055, O055)
    ensures El(h[..]) == Mul(121666, old(El(f[..])))
  {
    var h0, h1, h2, h3, h4 := f[0] as int64 * 121666, f[1] as int64 * 121666, f[2] as int64 * 121666,
                              f[3] as int64 * 121666, f[4] as int64 * 121666;
    var h5, h6, h7, h8, h9 := f[5] as int64 * 121666, f[6] as int64 * 121666, f[7] as int64 * 121666,
                              f[8] as int64 * 121666, f[9] as int64 * 121666;
    assert OfWide(h0, h1, h2, h3, h4, h5, h6, h7, h8, h9) == Scale(121666, Of(f[..]));
    RadixScale(121666, Of(f[..]));
    MulRes(121666, Radix(Of(f[..])));
    h0, h1, h2, h3, h4, h5, h6, h7, h8, h9 := ReduceParallel(h0, h1, h2, h3, h4, h5, h6, h7, h8, h9);
    Store(h, h0, h1, h2, h3, h4, h5, h6, h7, h8, h9);
  }

  /** The two's-complement word of a 32-bit integer, and back. */
  function Word(x: int32): (w: nat)
    ensures w < 0x1_0000_0000
  {
    if x < 0 then x as int + 0x1_0000_0000 else x as int
  }

  function FromWord(w: nat): int32
    requires w < 0x1_0000_0000
  {
    (if w < 0x8000_0000 then w else w - 0x1_0000_0000) as int32
  }

  /** Replaces x, y by x ^ t, y ^ t where t is (x ^ y) & mask. */
  method MaskedSwap(x: int32, y: int32, mask: nat) returns (x': int32, y': int32)
    requires mask == 0 || mask == 0xFFFF_FFFF
    ensures if mask == 0 then x' == x && y' == y else x' == y && y' == x
  {
    Pow2Of32();
    var t := Xor(Word(x), Word(y));
    XorBound(32, Word(x), Word(y));
    XorCancel(Word(x), Word(y));
    AndMask(32, t);
    XorZero(Word(x));
    XorZero(Word(y));
    t := And(t, mask);
    x' := FromWord(Xor(Word(x), t));
    y' := FromWord(Xor(Word(y), t));
  }

  /** Exchanges f and g exactly when b is 1, without branching on b. */
  method FeCswap(f: array<int32>, g: array<int32>, b: nat)
    requires f.Length == g.Length == 10 && f != g
    requires b == 0 || b == 1
    modifies f, g
    ensures f[..] == if b == 1 then old(g[..]) else old(f[..])
    ensures g[..] == if b == 1 then old(f[..]) else old(g[..])
  {
    var mask := (0 - b) % 0x1_0000_0000;
    var i := 0;
    while i < 10
      invariant 0 <= i <= 10
      invariant forall j :: 0 <= j < i ==> f[j] == (if b == 1 then old(g[j]) else old(f[j]))
      invariant forall j :: 0 <= j < i ==> g[j] == (if b == 1 then old(f[j]) else old(g[j]))
      invariant forall j :: i <= j < 10 ==> f[j] == old(f[j]) && g[j] == old(g[j])
    {
      f[i], g[i] := MaskedSwap(f[i], g[i], mask);
      i := i + 1;
    }
  }

  /** h = f. */
  method FeCopy(h: array<int32>, f: array<int32>)
    requires h.Length == f.Length == 10
    modifies h
    ensures h[..] == old(f[..])
  {
    forall i | 0 <= i < 10 { h[i] := f[i]; }
  }

  /** h = the small constant c, which is 0 or 1. */
  method FeConst(h: array<int32>, c: int32)
    requires h.Length == 10 && 0 <= c <= 1
    modifies h
    ensures Bounded(Of(h[..]), E101, O101) && El(h[..]) == c as int
  {
    forall i | 0 <= i < 10 { h[i] := if i == 0 then c else 0; }
    assert Of(h[..]) == Limbs(c as int, 0, 0, 0, 0, 0, 0, 0, 0, 0);
  }
}
