/** x25519_scalar_mult against section 5 of RFC 7748. */
module Ladder {
  import opened MachineInts
  import opened BitOps
  import opened Field25519
  import opened FieldPower
  import opened Limbs
  import opened FeMultiply
  import opened FeSquare
  import opened FeSmall
  import opened FeCodec
  import opened FeInversion

  // ---------------------------------------------------------------------------
  // The reference: field elements, no limbs, no deferred swaps.

  datatype State = State(x2: int, z2: int, x3: int, z3: int)

  ghost function Swap(b: nat, s: State): State
  {
    if b == 1 then State(s.x3, s.z3, s.x2, s.z2) else s
  }

  /** One ladder step as RFC 7748 writes it, with a24 = 121665. */
  ghost function RfcStep(u: int, s: State): State
  {
    var A := Add(s.x2, s.z2);
    var AA := Mul(A, A);
    var B := Sub(s.x2, s.z2);
    var BB := Mul(B, B);
    var E := Sub(AA, BB);
    var C := Add(s.x3, s.z3);
    var D := Sub(s.x3, s.z3);
    var DA := Mul(D, A);
    var CB := Mul(C, B);
    var sum, diff := Add(DA, CB), Sub(DA, CB);
    State(Mul(AA, BB), Mul(E, Add(AA, Mul(121665, E))), Mul(sum, sum), Mul(u, Mul(diff, diff)))
  }

  /** From u = 9 and the point at infinity to twice u and u, as fractions. */
  lemma StepFromNine()
    ensures RfcStep(9, State(9, 1, 1, 0)) == State(6400, 157681440, 324, 36)
  {
    hide Add, Sub, Mul;
    SumsFromNine();
    ProductsFromNine();
  }

  lemma SumsFromNine()
    ensures Add(9, 1) == 10 && Sub(9, 1) == 8 && Sub(100, 64) == 36 && Add(1, 0) == 1 && Sub(1, 0) == 1
    ensures Add(10, 8) == 18 && Sub(10, 8) == 2 && Add(100, 4379940) == 4380040
  {
  }

  lemma ProductsFromNine()
    ensures Mul(10, 10) == 100 && Mul(8, 8) == 64 && Mul(1, 10) == 10 && Mul(1, 8) == 8 && Mul(121665, 36) == 4379940
    ensures Mul(100, 64) == 6400 && Mul(36, 4380040) == 157681440 && Mul(18, 18) == 324
    ensures Mul(2, 2) == 4 && Mul(9, 4) == 36
  {
  }

  ghost function Bit(k: int, t: nat): (b: nat)
    ensures b < 2
  {
    k / Pow2(t) % 2
  }

  /** The ladder after the bits 254, ..., t of k; each step swaps before and after. */
  ghost function RfcLadder(k: nat, u: int, t: nat): State
    requires t <= 255
    decreases 255 - t
  {
    if t == 255 then State(1, 0, u, 1)
    else
      var b := Bit(k, t);
      Swap(b, RfcStep(u, Swap(b, RfcLadder(k, u, t + 1))))
  }

  /** The function X25519 on a decoded scalar and a decoded u-coordinate. */
  ghost function RfcX25519(k: nat, u: int): int
  {
    var s := RfcLadder(k, u, 0);
    Mul(s.x2, Power(s.z2, P - 2))
  }

  // ---------------------------------------------------------------------------
  // The step as the code computes it, with 121666.

  ghost function CodeStep(u: int, s: State): State
  {
    var a, b := Add(s.x2, s.z2), Sub(s.x2, s.z2);
    var da, cb := Mul(Sub(s.x3, s.z3), a), Mul(Add(s.x3, s.z3), b);
    var bb, aa := Mul(b, b), Mul(a, a);
    var e := Sub(aa, bb);
    var sum, diff := Add(da, cb), Sub(da, cb);
    State(Mul(aa, bb), Mul(e, Add(bb, Mul(121666, e))), Mul(sum, sum), Mul(u, Mul(diff, diff)))
  }

  /** BB + 121666 E = AA + 121665 E because E = AA - BB. */
  lemma ConstantsAgree(aa: int, bb: int)
    ensures var e := Sub(aa, bb); Add(bb, Mul(121666, e)) == Add(aa, Mul(121665, e))
  {
    var e := Sub(aa, bb);
    var k, m, n := (aa - bb) / P, (121666 * e) / P, (121665 * e) / P;
    ResShift(bb + Mul(121666, e), aa + Mul(121665, e), n - m - k);
  }

  lemma StepsAgree(u: int, s: State)
    ensures CodeStep(u, s) == RfcStep(u, s)
  {
    var a, b := Add(s.x2, s.z2), Sub(s.x2, s.z2);
    ConstantsAgree(Mul(a, a), Mul(b, b));
  }

  ghost function StateOf(x2: seq<int32>, z2: seq<int32>, x3: seq<int32>, z3: seq<int32>): State
    requires |x2| == |z2| == |x3| == |z3| == 10
  {
    State(El(x2), El(z2), El(x3), El(z3))
  }

  // ---------------------------------------------------------------------------
  // The code.

  ghost predicate Small(a: array<int32>)
    reads a
    ensures Small(a) ==> a.Length == 10
  {
    a.Length == 10 && Bounded(Of(a[..]), E055, O055)
  }

  ghost predicate Reduced(a: array<int32>)
    reads a
  {
    a.Length == 10 && Bounded(Of(a[..]), E101, O101)
  }

  /** The first half of a step: sums, differences and their four products. */
  method StepProducts(x2: array<int32>, z2: array<int32>, x3: array<int32>, z3: array<int32>,
                      tmp0: array<int32>, tmp1: array<int32>)
    requires x2 != z2 && x2 != x3 && x2 != z3 && z2 != x3 && z2 != z3 && x3 != z3
    requires tmp0 != x2 && tmp0 != z2 && tmp0 != x3 && tmp0 != z3 && tmp0 != tmp1
    requires tmp1 != x2 && tmp1 != z2 && tmp1 != x3 && tmp1 != z3
    requires Small(x2) && Small(z2) && Small(x3) && Small(z3) && tmp0.Length == tmp1.Length == 10
    modifies x2, z2, z3, tmp0, tmp1
    ensures Reduced(z3) && Reduced(z2) && Reduced(tmp0) && Reduced(tmp1) && x2.Length == 10 && x3.Length == 10
    ensures var s := old(StateOf(x2[..], z2[..], x3[..], z3[..]));
            var a, b := Add(s.x2, s.z2), Sub(s.x2, s.z2);
            && El(z3[..]) == Mul(Sub(s.x3, s.z3), a) && El(z2[..]) == Mul(Add(s.x3, s.z3), b)
            && El(tmp0[..]) == Mul(b, b) && El(tmp1[..]) == Mul(a, a)
  {
    FeSub(tmp0, x3, z3);
    FeSub(tmp1, x2, z2);
    FeAdd(x2, x2, z2);
    FeAdd(z2, x3, z3);
    FeMul(z3, tmp0, x2);
    FeMul(z2, z2, tmp1);
    FeSq(tmp0, tmp1);
    FeSq(tmp1, x2);
  }

  /** The second half of a step. */
  method StepCombine(x1: array<int32>, x2: array<int32>, z2: array<int32>, x3: array<int32>, z3: array<int32>,
                     tmp0: array<int32>, tmp1: array<int32>)
    requires x2 != z2 && x2 != x3 && x2 != z3 && z2 != x3 && z2 != z3 && x3 != z3
    requires tmp0 != x2 && tmp0 != z2 && tmp0 != x3 && tmp0 != z3 && tmp0 != tmp1
    requires tmp1 != x2 && tmp1 != z2 && tmp1 != x3 && tmp1 != z3
    requires x1 != x2 && x1 != z2 && x1 != x3 && x1 != z3 && x1 != tmp0 && x1 != tmp1
    requires Reduced(z3) && Reduced(z2) && Reduced(tmp0) && Reduced(tmp1) && Small(x1)
    requires x2.Length == x3.Length == 10
    modifies x2, z2, x3, z3, tmp0, tmp1
    ensures Reduced(x2) && Reduced(z2) && Reduced(x3) && Reduced(z3) && tmp0.Length == tmp1.Length == 10
    ensures var da, cb, bb, aa := old(El(z3[..])), old(El(z2[..])), old(El(tmp0[..])), old(El(tmp1[..]));
            var e, sum, diff := Sub(aa, bb), Add(da, cb), Sub(da, cb);
            StateOf(x2[..], z2[..], x3[..], z3[..])
            == State(Mul(aa, bb), Mul(e, Add(bb, Mul(121666, e))), Mul(sum, sum), Mul(El(x1[..]), Mul(diff, diff)))
  {
    FeAdd(x3, z3, z2);
    FeSub(z2, z3, z2);
    FeMul(x2, tmp1, tmp0);
    FeSub(tmp1, tmp1, tmp0);
    FeSq(z2, z2);
    FeMul121666(z3, tmp1);
    FeSq(x3, x3);
    FeAdd(tmp0, tmp0, z3);
    FeMul(z3, x1, z2);
    FeMul(z2, tmp1, tmp0);
  }

  /** One ladder step. */
  method Step(x1: array<int32>, x2: array<int32>, z2: array<int32>, x3: array<int32>, z3: array<int32>,
              tmp0: array<int32>, tmp1: array<int32>)
    requires x2 != z2 && x2 != x3 && x2 != z3 && z2 != x3 && z2 != z3 && x3 != z3
    requires tmp0 != x2 && tmp0 != z2 && tmp0 != x3 && tmp0 != z3 && tmp0 != tmp1
    requires tmp1 != x2 && tmp1 != z2 && tmp1 != x3 && tmp1 != z3
    requires x1 != x2 && x1 != z2 && x1 != x3 && x1 != z3 && x1 != tmp0 && x1 != tmp1
    requires Small(x1) && Small(x2) && Small(z2) && Small(x3) && Small(z3) && tmp0.Length == tmp1.Length == 10
    modifies x2, z2, x3, z3, tmp0, tmp1
    ensures Small(x2) && Small(z2) && Small(x3) && Small(z3)
    ensures StateOf(x2[..], z2[..], x3[..], z3[..])
         == RfcStep(El(x1[..]), old(StateOf(x2[..], z2[..], x3[..], z3[..])))
  {
    StepsAgree(El(x1[..]), StateOf(x2[..], z2[..], x3[..], z3[..]));
    StepProducts(x2, z2, x3, z3, tmp0, tmp1);
    StepCombine(x1, x2, z2, x3, z3, tmp0, tmp1);
  }

  /** The two conditional exchanges of a step. */
  method SwapBoth(x2: array<int32>, z2: array<int32>, x3: array<int32>, z3: array<int32>, b: nat)
    requires x2 != z2 && x2 != x3 && x2 != z3 && z2 != x3 && z2 != z3 && x3 != z3 && b < 2
    requires Small(x2) && Small(z2) && Small(x3) && Small(z3)
    modifies x2, z2, x3, z3
    ensures Small(x2) && Small(z2) && Small(x3) && Small(z3)
    ensures StateOf(x2[..], z2[..], x3[..], z3[..]) == Swap(b, old(StateOf(x2[..], z2[..], x3[..], z3[..])))
  {
    FeCswap(x2, x3, b);
    FeCswap(z2, z3, b);
  }

  // ---------------------------------------------------------------------------
  // Scalars.

  const TWO254: int := 0x4000000000000000000000000000000000000000000000000000000000000000
  const TWO240: int := 0x1000000000000000000000000000000000000000000000000000000000000

  /** decodeScalar25519: bits 0 to 2 and 255 cleared, bit 254 set. */
  ghost function DecodeScalar(n: nat): nat
  {
    (n - n % 8) % (TWO254) + TWO254
  }

  ghost function Pow256(n: nat): (p: nat)
    ensures p > 0
  {
    if n == 0 then 1 else 0x100 * Pow256(n - 1)
  }

  lemma {:induction false} LittleEndianAppend(s: seq<uint8>, x: uint8)
    ensures LittleEndian(s + [x]) == LittleEndian(s) + Pow256(|s|) * x as nat
    ensures LittleEndian(s) < Pow256(|s|)
  {
    if s == [] {
      assert [] + [x] == [x] && [x][1..] == [];
    } else {
      LittleEndianAppend(s[1..], x);
      assert (s + [x])[1..] == s[1..] + [x];
      assert 0x100 * (Pow256(|s| - 1) * x as nat) == Pow256(|s|) * x as nat;
    }
  }

  lemma Pow256Of30()
    ensures Pow256(30) == TWO240
  {
    assert Pow256(10) == 0x1_0000_0000_0000_0000_0000;
    assert Pow256(20) == 0x1_0000_0000_0000_0000_0000_0000_0000_0000_0000_0000;
  }

  /** Clamping the first and the last of 32 bytes. */
  lemma ClampValue(s: seq<uint8>, e: seq<uint8>)
    requires |s| == |e| == 32 && s[1..31] == e[1..31]
    requires e[0] == s[0] - s[0] % 8 && e[31] == s[31] % 64 + 64
    ensures LittleEndian(e) == DecodeScalar(LittleEndian(s))
  {
    var mid := s[1..31];
    assert s[1..] == mid + [s[31]] && e[1..] == mid + [e[31]];
    LittleEndianAppend(mid, s[31]);
    LittleEndianAppend(mid, e[31]);
    Pow256Of30();
    ClampArithmetic(s[0] as int, LittleEndian(mid), s[31] as int);
  }

  lemma ClampArithmetic(first: int, mid: int, last: int)
    requires 0 <= first < 0x100 && 0 <= mid < TWO240 && 0 <= last < 0x100
    ensures first - first % 8 + 0x100 * (mid + TWO240 * (last % 64 + 64))
         == DecodeScalar(first + 0x100 * (mid + TWO240 * last))
  {
    var low, t, q := first % 8, last % 64, last / 64;
    var x := mid + TWO240 * last;
    ModUnique(first + 0x100 * x, 8, first / 8 + 0x20 * x, low);
    ClampRange(first - low, mid, t);
    ModUnique(first + 0x100 * x - low, TWO254, q, first - low + 0x100 * (mid + TWO240 * t));
  }

  lemma ClampRange(high: int, mid: int, t: int)
    requires 0 <= high < 0x100 && 0 <= mid < TWO240 && 0 <= t < 64
    ensures 0 <= high + 0x100 * (mid + TWO240 * t) < TWO254
  {
  }

  lemma TopByte(b: uint8)
    ensures And(b as nat, 127) == (b % 128) as nat && Or((b % 128) as nat, 64) == (b % 64 + 64) as nat
  {
    hide And;
    hide Or;
    And127(b as nat);
    Or64((b % 128) as nat);
  }

  /** The clamped copy of a scalar. */
  method Clamp(scalar: array<uint8>) returns (e: array<uint8>)
    requires scalar.Length == 32
    ensures fresh(e) && e.Length == 32
    ensures LittleEndian(e[..]) == DecodeScalar(LittleEndian(scalar[..]))
  {
    e := new uint8[32];
    forall i | 0 <= i < 32 { e[i] := scalar[i]; }
    And248(e[0] as nat);
    TopByte(e[31]);
    e[0] := And(e[0] as nat, 248) as uint8;
    e[31] := And(e[31] as nat, 127) as uint8;
    e[31] := Or(e[31] as nat, 64) as uint8;
    ClampValue(scalar[..], e[..]);
  }

  lemma BitDrop(k: int, m: nat, t: nat)
    requires 0 <= k
    ensures Bit(k, m + t) == Bit(k / Pow2(m), t)
  {
    Pow2Add(m, t);
    DivDiv(k, Pow2(m), Pow2(t));
  }

  /** Bits below m of n + 2^m r are those of n. */
  lemma {:induction false} BitLow(n: nat, r: nat, m: nat, t: nat)
    requires t < m
    ensures Bit(n + Pow2(m) * r, t) == Bit(n, t)
  {
    var half := Pow2(m - 1) * r;
    assert Pow2(m) * r == 2 * half;
    if t != 0 {
      assert Pow2(1) == 2;
      BitDrop(n + 2 * half, 1, t - 1);
      BitDrop(n, 1, t - 1);
      BitLow(n / 2, r, m - 1, t - 1);
      assert (n + 2 * half) / 2 == n / 2 + half;
    }
  }

  lemma {:induction false} LittleEndianBit(s: seq<uint8>, t: nat)
    requires t < 8 * |s|
    ensures Bit(LittleEndian(s), t) == Bit(s[t / 8] as nat, t % 8)
  {
    hide Bit, Pow2;
    var n, rest := s[0] as nat, LittleEndian(s[1..]);
    Pow2Of8();
    if t < 8 {
      BitLow(n, rest, 8, t);
    } else {
      BitDrop(n + 0x100 * rest, 8, t - 8);
      assert (n + 0x100 * rest) / 0x100 == rest;
      LittleEndianBit(s[1..], t - 8);
    }
  }

  /** Bit pos of the scalar. */
  method ScalarBit(e: array<uint8>, pos: nat) returns (b: nat)
    requires pos < 8 * e.Length
    ensures b == Bit(LittleEndian(e[..]), pos)
  {
    var shifted := e[pos / 8] as int / Pow2(pos % 8);
    ShiftStaysNat(e[pos / 8] as int, pos % 8);
    And1(shifted);
    LittleEndianBit(e[..], pos);
    b := And(1, shifted);
  }

  lemma ShiftStaysNat(k: int, t: nat)
    requires 0 <= k
    ensures 0 <= k / Pow2(t)
  {
    hide Pow2;
    var d := Pow2(t);
    var q := k / d;
    assert k == d * q + k % d;
    MulGap(d, q);
  }

  lemma SwapTwice(a: nat, b: nat, s: State)
    requires a < 2 && b < 2
    ensures Swap(Xor(a, b), Swap(a, s)) == Swap(b, s) && Xor(a, b) < 2
  {
    assert Xor(0, 0) == 0 && Xor(0, 1) == 1 && Xor(1, 0) == 1 && Xor(1, 1) == 0;
  }

  /** Swaps and steps. */
  method SwapAndStep(x1: array<int32>, x2: array<int32>, z2: array<int32>, x3: array<int32>, z3: array<int32>,
                     tmp0: array<int32>, tmp1: array<int32>, swap: nat)
    requires x2 != z2 && x2 != x3 && x2 != z3 && z2 != x3 && z2 != z3 && x3 != z3
    requires tmp0 != x2 && tmp0 != z2 && tmp0 != x3 && tmp0 != z3 && tmp0 != tmp1
    requires tmp1 != x2 && tmp1 != z2 && tmp1 != x3 && tmp1 != z3
    requires x1 != x2 && x1 != z2 && x1 != x3 && x1 != z3 && x1 != tmp0 && x1 != tmp1
    requires Small(x1) && Small(x2) && Small(z2) && Small(x3) && Small(z3) && tmp0.Length == tmp1.Length == 10
    requires swap < 2
    modifies x2, z2, x3, z3, tmp0, tmp1
    ensures Small(x2) && Small(z2) && Small(x3) && Small(z3)
    ensures StateOf(x2[..], z2[..], x3[..], z3[..])
         == RfcStep(El(x1[..]), Swap(swap, old(StateOf(x2[..], z2[..], x3[..], z3[..]))))
  {
    SwapBoth(x2, z2, x3, z3, swap);
    Step(x1, x2, z2, x3, z3, tmp0, tmp1);
  }

  /** The loop over the scalar's bits with deferred swaps, from (1 : 0) and (u : 1). */
  method MontgomeryLadder(e: array<uint8>, x1: array<int32>, x2: array<int32>, z2: array<int32>,
                          x3: array<int32>, z3: array<int32>, tmp0: array<int32>, tmp1: array<int32>)
    requires x2 != z2 && x2 != x3 && x2 != z3 && z2 != x3 && z2 != z3 && x3 != z3
    requires tmp0 != x2 && tmp0 != z2 && tmp0 != x3 && tmp0 != z3 && tmp0 != tmp1
    requires tmp1 != x2 && tmp1 != z2 && tmp1 != x3 && tmp1 != z3
    requires x1 != x2 && x1 != z2 && x1 != x3 && x1 != z3 && x1 != tmp0 && x1 != tmp1
    requires Small(x1) && Small(x2) && Small(z2) && Small(x3) && Small(z3) && tmp0.Length == tmp1.Length == 10
    requires StateOf(x2[..], z2[..], x3[..], z3[..]) == State(1, 0, El(x1[..]), 1)
    requires e.Length == 32
    modifies x2, z2, x3, z3, tmp0, tmp1
    ensures Small(x2) && Small(z2) && Small(x3) && Small(z3)
    ensures StateOf(x2[..], z2[..], x3[..], z3[..]) == RfcLadder(LittleEndian(e[..]), El(x1[..]), 0)
  {
    hide Small;
    hide El;
    hide RfcStep;
    ghost var k, u := LittleEndian(e[..]), El(x1[..]);
    var swap := 0;
    var pos := 254;
    while pos >= 0
      invariant -1 <= pos <= 254 && swap < 2
      invariant Small(x2) && Small(z2) && Small(x3) && Small(z3)
      invariant RfcLadder(k, u, pos + 1) == Swap(swap, StateOf(x2[..], z2[..], x3[..], z3[..]))
    {
      var b := ScalarBit(e, pos);
      SwapTwice(swap, b, StateOf(x2[..], z2[..], x3[..], z3[..]));
      swap := Xor(swap, b);
      SwapAndStep(x1, x2, z2, x3, z3, tmp0, tmp1, swap);
      swap := b;
      pos := pos - 1;
    }
    SwapBoth(x2, z2, x3, z3, swap);
  }

  /** x1 = the decoded point, and the ladder's starting state. */
  method Start(point: array<uint8>, x1: array<int32>, x2: array<int32>, z2: array<int32>, x3: array<int32>,
        z3: array<int32>)
    requires x2 != z2 && x2 != x3 && x2 != z3 && z2 != x3 && z2 != z3 && x3 != z3
    requires x1 != x2 && x1 != z2 && x1 != x3 && x1 != z3
    requires point.Length == 32 && x1.Length == x2.Length == z2.Length == x3.Length == z3.Length == 10
    modifies x1, x2, z2, x3, z3
    ensures Small(x1) && Small(x2) && Small(z2) && Small(x3) && Small(z3)
    ensures El(x1[..]) == Res(LittleEndian(point[..]) % TWO255)
    ensures StateOf(x2[..], z2[..], x3[..], z3[..]) == State(1, 0, El(x1[..]), 1)
  {
    FeFromBytes(x1, point);
    FeConst(x2, 1);
    FeConst(z2, 0);
    FeCopy(x3, x1);
    FeConst(z3, 1);
  }

  /** out = the affine coordinate x2 / z2. */
  method Finish(out: array<uint8>, x2: array<int32>, z2: array<int32>)
    requires out.Length == 32 && x2 != z2 && Small(x2) && Small(z2)
    modifies out, x2, z2
    ensures LittleEndian(out[..]) == Mul(old(El(x2[..])), Power(old(El(z2[..])), P - 2))
  {
    FeInvert(z2, z2);
    FeMul(x2, x2, z2);
    FeToBytes(out, x2);
  }

  lemma FromLadder(k: nat, u: int)
    ensures RfcX25519(k, u) == Mul(RfcLadder(k, u, 0).x2, Power(RfcLadder(k, u, 0).z2, P - 2))
  {
  }

  /** The ladder on new elements. */
  method RunLadder(e: array<uint8>, point: array<uint8>) returns (x2: array<int32>, z2: array<int32>)
    requires e.Length == point.Length == 32
    ensures fresh(x2) && fresh(z2) && x2 != z2 && Small(x2) && Small(z2)
    ensures (var s := RfcLadder(LittleEndian(e[..]), Res(LittleEndian(point[..]) % TWO255), 0);
             El(x2[..]) == s.x2 && El(z2[..]) == s.z2)
  {
    hide Small, El, LittleEndian, RfcLadder, Res;
    x2, z2 := new int32[10], new int32[10];
    var x1, x3, z3 := new int32[10], new int32[10], new int32[10];
    var tmp0, tmp1 := new int32[10], new int32[10];
    Start(point, x1, x2, z2, x3, z3);
    MontgomeryLadder(e, x1, x2, z2, x3, z3, tmp0, tmp1);
  }

  /** out = X25519(scalar, point) of RFC 7748; out may be either input. */
  method X25519ScalarMult(out: array<uint8>, scalar: array<uint8>, point: array<uint8>)
    requires out.Length == scalar.Length == point.Length == 32
    modifies out
    ensures LittleEndian(out[..])
         == RfcX25519(DecodeScalar(old(LittleEndian(scalar[..]))), Res(old(LittleEndian(point[..])) % TWO255))
  {
    hide Small, El, LittleEndian, DecodeScalar, RfcLadder, RfcX25519, Power, Mul, Res;
    var e := Clamp(scalar);
    var x2, z2 := RunLadder(e, point);
    FromLadder(LittleEndian(e[..]), Res(LittleEndian(point[..]) % TWO255));
    Finish(out, x2, z2);
  }
}
