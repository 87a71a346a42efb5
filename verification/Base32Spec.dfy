/** Base 32 with a CRC-5 symbol after every group: what the strings mean. */
module Base32Spec {
  import opened BitOps
  import opened BitStrings
  import opened Extrema
  import opened Options

  const MAP: string := "ABCDEFGHJKLMNPQRSTUVWXYZ23456789"

  function Letter(sym: nat): char
    requires sym < 32
  {
    MAP[sym]
  }

  function Crc5Table1(i: nat): nat
  {
    match i
    case 0 => 0 case 1 => 14 case 2 => 28 case 3 => 18 case 4 => 17 case 5 => 31 case 6 => 13 case 7 => 3
    case 8 => 11 case 9 => 5 case 10 => 23 case 11 => 25 case 12 => 26 case 13 => 20 case 14 => 6 case _ => 8
  }

  function Crc5Table0(i: nat): nat
  {
    match i
    case 0 => 0 case 1 => 22 case 2 => 5 case 3 => 19 case 4 => 10 case 5 => 28 case 6 => 15 case 7 => 25
    case 8 => 20 case 9 => 2 case 10 => 17 case 11 => 7 case 12 => 30 case 13 => 8 case 14 => 27 case _ => 13
  }

  function Crc5Sym(sym: nat, previous: nat): nat
  {
    var tmp := Xor(sym, previous);
    Xor(Crc5Table1(tmp % 16), Crc5Table0(tmp / 16 % 16))
  }

  /** The symbol value of a character, or -1. */
  function DecodeSym(c: char): int
  {
    SearchMap(c, 0)
  }

  function SearchMap(c: char, i: nat): (r: int)
    requires i <= 32
    ensures r == -1 || (i <= r < 32 && MAP[r] == c)
    ensures r == -1 ==> forall k :: i <= k < 32 ==> MAP[k] != c
    decreases 32 - i
  {
    if i == 32 then -1 else if c == MAP[i] then i else SearchMap(c, i + 1)
  }

  predicate Skipped(c: char)
  {
    c == ' ' || c == '\t' || c == '\r' || c == '\n' || c == '-'
  }

  // ---------------------------------------------------------------------------
  // Encoding.

  /** The first five bits, padded with zero bits. */
  function Group(bits: seq<bool>): (g: seq<bool>)
    ensures |g| == 5
  {
    if |bits| >= 5 then bits[..5] else bits + seq(5 - |bits|, _ => false)
  }

  function Rest(bits: seq<bool>): seq<bool>
  {
    if |bits| >= 5 then bits[5..] else []
  }

  function Symbol(bits: seq<bool>): (s: nat)
    ensures s < 32
  {
    ToFromBits(Group(bits));
    Pow2Of5();
    FromBits(Group(bits))
  }

  function SymbolCount(n: nat): nat { (n + 4) / 5 }

  /** The characters for the bits, `count` symbols into a group with CRC `crc` so far. */
  function Encode(bits: seq<bool>, every: nat, crc: nat, count: nat): (s: string)
    requires crc < 32
    decreases |bits|
  {
    if bits == [] then []
    else
      var sym := Symbol(bits);
      CrcBound(sym, crc);
      if every == 0 then [Letter(sym)] + Encode(Rest(bits), every, crc, count)
      else
        var crc' := Crc5Sym(sym, crc);
        if count + 1 == every then [Letter(sym)] + ([Letter(crc')] + Encode(Rest(bits), every, 0, 0))
        else [Letter(sym)] + Encode(Rest(bits), every, crc', count + 1)
  }

  // ---------------------------------------------------------------------------
  // Decoding.

  /** The bits that a string decodes to, at most `limit` of them; None for a bad string. */
  function Decode(s: string, every: nat, limit: nat, crc: nat, count: nat, out: seq<bool>): Option<seq<bool>>
    requires |out| <= limit
  {
    if s == [] then Finish(every, count, out)
    else if Skipped(s[0]) then Decode(s[1..], every, limit, crc, count, out)
    else
      var sym := DecodeSym(s[0]);
      if sym < 0 then None
      else if every != 0 && count == every then
        if crc != sym then None else Decode(s[1..], every, limit, 0, 0, out)
      else
        var crc', count' := if every != 0 then Crc5Sym(sym, crc) else crc, if every != 0 then count + 1 else count;
        if |out| >= limit then Finish(every, count', out)
        else Decode(s[1..], every, limit, crc', count', out + ToBits(sym, 5)[..Min(5, limit - |out|)])
  }

  function Finish(every: nat, count: nat, out: seq<bool>): Option<seq<bool>>
  {
    if every != 0 && count != 0 then None else Some(out)
  }

  // ---------------------------------------------------------------------------
  // The CRC step is one-to-one in each argument.

  /** Xor with 22 = 10110 in binary flips bits 1, 2 and 4. */
  function Flip22(a: nat): int
  {
    a + (if a / 2 % 2 == 0 then 2 else -2) + (if a / 4 % 2 == 0 then 4 else -4) + (if a / 16 == 0 then 16 else -16)
  }

  lemma Xor22(a: nat)
    requires a < 32
    ensures Xor(a, 22) == Flip22(a)
  {
    hide Xor, Flip22;
    var x0, x1, x2, x3, x4 := FiveBits(a);
    XorBits(a, x0, x1, x2, x3, x4);
    FlipBits(a, x0, x1, x2, x3, x4);
  }

  lemma FiveBits(a: nat) returns (x0: nat, x1: nat, x2: nat, x3: nat, x4: nat)
    requires a < 32
    ensures x0 < 2 && x1 < 2 && x2 < 2 && x3 < 2 && x4 < 2
    ensures a == x0 + 2 * (x1 + 2 * (x2 + 2 * (x3 + 2 * x4)))
  {
    x0, x1, x2, x3, x4 := a % 2, a / 2 % 2, a / 4 % 2, a / 8 % 2, a / 16;
  }

  lemma XorCons(s: nat, x: nat, a: nat, t: nat, y: nat, b: nat)
    requires s == x + 2 * a && t == y + 2 * b && x < 2 && y < 2
    ensures Xor(s, t) == 2 * Xor(a, b) + (if x == y then 0 else 1)
  {
    assert s / 2 == a && t / 2 == b && s % 2 == x && t % 2 == y;
  }

  /** 22 has the bits 0, 1, 1, 0, 1, lowest first. */
  lemma XorBits(a: nat, x0: nat, x1: nat, x2: nat, x3: nat, x4: nat)
    requires a == x0 + 2 * (x1 + 2 * (x2 + 2 * (x3 + 2 * x4)))
    requires x0 < 2 && x1 < 2 && x2 < 2 && x3 < 2 && x4 < 2
    ensures Xor(a, 22) == x0 + 2 * ((1 - x1) + 2 * ((1 - x2) + 2 * (x3 + 2 * (1 - x4))))
  {
    var d := x3 + 2 * x4;
    var c := x2 + 2 * d;
    var b := x1 + 2 * c;
    hide Xor;
    XorNone();
    XorCons(x4, x4, 0, 1, 1, 0);
    XorCons(d, x3, x4, 2, 0, 1);
    XorCons(c, x2, d, 5, 1, 2);
    XorCons(b, x1, c, 11, 1, 5);
    XorCons(a, x0, b, 22, 0, 11);
  }

  lemma XorNone()
    ensures Xor(0, 0) == 0
  {
  }

  lemma FlipBits(a: nat, x0: nat, x1: nat, x2: nat, x3: nat, x4: nat)
    requires a == x0 + 2 * (x1 + 2 * (x2 + 2 * (x3 + 2 * x4)))
    requires x0 < 2 && x1 < 2 && x2 < 2 && x3 < 2 && x4 < 2
    ensures Flip22(a) == x0 + 2 * ((1 - x1) + 2 * ((1 - x2) + 2 * (x3 + 2 * (1 - x4))))
  {
    assert a / 2 == x1 + 2 * (x2 + 2 * (x3 + 2 * x4)) && a / 4 == x2 + 2 * (x3 + 2 * x4) && a / 16 == x4;
  }

  /** Both tables combined. */
  function Crc5(t: nat): int
  {
    if t < 16 then Crc5Table1(t) else Flip22(Crc5Table1(t - 16))
  }

  function Crc5Inverse(i: int): nat
  {
    match i
    case 0 => 0 case 1 => 26 case 2 => 29 case 3 => 7 case 4 => 19 case 5 => 9 case 6 => 14 case 7 => 20
    case 8 => 15 case 9 => 21 case 10 => 18 case 11 => 8 case 12 => 28 case 13 => 6 case 14 => 1 case 15 => 27
    case 16 => 30 case 17 => 4 case 18 => 3 case 19 => 25 case 20 => 13 case 21 => 23 case 22 => 16 case 23 => 10
    case 24 => 17 case 25 => 11 case 26 => 12 case 27 => 22 case 28 => 2 case 29 => 24 case 30 => 31 case _ => 5
  }

  lemma Crc5SymIsTable(sym: nat, crc: nat)
    requires sym < 32 && crc < 32
    ensures Xor(sym, crc) < 32 && Crc5Sym(sym, crc) == Crc5(Xor(sym, crc))
  {
    hide Xor, Crc5Table1, Crc5Table0, Flip22, Pow2;
    Pow2Of5();
    XorBound(5, sym, crc);
    TableValues(Xor(sym, crc) % 16);
    CombinedTable(Xor(sym, crc));
  }

  lemma CombinedTable(t: nat)
    requires t < 32
    ensures Xor(Crc5Table1(t % 16), Crc5Table0(t / 16 % 16)) == Crc5(t)
  {
    hide Xor, Crc5Table1, Crc5Table0, Flip22;
    if t < 16 {
      assert t % 16 == t && t / 16 % 16 == 0;
      TableValues(t);
      XorZero(Crc5Table1(t));
    } else {
      assert t % 16 == t - 16 && t / 16 % 16 == 1;
      TableValues(t - 16);
      Xor22(Crc5Table1(t - 16));
    }
  }

  lemma TableValues(i: nat)
    ensures Crc5Table1(i) < 32 && Crc5Table0(0) == 0 && Crc5Table0(1) == 22
  {
  }

  lemma Crc5IsPermutation(t: nat)
    requires t < 32
    ensures 0 <= Crc5(t) < 32 && Crc5Inverse(Crc5(t)) == t
  {
    hide Crc5, Crc5Inverse;
    if t < 16 { PermutesLow(t); } else { PermutesHigh(t); }
  }

  lemma PermutesLow(t: nat)
    requires t < 16
    ensures 0 <= Crc5(t) < 32 && Crc5Inverse(Crc5(t)) == t
  {
  }

  lemma PermutesHigh(t: nat)
    requires 16 <= t < 32
    ensures 0 <= Crc5(t) < 32 && Crc5Inverse(Crc5(t)) == t
  {
  }

  // ---------------------------------------------------------------------------
  // The CRC step is division.

  /** One bit of reflected division by x^5 + x^3 + 1. */
  function Divide5(t: nat): nat
  {
    if t % 2 == 1 then Xor(t / 2, 20) else t / 2
  }

  function Divide5x2(t: nat): nat { Divide5(Divide5(t)) }
  function Divide5x4(t: nat): nat { Divide5x2(Divide5x2(t)) }
  function Divide5x8(t: nat): nat { Divide5x4(Divide5x4(t)) }

  /** 20 has the bits 0, 0, 1, 0, 1, lowest first. */
  lemma XorBits20(a: nat, x0: nat, x1: nat, x2: nat, x3: nat)
    requires a == x0 + 2 * (x1 + 2 * (x2 + 2 * x3)) && x0 < 2 && x1 < 2 && x2 < 2 && x3 < 2
    ensures Xor(a, 20) == x0 + 2 * (x1 + 2 * ((1 - x2) + 2 * (x3 + 2 * 1)))
  {
    var c := x2 + 2 * x3;
    var b := x1 + 2 * c;
    hide Xor;
    XorNone();
    XorCons(0, 0, 0, 1, 1, 0);
    XorCons(x3, x3, 0, 2, 0, 1);
    XorCons(c, x2, x3, 5, 1, 2);
    XorCons(b, x1, c, 10, 0, 5);
    XorCons(a, x0, b, 20, 0, 10);
  }

  lemma FourBits(a: nat) returns (x0: nat, x1: nat, x2: nat, x3: nat)
    requires a < 16
    ensures a == x0 + 2 * (x1 + 2 * (x2 + 2 * x3)) && x0 < 2 && x1 < 2 && x2 < 2 && x3 < 2 && x2 == a / 4 % 2
  {
    x0, x1, x2, x3 := a % 2, a / 2 % 2, a / 4 % 2, a / 8;
  }

  lemma Xor20(a: nat)
    requires a < 16
    ensures Xor(a, 20) == 16 + (if a / 4 % 2 == 0 then a + 4 else a - 4)
  {
    hide Xor;
    var x0, x1, x2, x3 := FourBits(a);
    XorBits20(a, x0, x1, x2, x3);
  }

  lemma Divide5Is(t: nat)
    requires t < 32
    ensures Divide5(t) == if t % 2 == 0 then t / 2 else 16 + (if t / 8 % 2 == 0 then t / 2 + 4 else t / 2 - 4)
  {
    if t % 2 == 1 {
      hide Xor;
      Xor20(t / 2);
    }
  }

  lemma Divide5x2From0()
    ensures Divide5x2(0) == 0
    ensures Divide5x2(1) == 10
    ensures Divide5x2(2) == 20
    ensures Divide5x2(3) == 30
    ensures Divide5x2(4) == 1
    ensures Divide5x2(5) == 11
    ensures Divide5x2(6) == 21
    ensures Divide5x2(7) == 31
  {
    hide Divide5;
    Divide5Is(0);
    Divide5Is(1);
    Divide5Is(2);
    Divide5Is(3);
    Divide5Is(4);
    Divide5Is(5);
    Divide5Is(6);
    Divide5Is(7);
    Divide5Is(20);
    Divide5Is(21);
    Divide5Is(22);
    Divide5Is(23);
  }

  lemma Divide5x2From8()
    ensures Divide5x2(8) == 2
    ensures Divide5x2(9) == 8
    ensures Divide5x2(10) == 22
    ensures Divide5x2(11) == 28
    ensures Divide5x2(12) == 3
    ensures Divide5x2(13) == 9
    ensures Divide5x2(14) == 23
    ensures Divide5x2(15) == 29
  {
    hide Divide5;
    Divide5Is(4);
    Divide5Is(5);
    Divide5Is(6);
    Divide5Is(7);
    Divide5Is(8);
    Divide5Is(9);
    Divide5Is(10);
    Divide5Is(11);
    Divide5Is(12);
    Divide5Is(13);
    Divide5Is(14);
    Divide5Is(15);
    Divide5Is(16);
    Divide5Is(17);
    Divide5Is(18);
    Divide5Is(19);
  }

  lemma Divide5x2From16()
    ensures Divide5x2(16) == 4
    ensures Divide5x2(17) == 14
    ensures Divide5x2(18) == 16
    ensures Divide5x2(19) == 26
    ensures Divide5x2(20) == 5
    ensures Divide5x2(21) == 15
    ensures Divide5x2(22) == 17
    ensures Divide5x2(23) == 27
  {
    hide Divide5;
    Divide5Is(8);
    Divide5Is(9);
    Divide5Is(10);
    Divide5Is(11);
    Divide5Is(16);
    Divide5Is(17);
    Divide5Is(18);
    Divide5Is(19);
    Divide5Is(20);
    Divide5Is(21);
    Divide5Is(22);
    Divide5Is(23);
    Divide5Is(28);
    Divide5Is(29);
    Divide5Is(30);
    Divide5Is(31);
  }

  lemma Divide5x2From24()
    ensures Divide5x2(24) == 6
    ensures Divide5x2(25) == 12
    ensures Divide5x2(26) == 18
    ensures Divide5x2(27) == 24
    ensures Divide5x2(28) == 7
    ensures Divide5x2(29) == 13
    ensures Divide5x2(30) == 19
    ensures Divide5x2(31) == 25
  {
    hide Divide5;
    Divide5Is(12);
    Divide5Is(13);
    Divide5Is(14);
    Divide5Is(15);
    Divide5Is(24);
    Divide5Is(25);
    Divide5Is(26);
    Divide5Is(27);
    Divide5Is(28);
    Divide5Is(29);
    Divide5Is(30);
    Divide5Is(31);
  }

  lemma Divide5x4From0()
    ensures Divide5x4(0) == 0
    ensures Divide5x4(1) == 22
    ensures Divide5x4(2) == 5
    ensures Divide5x4(3) == 19
    ensures Divide5x4(4) == 10
    ensures Divide5x4(5) == 28
    ensures Divide5x4(6) == 15
    ensures Divide5x4(7) == 25
  {
    hide Divide5x2;
    Divide5x2From0();
    Divide5x2From8();
    Divide5x2From16();
    Divide5x2From24();
  }

  lemma Divide5x4From8()
    ensures Divide5x4(8) == 20
    ensures Divide5x4(9) == 2
    ensures Divide5x4(10) == 17
    ensures Divide5x4(11) == 7
    ensures Divide5x4(12) == 30
    ensures Divide5x4(13) == 8
    ensures Divide5x4(14) == 27
    ensures Divide5x4(15) == 13
  {
    hide Divide5x2;
    Divide5x2From0();
    Divide5x2From8();
    Divide5x2From16();
    Divide5x2From24();
  }

  lemma Divide5x4From16()
    ensures Divide5x4(16) == 1
    ensures Divide5x4(17) == 23
    ensures Divide5x4(18) == 4
    ensures Divide5x4(19) == 18
    ensures Divide5x4(20) == 11
    ensures Divide5x4(21) == 29
    ensures Divide5x4(22) == 14
    ensures Divide5x4(23) == 24
  {
    hide Divide5x2;
    Divide5x2From0();
    Divide5x2From8();
    Divide5x2From16();
    Divide5x2From24();
  }

  lemma Divide5x4From24()
    ensures Divide5x4(24) == 21
    ensures Divide5x4(25) == 3
    ensures Divide5x4(26) == 16
    ensures Divide5x4(27) == 6
    ensures Divide5x4(28) == 31
    ensures Divide5x4(29) == 9
    ensures Divide5x4(30) == 26
    ensures Divide5x4(31) == 12
  {
    hide Divide5x2;
    Divide5x2From0();
    Divide5x2From8();
    Divide5x2From16();
    Divide5x2From24();
  }

  lemma Divide5x8From0()
    ensures Divide5x8(0) == 0
    ensures Divide5x8(1) == 14
    ensures Divide5x8(2) == 28
    ensures Divide5x8(3) == 18
    ensures Divide5x8(4) == 17
    ensures Divide5x8(5) == 31
    ensures Divide5x8(6) == 13
    ensures Divide5x8(7) == 3
  {
    hide Divide5x4;
    Divide5x4From0();
    Divide5x4From8();
    Divide5x4From16();
    Divide5x4From24();
  }

  lemma Divide5x8From8()
    ensures Divide5x8(8) == 11
    ensures Divide5x8(9) == 5
    ensures Divide5x8(10) == 23
    ensures Divide5x8(11) == 25
    ensures Divide5x8(12) == 26
    ensures Divide5x8(13) == 20
    ensures Divide5x8(14) == 6
    ensures Divide5x8(15) == 8
  {
    hide Divide5x4;
    Divide5x4From0();
    Divide5x4From8();
    Divide5x4From16();
    Divide5x4From24();
  }

  lemma Divide5x8From16()
    ensures Divide5x8(16) == 22
    ensures Divide5x8(17) == 24
    ensures Divide5x8(18) == 10
    ensures Divide5x8(19) == 4
    ensures Divide5x8(20) == 7
    ensures Divide5x8(21) == 9
    ensures Divide5x8(22) == 27
    ensures Divide5x8(23) == 21
  {
    hide Divide5x4;
    Divide5x4From0();
    Divide5x4From8();
    Divide5x4From16();
    Divide5x4From24();
  }

  lemma Divide5x8From24()
    ensures Divide5x8(24) == 29
    ensures Divide5x8(25) == 19
    ensures Divide5x8(26) == 1
    ensures Divide5x8(27) == 15
    ensures Divide5x8(28) == 12
    ensures Divide5x8(29) == 2
    ensures Divide5x8(30) == 16
    ensures Divide5x8(31) == 30
  {
    hide Divide5x4;
    Divide5x4From0();
    Divide5x4From8();
    Divide5x4From16();
    Divide5x4From24();
  }

  /** The CRC of a symbol is eight bits of division, of symbol and CRC so far. */
  lemma Crc5IsDivision(sym: nat, crc: nat)
    requires sym < 32 && crc < 32
    ensures Xor(sym, crc) < 32 && Crc5Sym(sym, crc) == Divide5x8(Xor(sym, crc))
  {
    hide Crc5Sym, Xor, Crc5;
    Crc5SymIsTable(sym, crc);
    Crc5Divides(Xor(sym, crc));
  }

  lemma Crc5Divides(t: nat)
    requires t < 32
    ensures Crc5(t) == Divide5x8(t)
  {
    hide Divide5x8;
    if t < 8 {
      Divide5x8From0();
    } else if t < 16 {
      Divide5x8From8();
    } else if t < 24 {
      Divide5x8From16();
    } else {
      Divide5x8From24();
    }
  }

  lemma CrcBound(sym: nat, crc: nat)
    requires sym < 32 && crc < 32
    ensures Crc5Sym(sym, crc) < 32
  {
    Crc5SymIsTable(sym, crc);
    Crc5IsPermutation(Xor(sym, crc));
  }

  /** If exactly one of symbol and CRC so far differs, the CRCs after it differ. */
  lemma CrcSeparates(s: nat, c: nat, t: nat, d: nat)
    requires s < 32 && c < 32 && t < 32 && d < 32
    requires (s == t && c != d) || (s != t && c == d)
    ensures Crc5Sym(s, c) != Crc5Sym(t, d)
  {
    hide Crc5Sym, Crc5, Crc5Inverse, Xor;
    XorCancel(s, c);
    XorCancel(t, d);
    Crc5SymIsTable(s, c);
    Crc5SymIsTable(t, d);
    Crc5IsPermutation(Xor(s, c));
    Crc5IsPermutation(Xor(t, d));
  }
}
