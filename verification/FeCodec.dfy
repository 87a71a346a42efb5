/** fe_frombytes and fe_tobytes: 32 little-endian bytes to and from limbs. */
module FeCodec {
  import opened MachineInts
  import opened BitOps
  import opened Field25519
  import opened Limbs
  import opened FeMultiply
  import opened FeSmall

  const TWO255: int := 0x8000_0000_0000_0000_0000_0000_0000_0000_0000_0000_0000_0000_0000_0000_0000_0000

  /** The integer that bytes represent, least significant byte first. */
  ghost function LittleEndian(s: seq<uint8>): nat
  {
    if s == [] then 0 else s[0] as nat + 0x100 * LittleEndian(s[1..])
  }

  ghost function Le3(s: seq<uint8>, i: nat): nat
    requires i + 3 <= |s|
  {
    s[i] as nat + 0x100 * s[i + 1] as nat + 0x1_0000 * s[i + 2] as nat
  }

  ghost function Le4(s: seq<uint8>, i: nat): nat
    requires i + 4 <= |s|
  {
    Le3(s, i) + 0x100_0000 * s[i + 3] as nat
  }

  lemma LittleEndianDrop(s: seq<uint8>, i: nat)
    requires i < |s|
    ensures LittleEndian(s[i..]) == s[i] as nat + 0x100 * LittleEndian(s[i + 1..])
  {
    assert s[i..][1..] == s[i + 1..];
  }

  lemma LittleEndianDrop3(s: seq<uint8>, i: nat)
    requires i + 3 <= |s|
    ensures LittleEndian(s[i..]) == Le3(s, i) + 0x100_0000 * LittleEndian(s[i + 3..])
  {
    LittleEndianDrop(s, i);
    LittleEndianDrop(s, i + 1);
    LittleEndianDrop(s, i + 2);
  }

  lemma LittleEndianDrop4(s: seq<uint8>, i: nat)
    requires i + 4 <= |s|
    ensures LittleEndian(s[i..]) == Le4(s, i) + 0x1_0000_0000 * LittleEndian(s[i + 4..])
  {
    LittleEndianDrop3(s, i);
    LittleEndianDrop(s, i + 3);
  }

  method Load3(s: array<uint8>, i: nat) returns (r: int64)
    requires i + 3 <= s.Length
    ensures r as int == Le3(s[..], i)
  {
    var x: nat, y: nat, z: nat := s[i] as nat, s[i + 1] as nat, s[i + 2] as nat;
    assert Pow2(4) == 16;
    Pow2Add(4, 4);
    Pow2Add(8, 8);
    OrDisjoint(8, x, y);
    OrDisjoint(16, x + y * 0x100, z);
    r := Or(Or(x, y * 0x100), z * 0x1_0000) as int64;
  }

  method Load4(s: array<uint8>, i: nat) returns (r: int64)
    requires i + 4 <= s.Length
    ensures r as int == Le4(s[..], i)
  {
    var low := Load3(s, i);
    var w: nat := s[i + 3] as nat;
    assert Pow2(4) == 16;
    Pow2Add(4, 4);
    Pow2Add(8, 8);
    Pow2Add(16, 8);
    OrDisjoint(24, low as nat, w);
    r := Or(low as nat, w * 0x100_0000) as int64;
  }

  /** The ten limbs cut out of 32 bytes, the top bit ignored. */
  ghost function Cut(s: seq<uint8>): Limbs
    requires |s| == 32
  {
    Limbs(Le4(s, 0), 0x40 * Le3(s, 4), 0x20 * Le3(s, 7), 8 * Le3(s, 10), 4 * Le3(s, 13),
          Le4(s, 16), 0x80 * Le3(s, 20), 0x20 * Le3(s, 23), 0x10 * Le3(s, 26), 4 * (Le3(s, 29) % 0x80_0000))
  }

  lemma CutValue(s: seq<uint8>)
    requires |s| == 32
    ensures Radix(Cut(s)) == LittleEndian(s) % TWO255
  {
    hide Radix, Le3, Le4, LittleEndian, LowChunks;
    ChunkBounds(s);
    ChunkSum(s);
    var a0, a1, a2, a3, a4 := Le4(s, 0), Le3(s, 4), Le3(s, 7), Le3(s, 10), Le3(s, 13);
    var a5, a6, a7, a8, a9 := Le4(s, 16), Le3(s, 20), Le3(s, 23), Le3(s, 26), Le3(s, 29);
    CutRadix(a0, a1, a2, a3, a4, a5, a6, a7, a8, a9 % 0x80_0000);
    LowChunksBound(a0, a1, a2, a3, a4, a5, a6, a7, a8);
    CutTop(LowChunks(a0, a1, a2, a3, a4, a5, a6, a7, a8), a9);
  }

  /** The bytes as the sum of their ten chunks. */
  lemma ChunkSum(s: seq<uint8>)
    requires |s| == 32
    ensures LittleEndian(s)
         == LowChunks(Le4(s, 0), Le3(s, 4), Le3(s, 7), Le3(s, 10), Le3(s, 13),
                      Le4(s, 16), Le3(s, 20), Le3(s, 23), Le3(s, 26)) + TWO232 * Le3(s, 29)
  {
    assert s[0..] == s;
    assert LittleEndian(s[32..]) == 0;
    hide LittleEndian, Le3, Le4, LowChunks;
    LittleEndianDrop4(s, 0);
    LittleEndianDrop3(s, 4);
    LittleEndianDrop3(s, 7);
    LittleEndianDrop3(s, 10);
    LittleEndianDrop3(s, 13);
    LittleEndianDrop4(s, 16);
    LittleEndianDrop3(s, 20);
    LittleEndianDrop3(s, 23);
    LittleEndianDrop3(s, 26);
    LittleEndianDrop3(s, 29);
    CutHorner(Le4(s, 0), Le3(s, 4), Le3(s, 7), Le3(s, 10), Le3(s, 13),
              Le4(s, 16), Le3(s, 20), Le3(s, 23), Le3(s, 26), Le3(s, 29));
  }

  lemma ChunkBounds(s: seq<uint8>)
    ensures forall i: nat :: i + 3 <= |s| ==> Le3(s, i) < 0x100_0000
    ensures forall i: nat :: i + 4 <= |s| ==> Le4(s, i) < 0x1_0000_0000
  {
  }

  /** The nine lower chunks, of 232 bits together. */
  ghost function LowChunks(a0: nat, a1: nat, a2: nat, a3: nat, a4: nat, a5: nat, a6: nat, a7: nat, a8: nat): nat
  {
    a0 + 0x1_0000_0000 * (a1 + 0x100_0000 * (a2 + 0x100_0000 * (a3 + 0x100_0000 * (a4 + 0x100_0000 *
    (a5 + 0x1_0000_0000 * (a6 + 0x100_0000 * (a7 + 0x100_0000 * a8)))))))
  }

  const TWO232: int := 0x100_0000_0000_0000_0000_0000_0000_0000_0000_0000_0000_0000_0000_0000_0000

  lemma LowChunksBound(a0: nat, a1: nat, a2: nat, a3: nat, a4: nat, a5: nat, a6: nat, a7: nat, a8: nat)
    requires a0 < 0x1_0000_0000 && a5 < 0x1_0000_0000
    requires a1 < 0x100_0000 && a2 < 0x100_0000 && a3 < 0x100_0000 && a4 < 0x100_0000
    requires a6 < 0x100_0000 && a7 < 0x100_0000 && a8 < 0x100_0000
    ensures LowChunks(a0, a1, a2, a3, a4, a5, a6, a7, a8) < TWO232
  {
  }

  lemma CutRadix(a0: nat, a1: nat, a2: nat, a3: nat, a4: nat, a5: nat, a6: nat, a7: nat, a8: nat, top: nat)
    ensures Radix(Limbs(a0, 0x40 * a1, 0x20 * a2, 8 * a3, 4 * a4, a5, 0x80 * a6, 0x20 * a7, 0x10 * a8, 4 * top))
         == LowChunks(a0, a1, a2, a3, a4, a5, a6, a7, a8) + TWO232 * top
  {
  }

  lemma CutHorner(a0: nat, a1: nat, a2: nat, a3: nat, a4: nat, a5: nat, a6: nat, a7: nat, a8: nat, a9: nat)
    ensures a0 + 0x1_0000_0000 * (a1 + 0x100_0000 * (a2 + 0x100_0000 * (a3 + 0x100_0000 * (a4 + 0x100_0000 *
            (a5 + 0x1_0000_0000 * (a6 + 0x100_0000 * (a7 + 0x100_0000 * (a8 + 0x100_0000 * a9))))))))
         == LowChunks(a0, a1, a2, a3, a4, a5, a6, a7, a8) + TWO232 * a9
  {
  }

  /** Dropping the top bit of 256. */
  lemma CutTop(low: nat, a9: nat)
    requires low < TWO232
    ensures (low + TWO232 * a9) % TWO255 == low + TWO232 * (a9 % 0x80_0000)
  {
    var q, top := a9 / 0x80_0000, a9 % 0x80_0000;
    assert low + TWO232 * a9 == TWO255 * q + (low + TWO232 * top);
    ModUnique(low + TWO232 * a9, TWO255, q, low + TWO232 * top);
  }

  method LoadLimbs(s: array<uint8>)
    returns (h0: int64, h1: int64, h2: int64, h3: int64, h4: int64,
             h5: int64, h6: int64, h7: int64, h8: int64, h9: int64)
    requires s.Length == 32
    ensures OfWide(h0, h1, h2, h3, h4, h5, h6, h7, h8, h9) == Cut(s[..])
  {
    h0 := Load4(s, 0);
    h1 := Load3(s, 4); h1 := h1 * 0x40;
    h2 := Load3(s, 7); h2 := h2 * 0x20;
    h3 := Load3(s, 10); h3 := h3 * 8;
    h4 := Load3(s, 13); h4 := h4 * 4;
    h5 := Load4(s, 16);
    h6 := Load3(s, 20); h6 := h6 * 0x80;
    h7 := Load3(s, 23); h7 := h7 * 0x20;
    h8 := Load3(s, 26); h8 := h8 * 0x10;
    h9 := Load3(s, 29); h9 := h9 % 0x80_0000 * 4;
  }

  /** h = the bytes of s as an integer modulo 2^255, then modulo P. */
  method FeFromBytes(h: array<int32>, s: array<uint8>)
    requires h.Length == 10 && s.Length == 32
    modifies h
    ensures Bounded(Of(h[..]), E055, O055)
    ensures El(h[..]) == Res(LittleEndian(s[..]) % TWO255)
  {
    var h0, h1, h2, h3, h4, h5, h6, h7, h8, h9 := LoadLimbs(s);
    CutValue(s[..]);
    h0, h1, h2, h3, h4, h5, h6, h7, h8, h9 := ReduceParallel(h0, h1, h2, h3, h4, h5, h6, h7, h8, h9);
    Store(h, h0, h1, h2, h3, h4, h5, h6, h7, h8, h9);
  }

  /** floor((value + q) / 2^255), one limb at a time. */
  method FloorChain(h: array<int32>, start: int32) returns (q: int32)
    requires h.Length == 10 && Bounded(Of(h[..]), E110, O110) && -0x100 <= start <= 0x100
    ensures TWO255 * q as int <= Radix(Of(h[..])) + start as int < TWO255 * (q as int + 1)
  {
    q := (h[0] + start) / 0x400_0000;
    q := (h[1] + q) / 0x200_0000;
    q := (h[2] + q) / 0x400_0000;
    q := (h[3] + q) / 0x200_0000;
    q := (h[4] + q) / 0x400_0000;
    q := (h[5] + q) / 0x200_0000;
    q := (h[6] + q) / 0x400_0000;
    q := (h[7] + q) / 0x200_0000;
    q := (h[8] + q) / 0x400_0000;
    q := (h[9] + q) / 0x200_0000;
  }

  /** The rounded estimate is the exact quotient floor(value / P). */
  lemma QuotientIsExact(h: Limbs, q0: int, q: int)
    requires Bounded(h, E110, O110)
    requires q0 == (19 * h.l9 + 0x100_0000) / 0x200_0000
    requires TWO255 * q <= Radix(h) + q0 < TWO255 * (q + 1)
    ensures 0 <= Radix(h) - q * P < P && -2 <= q <= 1
  {
    var t := Radix(h) / P;
    var r := Radix(h) - t * P;
    RadixWithin(h);
    hide Radix, Bounded;
    assert 0 <= r < P;
    EstimateOff(Radix(h), h.l9, q0, t, r);
    assert r - 19 * t == Radix(h) - TWO255 * t;
    assert q == t;
  }

  /** Limbs within the bounds whose value is below -P, with quotient -2. */
  lemma QuotientMinusTwo(h: Limbs)
    requires h == Limbs(0, 0, 0, 0, 0, 0, 0, 0, 0, -36909875)
    ensures Bounded(h, E110, O110) && Radix(h) < -P && Radix(h) / P == -2
  {
    assert Radix(h) == -36909875 * 0x40_0000_0000_0000_0000_0000_0000_0000_0000_0000_0000_0000_0000_0000_0000;
    assert -2 * P <= Radix(h) < -P;
  }

  /** The value in terms of its top limb. */
  lemma RadixWithin(h: Limbs)
    requires Bounded(h, E110, O110)
    ensures -2 * P <= Radix(h) < 2 * P
    ensures (var gap := Radix(h) - 0x40_0000_0000_0000_0000_0000_0000_0000_0000_0000_0000_0000_0000_0000_0000 * h.l9;
             -TOP < gap < TOP)
  {
  }

  const TOP: int := 0x80_0000_0000_0000_0000_0000_0000_0000_0000_0000_0000_0000_0000_0000_0000

  /** How far the estimate from the top limb is off. */
  lemma EstimateOff(value: int, l9: int, q0: int, t: int, r: int)
    requires -2 * P <= value < 2 * P && 0 <= r < P && value == t * P + r
    requires q0 == (19 * l9 + 0x100_0000) / 0x200_0000
    requires (var gap := value - 0x40_0000_0000_0000_0000_0000_0000_0000_0000_0000_0000_0000_0000_0000_0000 * l9;
              -TOP < gap < TOP)
    ensures -2 <= t <= 1 && 0 <= r - 19 * t + q0 < TWO255
  {
    assert -2 <= t <= 1;
  }

  ghost predicate Digits(h: Limbs)
  {
    && 0 <= h.l0 < 0x400_0000 && 0 <= h.l2 < 0x400_0000 && 0 <= h.l4 < 0x400_0000
    && 0 <= h.l6 < 0x400_0000 && 0 <= h.l8 < 0x400_0000
    && 0 <= h.l1 < 0x200_0000 && 0 <= h.l3 < 0x200_0000 && 0 <= h.l5 < 0x200_0000
    && 0 <= h.l7 < 0x200_0000 && 0 <= h.l9 < 0x200_0000
  }

  ghost function Of32(h0: int32, h1: int32, h2: int32, h3: int32, h4: int32,
                      h5: int32, h6: int32, h7: int32, h8: int32, h9: int32): Limbs
  {
    Limbs(h0 as int, h1 as int, h2 as int, h3 as int, h4 as int,
          h5 as int, h6 as int, h7 as int, h8 as int, h9 as int)
  }

  /** `h >> 26` and `h & kBottom26Bits`. */
  method Split26(h: int32) returns (c: int32, low: int32)
    ensures h as int == c as int * 0x400_0000 + low as int && 0 <= low < 0x400_0000
  {
    c, low := h / 0x400_0000, h % 0x400_0000;
  }

  /** `h >> 25` and `h & kBottom25Bits`. */
  method Split25(h: int32) returns (c: int32, low: int32)
    ensures h as int == c as int * 0x200_0000 + low as int && 0 <= low < 0x200_0000
  {
    c, low := h / 0x200_0000, h % 0x200_0000;
  }

  /** Adds 19 q and carries once through the limbs; c is the carry out of the top. */
  method Freeze(h: array<int32>, q: int32)
    returns (h0: int32, h1: int32, h2: int32, h3: int32, h4: int32,
             h5: int32, h6: int32, h7: int32, h8: int32, h9: int32, c: int32)
    requires h.Length == 10 && Bounded(Of(h[..]), E110, O110) && -2 <= q <= 1
    ensures Digits(Of32(h0, h1, h2, h3, h4, h5, h6, h7, h8, h9))
    ensures Radix(Of32(h0, h1, h2, h3, h4, h5, h6, h7, h8, h9)) + TWO255 * c as int
         == Radix(Of(h[..])) + 19 * q as int
  {
    h0, h1, h2, h3, h4, h5, h6, h7, h8, h9 := h[0], h[1], h[2], h[3], h[4], h[5], h[6], h[7], h[8], h[9];
    h0 := h0 + 19 * q;
    c, h0 := Split26(h0); h1 := h1 + c;
    c, h1 := Split25(h1); h2 := h2 + c;
    c, h2 := Split26(h2); h3 := h3 + c;
    c, h3 := Split25(h3); h4 := h4 + c;
    c, h4 := Split26(h4); h5 := h5 + c;
    c, h5 := Split25(h5); h6 := h6 + c;
    c, h6 := Split26(h6); h7 := h7 + c;
    c, h7 := Split25(h7); h8 := h8 + c;
    c, h8 := Split26(h8); h9 := h9 + c;
    c, h9 := Split25(h9);
  }

  /** The top carry equals q, so dropping it leaves value - q P. */
  lemma TopCarryIsQuotient(value: int, q: int, h: Limbs, c: int)
    requires 0 <= value - q * P < P && Digits(h)
    requires Radix(h) + TWO255 * c == value + 19 * q
    ensures Radix(h) == Res(value)
  {
    DigitsBelow(h);
    hide Radix, Digits;
    NoTurn(Radix(h), value - q * P, q - c);
    ResShift(value, Radix(h), q);
  }

  lemma DigitsBelow(h: Limbs)
    requires Digits(h)
    ensures 0 <= Radix(h) < TWO255
  {
  }

  lemma NoTurn(a: int, b: int, turns: int)
    requires 0 <= a < TWO255 && 0 <= b < TWO255 && a == b + TWO255 * turns
    ensures a == b
  {
  }

  lemma DivUnique(h: int, d: int, q: int)
    requires 0 < d && d * q <= h < d * q + d
    ensures h / d == q
  {
    var t := h / d;
    if t < q {
      MulLe(t + 1, q, d);
    } else if q < t {
      MulLe(q + 1, t, d);
    }
  }

  /** Dividing by d and then by e is dividing by d * e. */
  lemma DivDiv(h: int, d: int, e: int)
    requires 0 <= h && 0 < d && 0 < e
    ensures 0 < d * e && h / (d * e) == h / d / e
  {
    var x := h / d;
    var y := x / e;
    MulLe(1, d, e);
    MulLe(x - e * y, e - 1, d);
    MulLe(0, x - e * y, d);
    assert d * x == (d * e) * y + d * (x - e * y);
    assert d * (e - 1) == d * e - d;
    DivUnique(h, d * e, y);
  }

  function Byte(x: int): (b: uint8) { (x % 0x100) as uint8 }

  /** The byte that holds the top bits of one limb and, n bits up, the low bits of the next. */
  function Join(high: int, next: int, n: nat): (b: uint8)
    requires 0 <= high && 0 <= next
  {
    (Or(high, next * Pow2(n)) % 0x100) as uint8
  }

  lemma JoinArithmetic(high: int, x: int, m: int, k: int)
    requires 0 < m && 0 < k && m * k == 0x100 && 0 <= high < m && 0 <= x
    ensures (high + x * m) % 0x100 == high + m * (x % k)
  {
    var y, t := x / k, x % k;
    MulLe(t, k - 1, m);
    MulLe(0, t, m);
    assert m * (k - 1) == 0x100 - m;
    assert x * m == (m * k) * y + m * t;
  }

  lemma JoinValue(high: int, next: int, n: nat, k: int)
    requires 0 <= high < Pow2(n) && 0 <= next && 0 < k && Pow2(n) * k == 0x100
    ensures Join(high, next, n) as int == high + Pow2(n) * (next % k)
  {
    OrDisjoint(n, high, next);
    JoinArithmetic(high, next, Pow2(n), k);
  }

  lemma BytesOf(x: int)
    requires 0 <= x
    ensures x == Byte(x) as int + 0x100 * Byte(x / 0x100) as int + 0x1_0000 * (x / 0x1_0000)
  {
  }

  /** Shifting by log2(d) and then by 8 or 16 more. */
  lemma Shifts(h: int, d: int)
    requires 0 <= h && 0 < d
    ensures h / (0x100 * d) == h / d / 0x100 && h / (0x1_0000 * d) == h / d / 0x1_0000
    ensures d * (h / d) == h - h % d
  {
    DivDiv(h, d, 0x100);
    DivDiv(h, d, 0x1_0000);
  }

  /** Three bytes: the bits of h above log2(d), then the low bits of the next limb. */
  function Chunk(h: int, d: int, next: int, n: nat): (b: (uint8, uint8, uint8))
    requires 0 <= h && 0 < d && 0 <= next
  {
    Shifts(h, d);
    (Byte(h / d), Byte(h / (0x100 * d)), Join(h / (0x1_0000 * d), next, n))
  }

  ghost function Value3(b: (uint8, uint8, uint8)): nat
  {
    b.0 as nat + 0x100 * b.1 as nat + 0x1_0000 * b.2 as nat
  }

  /** The bytes, times d, exceed the limb by the low bits that moved across. */
  lemma ChunkValue(h: int, d: int, next: int, n: nat, k: int)
    requires 0 <= h && 0 < d && 0 <= next
    requires 0 < k && Pow2(n) * k == 0x100 && h / (0x1_0000 * d) < Pow2(n)
    ensures d * Value3(Chunk(h, d, next, n)) == h - h % d + 0x1_0000 * (d * (Pow2(n) * (next % k)))
  {
    Shifts(h, d);
    var x, low := h / d, Pow2(n) * (next % k);
    BytesOf(x);
    JoinValue(x / 0x1_0000, next, n, k);
    ScaledSum(d, x, low);
  }

  lemma ScaledSum(d: int, x: int, low: int)
    ensures d * (x + 0x1_0000 * low) == d * x + 0x1_0000 * (d * low)
  {
  }

  function Seq3(b: (uint8, uint8, uint8)): seq<uint8> { [b.0, b.1, b.2] }

  lemma LittleEndianSeq3(b: (uint8, uint8, uint8), rest: seq<uint8>)
    ensures LittleEndian(Seq3(b) + rest) == Value3(b) + 0x100_0000 * LittleEndian(rest)
  {
    var t := Seq3(b) + rest;
    LittleEndianDrop3(t, 0);
    assert t[0..] == t && t[3..] == rest;
  }

  /** Five limbs as 16 bytes, in front of other bytes; the last limb has no successor. */
  function Half(h0: int, d1: int, h1: int, d2: int, h2: int, d3: int, h3: int, d4: int, h4: int,
                      n0: nat, n1: nat, n2: nat, n3: nat, rest: seq<uint8>): (b: seq<uint8>)
    requires 0 <= h0 && 0 <= h1 && 0 <= h2 && 0 <= h3 && 0 <= h4 && 0 < d1 && 0 < d2 && 0 < d3 && 0 < d4
    ensures |b| == 16 + |rest|
  {
    [Byte(h0)] + (Seq3(Chunk(h0, 0x100, h1, n0)) + (Seq3(Chunk(h1, d1, h2, n1)) + (Seq3(Chunk(h2, d2, h3, n2))
    + (Seq3(Chunk(h3, d3, h4, n3)) + (Seq3(Chunk(h4, d4, 0, 8)) + rest)))))
  }

  lemma HalfFolds(b: uint8, c0: (uint8, uint8, uint8), c1: (uint8, uint8, uint8), c2: (uint8, uint8, uint8),
                  c3: (uint8, uint8, uint8), c4: (uint8, uint8, uint8), rest: seq<uint8>)
    ensures LittleEndian([b] + (Seq3(c0) + (Seq3(c1) + (Seq3(c2) + (Seq3(c3) + (Seq3(c4) + rest))))))
         == b as int + 0x100 * (Value3(c0) + 0x100_0000 * (Value3(c1) + 0x100_0000 * (Value3(c2)
          + 0x100_0000 * (Value3(c3) + 0x100_0000 * (Value3(c4) + 0x100_0000 * LittleEndian(rest))))))
  {
    var t4 := Seq3(c4) + rest;
    var t3 := Seq3(c3) + t4;
    var t2 := Seq3(c2) + t3;
    var t1 := Seq3(c1) + t2;
    var t0 := Seq3(c0) + t1;
    LittleEndianSeq3(c4, rest);
    LittleEndianSeq3(c3, t4);
    LittleEndianSeq3(c2, t3);
    LittleEndianSeq3(c1, t2);
    LittleEndianSeq3(c0, t1);
    assert ([b] + t0)[1..] == t0;
  }

  lemma Pow2Small()
    ensures Pow2(1) == 2 && Pow2(2) == 4 && Pow2(3) == 8 && Pow2(4) == 16 && Pow2(5) == 32 && Pow2(6) == 64
          && Pow2(8) == 256
  {
    Pow2Add(4, 4);
  }

  lemma LowHalfArithmetic(h0: int, h1: int, h2: int, h3: int, h4: int,
                          v0: int, v1: int, v2: int, v3: int, v4: int, rest: int)
    requires 0x100 * v0 == h0 - h0 % 0x100 + 0x1_0000 * (0x100 * (4 * (h1 % 0x40)))
    requires 0x40 * v1 == h1 - h1 % 0x40 + 0x1_0000 * (0x40 * (8 * (h2 % 0x20)))
    requires 0x20 * v2 == h2 - h2 % 0x20 + 0x1_0000 * (0x20 * (32 * (h3 % 8)))
    requires 8 * v3 == h3 - h3 % 8 + 0x1_0000 * (8 * (64 * (h4 % 4)))
    requires 4 * v4 == h4 - h4 % 4
    ensures h0 % 0x100 + 0x100 * (v0 + 0x100_0000 * (v1 + 0x100_0000 * (v2
              + 0x100_0000 * (v3 + 0x100_0000 * (v4 + 0x100_0000 * rest)))))
         == Radix(Limbs(h0, h1, h2, h3, h4, rest, 0, 0, 0, 0))
  {
  }

  lemma LowHalfValue(h0: int, h1: int, h2: int, h3: int, h4: int, rest: seq<uint8>)
    requires 0 <= h0 < 0x400_0000 && 0 <= h1 < 0x200_0000 && 0 <= h2 < 0x400_0000
    requires 0 <= h3 < 0x200_0000 && 0 <= h4 < 0x400_0000
    ensures LittleEndian(Half(h0, 0x40, h1, 0x20, h2, 8, h3, 4, h4, 2, 3, 5, 6, rest))
         == Radix(Limbs(h0, h1, h2, h3, h4, LittleEndian(rest), 0, 0, 0, 0))
  {
    hide Radix, Chunk, Value3, LittleEndian;
    Pow2Small();
    var c0, c1, c2 := Chunk(h0, 0x100, h1, 2), Chunk(h1, 0x40, h2, 3), Chunk(h2, 0x20, h3, 5);
    var c3, c4 := Chunk(h3, 8, h4, 6), Chunk(h4, 4, 0, 8);
    ChunkValue(h0, 0x100, h1, 2, 0x40);
    ChunkValue(h1, 0x40, h2, 3, 0x20);
    ChunkValue(h2, 0x20, h3, 5, 8);
    ChunkValue(h3, 8, h4, 6, 4);
    ChunkValue(h4, 4, 0, 8, 1);
    LowHalfArithmetic(h0, h1, h2, h3, h4, Value3(c0), Value3(c1), Value3(c2), Value3(c3), Value3(c4),
          LittleEndian(rest));
    HalfFolds(Byte(h0), c0, c1, c2, c3, c4, rest);
  }

  lemma HighHalfValue(h5: int, h6: int, h7: int, h8: int, h9: int)
    requires 0 <= h5 < 0x200_0000 && 0 <= h6 < 0x400_0000 && 0 <= h7 < 0x200_0000
    requires 0 <= h8 < 0x400_0000 && 0 <= h9 < 0x200_0000
    ensures 0x1_0000_0000_0000_0000_0000_0000_0000_0000
              * LittleEndian(Half(h5, 0x80, h6, 0x20, h7, 0x10, h8, 4, h9, 1, 3, 4, 6, []))
         == Radix(Limbs(0, 0, 0, 0, 0, h5, h6, h7, h8, h9))
  {
    hide Radix, Chunk, Value3, LittleEndian;
    Pow2Small();
    var c0, c1, c2 := Chunk(h5, 0x100, h6, 1), Chunk(h6, 0x80, h7, 3), Chunk(h7, 0x20, h8, 4);
    var c3, c4 := Chunk(h8, 0x10, h9, 6), Chunk(h9, 4, 0, 8);
    ChunkValue(h5, 0x100, h6, 1, 0x80);
    ChunkValue(h6, 0x80, h7, 3, 0x20);
    ChunkValue(h7, 0x20, h8, 4, 0x10);
    ChunkValue(h8, 0x10, h9, 6, 4);
    ChunkValue(h9, 4, 0, 8, 1);
    HighHalfArithmetic(h5, h6, h7, h8, h9, Value3(c0), Value3(c1), Value3(c2), Value3(c3), Value3(c4));
    HalfFolds(Byte(h5), c0, c1, c2, c3, c4, []);
    assert LittleEndian([]) == 0 by { NoBytes(); }
  }

  lemma NoBytes()
    ensures LittleEndian([]) == 0
  {
  }

  lemma HighHalfArithmetic(h5: int, h6: int, h7: int, h8: int, h9: int,
                           v0: int, v1: int, v2: int, v3: int, v4: int)
    requires 0x100 * v0 == h5 - h5 % 0x100 + 0x1_0000 * (0x100 * (2 * (h6 % 0x80)))
    requires 0x80 * v1 == h6 - h6 % 0x80 + 0x1_0000 * (0x80 * (8 * (h7 % 0x20)))
    requires 0x20 * v2 == h7 - h7 % 0x20 + 0x1_0000 * (0x20 * (16 * (h8 % 0x10)))
    requires 0x10 * v3 == h8 - h8 % 0x10 + 0x1_0000 * (0x10 * (64 * (h9 % 4)))
    requires 4 * v4 == h9 - h9 % 4
    ensures 0x1_0000_0000_0000_0000_0000_0000_0000_0000
              * (h5 % 0x100 + 0x100 * (v0 + 0x100_0000 * (v1 + 0x100_0000 * (v2
                  + 0x100_0000 * (v3 + 0x100_0000 * v4)))))
         == Radix(Limbs(0, 0, 0, 0, 0, h5, h6, h7, h8, h9))
  {
  }

  method PutBytes(s: array<uint8>, i: nat, b: seq<uint8>)
    requires i + |b| <= s.Length
    modifies s
    ensures s[..] == old(s[..i]) + b + old(s[i + |b|..])
  {
    forall k | 0 <= k < |b| { s[i + k] := b[k]; }
  }

  lemma HalfAppend(h0: int, d1: int, h1: int, d2: int, h2: int, d3: int, h3: int, d4: int, h4: int,
                   n0: nat, n1: nat, n2: nat, n3: nat, rest: seq<uint8>)
    requires 0 <= h0 && 0 <= h1 && 0 <= h2 && 0 <= h3 && 0 <= h4 && 0 < d1 && 0 < d2 && 0 < d3 && 0 < d4
    ensures Half(h0, d1, h1, d2, h2, d3, h3, d4, h4, n0, n1, n2, n3, []) + rest
         == Half(h0, d1, h1, d2, h2, d3, h3, d4, h4, n0, n1, n2, n3, rest)
  {
  }

  /** The limbs of the one representative in [0, P). */
  method Canonical(h: array<int32>)
    returns (h0: int32, h1: int32, h2: int32, h3: int32, h4: int32,
             h5: int32, h6: int32, h7: int32, h8: int32, h9: int32)
    requires h.Length == 10 && Bounded(Of(h[..]), E110, O110)
    ensures Digits(Of32(h0, h1, h2, h3, h4, h5, h6, h7, h8, h9))
    ensures Radix(Of32(h0, h1, h2, h3, h4, h5, h6, h7, h8, h9)) == El(h[..])
  {
    var q := (19 * h[9] + 0x100_0000) / 0x200_0000;
    ghost var q0 := q as int;
    q := FloorChain(h, q);
    QuotientIsExact(Of(h[..]), q0, q as int);
    var c;
    h0, h1, h2, h3, h4, h5, h6, h7, h8, h9, c := Freeze(h, q);
    TopCarryIsQuotient(Radix(Of(h[..])), q as int, Of32(h0, h1, h2, h3, h4, h5, h6, h7, h8, h9), c as int);
  }

  /** s = the one representative of h in [0, P), least significant byte first. */
  method FeToBytes(s: array<uint8>, h: array<int32>)
    requires s.Length == 32 && h.Length == 10 && Bounded(Of(h[..]), E110, O110)
    modifies s
    ensures LittleEndian(s[..]) == El(h[..])
  {
    var h0, h1, h2, h3, h4, h5, h6, h7, h8, h9 := Canonical(h);
    var low := Half(h0 as int, 0x40, h1 as int, 0x20, h2 as int, 8, h3 as int, 4, h4 as int, 2, 3, 5, 6, []);
    var high := Half(h5 as int, 0x80, h6 as int, 0x20, h7 as int, 0x10, h8 as int, 4, h9 as int, 1, 3, 4, 6, []);
    PutBytes(s, 0, low);
    PutBytes(s, 16, high);
    HighHalfValue(h5 as int, h6 as int, h7 as int, h8 as int, h9 as int);
    LowHalfValue(h0 as int, h1 as int, h2 as int, h3 as int, h4 as int, high);
    HalfAppend(h0 as int, 0x40, h1 as int, 0x20, h2 as int, 8, h3 as int, 4, h4 as int, 2, 3, 5, 6, high);
    assert s[..] == low + high;
  }

  /** Bytes of a given number are determined by their value. */
  lemma {:induction false} LittleEndianInjective(a: seq<uint8>, b: seq<uint8>)
    requires |a| == |b| && LittleEndian(a) == LittleEndian(b)
    ensures a == b
  {
    if a != [] {
      var x, y := LittleEndian(a[1..]), LittleEndian(b[1..]);
      FirstByte(a[0] as nat, x, b[0] as nat, y);
      LittleEndianInjective(a[1..], b[1..]);
      assert a == [a[0]] + a[1..] && b == [b[0]] + b[1..];
    }
  }

  lemma FirstByte(a: nat, x: nat, b: nat, y: nat)
    requires a < 0x100 && b < 0x100 && a + 0x100 * x == b + 0x100 * y
    ensures a == b && x == y
  {
  }

  /** Two encodings hold the same bytes exactly when they are of the same residue; and decoding an
      encoding gives back an element with that residue. */
  lemma EncodingIsCanonical(a: seq<uint8>, x: int, b: seq<uint8>, y: int)
    requires |a| == |b| == 32 && LittleEndian(a) == Res(x) && LittleEndian(b) == Res(y)
    ensures a == b <==> Res(x) == Res(y)
    ensures Res(LittleEndian(a) % TWO255) == Res(x)
  {
    hide LittleEndian;
    if Res(x) == Res(y) {
      LittleEndianInjective(a, b);
    }
    Residue(x);
  }

  lemma Residue(x: int)
    ensures 0 <= Res(x) < P < TWO255 && Res(x) % TWO255 == Res(x) && Res(Res(x)) == Res(x)
  {
  }
}
