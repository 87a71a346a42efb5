/** The CRC engines: crc32_hash by table and crc8_arg with a wide accumulator. */
module Crc {
  import opened Crc32Table

  // ---------------------------------------------------------------------------
  // CRC-32.

  /** One bit of reflected division by 0x04C11DB7. */
  function Divide32(crc: bv32): bv32
  {
    if crc & 1 == 1 then (crc >> 1) ^ 0xEDB88320 else crc >> 1
  }

  function Divide32x2(crc: bv32): bv32 { Divide32(Divide32(crc)) }
  function Divide32x4(crc: bv32): bv32 { Divide32x2(Divide32x2(crc)) }
  function Divide32x8(crc: bv32): bv32 { Divide32x4(Divide32x4(crc)) }

  lemma RowIs0(i: bv8)
    requires i < 16
    ensures Row0(i) == Divide32x8((i | 0x00) as bv32)
  {
  }

  lemma RowIs1(i: bv8)
    requires i < 16
    ensures Row1(i) == Divide32x8((i | 0x10) as bv32)
  {
  }

  lemma RowIs2(i: bv8)
    requires i < 16
    ensures Row2(i) == Divide32x8((i | 0x20) as bv32)
  {
  }

  lemma RowIs3(i: bv8)
    requires i < 16
    ensures Row3(i) == Divide32x8((i | 0x30) as bv32)
  {
  }

  lemma RowIs4(i: bv8)
    requires i < 16
    ensures Row4(i) == Divide32x8((i | 0x40) as bv32)
  {
  }

  lemma RowIs5(i: bv8)
    requires i < 16
    ensures Row5(i) == Divide32x8((i | 0x50) as bv32)
  {
  }

  lemma RowIs6(i: bv8)
    requires i < 16
    ensures Row6(i) == Divide32x8((i | 0x60) as bv32)
  {
  }

  lemma RowIs7(i: bv8)
    requires i < 16
    ensures Row7(i) == Divide32x8((i | 0x70) as bv32)
  {
  }

  lemma RowIs8(i: bv8)
    requires i < 16
    ensures Row8(i) == Divide32x8((i | 0x80) as bv32)
  {
  }

  lemma RowIs9(i: bv8)
    requires i < 16
    ensures Row9(i) == Divide32x8((i | 0x90) as bv32)
  {
  }

  lemma RowIs10(i: bv8)
    requires i < 16
    ensures Row10(i) == Divide32x8((i | 0xa0) as bv32)
  {
  }

  lemma RowIs11(i: bv8)
    requires i < 16
    ensures Row11(i) == Divide32x8((i | 0xb0) as bv32)
  {
  }

  lemma RowIs12(i: bv8)
    requires i < 16
    ensures Row12(i) == Divide32x8((i | 0xc0) as bv32)
  {
  }

  lemma RowIs13(i: bv8)
    requires i < 16
    ensures Row13(i) == Divide32x8((i | 0xd0) as bv32)
  {
  }

  lemma RowIs14(i: bv8)
    requires i < 16
    ensures Row14(i) == Divide32x8((i | 0xe0) as bv32)
  {
  }

  lemma RowIs15(i: bv8)
    requires i < 16
    ensures Row15(i) == Divide32x8((i | 0xf0) as bv32)
  {
  }

  lemma TableQuarter0(i: bv8)
    requires i >> 6 == 0
    ensures Table(i) == Divide32x8(i as bv32)
  {
    hide Row0, Row1, Row2, Row3, Row4, Row5, Row6, Row7, Row8, Row9, Row10, Row11, Row12, Row13, Row14, Row15;
    hide Divide32x8;
    var c := i & 0x0F;
    if i >> 4 == 0 {
      assert c | 0x00 == i;
      RowIs0(c);
    } else if i >> 4 == 1 {
      assert c | 0x10 == i;
      RowIs1(c);
    } else if i >> 4 == 2 {
      assert c | 0x20 == i;
      RowIs2(c);
    } else {
      assert c | 0x30 == i;
      RowIs3(c);
    }
  }

  lemma TableQuarter1(i: bv8)
    requires i >> 6 == 1
    ensures Table(i) == Divide32x8(i as bv32)
  {
    hide Row0, Row1, Row2, Row3, Row4, Row5, Row6, Row7, Row8, Row9, Row10, Row11, Row12, Row13, Row14, Row15;
    hide Divide32x8;
    var c := i & 0x0F;
    if i >> 4 == 4 {
      assert c | 0x40 == i;
      RowIs4(c);
    } else if i >> 4 == 5 {
      assert c | 0x50 == i;
      RowIs5(c);
    } else if i >> 4 == 6 {
      assert c | 0x60 == i;
      RowIs6(c);
    } else {
      assert c | 0x70 == i;
      RowIs7(c);
    }
  }

  lemma TableQuarter2(i: bv8)
    requires i >> 6 == 2
    ensures Table(i) == Divide32x8(i as bv32)
  {
    hide Row0, Row1, Row2, Row3, Row4, Row5, Row6, Row7, Row8, Row9, Row10, Row11, Row12, Row13, Row14, Row15;
    hide Divide32x8;
    var c := i & 0x0F;
    if i >> 4 == 8 {
      assert c | 0x80 == i;
      RowIs8(c);
    } else if i >> 4 == 9 {
      assert c | 0x90 == i;
      RowIs9(c);
    } else if i >> 4 == 10 {
      assert c | 0xa0 == i;
      RowIs10(c);
    } else {
      assert c | 0xb0 == i;
      RowIs11(c);
    }
  }

  lemma TableQuarter3(i: bv8)
    requires i >> 6 == 3
    ensures Table(i) == Divide32x8(i as bv32)
  {
    hide Row0, Row1, Row2, Row3, Row4, Row5, Row6, Row7, Row8, Row9, Row10, Row11, Row12, Row13, Row14, Row15;
    hide Divide32x8;
    var c := i & 0x0F;
    if i >> 4 == 12 {
      assert c | 0xc0 == i;
      RowIs12(c);
    } else if i >> 4 == 13 {
      assert c | 0xd0 == i;
      RowIs13(c);
    } else if i >> 4 == 14 {
      assert c | 0xe0 == i;
      RowIs14(c);
    } else {
      assert c | 0xf0 == i;
      RowIs15(c);
    }
  }

  /** Every entry is eight bits of division of its index. */
  lemma TableIsDivision(i: bv8)
    ensures Table(i) == Divide32x8(i as bv32)
  {
    hide Table, Divide32x8;
    if i >> 6 == 0 {
      TableQuarter0(i);
    } else if i >> 6 == 1 {
      TableQuarter1(i);
    } else if i >> 6 == 2 {
      TableQuarter2(i);
    } else {
      TableQuarter3(i);
    }
  }

  /** Hashing bit by bit: the bytes are added in from below, one at a time. */
  ghost function Hash32(crc: bv32, data: seq<bv8>): bv32
  {
    if data == [] then crc
    else Divide32x8(Hash32(crc, data[..|data| - 1]) ^ (data[|data| - 1] as bv32))
  }

  /** Exclusive or under a name, so that proofs can leave it closed. */
  function X(a: bv32, b: bv32): bv32 { a ^ b }

  lemma DivideIsLinear11(a: bv32, b: bv32)
    requires a & 1 == 1 && b & 1 == 1
    ensures Divide32(X(a, b)) == X(Divide32(a), Divide32(b))
  {
  }

  lemma DivideIsLinear10(a: bv32, b: bv32)
    requires a & 1 == 1 && b & 1 != 1
    ensures Divide32(X(a, b)) == X(Divide32(a), Divide32(b))
  {
  }

  lemma DivideIsLinear01(a: bv32, b: bv32)
    requires a & 1 != 1 && b & 1 == 1
    ensures Divide32(X(a, b)) == X(Divide32(a), Divide32(b))
  {
  }

  lemma DivideIsLinear00(a: bv32, b: bv32)
    requires a & 1 != 1 && b & 1 != 1
    ensures Divide32(X(a, b)) == X(Divide32(a), Divide32(b))
  {
  }

  lemma DivideIsLinear(a: bv32, b: bv32)
    ensures Divide32(X(a, b)) == X(Divide32(a), Divide32(b))
  {
    hide Divide32, X;
    if a & 1 == 1 {
      if b & 1 == 1 { DivideIsLinear11(a, b); } else { DivideIsLinear10(a, b); }
    } else {
      if b & 1 == 1 { DivideIsLinear01(a, b); } else { DivideIsLinear00(a, b); }
    }
  }

  lemma DivideIsLinearx2(a: bv32, b: bv32)
    ensures Divide32x2(X(a, b)) == X(Divide32x2(a), Divide32x2(b))
  {
    hide Divide32, X;
    DivideIsLinear(a, b);
    DivideIsLinear(Divide32(a), Divide32(b));
  }

  lemma DivideIsLinearx4(a: bv32, b: bv32)
    ensures Divide32x4(X(a, b)) == X(Divide32x4(a), Divide32x4(b))
  {
    hide Divide32x2, X;
    DivideIsLinearx2(a, b);
    DivideIsLinearx2(Divide32x2(a), Divide32x2(b));
  }

  lemma DivideIsLinearx8(a: bv32, b: bv32)
    ensures Divide32x8(X(a, b)) == X(Divide32x8(a), Divide32x8(b))
  {
    hide Divide32x4, X;
    DivideIsLinearx4(a, b);
    DivideIsLinearx4(Divide32x4(a), Divide32x4(b));
  }

  /** With eight zero bits below, dividing is shifting. */
  lemma DivideShifts(x: bv32)
    requires x & 0xFF == 0
    ensures Divide32x8(x) == x >> 8
  {
  }

  lemma SplitWord(crc: bv32)
    ensures X(crc & 0xFF, crc & 0xFFFF_FF00) == crc
  {
  }

  lemma HighPart(crc: bv32)
    ensures (crc & 0xFFFF_FF00) & 0xFF == 0 && (crc & 0xFFFF_FF00) >> 8 == crc >> 8
  {
  }

  lemma LowByte(crc: bv32)
    ensures ((crc & 0xFF) as bv8) as bv32 == crc & 0xFF
  {
  }

  /** One step of the table form: the division is linear, so the low byte can be looked up
      and the rest shifted. */
  lemma TableStep(crc: bv32)
    ensures X(Table((crc & 0xFF) as bv8), crc >> 8) == Divide32x8(crc)
  {
    hide Table, Divide32x8, X;
    LowByte(crc);
    TableIsDivision((crc & 0xFF) as bv8);
    SplitWord(crc);
    HighPart(crc);
    DivideIsLinearx8(crc & 0xFF, crc & 0xFFFF_FF00);
    DivideShifts(crc & 0xFFFF_FF00);
  }

  /** crc32_hash: the table form computes the bit-by-bit hash. */
  method Crc32Hash(start: bv32, buf: seq<bv8>) returns (crc: bv32)
    ensures crc == Hash32(start, buf)
  {
    hide Table, Divide32x8;
    crc := start;
    var i := 0;
    while i < |buf|
      invariant 0 <= i <= |buf| && crc == Hash32(start, buf[..i])
    {
      crc := crc ^ (buf[i] as bv32);
      TableStep(crc);
      crc := Table((crc & 0xFF) as bv8) ^ (crc >> 8);
      assert buf[..i + 1][..i] == buf[..i];
      i := i + 1;
    }
    assert buf[..i] == buf;
  }

  lemma {:induction false} Hash32Concat(crc: bv32, a: seq<bv8>, b: seq<bv8>)
    ensures Hash32(crc, a + b) == Hash32(Hash32(crc, a), b)
  {
    if b == [] {
      assert a + b == a;
    } else {
      hide Divide32x8;
      assert (a + b)[..|a + b| - 1] == a + b[..|b| - 1];
      Hash32Concat(crc, a, b[..|b| - 1]);
    }
  }

  // The bytes of a value in memory, least significant first.
  function Low(val: bv16): bv8 { (val & 0xFF) as bv8 }
  function High(val: bv16): bv8 { (val >> 8) as bv8 }
  function LowHalf(val: bv32): bv16 { (val & 0xFFFF) as bv16 }
  function HighHalf(val: bv32): bv16 { (val >> 16) as bv16 }

  /** Low byte first, as the numbers that they are. */
  lemma BytesOfWord(val: bv16)
    ensures val == (Low(val) as bv16) + 0x100 * (High(val) as bv16)
  {
  }

  lemma HalvesOfWord(val: bv32)
    ensures val == (LowHalf(val) as bv32) + 0x1_0000 * (HighHalf(val) as bv32)
  {
  }

  lemma HashTwo(crc: bv32, a: bv8, b: bv8)
    ensures Hash32(crc, [a, b]) == Hash32(Hash32(crc, [a]), [b])
  {
    hide Hash32;
    Hash32Concat(crc, [a], [b]);
    assert [a] + [b] == [a, b];
  }

  lemma HashFour(crc: bv32, a: bv8, b: bv8, c: bv8, d: bv8)
    ensures Hash32(crc, [a, b, c, d]) == Hash32(Hash32(Hash32(Hash32(crc, [a]), [b]), [c]), [d])
  {
    hide Hash32;
    Hash32Concat(crc, [a, b], [c, d]);
    assert [a, b] + [c, d] == [a, b, c, d];
    HashTwo(crc, a, b);
    HashTwo(Hash32(crc, [a, b]), c, d);
  }

  /** A CRC-32 accumulator. */
  class Context {
    var crc: bv32

    constructor ()
      ensures crc == 0xFFFF_FFFF
    {
      crc := 0xFFFF_FFFF;
    }

    method Hash8(val: bv8)
      modifies this
      ensures crc == Hash32(old(crc), [val])
    {
      crc := Crc32Hash(crc, [val]);
    }

    /** Hashing a 16-bit value is hashing its two bytes one after the other. */
    method Hash16(val: bv16)
      modifies this
      ensures crc == Hash32(Hash32(old(crc), [Low(val)]), [High(val)])
    {
      hide Hash32, Low, High;
      HashTwo(crc, Low(val), High(val));
      crc := Crc32Hash(crc, [Low(val), High(val)]);
    }

    /** Hashing a 32-bit value is hashing its four bytes one after the other. */
    method HashWord(val: bv32)
      modifies this
      ensures (var low, high := LowHalf(val), HighHalf(val);
               crc == Hash32(Hash32(Hash32(Hash32(old(crc), [Low(low)]), [High(low)]), [Low(high)]), [High(high)]))
    {
      hide Hash32, Low, High, LowHalf, HighHalf;
      var low, high := LowHalf(val), HighHalf(val);
      HashFour(crc, Low(low), High(low), Low(high), High(high));
      crc := Crc32Hash(crc, [Low(low), High(low), Low(high), High(high)]);
    }

    method Result() returns (r: bv32)
      ensures r == crc ^ 0xFFFF_FFFF
    {
      r := crc ^ 0xFFFF_FFFF;
    }
  }

  // ---------------------------------------------------------------------------
  // CRC-8.

  /** One bit of division by x^8 + x^2 + x + 1. */
  function Divide8(crc: bv8): bv8
  {
    if crc & 0x80 == 0x80 then (crc << 1) ^ 0x07 else crc << 1
  }

  function Divide8x8(crc: bv8): bv8
  {
    Divide8(Divide8(Divide8(Divide8(Divide8(Divide8(Divide8(Divide8(crc))))))))
  }

  function Mix(crc: bv8, byte: bv8): bv8 { crc ^ byte }

  /** The 8-bit CRC of a byte string, continued from crc. */
  ghost function Crc8(crc: bv8, data: seq<bv8>): bv8
    decreases |data|
  {
    if data == [] then crc else Crc8(Divide8x8(Mix(crc, data[0])), data[1..])
  }

  /** The wide accumulator holds the CRC in bits 8 to 15, zeros below and anything above. */
  ghost predicate Holds(wide: bv32, crc: bv8)
  {
    wide & 0xFFFF == (crc as bv32) << 8
  }

  /** One bit on the wide accumulator; nothing is masked off above bit 15. */
  method WideStep(wide: bv32, ghost c: bv8) returns (crc: bv32)
    requires Holds(wide, c)
    ensures Holds(crc, Divide8(c))
  {
    crc := wide;
    if crc & 0x8000 != 0 {
      crc := crc ^ (0x1070 << 3);
    }
    crc := crc << 1;
  }

  method WideMix(wide: bv32, byte: bv8, ghost c: bv8) returns (crc: bv32)
    requires Holds(wide, c)
    ensures Holds(crc, Mix(c, byte))
  {
    crc := wide ^ ((byte as bv32) << 8);
  }

  method WideStart(previous: bv8) returns (crc: bv32)
    ensures Holds(crc, previous)
  {
    crc := (previous as bv32) << 8;
  }

  method WideResult(wide: bv32, ghost c: bv8) returns (r: bv8)
    requires Holds(wide, c)
    ensures r == c
  {
    r := ((wide >> 8) & 0xFF) as bv8;
  }

  ghost function Divide8n(crc: bv8, n: nat): bv8
  {
    if n == 0 then crc else Divide8(Divide8n(crc, n - 1))
  }

  lemma Divide8nIs8(crc: bv8)
    ensures Divide8n(crc, 8) == Divide8x8(crc)
  {
    hide Divide8;
    assert Divide8n(crc, 1) == Divide8(crc);
    assert Divide8n(crc, 3) == Divide8(Divide8(Divide8n(crc, 1)));
    assert Divide8n(crc, 5) == Divide8(Divide8(Divide8n(crc, 3)));
    assert Divide8n(crc, 7) == Divide8(Divide8(Divide8n(crc, 5)));
  }

  /** The inner loop of crc8_arg. */
  method ShiftEight(wide: bv32, ghost c: bv8) returns (crc: bv32)
    requires Holds(wide, c)
    ensures Holds(crc, Divide8x8(c))
  {
    hide Divide8, Holds, Divide8x8;
    crc := wide;
    var i := 0;
    while i < 8
      invariant 0 <= i <= 8 && Holds(crc, Divide8n(c, i))
    {
      crc := WideStep(crc, Divide8n(c, i));
      i := i + 1;
    }
    Divide8nIs8(c);
  }

  /** crc8_arg: the unmasked accumulator computes the 8-bit CRC. */
  method Crc8Arg(data: seq<bv8>, previous: bv8) returns (r: bv8)
    ensures r == Crc8(previous, data)
  {
    hide Holds, Divide8x8, Mix;
    var crc := WideStart(previous);
    ghost var c := previous;
    var j := 0;
    while j < |data|
      invariant 0 <= j <= |data| && Holds(crc, c) && Crc8(c, data[j..]) == Crc8(previous, data)
    {
      crc := WideMix(crc, data[j], c);
      crc := ShiftEight(crc, Mix(c, data[j]));
      assert data[j..][0] == data[j] && data[j..][1..] == data[j + 1..];
      c := Divide8x8(Mix(c, data[j]));
      j := j + 1;
    }
    r := WideResult(crc, c);
  }

  // ---------------------------------------------------------------------------
  // Laws of the 8-bit CRC.

  lemma {:induction false} Crc8Concat(crc: bv8, a: seq<bv8>, b: seq<bv8>)
    ensures Crc8(crc, a + b) == Crc8(Crc8(crc, a), b)
    decreases |a|
  {
    hide Divide8x8, Mix;
    if a == [] {
      assert a + b == b;
    } else {
      assert (a + b)[1..] == a[1..] + b;
      Crc8Concat(Divide8x8(Mix(crc, a[0])), a[1..], b);
    }
  }

  lemma MixSelf(c: bv8)
    ensures Divide8x8(Mix(c, c)) == 0
  {
  }

  /** Data followed by its own CRC has CRC zero. */
  lemma CrcOfDataAndCrc(crc: bv8, data: seq<bv8>)
    ensures Crc8(crc, data + [Crc8(crc, data)]) == 0
  {
    hide Divide8x8, Mix;
    var c := Crc8(crc, data);
    Crc8Concat(crc, data, [c]);
    MixSelf(c);
    assert Crc8(c, [c]) == Crc8(Divide8x8(Mix(c, c)), [c][1..]);
  }

  lemma Divide8Separates(a: bv8, b: bv8)
    ensures Divide8(a) == Divide8(b) ==> a == b
  {
  }

  lemma Divide8x8Separates(a: bv8, b: bv8)
    ensures Divide8x8(a) == Divide8x8(b) ==> a == b
  {
    hide Divide8;
    var a1, b1 := Divide8(a), Divide8(b);
    var a2, b2 := Divide8(a1), Divide8(b1);
    var a3, b3 := Divide8(a2), Divide8(b2);
    var a4, b4 := Divide8(a3), Divide8(b3);
    var a5, b5 := Divide8(a4), Divide8(b4);
    var a6, b6 := Divide8(a5), Divide8(b5);
    Divide8Separates(Divide8(a6), Divide8(b6));
    Divide8Separates(a6, b6);
    Divide8Separates(a5, b5);
    Divide8Separates(a4, b4);
    Divide8Separates(a3, b3);
    Divide8Separates(a2, b2);
    Divide8Separates(a1, b1);
    Divide8Separates(a, b);
  }

  lemma MixSeparates(c: bv8, d: bv8, x: bv8)
    ensures Mix(c, x) == Mix(d, x) ==> c == d
    ensures Mix(x, c) == Mix(x, d) ==> c == d
  {
  }

  /** Different CRCs stay different over the same data. */
  lemma {:induction false} Crc8Separates(c: bv8, d: bv8, data: seq<bv8>)
    requires c != d
    ensures Crc8(c, data) != Crc8(d, data)
    decreases |data|
  {
    hide Divide8x8, Mix;
    if data != [] {
      MixSeparates(c, d, data[0]);
      Divide8x8Separates(Mix(c, data[0]), Mix(d, data[0]));
      Crc8Separates(Divide8x8(Mix(c, data[0])), Divide8x8(Mix(d, data[0])), data[1..]);
    }
  }

  /** Changing one byte changes the CRC. */
  lemma {:induction false} OneByteIsCaught(crc: bv8, data: seq<bv8>, i: nat, b: bv8)
    requires i < |data| && data[i] != b
    ensures Crc8(crc, data[i := b]) != Crc8(crc, data)
    decreases |data|
  {
    hide Divide8x8, Mix;
    if i == 0 {
      assert data[0 := b][1..] == data[1..];
      MixSeparates(b, data[0], crc);
      Divide8x8Separates(Mix(crc, b), Mix(crc, data[0]));
      Crc8Separates(Divide8x8(Mix(crc, b)), Divide8x8(Mix(crc, data[0])), data[1..]);
    } else {
      assert data[i := b][1..] == data[1..][i - 1 := b];
      OneByteIsCaught(Divide8x8(Mix(crc, data[0])), data[1..], i - 1, b);
    }
  }

  /** Data with one more byte has CRC zero exactly when that byte is the data's CRC. */
  lemma ZeroMeansCrc(crc: bv8, data: seq<bv8>, last: bv8)
    ensures Crc8(crc, data + [last]) == 0 <==> last == Crc8(crc, data)
  {
    hide Crc8;
    var c := Crc8(crc, data);
    CrcOfDataAndCrc(crc, data);
    if last != c {
      var good := data + [c];
      assert good[|data| := last] == data + [last];
      OneByteIsCaught(crc, good, |data|, last);
    }
  }

  lemma Divide8Linear11(a: bv8, b: bv8)
    requires a & 0x80 == 0x80 && b & 0x80 == 0x80
    ensures Divide8(Mix(a, b)) == Mix(Divide8(a), Divide8(b))
  {
  }

  lemma Divide8Linear10(a: bv8, b: bv8)
    requires a & 0x80 == 0x80 && b & 0x80 != 0x80
    ensures Divide8(Mix(a, b)) == Mix(Divide8(a), Divide8(b))
  {
  }

  lemma Divide8Linear01(a: bv8, b: bv8)
    requires a & 0x80 != 0x80 && b & 0x80 == 0x80
    ensures Divide8(Mix(a, b)) == Mix(Divide8(a), Divide8(b))
  {
  }

  lemma Divide8Linear00(a: bv8, b: bv8)
    requires a & 0x80 != 0x80 && b & 0x80 != 0x80
    ensures Divide8(Mix(a, b)) == Mix(Divide8(a), Divide8(b))
  {
  }

  lemma Divide8Linear(a: bv8, b: bv8)
    ensures Divide8(Mix(a, b)) == Mix(Divide8(a), Divide8(b))
  {
    hide Divide8, Mix;
    if a & 0x80 == 0x80 {
      if b & 0x80 == 0x80 { Divide8Linear11(a, b); } else { Divide8Linear10(a, b); }
    } else {
      if b & 0x80 == 0x80 { Divide8Linear01(a, b); } else { Divide8Linear00(a, b); }
    }
  }

  lemma Divide8x8Linear(a: bv8, b: bv8)
    ensures Divide8x8(Mix(a, b)) == Mix(Divide8x8(a), Divide8x8(b))
  {
    hide Divide8, Mix;
    var a1, b1 := Divide8(a), Divide8(b);
    var a2, b2 := Divide8(a1), Divide8(b1);
    var a3, b3 := Divide8(a2), Divide8(b2);
    var a4, b4 := Divide8(a3), Divide8(b3);
    var a5, b5 := Divide8(a4), Divide8(b4);
    var a6, b6 := Divide8(a5), Divide8(b5);
    Divide8Linear(a, b);
    Divide8Linear(a1, b1);
    Divide8Linear(a2, b2);
    Divide8Linear(a3, b3);
    Divide8Linear(a4, b4);
    Divide8Linear(a5, b5);
    Divide8Linear(a6, b6);
    Divide8Linear(Divide8(a6), Divide8(b6));
  }

  lemma MixMix(c: bv8, d: bv8, x: bv8, y: bv8)
    ensures Mix(Mix(c, d), Mix(x, y)) == Mix(Mix(c, x), Mix(d, y))
  {
    hide Mix;
    MixAssociates(c, d, Mix(x, y));
    MixAssociates(d, x, y);
    MixCommutes(d, x);
    MixAssociates(x, d, y);
    MixAssociates(c, x, Mix(d, y));
  }

  lemma MixAssociates(a: bv8, b: bv8, c: bv8)
    ensures Mix(Mix(a, b), c) == Mix(a, Mix(b, c))
  {
  }

  lemma MixCommutes(a: bv8, b: bv8)
    ensures Mix(a, b) == Mix(b, a)
  {
  }

  /** Byte-wise exclusive or. */
  ghost function MixAll(a: seq<bv8>, b: seq<bv8>): seq<bv8>
    requires |a| == |b|
  {
    if a == [] then [] else [Mix(a[0], b[0])] + MixAll(a[1..], b[1..])
  }

  /** The CRC is linear over data of one length. */
  lemma {:induction false} Crc8Linear(c: bv8, d: bv8, a: seq<bv8>, b: seq<bv8>)
    requires |a| == |b|
    ensures Crc8(Mix(c, d), MixAll(a, b)) == Mix(Crc8(c, a), Crc8(d, b))
    decreases |a|
  {
    hide Divide8x8, Mix;
    if a != [] {
      assert MixAll(a, b)[1..] == MixAll(a[1..], b[1..]);
      MixMix(c, d, a[0], b[0]);
      Divide8x8Linear(Mix(c, a[0]), Mix(d, b[0]));
      Crc8Linear(Divide8x8(Mix(c, a[0])), Divide8x8(Mix(d, b[0])), a[1..], b[1..]);
    }
  }

  // ---------------------------------------------------------------------------
  // Known values.

  lemma Crc8Next(c: bv8, b: bv8, n: bv8, rest: seq<bv8>)
    requires Divide8x8(Mix(c, b)) == n
    ensures Crc8(c, [b] + rest) == Crc8(n, rest)
  {
    assert ([b] + rest)[1..] == rest;
    hide Divide8x8, Mix;
  }

  lemma SevenBytesSteps()
    ensures Divide8x8(Mix(0x00, 0x00)) == 0x00
    ensures Divide8x8(Mix(0x00, 0x00)) == 0x00
    ensures Divide8x8(Mix(0x00, 0x0b)) == 0x31
    ensures Divide8x8(Mix(0x31, 0x00)) == 0x97
    ensures Divide8x8(Mix(0x97, 0x00)) == 0xec
    ensures Divide8x8(Mix(0xec, 0x01)) == 0x8d
    ensures Divide8x8(Mix(0x8d, 0x01)) == 0xad
  {
  }

  /** Bytes 4 to 10 of a small board information image. */
  lemma SevenBytes(data: seq<bv8>)
    requires data == [0x00, 0x00, 0x0b, 0x00, 0x00, 0x01, 0x01]
    ensures Crc8(0, data) == 0xad
  {
    hide Divide8x8, Mix;
    SevenBytesSteps();
    Crc8Next(0x00, 0x00, 0x00, data[1..]);
    assert data[0..] == [0x00] + data[1..];
    Crc8Next(0x00, 0x00, 0x00, data[2..]);
    assert data[1..] == [0x00] + data[2..];
    Crc8Next(0x00, 0x0b, 0x31, data[3..]);
    assert data[2..] == [0x0b] + data[3..];
    Crc8Next(0x31, 0x00, 0x97, data[4..]);
    assert data[3..] == [0x00] + data[4..];
    Crc8Next(0x97, 0x00, 0xec, data[5..]);
    assert data[4..] == [0x00] + data[5..];
    Crc8Next(0xec, 0x01, 0x8d, data[6..]);
    assert data[5..] == [0x01] + data[6..];
    Crc8Next(0x8d, 0x01, 0xad, data[7..]);
    assert data[6..] == [0x01] + data[7..];
    assert data[7..] == [];
  }

  lemma CheckValue8Steps()
    ensures Divide8x8(Mix(0x00, 0x31)) == 0x97
    ensures Divide8x8(Mix(0x97, 0x32)) == 0x72
    ensures Divide8x8(Mix(0x72, 0x33)) == 0xc0
    ensures Divide8x8(Mix(0xc0, 0x34)) == 0xc2
    ensures Divide8x8(Mix(0xc2, 0x35)) == 0xcb
    ensures Divide8x8(Mix(0xcb, 0x36)) == 0xfd
    ensures Divide8x8(Mix(0xfd, 0x37)) == 0x78
    ensures Divide8x8(Mix(0x78, 0x38)) == 0xc7
    ensures Divide8x8(Mix(0xc7, 0x39)) == 0xf4
  {
  }

  /** The check value of this CRC, over the characters 1 to 9. */
  lemma CheckValue8(data: seq<bv8>)
    requires data == [0x31, 0x32, 0x33, 0x34, 0x35, 0x36, 0x37, 0x38, 0x39]
    ensures Crc8(0, data) == 0xf4
  {
    hide Divide8x8, Mix;
    CheckValue8Steps();
    Crc8Next(0x00, 0x31, 0x97, data[1..]);
    assert data[0..] == [0x31] + data[1..];
    Crc8Next(0x97, 0x32, 0x72, data[2..]);
    assert data[1..] == [0x32] + data[2..];
    Crc8Next(0x72, 0x33, 0xc0, data[3..]);
    assert data[2..] == [0x33] + data[3..];
    Crc8Next(0xc0, 0x34, 0xc2, data[4..]);
    assert data[3..] == [0x34] + data[4..];
    Crc8Next(0xc2, 0x35, 0xcb, data[5..]);
    assert data[4..] == [0x35] + data[5..];
    Crc8Next(0xcb, 0x36, 0xfd, data[6..]);
    assert data[5..] == [0x36] + data[6..];
    Crc8Next(0xfd, 0x37, 0x78, data[7..]);
    assert data[6..] == [0x37] + data[7..];
    Crc8Next(0x78, 0x38, 0xc7, data[8..]);
    assert data[7..] == [0x38] + data[8..];
    Crc8Next(0xc7, 0x39, 0xf4, data[9..]);
    assert data[8..] == [0x39] + data[9..];
    assert data[9..] == [];
  }

  lemma Hash32Next(c: bv32, data: seq<bv8>, b: bv8, a: bv32, n: bv32)
    requires Hash32(c, data) == a && Divide32x8(X(a, b as bv32)) == n
    ensures Hash32(c, data + [b]) == n
  {
    assert (data + [b])[..|data|] == data;
    hide Divide32x8;
  }

  lemma CheckValue32Steps()
    ensures Divide32x8(X(0xffffffff, 0x31)) == 0x7c231048
    ensures Divide32x8(X(0x7c231048, 0x32)) == 0xb0acbb32
    ensures Divide32x8(X(0xb0acbb32, 0x33)) == 0x77b79c2d
    ensures Divide32x8(X(0x77b79c2d, 0x34)) == 0x641c1f5c
    ensures Divide32x8(X(0x641c1f5c, 0x35)) == 0x340ac5e3
    ensures Divide32x8(X(0x340ac5e3, 0x36)) == 0xf68d2c9e
    ensures Divide32x8(X(0xf68d2c9e, 0x37)) == 0xaffc9660
    ensures Divide32x8(X(0xaffc9660, 0x38)) == 0x651f2550
    ensures Divide32x8(X(0x651f2550, 0x39)) == 0x340bc6d9
  {
  }

  /** The check value of CRC-32, over the characters 1 to 9, with the initial value and the final
      inversion that the context gives. */
  lemma CheckValue32(data: seq<bv8>)
    requires data == [0x31, 0x32, 0x33, 0x34, 0x35, 0x36, 0x37, 0x38, 0x39]
    ensures Hash32(0xFFFF_FFFF, data) ^ 0xFFFF_FFFF == 0xCBF4_3926
  {
    hide Divide32x8, X;
    CheckValue32Steps();
    assert Hash32(0xFFFF_FFFF, data[..0]) == 0xFFFF_FFFF;
    hide Hash32;
    assert data[..1] == data[..0] + [0x31] && 0x31 as bv8 as bv32 == 0x31;
    Hash32Next(0xFFFF_FFFF, data[..0], 0x31, 0xffffffff, 0x7c231048);
    assert data[..2] == data[..1] + [0x32] && 0x32 as bv8 as bv32 == 0x32;
    Hash32Next(0xFFFF_FFFF, data[..1], 0x32, 0x7c231048, 0xb0acbb32);
    assert data[..3] == data[..2] + [0x33] && 0x33 as bv8 as bv32 == 0x33;
    Hash32Next(0xFFFF_FFFF, data[..2], 0x33, 0xb0acbb32, 0x77b79c2d);
    assert data[..4] == data[..3] + [0x34] && 0x34 as bv8 as bv32 == 0x34;
    Hash32Next(0xFFFF_FFFF, data[..3], 0x34, 0x77b79c2d, 0x641c1f5c);
    assert data[..5] == data[..4] + [0x35] && 0x35 as bv8 as bv32 == 0x35;
    Hash32Next(0xFFFF_FFFF, data[..4], 0x35, 0x641c1f5c, 0x340ac5e3);
    assert data[..6] == data[..5] + [0x36] && 0x36 as bv8 as bv32 == 0x36;
    Hash32Next(0xFFFF_FFFF, data[..5], 0x36, 0x340ac5e3, 0xf68d2c9e);
    assert data[..7] == data[..6] + [0x37] && 0x37 as bv8 as bv32 == 0x37;
    Hash32Next(0xFFFF_FFFF, data[..6], 0x37, 0xf68d2c9e, 0xaffc9660);
    assert data[..8] == data[..7] + [0x38] && 0x38 as bv8 as bv32 == 0x38;
    Hash32Next(0xFFFF_FFFF, data[..7], 0x38, 0xaffc9660, 0x651f2550);
    assert data[..9] == data[..8] + [0x39] && 0x39 as bv8 as bv32 == 0x39;
    Hash32Next(0xFFFF_FFFF, data[..8], 0x39, 0x651f2550, 0x340bc6d9);
    assert data[..9] == data;
  }
}
