/** base32_encode and base32_decode on byte and character buffers. */
module Base32 {
  import opened MachineInts
  import opened BitOps
  import opened BitStrings
  import opened Extrema
  import opened Options
  import opened Base32Spec
  import opened Base32Laws

  /** The bits of a byte buffer. */
  ghost function BytesBits(s: seq<uint8>): (b: seq<bool>)
    ensures |b| == 8 * |s|
  {
    if s == [] then [] else ToBits(s[0] as nat, 8) + BytesBits(s[1..])
  }

  lemma {:induction false} ByteBits(s: seq<uint8>, k: nat)
    requires k < |s|
    ensures BytesBits(s)[8 * k..8 * k + 8] == ToBits(s[k] as nat, 8)
  {
    if k != 0 {
      ByteBits(s[1..], k - 1);
    }
  }

  lemma {:induction false} UpdateByte(s: seq<uint8>, k: nat, v: uint8)
    requires k < |s|
    ensures BytesBits(s[k := v]) == BytesBits(s)[..8 * k] + ToBits(v as nat, 8) + BytesBits(s)[8 * k + 8..]
  {
    if k == 0 {
      assert s[0 := v][1..] == s[1..];
    } else {
      assert s[k := v][1..] == s[1..][k - 1 := v];
      UpdateByte(s[1..], k - 1, v);
    }
  }

  ghost function From(bits: seq<bool>, i: nat): seq<bool>
  {
    if i <= |bits| then bits[i..] else []
  }

  // ---------------------------------------------------------------------------
  // Encoding.

  /** How many source bytes the encoder reads; one more than the bits fill when the last
      symbol starts in the last byte, crosses its end and has at least two bits. */
  function BytesRead(n: nat): nat
  {
    if n == 0 then 0
    else
      var last := (n - 1) / 5 * 5;
      if last % 8 > 3 && last + 1 < n then last / 8 + 2 else (n + 7) / 8
  }

  /** How many source bytes there must be for the symbol at bit i. */
  function BytesAt(n: nat, i: nat): nat
  {
    if i % 8 > 3 && i + 1 < n then i / 8 + 2 else i / 8 + 1
  }

  /** BytesRead is what the loop needs: enough for each symbol, and just so for the last. */
  lemma BytesReadIsExact(n: nat)
    requires n > 0
    ensures forall i: nat :: i < n && i % 5 == 0 ==> BytesAt(n, i) <= BytesRead(n)
    ensures BytesAt(n, (n - 1) / 5 * 5) == BytesRead(n)
  {
    forall i: nat | i < n && i % 5 == 0 ensures BytesAt(n, i) <= BytesRead(n) {
      ReadsFit(n, i);
    }
    var last := (n - 1) / 5 * 5;
    assert last < n <= last + 5;
  }

  /** Exactly when the encoder looks behind the bytes that the bits fill: the guard of the borrowed
      byte holds for the last symbol, and that symbol starts in the last byte. */
  lemma ReadsBehindExactly(n: nat)
    requires n > 0
    ensures (var last := (n - 1) / 5 * 5;
             BytesRead(n) > (n + 7) / 8 <==> last % 8 > 3 && last + 1 < n && last / 8 == (n - 1) / 8)
  {
    var last := (n - 1) / 5 * 5;
    assert last < n <= last + 5;
  }

  /** For 8 bits, which are one byte, the symbol of bits 5 to 7 borrows from a second byte. */
  lemma EightBitsReadTwoBytes()
    ensures BytesRead(8) == BytesAt(8, 5) == 2 > (8 + 7) / 8
  {
  }

  /** A symbol that lies within one byte. */
  lemma WithinByte(s: seq<uint8>, i: nat)
    requires i < 8 * |s| && i % 8 <= 3
    ensures ToBits(Shr(s[i / 8] as nat, 3 - i % 8), 5) == BytesBits(s)[i..i + 5]
  {
    hide ToBits, BytesBits, Shr;
    var k, offs := i / 8, i % 8;
    ByteBits(s, k);
    ShrBits(s[k] as nat, 5, 3 - offs);
    Suffix(s[k] as nat, 8, 8 - offs);
    assert BytesBits(s)[i..i + 5] == BytesBits(s)[8 * k..8 * k + 8][offs..][..5];
  }

  /** The part of a symbol that lies in its first byte. */
  lemma FirstPart(s: seq<uint8>, i: nat)
    requires i < 8 * |s| && i % 8 > 3
    ensures ToBits(Shl(s[i / 8] as nat, i % 8 - 3), 5) == BytesBits(s)[i..i + 8 - i % 8] + Zeros(i % 8 - 3)
  {
    hide ToBits, BytesBits, Shl;
    var k, offs := i / 8, i % 8;
    ByteBits(s, k);
    ShlBits(s[k] as nat, 8 - offs, offs - 3);
    Suffix(s[k] as nat, 8, 8 - offs);
    assert BytesBits(s)[i..i + 8 - offs] == BytesBits(s)[8 * k..8 * k + 8][offs..];
  }

  /** The part in the next byte. */
  lemma SecondPart(s: seq<uint8>, q: nat, k: nat)
    requires q < |s| && k <= 5
    ensures ToBits(Shr(s[q] as nat, 8 - k), 5) == Zeros(5 - k) + BytesBits(s)[8 * q..8 * q + k]
  {
    hide ToBits, BytesBits, Shr, Pow2;
    Pow2Of8();
    ByteBits(s, q);
    ShrBits(s[q] as nat, 5, 8 - k);
    LeadingZeros(s[q] as nat, 5 - k, 8);
    assert BytesBits(s)[8 * q..8 * q + k] == BytesBits(s)[8 * q..8 * q + 8][..k];
  }

  lemma LastSymbol(n: nat, i: nat)
    requires i < n && i % 5 == 0
    ensures (var last := (n - 1) / 5 * 5; (i == last || i + 5 <= last) && last < n <= last + 5)
  {
    var q, k := (n - 1) / 5, i / 5;
    assert i == 5 * k && 5 * q <= n - 1 < 5 * q + 5;
    assert k <= q;
  }

  lemma ReadsFit(n: nat, i: nat)
    requires i < n && i % 5 == 0
    ensures i / 8 < BytesRead(n) && n <= 8 * BytesRead(n)
    ensures i % 8 > 3 && i + 1 < n ==> i / 8 + 1 < BytesRead(n)
  {
    LastSymbol(n, i);
    ReadsFitBytes(n, i, (n - 1) / 5 * 5);
  }

  lemma ReadsFitBytes(n: nat, i: nat, last: nat)
    requires (i == last || i + 5 <= last) && last < n <= last + 5
    ensures (var read := if last % 8 > 3 && last + 1 < n then last / 8 + 2 else (n + 7) / 8;
             && i / 8 < read && n <= 8 * read
             && (i % 8 > 3 && i + 1 < n ==> i / 8 + 1 < read))
  {
  }

  /** A symbol across two bytes. */
  lemma Across(s: seq<uint8>, i: nat)
    requires i % 8 > 3 && i / 8 + 1 < |s|
    ensures ToBits(Or(Shl(s[i / 8] as nat, i % 8 - 3), Shr(s[i / 8 + 1] as nat, 11 - i % 8)), 5)
          == BytesBits(s)[i..i + 5]
  {
    hide ToBits, BytesBits, Or, Shl, Shr;
    var q, k := i / 8 + 1, i % 8 - 3;
    assert i + 8 - i % 8 == 8 * q && i + 5 == 8 * q + k;
    FirstPart(s, i);
    SecondPart(s, q, k);
    OrBits(Shl(s[q - 1] as nat, k), Shr(s[q] as nat, 8 - k), 5);
    assert BytesBits(s)[i..i + 5] == BytesBits(s)[i..8 * q] + BytesBits(s)[8 * q..8 * q + k];
  }

  /** Five bits from i on, before the padding. */
  method RawSymbol(src: array<uint8>, n: nat, i: nat) returns (sym: nat)
    requires i < n && BytesRead(n) <= src.Length && i % 5 == 0
    ensures n <= 8 * src.Length
    ensures ToBits(sym, 5)[..Min(5, n - i)] == BytesBits(src[..])[i..i + Min(5, n - i)]
  {
    hide ToBits, BytesBits, BytesRead, Or, Shl, Shr;
    ReadsFit(n, i);
    var sidx, offs := i / 8, i % 8;
    if offs <= 3 {
      WithinByte(src[..], i);
      sym := Shr(src[sidx] as nat, 3 - offs);
      assert BytesBits(src[..])[i..i + 5][..Min(5, n - i)] == BytesBits(src[..])[i..i + Min(5, n - i)];
    } else {
      sym := Shl(src[sidx] as nat, offs - 3);
      if i + 1 < n {
        Across(src[..], i);
        sym := Or(sym, Shr(src[sidx + 1] as nat, 11 - offs));
        assert BytesBits(src[..])[i..i + 5][..Min(5, n - i)] == BytesBits(src[..])[i..i + Min(5, n - i)];
      } else {
        FirstPart(src[..], i);
      }
    }
  }

  lemma {:induction false} OneBits(w: nat)
    requires w <= 5
    ensures forall i :: 0 <= i < w ==> ToBits(31, w)[i]
  {
    Suffix(31, 5, w);
    assert ToBits(31, 5) == [true, true, true, true, true];
  }

  /** Clearing the low bits of a symbol. */
  lemma ClearLow(sym: nat, pad: nat)
    requires pad <= 5
    ensures ToBits(And(sym, Shl(31, pad)), 5) == ToBits(sym, 5)[..5 - pad] + Zeros(pad)
  {
    hide And, Shl;
    AndBits(sym, Shl(31, pad), 5);
    ShlBits(31, 5 - pad, pad);
    OneBits(5 - pad);
    hide ToBits;
  }

  /** The next symbol: raw bits, cut to five, with zero bits for those past the end. */
  method NextSymbol(src: array<uint8>, n: nat, i: nat) returns (sym: nat)
    requires i < n && BytesRead(n) <= src.Length && i % 5 == 0
    ensures n <= 8 * src.Length && sym == Symbol(BytesBits(src[..])[..n][i..])
  {
    hide BytesBits, ToBits, Pow2, FromBits, And, Shl;
    sym := RawSymbol(src, n, i);
    ghost var raw := ToBits(sym, 5);
    ghost var rest := BytesBits(src[..])[..n][i..];
    assert rest[..Min(5, n - i)] == raw[..Min(5, n - i)];
    ClearLow(sym, 0);
    AndBound(sym, 31);
    assert Shl(31, 0) == 31 by { ShlZero(31); }
    sym := And(sym, 31);
    assert ToBits(sym, 5) == raw;
    if n - i < 5 {
      ClearLow(sym, 5 - (n - i));
      AndSmaller(sym, Shl(31, 5 - (n - i)));
      sym := And(sym, Shl(31, 5 - (n - i)));
    }
    assert ToBits(sym, 5) == Group(rest);
    Pow2Of5();
    FromToBits(sym, 5);
  }

  lemma ShlZero(x: nat)
    ensures Shl(x, 0) == x
  {
  }

  lemma {:induction false} AndSmaller(a: nat, b: nat)
    ensures And(a, b) <= a
  {
    if a != 0 && b != 0 {
      AndSmaller(a / 2, b / 2);
    }
  }

  lemma QuotientUnique(a: int, d: int, q: int, r: int)
    requires 0 <= r < d && a == d * q + r
    ensures a / d == q
  {
    var t := a / d;
    assert a == d * t + a % d;
    MulGap(d, q - t);
  }

  /** The number of check symbols among m symbols, the first being number count of its group. */
  function Checks(m: nat, every: nat, count: nat): nat
  {
    if every == 0 then 0 else (count + m) / every
  }

  lemma CheckSymbols(every: nat, count: nat, n: nat)
    requires every != 0 ==> count < every
    ensures Checks(0, every, count) == 0
    ensures Checks(n + 1, every, count)
         == (if every != 0 && count + 1 == every then 1 else 0) + Checks(n, every, NextCount(every, count))
  {
    if every != 0 {
      QuotientUnique(count, every, 0, count);
      if count + 1 == every {
        QuotientUnique(every + n, every, 1 + n / every, n % every);
      }
    }
  }

  lemma {:induction false} EncodedLength(bits: seq<bool>, every: nat, crc: nat, count: nat)
    requires crc < 32 && (every != 0 ==> count < every)
    ensures |Encode(bits, every, crc, count)| == SymbolCount(|bits|) + Checks(SymbolCount(|bits|), every, count)
    decreases |bits|
  {
    hide Crc5Sym, Symbol, Encode, NextCrc, Checks;
    if bits == [] {
      EncodeNothing(every, crc, count);
      CheckSymbols(every, count, 0);
    } else {
      EncodeUnfolds(bits, every, crc, count);
      var n := SymbolCount(|Rest(bits)|);
      assert n == SymbolCount(|bits|) - 1;
      CheckSymbols(every, count, n);
      EncodedLength(Rest(bits), every, NextCrc(Symbol(bits), every, crc, count), NextCount(every, count));
    }
  }

  /** dest = the encoding of the first n bits of src, NUL-terminated; false if the symbols do
      not fill whole CRC groups or dest is too small. */
  method Base32Encode(dest: array<char>, destLen: nat, src: array<uint8>, n: nat, every: nat) returns (ok: bool)
    requires 1 <= dest.Length && destLen <= dest.Length && BytesRead(n) <= src.Length
    modifies dest
    ensures ok <==> (every == 0 || SymbolCount(n) % every == 0)
                    && SymbolCount(n) + Checks(SymbolCount(n), every, 0) < destLen
    ensures !ok ==> dest[0] == '\0' && dest[1..] == old(dest[1..])
    ensures ok ==> n <= 8 * src.Length
                   && Encode(BytesBits(src[..])[..n], every, 0, 0) + ['\0'] <= dest[..]
  {
    hide BytesBits, Encode, BytesRead;
    dest[0] := '\0';
    var needed := (n + 4) / 5;
    if every != 0 {
      if needed % every != 0 {
        return false;
      }
      needed := needed + needed / every;
    }
    needed := needed + 1;
    if destLen < needed {
      return false;
    }
    if n != 0 {
      ReadsFit(n, 0);
    }
    EncodedLength(BytesBits(src[..])[..n], every, 0, 0);
    EncodeLoop(dest, src, n, every);
    return true;
  }

  /** The loop over the symbols, and the terminator. */
  method EncodeLoop(dest: array<char>, src: array<uint8>, n: nat, every: nat)
    requires BytesRead(n) <= src.Length && n <= 8 * src.Length
    requires |Encode(BytesBits(src[..])[..n], every, 0, 0)| < dest.Length
    modifies dest
    ensures Encode(BytesBits(src[..])[..n], every, 0, 0) + ['\0'] <= dest[..]
  {
    hide BytesBits, Crc5Sym, Encode, Symbol, BytesRead, Letter, From, Tail, NextCrc, Rest;
    ghost var bits := BytesBits(src[..])[..n];
    ghost var full := Encode(bits, every, 0, 0);
    var crc: nat, count: nat, didx: nat, i: nat := 0, 0, 0, 0;
    FromEnds(bits, 0);
    while i < n
      invariant i % 5 == 0 && crc < 32 && (every != 0 ==> count < every)
      invariant didx <= |full| && dest[..didx] == full[..didx]
      invariant full[didx..] == Encode(From(bits, i), every, crc, count)
    {
      FromRest(bits, i);
      var sym := NextSymbol(src, n, i);
      ghost var rest := From(bits, i);
      EncodeStep(full, didx, rest, every, crc, count);
      dest[didx] := Letter(sym);
      didx := didx + 1;
      if every != 0 {
        crc := Crc5Sym(sym, crc);
        count := count + 1;
        if count == every {
          dest[didx] := Letter(crc);
          didx := didx + 1;
          count, crc := 0, 0;
        }
      }
      i := i + 5;
    }
    FromEnds(bits, i);
    EncodeNothing(every, crc, count);
    dest[didx] := '\0';
  }

  lemma FromEnds(bits: seq<bool>, i: nat)
    ensures From(bits, 0) == bits && (i >= |bits| ==> From(bits, i) == [])
  {
  }

  lemma FromRest(bits: seq<bool>, i: nat)
    requires i < |bits|
    ensures From(bits, i) == bits[i..] != [] && Rest(From(bits, i)) == From(bits, i + 5)
  {
  }

  /** The letters that one symbol adds, and what is left after them. */
  lemma EncodeStep(full: string, d: nat, bits: seq<bool>, every: nat, crc: nat, count: nat)
    requires bits != [] && crc < 32 && d <= |full| && full[d..] == Encode(bits, every, crc, count)
    ensures (var sym, c := Symbol(bits), Crc5Sym(Symbol(bits), crc);
             && c < 32 && d < |full| && full[d] == Letter(sym) && full[..d + 1] == full[..d] + [Letter(sym)]
             && if every != 0 && count + 1 == every then
                  && d + 1 < |full| && full[d + 1] == Letter(c) && full[..d + 2] == full[..d + 1] + [Letter(c)]
                  && full[d + 2..] == Encode(Rest(bits), every, 0, 0)
                else
                  full[d + 1..] == if every == 0 then Encode(Rest(bits), every, crc, count)
                                   else Encode(Rest(bits), every, c, count + 1))
  {
    hide Crc5Sym, Encode, Symbol, Letter, Rest;
    EncodeUnfolds(bits, every, crc, count);
    CrcBound(Symbol(bits), crc);
    var tail := Tail(bits, every, crc, count);
    SliceStep(full, d, Letter(Symbol(bits)), tail);
    var c := Crc5Sym(Symbol(bits), crc);
    var next := Encode(Rest(bits), every, NextCrc(Symbol(bits), every, crc, count), NextCount(every, count));
    if every != 0 && count + 1 == every {
      SliceStep(full, d + 1, Letter(c), next);
    } else {
      assert tail == [] + next == next;
    }
  }

  lemma SliceStep(full: string, d: nat, c: char, tail: string)
    requires d <= |full| && full[d..] == [c] + tail
    ensures d < |full| && full[d] == c && full[d + 1..] == tail && full[..d + 1] == full[..d] + [c]
  {
    assert full[d..][0] == c;
    assert full[d..][1..] == tail;
  }

  // ---------------------------------------------------------------------------
  // Decoding.

  method FindSym(c: char) returns (r: int)
    ensures r == DecodeSym(c)
  {
    var i := 0;
    while i < 32
      invariant 0 <= i <= 32 && SearchMap(c, 0) == SearchMap(c, i)
    {
      if c == MAP[i] {
        return i;
      }
      i := i + 1;
    }
    return -1;
  }


  /** The unused bits of the byte being filled are zero. */
  ghost predicate Clean(bits: seq<bool>, out: nat)
  {
    forall i :: out <= i < |bits| && i < out + 8 - out % 8 && out % 8 != 0 ==> !bits[i]
  }

  /** Or-ing bits into the unused part of a byte. */
  lemma OrIntoByte(byte: nat, x: nat, r: nat, y: seq<bool>)
    requires r + |y| <= 8 && ToBits(byte, 8)[r..] == Zeros(8 - r)
    requires ToBits(x, 8) == Zeros(r) + y + Zeros(8 - r - |y|)
    ensures ToBits(Or(byte, x) % 0x100, 8) == ToBits(byte, 8)[..r] + y + Zeros(8 - r - |y|)
  {
    hide ToBits, Or;
    ByteTruncates(Or(byte, x));
    OrBits(byte, x, 8);
    assert ToBits(byte, 8) == ToBits(byte, 8)[..r] + Zeros(8 - r);
  }

  /** The bits that (sym << (dbits - b)) >> (sbits - b) adds to a byte with r bits used. */
  lemma FillBits(sym: nat, sbits: nat, r: nat)
    requires sym < Pow2(sbits) && r < 8 && sbits <= 5
    ensures (var dbits := 8 - r; var b := Min(dbits, sbits);
             ToBits(Shr(Shl(sym, dbits - b), sbits - b), 8) == Zeros(r) + ToBits(sym, sbits)[..b] + Zeros(dbits - b))
  {
    hide ToBits, Shl, Shr, Pow2;
    if sbits <= 8 - r {
      var z := 8 - r - sbits;
      ShlBits(sym, 8 - z, z);
      LeadingZeros(sym, r, sbits);
      ShrZero(Shl(sym, z));
    } else {
      var t := sbits - (8 - r);
      ShlZero(sym);
      ShrBits(sym, 8, t);
      LeadingZeros(sym, r, sbits);
    }
  }

  lemma ShrZero(x: nat)
    ensures Shr(x, 0) == x
  {
  }

  /** The bits of sym << (8 - left), cut to a byte. */
  lemma SpillBits(sym: nat, sbits: nat, left: nat)
    requires left <= sbits <= 8
    ensures ToBits(Shl(sym, 8 - left) % 0x100, 8) == ToBits(sym, sbits)[sbits - left..] + Zeros(8 - left)
  {
    hide ToBits, Shl;
    ByteTruncates(Shl(sym, 8 - left));
    ShlBits(sym, left, 8 - left);
    Suffix(sym, sbits, left);
  }

  lemma CleanByte(s: seq<uint8>, out: nat)
    requires out < 8 * |s| && out % 8 != 0 && Clean(BytesBits(s), out)
    ensures ToBits(s[out / 8] as nat, 8)[out % 8..] == Zeros(8 - out % 8)
  {
    hide ToBits, BytesBits;
    var k, r := out / 8, out % 8;
    ByteBits(s, k);
    var tail := ToBits(s[k] as nat, 8)[r..];
    forall i | 0 <= i < |tail| ensures !tail[i] {
      assert BytesBits(s)[out + i] == BytesBits(s)[8 * k..8 * k + 8][r + i];
    }
  }

  /** Storing a byte whose used bits are as before, with the bits y after them. */
  lemma Stored(s: seq<uint8>, out: nat, v: uint8, y: seq<bool>)
    requires out < 8 * |s| && out % 8 + |y| <= 8
    requires ToBits(v as nat, 8) == ToBits(s[out / 8] as nat, 8)[..out % 8] + y + Zeros(8 - out % 8 - |y|)
    ensures BytesBits(s[out / 8 := v])[..out + |y|] == BytesBits(s)[..out] + y
    ensures Clean(BytesBits(s[out / 8 := v]), out + |y|)
  {
    hide ToBits, BytesBits;
    var k, r := out / 8, out % 8;
    ByteBits(s, k);
    UpdateByte(s, k, v);
    assert BytesBits(s)[..out] == BytesBits(s)[..8 * k] + BytesBits(s)[8 * k..8 * k + 8][..r];
  }

  /** The first part of a symbol goes into the byte that bit `out` lies in. */
  method FillByte(dest: array<uint8>, out: nat, sym: nat, sbits: nat) returns (b: nat)
    requires out < 8 * dest.Length && 0 < sbits <= 5 && sym < Pow2(sbits)
    requires Clean(BytesBits(dest[..]), out)
    modifies dest
    ensures b == Min(8 - out % 8, sbits)
    ensures BytesBits(dest[..])[..out + b] == old(BytesBits(dest[..])[..out]) + ToBits(sym, sbits)[..b]
    ensures Clean(BytesBits(dest[..]), out + b)
  {
    hide ToBits, BytesBits, Shl, Shr, Or, Pow2, Clean;
    var dbits := 8 - out % 8;
    b := Min(dbits, sbits);
    ghost var before := dest[..];
    if dbits == 8 {
      dest[out / 8] := 0;
      ZeroBits(8);
    } else {
      CleanByte(before, out);
    }
    FillBits(sym, sbits, out % 8);
    OrIntoByte(dest[out / 8] as nat, Shr(Shl(sym, dbits - b), sbits - b), out % 8, ToBits(sym, sbits)[..b]);
    dest[out / 8] := (Or(dest[out / 8] as nat, Shr(Shl(sym, dbits - b), sbits - b)) % 0x100) as uint8;
    Stored(before, out, dest[out / 8], ToBits(sym, sbits)[..b]);
    assert dest[..] == before[out / 8 := dest[out / 8]];
  }

  /** Appends the first sbits bits of a symbol to the `out` bits in dest. */
  method AppendSymbol(dest: array<uint8>, out: nat, sym: nat, limit: nat) returns (out': nat)
    requires out < limit <= 8 * dest.Length && sym < 32 && Clean(BytesBits(dest[..]), out)
    modifies dest
    ensures out' == out + Min(5, limit - out)
    ensures BytesBits(dest[..])[..out'] == old(BytesBits(dest[..])[..out]) + ToBits(sym, 5)[..Min(5, limit - out)]
    ensures Clean(BytesBits(dest[..]), out')
  {
    hide ToBits, BytesBits, Shl, Shr, Pow2, Clean;
    var sbits := Min(5, limit - out);
    var cut := Shr(sym, 5 - sbits);
    Pow2Of5();
    ShrBound(sym, sbits, 5 - sbits);
    ShrBits(sym, sbits, 5 - sbits);
    ghost var y := ToBits(cut, sbits);
    var b := FillByte(dest, out, cut, sbits);
    out' := out + b;
    var left := sbits - b;
    if left > 0 {
      ghost var before := dest[..];
      SpillBits(cut, sbits, left);
      dest[out' / 8] := (Shl(cut, 8 - left) % 0x100) as uint8;
      Stored(before, out', dest[out' / 8], y[b..]);
      assert dest[..] == before[out' / 8 := dest[out' / 8]];
      out' := out' + left;
      assert y == y[..b] + y[b..];
    }
  }

  /** dest = the bits of src, at most `limit`; the result is their number, or -1 for a bad string. */
  method Base32Decode(dest: array<uint8>, limit: nat, src: string, every: nat) returns (r: int)
    requires limit <= 8 * dest.Length && '\0' !in src
    modifies dest
    ensures match Decode(src, every, limit, 0, 0, [])
            case None => r == -1
            case Some(bits) => r == |bits| && r <= 8 * dest.Length && BytesBits(dest[..])[..r] == bits
  {
    hide ToBits, BytesBits, Crc5Sym, DecodeSym;
    var crc: nat, count: nat, out: nat, i: nat := 0, 0, 0, 0;
    ghost var bits: seq<bool> := [];
    while i < |src|
      invariant i <= |src| && out == |bits| <= limit
      invariant BytesBits(dest[..])[..out] == bits && Clean(BytesBits(dest[..]), out)
      invariant Decode(src[i..], every, limit, crc, count, bits) == Decode(src, every, limit, 0, 0, [])
    {
      var c := src[i];
      assert src[i..][0] == c && src[i..][1..] == src[i + 1..];
      if !Skipped(c) {
        var sym := FindSym(c);
        SymRange(c);
        if sym < 0 {
          return -1;
        }
        var checked := false;
        if every != 0 {
          if count == every {
            if crc != sym {
              return -1;
            }
            count, crc := 0, 0;
            checked := true;
          } else {
            crc := Crc5Sym(sym, crc);
            count := count + 1;
          }
        }
        if !checked {
          if out >= limit {
            break;
          }
          ghost var before := bits;
          bits := bits + ToBits(sym, 5)[..Min(5, limit - out)];
          out := AppendSymbol(dest, out, sym, limit);
        }
      }
      i := i + 1;
    }
    if every != 0 && count != 0 {
      return -1;
    }
    return out;
  }
}
