/** The bit cursor of a CEC transfer: a message goes out, and comes in, most significant bit first. */
module CecTransfer {
  import opened Octets

  const MAX_LEN: nat := 16

  function Mask(k: nat): bv8
    requires k < 8
  {
    0x80 >> k
  }

  predicate Bit(b: bv8, k: nat)
    requires k < 8
  {
    b & Mask(k) != 0
  }

  function WithBit(b: bv8, k: nat, v: bool): bv8
    requires k < 8
  {
    if v then Put(Cleared(b, Mask(k)), Mask(k)) else Cleared(b, Mask(k))
  }

  lemma MaskIsFlag(k: nat)
    requires k < 8
    ensures Mask(k) == Flag(7 - k)
  {
  }

  lemma BitIsTest(b: bv8, k: nat)
    requires k < 8
    ensures Bit(b, k) == Test(b, 7 - k)
  {
    MaskIsFlag(k);
  }

  lemma WithBitThenBit(b: bv8, k: nat, v: bool, j: nat)
    requires j < 8 && k < 8
    ensures Bit(WithBit(b, k, v), j) == if j == k then v else Bit(b, j)
  {
    hide Mask, Flag, Cleared, Put, Test;
    var m := Mask(k);
    MaskIsFlag(k);
    FlagTest(7 - k, 7 - j);
    ClearedTest(b, m, 7 - j);
    PutTest(Cleared(b, m), m, 7 - j);
    BitIsTest(b, j);
    BitIsTest(WithBit(b, k, v), j);
  }

  lemma SameBitsSameByte(a: bv8, b: bv8)
    requires forall k: nat :: k < 8 ==> Bit(a, k) == Bit(b, k)
    ensures a == b
  {
    hide Bit, Test;
    forall i: nat | i < 8 ensures Test(a, i) == Test(b, i) {
      assert Bit(a, 7 - i) == Bit(b, 7 - i);
      BitIsTest(a, 7 - i);
      BitIsTest(b, 7 - i);
    }
    BitsMakeByte(a, b);
  }

  /** Bit number p of a buffer. */
  predicate BitAt(buf: seq<bv8>, p: nat)
    requires p < 8 * |buf|
  {
    Bit(buf[p / 8], p % 8)
  }

  /** The most significant bit of a byte comes first. */
  lemma BitAtIs(buf: seq<bv8>, p: nat)
    requires p < 8 * |buf|
    ensures BitAt(buf, p) <==> buf[p / 8] & (0x80 >> (p % 8)) != 0
  {
  }

  /** What set_bit and inc_bit make of a buffer when bits come in from position p on. */
  function Received(buf: seq<bv8>, p: nat, bits: seq<bool>): (r: seq<bv8>)
    ensures |r| == |buf|
    decreases |bits|
  {
    if bits == [] || p >= 8 * |buf| then buf
    else Received(buf[p / 8 := WithBit(buf[p / 8], p % 8, bits[0])], p + 1, bits[1..])
  }

  lemma PutOne(buf: seq<bv8>, p: nat, v: bool, q: nat)
    requires p < 8 * |buf| && q < 8 * |buf|
    ensures BitAt(buf[p / 8 := WithBit(buf[p / 8], p % 8, v)], q) == if q == p then v else BitAt(buf, q)
  {
    hide Bit, WithBit;
    WithBitThenBit(buf[p / 8], p % 8, v, q % 8);
  }

  lemma {:induction false} ReceivedBit(buf: seq<bv8>, p: nat, bits: seq<bool>, q: nat)
    requires p <= 8 * |buf| && q < 8 * |buf|
    ensures BitAt(Received(buf, p, bits), q) == if p <= q < p + |bits| then bits[q - p] else BitAt(buf, q)
    decreases |bits|
  {
    hide BitAt;
    if bits != [] && p < 8 * |buf| {
      PutOne(buf, p, bits[0], q);
      ReceivedBit(buf[p / 8 := WithBit(buf[p / 8], p % 8, bits[0])], p + 1, bits[1..], q);
    }
  }

  /** The first n bits that get_bit and inc_bit read. */
  function Sent(buf: seq<bv8>, n: nat): seq<bool>
    requires n <= 8 * |buf|
  {
    seq(n, p requires 0 <= p < n => BitAt(buf, p))
  }

  lemma ArrivedBit(from: seq<bv8>, to: seq<bv8>, len: nat, i: nat, k: nat)
    requires len <= |from| == |to| && i < |to| && k < 8
    ensures Bit(Received(to, 0, Sent(from, 8 * len))[i], k) == Bit(if i < len then from[i] else to[i], k)
  {
    hide Bit, Received;
    var q := 8 * i + k;
    assert q / 8 == i && q % 8 == k;
    ReceivedBit(to, 0, Sent(from, 8 * len), q);
    if i < len {
      assert Sent(from, 8 * len)[q] == BitAt(from, q);
    }
  }

  /** A message sent bit by bit and received bit by bit arrives unchanged, whatever lay in the
      receiver's buffer, and what lies behind it there stays. */
  lemma MessageArrives(from: seq<bv8>, to: seq<bv8>, len: nat)
    requires len <= |from| == |to|
    ensures Received(to, 0, Sent(from, 8 * len)) == from[..len] + to[len..]
  {
    hide Bit, Received, Sent;
    var r := Received(to, 0, Sent(from, 8 * len));
    forall i | 0 <= i < |to| ensures r[i] == if i < len then from[i] else to[i] {
      var x := if i < len then from[i] else to[i];
      forall k: nat | k < 8 ensures Bit(r[i], k) == Bit(x, k) {
        ArrivedBit(from, to, len, i, k);
      }
      SameBitsSameByte(r[i], x);
    }
  }

  lemma ReceivedOne(buf: seq<bv8>, byte: nat, bit: nat, v: bool)
    requires byte < |buf| && bit < 8
    ensures Received(buf, 8 * byte + bit, [v]) == buf[byte := WithBit(buf[byte], bit, v)]
  {
    hide WithBit;
    assert (8 * byte + bit) / 8 == byte && (8 * byte + bit) % 8 == bit;
    assert [v][1..] == [];
  }

  lemma WithBitIs(b: bv8, k: nat, v: bool)
    requires k < 8
    ensures WithBit(b, k, v) == if v then Put(Cleared(b, Mask(k)), Mask(k)) else Cleared(b, Mask(k))
  {
  }

  class Transfer {
    const buf: array<bv8>
    var bit: nat
    var byte: nat

    constructor ()
      ensures Valid() && Position() == 0 && fresh(buf)
    {
      buf := new bv8[MAX_LEN];
      bit, byte := 0, 0;
    }

    ghost predicate Valid()
      reads this
    {
      buf.Length == MAX_LEN && bit < 8 && byte <= MAX_LEN
    }

    ghost function Position(): nat
      reads this
    {
      8 * byte + bit
    }

    method GetBit() returns (v: bool)
      requires Valid()
      ensures v == (Position() < 128 && BitAt(buf[..], Position()))
    {
      if byte >= MAX_LEN {
        return false;
      }
      return buf[byte] & Mask(bit) != 0;
    }

    method SetBit(v: bool)
      requires Valid()
      modifies buf
      ensures Position() < 128 ==> buf[..] == Received(old(buf[..]), Position(), [v])
      ensures Position() >= 128 ==> buf[..] == old(buf[..])
    {
      if byte >= MAX_LEN {
        return;
      }
      hide Received, Mask, Cleared, Put, WithBit, Bit, BitAt;
      ghost var before := buf[..];
      var b := Cleared(buf[byte], Mask(bit));
      if v {
        b := Put(b, Mask(bit));
      }
      WithBitIs(before[byte], bit, v);
      buf[byte] := b;
      assert buf[..] == before[byte := WithBit(before[byte], bit, v)];
      ReceivedOne(before, byte, bit, v);
    }

    /** Past the last byte the cursor stops meaning a position: bit runs on from 8. */
    method IncBit()
      requires Valid()
      modifies `bit, `byte
      ensures Position() == old(Position()) + 1
      ensures Valid() <==> old(Position()) + 1 < 136
    {
      bit := bit + 1;
      if bit == 8 {
        if byte >= MAX_LEN {
          return;
        }
        bit := 0;
        byte := byte + 1;
      }
    }

    method IsEom(len: nat) returns (eom: bool)
      requires Valid()
      ensures eom <==> Position() == 8 * len
    {
      if bit != 0 {
        return false;
      }
      return byte == len;
    }
  }
}
