/** Single bits of a byte. */
module Octets {
  function Flag(i: nat): bv8
    requires i < 8
  {
    1 << i
  }

  predicate Test(b: bv8, i: nat)
    requires i < 8
  {
    b & Flag(i) != 0
  }

  function Cleared(b: bv8, m: bv8): bv8
  {
    b & !m
  }

  function Put(b: bv8, m: bv8): bv8
  {
    b | m
  }

  function Flipped(b: bv8, m: bv8): bv8
  {
    b ^ m
  }

  lemma Flags()
    ensures Flag(0) == 1 && Flag(1) == 2 && Flag(2) == 4 && Flag(3) == 8
    ensures Flag(4) == 0x10 && Flag(5) == 0x20 && Flag(6) == 0x40 && Flag(7) == 0x80
  {
  }

  lemma FlagsDiffer(i: nat, j: nat)
    requires i < 8 && j < 8
    ensures Flag(i) & Flag(j) == if i == j then Flag(i) else 0
    ensures Flag(i) != 0
  {
    Flags();
  }

  /** A masked value is the mask or nothing. */
  lemma MaskedIsFlag(b: bv8, i: nat)
    requires i < 8
    ensures b & Flag(i) == if Test(b, i) then Flag(i) else 0
  {
    Flags();
  }

  lemma FlagTest(i: nat, j: nat)
    requires i < 8 && j < 8
    ensures Test(Flag(i), j) <==> i == j
  {
    FlagsDiffer(i, j);
  }

  lemma NotAnd(b: bv8, m: bv8, f: bv8)
    requires m & f == 0 || m & f == f
    ensures Cleared(b, m) & f == if m & f == 0 then b & f else 0
  {
  }

  lemma OrAnd(a: bv8, b: bv8, f: bv8)
    ensures Put(a, b) & f != 0 <==> a & f != 0 || b & f != 0
  {
    assert (a | b) & f == (a & f) | (b & f);
  }

  lemma XorAnd(a: bv8, b: bv8, f: bv8)
    ensures Flipped(a, b) & f == (a & f) ^ (b & f)
  {
  }

  lemma ClearedTest(b: bv8, m: bv8, j: nat)
    requires j < 8
    ensures Test(Cleared(b, m), j) <==> Test(b, j) && !Test(m, j)
  {
    MaskedIsFlag(m, j);
    FlagsDiffer(j, j);
    hide Flag, Cleared;
    NotAnd(b, m, Flag(j));
  }

  lemma PutTest(a: bv8, b: bv8, j: nat)
    requires j < 8
    ensures Test(Put(a, b), j) <==> Test(a, j) || Test(b, j)
  {
    hide Flag, Put;
    OrAnd(a, b, Flag(j));
  }

  lemma FlippedTest(a: bv8, b: bv8, j: nat)
    requires j < 8
    ensures Test(Flipped(a, b), j) <==> Test(a, j) != Test(b, j)
  {
    MaskedIsFlag(a, j);
    MaskedIsFlag(b, j);
    FlagsDiffer(j, j);
    hide Flag, Flipped;
    XorAnd(a, b, Flag(j));
    var f := Flag(j);
    assert f ^ f == 0 && f ^ 0 == f && 0 ^ f == f;
  }

  lemma EightBits(a: bv8, b: bv8)
    requires a & 0x80 == b & 0x80 && a & 0x40 == b & 0x40 && a & 0x20 == b & 0x20 && a & 0x10 == b & 0x10
    requires a & 8 == b & 8 && a & 4 == b & 4 && a & 2 == b & 2 && a & 1 == b & 1
    ensures a == b
  {
  }

  /** A byte is its bits. */
  lemma BitsMakeByte(a: bv8, b: bv8)
    requires forall i: nat :: i < 8 ==> Test(a, i) == Test(b, i)
    ensures a == b
  {
    forall i: nat | i < 8 ensures a & Flag(i) == b & Flag(i) {
      assert Test(a, i) == Test(b, i);
      MaskedIsFlag(a, i);
      MaskedIsFlag(b, i);
    }
    Flags();
    hide Test, Flag;
    assert a & Flag(0) == b & Flag(0) && a & Flag(1) == b & Flag(1);
    assert a & Flag(2) == b & Flag(2) && a & Flag(3) == b & Flag(3);
    assert a & Flag(4) == b & Flag(4) && a & Flag(5) == b & Flag(5);
    assert a & Flag(6) == b & Flag(6) && a & Flag(7) == b & Flag(7);
    EightBits(a, b);
  }

  ghost predicate TwoBits(b: bv8)
  {
    exists i: nat, j: nat :: i < j < 8 && Test(b, i) && Test(b, j)
  }

  lemma ZeroOrOne(b: bv8)
    ensures b & (b - 1) == 0 <==>
            b == 0 || b == 1 || b == 2 || b == 4 || b == 8 || b == 0x10 || b == 0x20 || b == 0x40 || b == 0x80
  {
  }

  lemma NoBits(i: nat)
    requires i < 8
    ensures !Test(0, i)
  {
    assert 0 & Flag(i) == 0;
  }

  /** b & (b - 1) is non-zero exactly when b has two bits set. */
  lemma AndPredecessor(b: bv8)
    ensures b & (b - 1) != 0 <==> TwoBits(b)
  {
    ZeroOrOne(b);
    Flags();
    hide Flag, Test;
    if i: nat :| i < 8 && b == Flag(i) {
      forall j: nat | j < 8 ensures Test(b, j) <==> j == i { FlagTest(i, j); }
    } else if b == 0 {
      forall j: nat | j < 8 ensures !Test(b, j) { NoBits(j); }
    } else if !TwoBits(b) {
      SingleBit(b);
      assert false;
    }
  }

  lemma SingleBit(b: bv8)
    requires !TwoBits(b)
    ensures b == 0 || exists i: nat :: i < 8 && b == Flag(i)
  {
    hide Flag, Test;
    if i: nat :| i < 8 && Test(b, i) {
      forall j: nat | j < 8 ensures Test(b, j) == Test(Flag(i), j) {
        FlagTest(i, j);
        assert i < j ==> !Test(b, j);
        assert j < i ==> !Test(b, j);
      }
      BitsMakeByte(b, Flag(i));
    } else {
      forall j: nat | j < 8 ensures Test(b, j) == Test(0, j) { NoBits(j); }
      BitsMakeByte(b, 0);
    }
  }
}
