/** Strings of bits, most significant first. */
module BitStrings {
  import opened BitOps

  /** The low w bits of x. */
  function ToBits(x: nat, w: nat): (b: seq<bool>)
    ensures |b| == w
  {
    if w == 0 then [] else ToBits(x / 2, w - 1) + [x % 2 == 1]
  }

  function FromBits(b: seq<bool>): (x: nat)
  {
    if b == [] then 0 else 2 * FromBits(b[..|b| - 1]) + (if b[|b| - 1] then 1 else 0)
  }

  lemma {:induction false} ToFromBits(b: seq<bool>)
    ensures ToBits(FromBits(b), |b|) == b && FromBits(b) < Pow2(|b|)
  {
    if b != [] {
      ToFromBits(b[..|b| - 1]);
    }
  }

  lemma {:induction false} FromToBits(x: nat, w: nat)
    requires x < Pow2(w)
    ensures FromBits(ToBits(x, w)) == x
  {
    if w != 0 {
      FromToBits(x / 2, w - 1);
      assert ToBits(x, w)[..w - 1] == ToBits(x / 2, w - 1);
    }
  }

  /** x shifted right by k. */
  function Shr(x: nat, k: nat): nat
  {
    if k == 0 then x else Shr(x / 2, k - 1)
  }

  /** x shifted left by k. */
  function Shl(x: nat, k: nat): nat
  {
    if k == 0 then x else 2 * Shl(x, k - 1)
  }

  function Zeros(k: nat): (b: seq<bool>)
    ensures |b| == k
  {
    seq(k, _ => false)
  }

  /** Shifting right by k drops the last k bits. */
  lemma {:induction false} ShrBits(x: nat, w: nat, k: nat)
    ensures ToBits(Shr(x, k), w) == ToBits(x, w + k)[..w]
  {
    if k != 0 {
      ShrBits(x / 2, w, k - 1);
    }
  }

  /** Shifting left by k appends k zero bits. */
  lemma {:induction false} ShlBits(x: nat, w: nat, k: nat)
    ensures ToBits(Shl(x, k), w + k) == ToBits(x, w) + Zeros(k)
  {
    if k != 0 {
      ShlBits(x, w, k - 1);
      assert Shl(x, k) / 2 == Shl(x, k - 1);
      assert Zeros(k) == Zeros(k - 1) + [false];
    }
  }

  /** The last k bits are the low k bits. */
  lemma {:induction false} Suffix(x: nat, w: nat, k: nat)
    requires k <= w
    ensures ToBits(x, w)[w - k..] == ToBits(x, k)
  {
    if k != 0 {
      Suffix(x / 2, w - 1, k - 1);
    }
  }

  /** A k-bit number has only zeros before its last k bits. */
  lemma {:induction false} LeadingZeros(x: nat, w: nat, k: nat)
    requires x < Pow2(k)
    ensures ToBits(x, w + k) == Zeros(w) + ToBits(x, k)
  {
    if k == 0 {
      ZeroBits(w);
    } else {
      LeadingZeros(x / 2, w, k - 1);
    }
  }

  lemma {:induction false} ZeroBits(w: nat)
    ensures ToBits(0, w) == Zeros(w)
  {
    if w != 0 {
      ZeroBits(w - 1);
      assert Zeros(w) == Zeros(w - 1) + [false];
    }
  }

  /** Bitwise or and and work bit by bit. */
  lemma {:induction false} OrBits(a: nat, b: nat, w: nat)
    ensures forall i :: 0 <= i < w ==> ToBits(Or(a, b), w)[i] == (ToBits(a, w)[i] || ToBits(b, w)[i])
  {
    if w != 0 {
      OrBits(a / 2, b / 2, w - 1);
      assert Or(a, b) / 2 == Or(a / 2, b / 2);
    }
  }

  lemma {:induction false} AndBits(a: nat, b: nat, w: nat)
    ensures forall i :: 0 <= i < w ==> ToBits(And(a, b), w)[i] == (ToBits(a, w)[i] && ToBits(b, w)[i])
  {
    if w != 0 {
      AndBits(a / 2, b / 2, w - 1);
      if a == 0 {
        ZeroBits(w);
      } else if b == 0 {
        ZeroBits(w);
      } else {
        assert And(a, b) / 2 == And(a / 2, b / 2);
      }
    }
  }

  lemma {:induction false} ShrBound(x: nat, w: nat, k: nat)
    requires x < Pow2(w + k)
    ensures Shr(x, k) < Pow2(w)
  {
    if k != 0 {
      ShrBound(x / 2, w, k - 1);
    }
  }

  /** Bits from w on do not count. */
  lemma {:induction false} HighBitsDropped(x: nat, q: nat, w: nat)
    ensures ToBits(x + Shl(q, w), w) == ToBits(x, w)
  {
    if w != 0 {
      HighBitsDropped(x / 2, q, w - 1);
      assert (x + Shl(q, w)) / 2 == x / 2 + Shl(q, w - 1);
    }
  }

  lemma {:induction false} ShlIsProduct(q: nat, k: nat)
    ensures Shl(q, k) == q * Pow2(k)
  {
    if k != 0 {
      ShlIsProduct(q, k - 1);
    }
  }

  lemma ByteTruncates(x: nat)
    ensures ToBits(x % 0x100, 8) == ToBits(x, 8)
  {
    var q := x / 0x100;
    hide ToBits, Shl, Pow2;
    ShlIsProduct(q, 8);
    Pow2Of8();
    HighBitsDropped(x % 0x100, q, 8);
  }

  lemma {:induction false} AndBound(a: nat, b: nat)
    ensures And(a, b) <= b
  {
    if a != 0 && b != 0 {
      AndBound(a / 2, b / 2);
    }
  }
}
