/** Ten signed limbs in radix 2^25.5: limb i has weight 2^ceil(25.5 i). */
module Limbs {
  import opened MachineInts
  import opened Field25519

  // The limb bounds stated by the code, rounded down to integers.
  const E165: int := 110729625  // 1.65 * 2^26
  const O165: int := 55364812   // 1.65 * 2^25
  const E110: int := 73819750   // 1.1 * 2^26
  const O110: int := 36909875   // 1.1 * 2^25
  const E055: int := 36909875   // 1.1 * 2^25
  const O055: int := 18454937   // 1.1 * 2^24
  const E101: int := 33889976   // 1.01 * 2^25
  const O101: int := 16944988   // 1.01 * 2^24

  datatype Limbs = Limbs(l0: int, l1: int, l2: int, l3: int, l4: int,
                         l5: int, l6: int, l7: int, l8: int, l9: int)

  /** The integer that ten limbs represent. */
  ghost function Radix(h: Limbs): int
  {
    h.l0
    + 0x400_0000 * h.l1
    + 0x8_0000_0000_0000 * h.l2
    + 0x2000_0000_0000_0000_0000 * h.l3
    + 0x40_0000_0000_0000_0000_0000_0000 * h.l4
    + 0x1_0000_0000_0000_0000_0000_0000_0000_0000 * h.l5
    + 0x200_0000_0000_0000_0000_0000_0000_0000_0000_0000 * h.l6
    + 0x8_0000_0000_0000_0000_0000_0000_0000_0000_0000_0000_0000 * h.l7
    + 0x1000_0000_0000_0000_0000_0000_0000_0000_0000_0000_0000_0000_0000 * h.l8
    + 0x40_0000_0000_0000_0000_0000_0000_0000_0000_0000_0000_0000_0000_0000_0000 * h.l9
  }

  ghost function Of(h: seq<int32>): Limbs
    requires |h| == 10
  {
    Limbs(h[0] as int, h[1] as int, h[2] as int, h[3] as int, h[4] as int,
          h[5] as int, h[6] as int, h[7] as int, h[8] as int, h[9] as int)
  }

  ghost function OfWide(h0: int64, h1: int64, h2: int64, h3: int64, h4: int64,
                        h5: int64, h6: int64, h7: int64, h8: int64, h9: int64): Limbs
  {
    Limbs(h0 as int, h1 as int, h2 as int, h3 as int, h4 as int,
          h5 as int, h6 as int, h7 as int, h8 as int, h9 as int)
  }

  /** Even limbs lie within +-even and odd limbs within +-odd. */
  ghost predicate Bounded(h: Limbs, even: int, odd: int)
  {
    && -even <= h.l0 <= even && -even <= h.l2 <= even && -even <= h.l4 <= even
    && -even <= h.l6 <= even && -even <= h.l8 <= even
    && -odd <= h.l1 <= odd && -odd <= h.l3 <= odd && -odd <= h.l5 <= odd
    && -odd <= h.l7 <= odd && -odd <= h.l9 <= odd
  }

  /** The field element that an array of ten limbs stands for. */
  ghost function El(h: seq<int32>): int
    requires |h| == 10
  {
    Res(Radix(Of(h)))
  }
}
