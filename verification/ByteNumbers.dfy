/** A number below 256 as a byte and back, sixteen numbers a lemma. */
module ByteNumbers {
  lemma NumberBack(x: nat)
    requires x < 0x100
    ensures (x as bv8) as nat == x
  {
    if x < 0x10 {
      Row0(x);
    } else if x < 0x20 {
      Row1(x);
    } else if x < 0x30 {
      Row2(x);
    } else if x < 0x40 {
      Row3(x);
    } else if x < 0x50 {
      Row4(x);
    } else if x < 0x60 {
      Row5(x);
    } else if x < 0x70 {
      Row6(x);
    } else if x < 0x80 {
      Row7(x);
    } else if x < 0x90 {
      Row8(x);
    } else if x < 0xa0 {
      Row9(x);
    } else if x < 0xb0 {
      Row10(x);
    } else if x < 0xc0 {
      Row11(x);
    } else if x < 0xd0 {
      Row12(x);
    } else if x < 0xe0 {
      Row13(x);
    } else if x < 0xf0 {
      Row14(x);
    } else {
      Row15(x);
    }
  }

  lemma Row0(x: nat)
    requires 0x00 <= x < 0x10
    ensures (x as bv8) as nat == x
  {
  }

  lemma Row1(x: nat)
    requires 0x10 <= x < 0x20
    ensures (x as bv8) as nat == x
  {
  }

  lemma Row2(x: nat)
    requires 0x20 <= x < 0x30
    ensures (x as bv8) as nat == x
  {
  }

  lemma Row3(x: nat)
    requires 0x30 <= x < 0x40
    ensures (x as bv8) as nat == x
  {
  }

  lemma Row4(x: nat)
    requires 0x40 <= x < 0x50
    ensures (x as bv8) as nat == x
  {
  }

  lemma Row5(x: nat)
    requires 0x50 <= x < 0x60
    ensures (x as bv8) as nat == x
  {
  }

  lemma Row6(x: nat)
    requires 0x60 <= x < 0x70
    ensures (x as bv8) as nat == x
  {
  }

  lemma Row7(x: nat)
    requires 0x70 <= x < 0x80
    ensures (x as bv8) as nat == x
  {
  }

  lemma Row8(x: nat)
    requires 0x80 <= x < 0x90
    ensures (x as bv8) as nat == x
  {
  }

  lemma Row9(x: nat)
    requires 0x90 <= x < 0xa0
    ensures (x as bv8) as nat == x
  {
  }

  lemma Row10(x: nat)
    requires 0xa0 <= x < 0xb0
    ensures (x as bv8) as nat == x
  {
  }

  lemma Row11(x: nat)
    requires 0xb0 <= x < 0xc0
    ensures (x as bv8) as nat == x
  {
  }

  lemma Row12(x: nat)
    requires 0xc0 <= x < 0xd0
    ensures (x as bv8) as nat == x
  {
  }

  lemma Row13(x: nat)
    requires 0xd0 <= x < 0xe0
    ensures (x as bv8) as nat == x
  {
  }

  lemma Row14(x: nat)
    requires 0xe0 <= x < 0xf0
    ensures (x as bv8) as nat == x
  {
  }

  lemma Row15(x: nat)
    requires 0xf0 <= x < 0x100
    ensures (x as bv8) as nat == x
  {
  }
}
