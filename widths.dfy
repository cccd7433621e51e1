/** The nine primitive integer types that receive a `times` method:
    signed and unsigned 8, 16, 32 and 64 bit, plus `usize`, which this
    model fixes at 64 bits. Each width is the closed range [Min(), Max()]. */
module IntWidths {

  datatype Width = I8 | U8 | I16 | U16 | I32 | U32 | I64 | U64 | Usize {

    predicate Signed() {
      I8? || I16? || I32? || I64?
    }

    function Bits(): (b: nat)
      ensures b in {8, 16, 32, 64}
    {
      match this
      case I8 | U8 => 8
      case I16 | U16 => 16
      case I32 | U32 => 32
      case I64 | U64 | Usize => 64
    }

    /** Smallest value of the type: zero for the unsigned types. */
    function Min(): (m: int)
      ensures Signed() <==> m < 0
      ensures m <= 0
    {
      match this
      case I8 => -0x80
      case I16 => -0x8000
      case I32 => -0x8000_0000
      case I64 => -0x8000_0000_0000_0000
      case U8 | U16 | U32 | U64 | Usize => 0
    }

    /** Largest value of the type; every width can hold at least 127. */
    function Max(): (m: int)
      ensures 127 <= m
    {
      match this
      case I8 => 0x7f
      case U8 => 0xff
      case I16 => 0x7fff
      case U16 => 0xffff
      case I32 => 0x7fff_ffff
      case U32 => 0xffff_ffff
      case I64 => 0x7fff_ffff_ffff_ffff
      case U64 | Usize => 0xffff_ffff_ffff_ffff
    }

    /** `x` is a value of this integer type. */
    predicate Fits(x: int)
      ensures 0 <= x <= 127 ==> Fits(x)
      ensures !Signed() && x < 0 ==> !Fits(x)
    {
      Min() <= x <= Max()
    }
  }

  /** The range of every width is the two's-complement (or plain binary)
      range of its bit count. */
  lemma {:induction false} RangeMatchesBits(w: Width)
    ensures w.Signed() ==> w.Min() == -(Pow2(w.Bits() - 1) as int) && w.Max() == Pow2(w.Bits() - 1) - 1
    ensures !w.Signed() ==> w.Min() == 0 && w.Max() == Pow2(w.Bits()) - 1
  {
    Pow2Values();
  }

  function Pow2(k: nat): (p: nat)
    ensures p >= 1
  {
    if k == 0 then 1 else 2 * Pow2(k - 1)
  }

  lemma {:induction false} Pow2Add(a: nat, b: nat)
    ensures Pow2(a + b) == Pow2(a) * Pow2(b)
    decreases b
  {
    if b > 0 {
      Pow2Add(a, b - 1);
    }
  }

  lemma Pow2Values()
    ensures Pow2(7) == 0x80 && Pow2(8) == 0x100
    ensures Pow2(15) == 0x8000 && Pow2(16) == 0x1_0000
    ensures Pow2(31) == 0x8000_0000 && Pow2(32) == 0x1_0000_0000
    ensures Pow2(63) == 0x8000_0000_0000_0000 && Pow2(64) == 0x1_0000_0000_0000_0000
  {
    assert Pow2(3) == 8 by {
      assert Pow2(1) == 2;
      assert Pow2(2) == 4;
    }
    assert Pow2(4) == 16;
    assert Pow2(7) == 0x80 by { Pow2Add(4, 3); }
    assert Pow2(8) == 0x100 by { Pow2Add(4, 4); }
    assert Pow2(15) == 0x8000 by { Pow2Add(8, 7); }
    assert Pow2(16) == 0x1_0000 by { Pow2Add(8, 8); }
    assert Pow2(31) == 0x8000_0000 by { Pow2Add(16, 15); }
    assert Pow2(32) == 0x1_0000_0000 by { Pow2Add(16, 16); }
    assert Pow2(63) == 0x8000_0000_0000_0000 by { Pow2Add(32, 31); }
    assert Pow2(64) == 0x1_0000_0000_0000_0000 by { Pow2Add(32, 32); }
  }
}
