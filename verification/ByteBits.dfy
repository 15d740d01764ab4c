/**
  The shifts and masks of C on bytes, and what they come to for whole numbers.
 */
module ByteBits {
  import opened Basics

  /** `x` as a machine byte. */
  function Bits(x: Byte): (b: bv8)
    ensures b as int == x
  {
    if x == 0 then 0
    else
      CountUp(Bits(x - 1));
      Bits(x - 1) + 1
  }

  lemma CountUp(b: bv8)
    requires b < 255
    ensures (b + 1) as int == b as int + 1
  {
  }

  function Shr(x: Byte, n: nat): Byte
    requires n <= 8
  {
    (Bits(x) >> n) as int
  }

  function Shl(x: Byte, n: nat): Byte
    requires n <= 8
  {
    (Bits(x) << n) as int
  }

  function And(x: Byte, mask: bv8): Byte {
    (Bits(x) & mask) as int
  }

  function Or(x: Byte, y: Byte): Byte {
    (Bits(x) | Bits(y)) as int
  }

  lemma ShrBits(x: bv8)
    ensures (x >> 2) as int == x as int / 4 && (x >> 4) as int == x as int / 16 && (x >> 6) as int == x as int / 64
  {
  }

  lemma ShlBits(x: bv8)
    ensures x < 64 ==> (x << 2) as int == x as int * 4
    ensures x < 16 ==> (x << 4) as int == x as int * 16
    ensures x < 4 ==> (x << 6) as int == x as int * 64
  {
  }

  lemma AndBits3(x: bv8)
    ensures (x & 0x03) as int == x as int % 4
  {
  }

  lemma AndBits15(x: bv8)
    ensures (x & 0x0F) as int == x as int % 16
  {
  }

  lemma AndBits63(x: bv8)
    ensures (x & 0x3F) as int == x as int % 64
  {
  }

  lemma OrBits(x: bv8, y: bv8, mask: bv8)
    requires x & mask == 0 && y & mask == y
    ensures (x | y) as int == x as int + y as int
  {
  }

  lemma SmallBits(x: bv8)
    ensures x < 4 ==> x & 0x03 == x
    ensures x < 16 ==> x & 0x0F == x
    ensures x < 64 ==> x & 0x3F == x && (x & 0x30) >> 4 == x >> 4 && (x & 0x3C) >> 2 == x >> 2
  {
  }

  /** `>>` is division; so is `<<` multiplication, as long as nothing is shifted out. */
  lemma Shifts(x: Byte)
    ensures Shr(x, 2) == x / 4 && Shr(x, 4) == x / 16 && Shr(x, 6) == x / 64
    ensures x < 64 ==> Shl(x, 2) == x * 4
    ensures x < 16 ==> Shl(x, 4) == x * 16
    ensures x < 4 ==> Shl(x, 6) == x * 64
  {
    ShrBits(Bits(x));
    ShlBits(Bits(x));
  }

  /** `&` with 2^n - 1 is the remainder of 2^n. */
  lemma Masks(x: Byte)
    ensures And(x, 0x03) == x % 4 && And(x, 0x0F) == x % 16 && And(x, 0x3F) == x % 64
    ensures x < 64 ==> Shr(And(x, 0x30), 4) == x / 16 && Shr(And(x, 0x3C), 2) == x / 4
  {
    var b := Bits(x);
    AndBits3(b);
    AndBits15(b);
    AndBits63(b);
    SmallBits(b);
    ShrBits(b);
  }

  /** `|` joins bits that do not meet, so that it is an addition. */
  lemma Joins(x: Byte, y: Byte)
    ensures (x % 4 == 0 && y < 4) || (x % 16 == 0 && y < 16) || (x % 64 == 0 && y < 64) ==> Or(x, y) == x + y
  {
    var b, c := Bits(x), Bits(y);
    AndBits3(b);
    AndBits15(b);
    AndBits63(b);
    SmallBits(c);
    if x % 4 == 0 && y < 4 {
      OrBits(b, c, 0x03);
    } else if x % 16 == 0 && y < 16 {
      OrBits(b, c, 0x0F);
    } else if x % 64 == 0 && y < 64 {
      OrBits(b, c, 0x3F);
    }
  }
}
