/** The machine types of the C sources that matter here. */
module Bytes {

  type byte = x: int | 0 <= x < 256

  /** A value stored into a uint8_t. */
  function ToByte(x: int): byte {
    x % 256
  }

  function ToBits(x: byte): bv8 {
    x as bv8
  }

  /** The same bits, from the most significant one down. */
  function BitByBit(x: nat, n: nat): (b: bv8)
    requires n <= 8 && x < Power2(n)
    ensures b as int == x
  {
    if n == 0 then 0 else
      var h := BitByBit(x / 2, n - 1);
      NextBit(h, x, n);
      if x % 2 == 0 then h << 1 else (h << 1) | 1
  }

  function Power2(n: nat): nat {
    if n == 0 then 1 else 2 * Power2(n - 1)
  }

  lemma NextBit(h: bv8, x: nat, n: nat)
    requires 0 < n <= 8 && x < Power2(n) && h as int == x / 2
    ensures h < 128 && (h << 1) as int == 2 * (h as int) && ((h << 1) | 1) as int == 2 * (h as int) + 1
  {
    assert Power2(8) == 256;
  }

  lemma ByteBits(x: int)
    requires 0 <= x < 256
    ensures (x as bv8) as int == x
  {
    assert Power2(8) == 256;
    assert BitByBit(x, 8) as int == x;
  }

  /** Different bytes are different as bits. */
  lemma BitsDiffer(x: byte, y: byte)
    ensures ToBits(x) == ToBits(y) <==> x == y
    ensures ToBits(x) as int == x
  {
    ByteBits(x);
    ByteBits(y);
  }
}
