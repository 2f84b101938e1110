/** The bit patterns of the block bitmap: block 8n+i is bit 7-i of byte n, so a line of four blocks is
    one nibble with its first block at the top. */
module ImgBitmap {

  function Mask(i: nat): bv8
    requires i < 8
  {
    0x80 >> i
  }

  predicate Bit(b: bv8, i: nat)
    requires i < 8
  {
    Mask(i) & b != 0
  }

  lemma Masks(i: nat)
    requires i < 8
    ensures Mask(i) == if i == 0 then 0x80 else if i == 1 then 0x40 else if i == 2 then 0x20 else if i == 3 then 0x10
                       else if i == 4 then 0x08 else if i == 5 then 0x04 else if i == 6 then 0x02 else 0x01
  {
  }

  lemma SetBit(b: bv8, i: nat, j: nat)
    requires i < 8 && j < 8
    ensures Bit(b | Mask(i), j) <==> i == j || Bit(b, j)
    ensures !Bit(0, j)
  {
    Masks(i);
    Masks(j);
    assert Mask(j) & (b | Mask(i)) == (Mask(j) & b) | (Mask(j) & Mask(i));
  }

  /** The nibble of the line that block i of the byte belongs to. */
  function Nibble(b: bv8, i: nat): bv8
    requires i < 8
  {
    (if i / 4 == 1 then b else b >> 4) & 0x0F
  }

  /** "block after": block k of the line and the next one are both set. */
  predicate PairAfter(line: bv8, k: nat)
    requires k < 4
  {
    (line << k) & 0x0C == 0x0C
  }

  /** "block before": block k of the line and the previous one are both set. */
  predicate PairBefore(line: bv8, k: nat)
    requires k < 4
  {
    (line >> (3 - k)) & 0x03 == 0x03
  }

  lemma NibbleBits(b: bv8, h: nat)
    requires h < 2
    ensures var n := Nibble(b, 4 * h);
      && (n & 0x08 != 0 <==> Bit(b, 4 * h)) && (n & 0x04 != 0 <==> Bit(b, 4 * h + 1))
      && (n & 0x02 != 0 <==> Bit(b, 4 * h + 2)) && (n & 0x01 != 0 <==> Bit(b, 4 * h + 3))
      && n & 0xF0 == 0
  {
    Masks(4 * h);
    Masks(4 * h + 1);
    Masks(4 * h + 2);
    Masks(4 * h + 3);
  }

  /** Blocks k and k+1 of the line are set. */
  predicate BothSet(n: bv8, k: nat) {
    if k == 0 then n & 0x08 != 0 && n & 0x04 != 0
    else if k == 1 then n & 0x04 != 0 && n & 0x02 != 0
    else k == 2 && n & 0x02 != 0 && n & 0x01 != 0
  }

  lemma PairAfterBits(n: bv8, k: nat)
    requires k < 4 && n & 0xF0 == 0
    ensures PairAfter(n, k) <==> BothSet(n, k)
  {
    if k == 0 {
    } else if k == 1 {
    } else if k == 2 {
    } else {
    }
  }

  lemma PairBeforeBits(n: bv8, k: nat)
    requires k < 4 && n & 0xF0 == 0
    ensures PairBefore(n, k) <==> k > 0 && BothSet(n, k - 1)
  {
    if k == 0 {
    } else if k == 1 {
    } else if k == 2 {
    } else {
    }
  }

  lemma FullBits(n: bv8)
    requires n & 0xF0 == 0
    ensures n & 0x0F == 0x0F <==> n & 0x08 != 0 && n & 0x04 != 0 && n & 0x02 != 0 && n & 0x01 != 0
  {
  }

  lemma NibbleOfLine(b: bv8, i: nat)
    requires i < 8
    ensures Nibble(b, i) == Nibble(b, 4 * (i / 4))
  {
  }

  /** The three tests of the code, in terms of the bits of line h of the byte. */
  lemma LineTests(b: bv8, i: nat)
    requires i < 8
    ensures var n, h, k := Nibble(b, i), 4 * (i / 4), i % 4;
      && (PairAfter(n, k) <==> k < 3 && Bit(b, i) && Bit(b, i + 1))
      && (PairBefore(n, k) <==> k > 0 && Bit(b, i) && Bit(b, i - 1))
      && (n & 0x0F == 0x0F <==> Bit(b, h) && Bit(b, h + 1) && Bit(b, h + 2) && Bit(b, h + 3))
  {
    hide Mask, Bit, Nibble, PairAfter, PairBefore;
    var h := i / 4;
    var n := Nibble(b, 4 * h);
    NibbleOfLine(b, i);
    NibbleBits(b, h);
    PairAfterBits(n, i % 4);
    PairBeforeBits(n, i % 4);
    FullBits(n);
  }
}
