/** The CRC of crc_sw.c (EN 13757-4): a table-driven loop, complemented at the end, and what its check
    at the receiver lets through. */
module Crc {
  import opened CrcPoly
  import opened CrcTable

  /** The bits of a message, most significant first. */
  function BitsOf(c: bv8): seq<bool> {
    [c & 0x80 != 0, c & 0x40 != 0, c & 0x20 != 0, c & 0x10 != 0, c & 0x08 != 0, c & 0x04 != 0, c & 0x02 != 0, c & 0x01 != 0]
  }

  function Bits(m: seq<bv8>): (bits: seq<bool>)
    ensures |bits| == 8 * |m|
    ensures forall i :: 0 <= i < |bits| ==> bits[i] == BitsOf(m[i / 8])[i % 8]
  {
    if m == [] then [] else Bits(m[..|m| - 1]) + BitsOf(m[|m| - 1])
  }

  function Index(crc: bv16, c: bv8): bv8 {
    ((crc >> 8) ^ (c as bv16)) as bv8
  }

  /** _update_crc16_. */
  function Update(crc: bv16, c: bv8): bv16 {
    Add(crc << 8, Table(Index(crc, c) as int))
  }

  /** The loop of CRC_Compute. */
  function Register(m: seq<bv8>): bv16 {
    if m == [] then 0 else Update(Register(m[..|m| - 1]), m[|m| - 1])
  }

  function Not(a: bv16): bv16 {
    !a
  }

  function CrcOf(m: seq<bv8>): bv16 {
    Not(Register(m))
  }

  /** CRC_Compute. Both the buffer and the result may be null. */
  method Compute(buf: array?<bv8>, size: nat, crc: array?<bv16>) returns (ret: nat)
    requires size < 256 && (buf != null ==> size <= buf.Length) && (crc != null ==> crc.Length == 1)
    modifies crc
    ensures ret == if buf == null || size == 0 || crc == null then 0 else 1
    ensures ret == 1 ==> crc[0] == CrcOf(buf[..size])
    ensures ret == 0 && crc != null ==> crc[0] == old(crc[0])
  {
    hide Update;
    ret := 1;
    var register: bv16 := 0;
    if buf == null || size == 0 || crc == null {
      ret := 0;
    }
    if ret == 1 {
      var i := 0;
      while i < size
        invariant 0 <= i <= size
        invariant register == Register(buf[..i])
      {
        assert buf[..i + 1][..i] == buf[..i];
        register := Update(register, buf[i]);
        i := i + 1;
      }
      crc[0] := !register;
    }
  }

  /** CRC_Check. */
  predicate Check(a: bv16, b: bv16) {
    a == b
  }

  // ---------- the fast form is the division ----------

  lemma Split(crc: bv16, c: bv8)
    ensures Add(crc, (c as bv16) << 8) == Add((Index(crc, c) as bv16) << 8, crc & 0x00FF)
    ensures (crc & 0x00FF) & 0xFF00 == 0 && (crc & 0x00FF) << 8 == crc << 8
  {
  }

  /** One byte by the table is eight steps of the division. */
  lemma UpdateIs(crc: bv16, c: bv8)
    ensures Update(crc, c) == Shift8(Add(crc, (c as bv16) << 8))
  {
    hide Shift8, Table, Add, Index;
    var i := Index(crc, c);
    Split(crc, c);
    TableIsShifted(i);
    Shift8Xor((i as bv16) << 8, crc & 0x00FF);
    Shift8Low(crc & 0x00FF);
    AddComm(Shift8((i as bv16) << 8), crc << 8);
  }

  // ---------- bits and bytes ----------

  lemma EightZeros(r: bv16)
    ensures Remainder(r, BitsOf(0)) == Shift8(r)
  {
    hide Remainder, BringDown, Shift;
    EightBits(r, BitsOf(0));
    var r1 := Shift(r);
    var r2 := Shift(r1);
    var r3 := Shift(r2);
    var r4 := Shift(r3);
    var r5 := Shift(r4);
    var r6 := Shift(r5);
    BringDownParts(r, false);
    BringDownParts(r1, false);
    BringDownParts(r2, false);
    BringDownParts(r3, false);
    BringDownParts(r4, false);
    BringDownParts(r5, false);
    BringDownParts(r6, false);
    BringDownParts(Shift(r6), false);
  }

  lemma OneByte(c: bv8)
    ensures Remainder(0, BitsOf(c)) == c as bv16
  {
    hide Remainder;
    EightBits(0, BitsOf(c));
  }

  lemma ByteDown(r: bv16, c: bv8)
    ensures Remainder(r, BitsOf(c)) == Add(Shift8(r), c as bv16)
  {
    hide Remainder, Shift8, Add;
    EightZeros(r);
    OneByte(c);
    RemainderXor(r, 0, BitsOf(0), BitsOf(c));
    assert XorBits(BitsOf(0), BitsOf(c)) == BitsOf(c);
    AddZero(r, 0);
  }

  lemma LastByte(m: seq<bv8>, c: bv8)
    ensures Remainder(0, Bits(m + [c])) == Add(Shift8(Remainder(0, Bits(m))), c as bv16)
  {
    hide Remainder, Shift8, Add, BitsOf;
    assert (m + [c])[..|m|] == m;
    RemainderConcat(0, Bits(m), BitsOf(c));
    ByteDown(Remainder(0, Bits(m)), c);
  }

  /** The table-driven loop computes the remainder of the message followed by sixteen zero bits. */
  lemma {:induction false} TableIsDivision(m: seq<bv8>)
    ensures Register(m) == Shift8(Shift8(Remainder(0, Bits(m))))
    ensures Register(m) == Remainder(0, Bits(m + [0, 0]))
  {
    hide Update, Shift, Add, Bits, BitsOf;
    TwoMoreBytes(m, 0, 0);
    AddZero(Shift8(Shift8(Remainder(0, Bits(m)))), 0);
    if m != [] {
      var rest, c := m[..|m| - 1], m[|m| - 1];
      TableIsDivision(rest);
      LoopStep(Remainder(0, Bits(rest)), c);
      LastByte(rest, c);
      assert rest + [c] == m;
    } else {
      ShiftZero();
    }
  }

  lemma ShiftZero()
    ensures Shift8(0) == 0 && Bits([]) == [] && Remainder(0, []) == 0
  {
  }

  /** The invariant of that loop: the register is sixteen places ahead of the long division. */
  lemma LoopStep(r: bv16, c: bv8)
    ensures Update(Shift8(Shift8(r)), c) == Shift8(Shift8(Add(Shift8(r), c as bv16)))
  {
    hide Update, Shift8, Add;
    UpdateIs(Shift8(Shift8(r)), c);
    Shift8Xor(Shift8(r), c as bv16);
    ByteIsLow(c);
    Shift8Low(c as bv16);
  }

  lemma ByteIsLow(c: bv8)
    ensures (c as bv16) & 0xFF00 == 0
  {
  }

  lemma TwoMoreBytes(m: seq<bv8>, hi: bv8, lo: bv8)
    ensures Remainder(0, Bits(m + [hi, lo])) == Add(Shift8(Shift8(Remainder(0, Bits(m)))), Word(hi, lo))
  {
    hide Remainder, Shift8, Add, Bits, Word;
    var r := Remainder(0, Bits(m));
    LastByte(m, hi);
    LastByte(m + [hi], lo);
    assert m + [hi] + [lo] == m + [hi, lo];
    Shift8Xor(Shift8(r), hi as bv16);
    ByteIsLow(hi);
    Shift8Low(hi as bv16);
    AddAssoc(Shift8(Shift8(r)), (hi as bv16) << 8, lo as bv16);
    WordIs(hi, lo);
  }

  // ---------- linearity ----------

  function XorBytes(a: seq<bv8>, b: seq<bv8>): (c: seq<bv8>)
    requires |a| == |b|
    ensures |c| == |a| && forall i :: 0 <= i < |a| ==> c[i] == a[i] ^ b[i]
  {
    seq(|a|, i requires 0 <= i < |a| => a[i] ^ b[i])
  }

  /** The uncomplemented CRC of a sum is the sum of the CRCs. */
  lemma {:induction false} RegisterXor(a: seq<bv8>, b: seq<bv8>)
    requires |a| == |b|
    ensures Register(XorBytes(a, b)) == Add(Register(a), Register(b))
  {
    hide Update, Add;
    if a == [] {
      AddZero(0, 0);
    } else {
      var n := |a| - 1;
      RegisterXor(a[..n], b[..n]);
      assert XorBytes(a, b)[..n] == XorBytes(a[..n], b[..n]);
      UpdateXor(Register(a[..n]), a[n], Register(b[..n]), b[n]);
    }
  }

  lemma UpdateXor(x: bv16, a: bv8, y: bv16, b: bv8)
    ensures Update(Add(x, y), a ^ b) == Add(Update(x, a), Update(y, b))
  {
    hide Update, Shift8, Add;
    UpdateIs(x, a);
    UpdateIs(y, b);
    UpdateIs(Add(x, y), a ^ b);
    WideXor(a, b);
    AddSwap(x, y, (a as bv16) << 8, (b as bv16) << 8);
    Shift8Xor(Add(x, (a as bv16) << 8), Add(y, (b as bv16) << 8));
  }

  lemma WideXor(a: bv8, b: bv8)
    ensures ((a ^ b) as bv16) << 8 == Add((a as bv16) << 8, (b as bv16) << 8)
  {
  }

  // ---------- the CRC field and its check ----------

  /** A 16-bit field in network order. */
  function Word(hi: bv8, lo: bv8): bv16 {
    ((hi as bv16) << 8) | (lo as bv16)
  }

  lemma WordIs(hi: bv8, lo: bv8)
    ensures Word(hi, lo) == Add((hi as bv16) << 8, lo as bv16)
  {
  }

  function High(w: bv16): bv8 {
    (w >> 8) as bv8
  }

  function Low(w: bv16): bv8 {
    (w & 0x00FF) as bv8
  }

  /** A message followed by its CRC field. */
  function Sealed(m: seq<bv8>): (s: seq<bv8>)
    ensures |s| == |m| + 2
  {
    m + [High(CrcOf(m)), Low(CrcOf(m))]
  }

  /** What a receiver checks. */
  predicate Accepted(frame: seq<bv8>)
    requires |frame| >= 2
  {
    var n := |frame| - 2;
    Check(Word(frame[n], frame[n + 1]), CrcOf(frame[..n]))
  }

  lemma FieldXor(w: bv16, hi: bv8, lo: bv8)
    ensures Word(High(w) ^ hi, Low(w) ^ lo) == Add(w, Word(hi, lo))
  {
  }

  lemma Cancel(a: bv16, b: bv16, c: bv16)
    ensures Add(a, b) == Add(a, c) <==> b == c
  {
  }

  lemma NotIs(a: bv16)
    ensures Not(a) == Add(a, 0xFFFF)
  {
  }

  lemma Complement(a: bv16, b: bv16, f: bv16)
    ensures Add(Not(a), f) == Not(Add(a, b)) <==> f == b
  {
    hide Add, Not;
    NotIs(a);
    NotIs(Add(a, b));
    AddAssoc(a, b, 0xFFFF);
    AddComm(b, 0xFFFF);
    AddAssoc(a, 0xFFFF, b);
    Cancel(Add(a, 0xFFFF), f, b);
  }

  /** The two parts of a frame that has been changed by e. */
  lemma ChangedParts(m: seq<bv8>, e: seq<bv8>)
    requires |e| == |m| + 2
    ensures var n, changed := |m|, XorBytes(Sealed(m), e);
      changed[..n] == XorBytes(m, e[..n]) && Word(changed[n], changed[n + 1]) == Add(CrcOf(m), Word(e[n], e[n + 1]))
  {
    hide Word, Register, High, Low;
    FieldXor(CrcOf(m), e[|m|], e[|m| + 1]);
  }

  lemma AcceptedParts(m: seq<bv8>, e: seq<bv8>)
    requires |e| == |m| + 2
    ensures Accepted(XorBytes(Sealed(m), e))
      <==> Add(Not(Register(m)), Word(e[|m|], e[|m| + 1])) == Not(Register(XorBytes(m, e[..|m|])))
  {
    hide Not, Word, Register, Add, XorBytes, Sealed;
    ChangedParts(m, e);
  }

  lemma LastTwo<T>(s: seq<T>)
    requires |s| >= 2
    ensures s == s[..|s| - 2] + [s[|s| - 2], s[|s| - 1]]
  {
  }

  lemma AcceptedField(m: seq<bv8>, e: seq<bv8>)
    requires |e| == |m| + 2
    ensures Accepted(XorBytes(Sealed(m), e)) <==> Word(e[|m|], e[|m| + 1]) == Register(e[..|m|])
  {
    hide Register, Add, Word, XorBytes, Sealed, Accepted, Not;
    AcceptedParts(m, e);
    RegisterXor(m, e[..|m|]);
    Complement(Register(m), Register(e[..|m|]), Word(e[|m|], e[|m| + 1]));
  }

  lemma DivisibleField(e: seq<bv8>)
    requires |e| >= 2
    ensures var n := |e| - 2; Remainder(0, Bits(e)) == 0 <==> Word(e[n], e[n + 1]) == Register(e[..n])
  {
    hide Register, Add, Word, Bits, Remainder, Shift8;
    var n := |e| - 2;
    LastTwo(e);
    TwoMoreBytes(e[..n], e[n], e[n + 1]);
    TableIsDivision(e[..n]);
    AddZero(Register(e[..n]), Word(e[n], e[n + 1]));
  }

  /** A frame that has been changed by e is accepted exactly when the generator divides e. */
  lemma AcceptedWhenDivisible(m: seq<bv8>, e: seq<bv8>)
    requires |e| == |m| + 2
    ensures Accepted(XorBytes(Sealed(m), e)) <==> Remainder(0, Bits(e)) == 0
  {
    hide Register, Word, Bits, Remainder, XorBytes, Sealed, Accepted;
    AcceptedField(m, e);
    DivisibleField(e);
  }

  /** No burst of sixteen bits or fewer gets through, wherever it lies in the message and its CRC field. */
  lemma BurstRejected(m: seq<bv8>, e: seq<bv8>, at: nat, n: nat)
    requires |e| == |m| + 2 && n <= 16 && at + n <= 8 * |e| && !AllFalse(Bits(e))
    requires forall i :: 0 <= i < 8 * |e| && Bits(e)[i] ==> at <= i < at + n
    ensures !Accepted(XorBytes(Sealed(m), e))
  {
    hide Accepted, Bits, Remainder;
    AcceptedWhenDivisible(m, e);
    BurstIsNotDivisible(Bits(e), at, n);
  }

  /** Any change of one byte, or of two that follow each other, is rejected. */
  lemma AdjacentBytesRejected(m: seq<bv8>, e: seq<bv8>, p: nat)
    requires |e| == |m| + 2 && p + 1 < |e| && (e[p] != 0 || e[p + 1] != 0)
    requires forall i :: 0 <= i < |e| && i != p && i != p + 1 ==> e[i] == 0
    ensures !Accepted(XorBytes(Sealed(m), e))
  {
    hide Accepted, Remainder;
    forall i | 0 <= i < 8 * |e| && Bits(e)[i]
      ensures 8 * p <= i < 8 * p + 16
    {
      ZeroByte(e[i / 8], i % 8);
    }
    var q := if e[p] != 0 then p else p + 1;
    var k := SomeBit(e[q]);
    assert Bits(e)[8 * q + k];
    BurstRejected(m, e, 8 * p, 16);
  }

  lemma ZeroByte(c: bv8, k: nat)
    requires k < 8 && BitsOf(c)[k]
    ensures c != 0
  {
  }

  function SomeBit(c: bv8): (k: nat)
    requires c != 0
    ensures k < 8 && BitsOf(c)[k]
  {
    if c & 0x80 != 0 then 0 else if c & 0x40 != 0 then 1 else if c & 0x20 != 0 then 2 else if c & 0x10 != 0 then 3
    else if c & 0x08 != 0 then 4 else if c & 0x04 != 0 then 5 else if c & 0x02 != 0 then 6 else 7
  }

  /** An untouched frame is accepted. */
  lemma SealedIsAccepted(m: seq<bv8>)
    ensures Accepted(Sealed(m))
  {
    hide Register;
    assert Sealed(m)[..|m|] == m;
    WordOfParts(CrcOf(m));
  }

  lemma WordOfParts(w: bv16)
    ensures Word(High(w), Low(w)) == w
  {
  }
}
