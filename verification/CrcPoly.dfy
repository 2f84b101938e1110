/** Division of a bit string by the generator x^16 + POLY over GF(2), one bit at a time. */
module CrcPoly {

  const POLY: bv16 := 0x3D65

  /** Addition of polynomials. */
  function Add(a: bv16, b: bv16): bv16 {
    a ^ b
  }

  function Tap(b: bool): bv16 {
    if b then POLY else 0
  }

  /** Multiplication by x modulo the generator. */
  function Shift(r: bv16): bv16 {
    Add(r << 1, Tap(r & 0x8000 != 0))
  }

  function Shift8(r: bv16): bv16 {
    Shift(Shift(Shift(Shift(Shift(Shift(Shift(Shift(r))))))))
  }

  /** The remainder of a long division once one more bit has been brought down. */
  function BringDown(r: bv16, b: bool): bv16 {
    Add(Shift(r), Unit(b))
  }

  function Unit(b: bool): bv16 {
    if b then 1 else 0
  }

  /** The remainder of the polynomial that r and then the bits are the coefficients of. */
  function Remainder(r: bv16, bits: seq<bool>): bv16
    decreases |bits|
  {
    if bits == [] then r else Remainder(BringDown(r, bits[0]), bits[1..])
  }

  lemma {:induction false} RemainderConcat(r: bv16, a: seq<bool>, b: seq<bool>)
    ensures Remainder(r, a + b) == Remainder(Remainder(r, a), b)
    decreases |a|
  {
    if a == [] {
      assert a + b == b;
    } else {
      RemainderConcat(BringDown(r, a[0]), a[1..], b);
      assert (a + b)[1..] == a[1..] + b;
    }
  }

  lemma TwoBits(r: bv16, bits: seq<bool>)
    requires |bits| >= 2
    ensures Remainder(r, bits) == Remainder(BringDown(BringDown(r, bits[0]), bits[1]), bits[2..])
  {
    hide BringDown;
    assert bits[1..][0] == bits[1] && bits[1..][1..] == bits[2..];
  }

  lemma EightBits(r: bv16, b: seq<bool>)
    requires |b| == 8
    ensures var r2 := BringDown(BringDown(r, b[0]), b[1]);
      var r4 := BringDown(BringDown(r2, b[2]), b[3]);
      var r6 := BringDown(BringDown(r4, b[4]), b[5]);
      Remainder(r, b) == BringDown(BringDown(r6, b[6]), b[7])
  {
    hide BringDown;
    TwoBits(r, b);
    var r2 := BringDown(BringDown(r, b[0]), b[1]);
    TwoBits(r2, b[2..]);
    var r4 := BringDown(BringDown(r2, b[2]), b[3]);
    assert b[2..][2..] == b[4..];
    TwoBits(r4, b[4..]);
    assert b[4..][2..] == b[6..];
    TwoBits(BringDown(BringDown(r4, b[4]), b[5]), b[6..]);
  }

  // ---------- linearity ----------

  lemma AddComm(a: bv16, b: bv16)
    ensures Add(a, b) == Add(b, a)
  {
  }

  lemma AddAssoc(a: bv16, b: bv16, c: bv16)
    ensures Add(Add(a, b), c) == Add(a, Add(b, c))
  {
  }

  lemma AddSwap(a: bv16, b: bv16, c: bv16, d: bv16)
    ensures Add(Add(a, b), Add(c, d)) == Add(Add(a, c), Add(b, d))
  {
    hide Add;
    AddAssoc(a, b, Add(c, d));
    AddAssoc(b, c, d);
    AddComm(b, c);
    AddAssoc(c, b, d);
    AddAssoc(a, c, Add(b, d));
  }

  lemma AddZero(a: bv16, b: bv16)
    ensures Add(a, 0) == a && Add(0, a) == a
    ensures Add(a, b) == 0 <==> a == b
  {
  }

  lemma ShiftParts(x: bv16)
    ensures Shift(x) == Add(x << 1, Tap(x & 0x8000 != 0))
  {
  }

  lemma TopXor(x: bv16, y: bv16)
    ensures Add(x, y) << 1 == Add(x << 1, y << 1)
    ensures (Add(x, y) & 0x8000 != 0) == ((x & 0x8000 != 0) != (y & 0x8000 != 0))
  {
  }

  lemma TapXor(a: bool, b: bool)
    ensures Tap(a != b) == Add(Tap(a), Tap(b)) && Unit(a != b) == Add(Unit(a), Unit(b))
  {
  }

  lemma ShiftXor(x: bv16, y: bv16)
    ensures Shift(Add(x, y)) == Add(Shift(x), Shift(y))
  {
    hide Shift, Tap, Add;
    var a, b := x & 0x8000 != 0, y & 0x8000 != 0;
    ShiftParts(x);
    ShiftParts(y);
    ShiftParts(Add(x, y));
    TopXor(x, y);
    TapXor(a, b);
    AddSwap(x << 1, y << 1, Tap(a), Tap(b));
  }

  lemma Shift8Xor(x: bv16, y: bv16)
    ensures Shift8(Add(x, y)) == Add(Shift8(x), Shift8(y))
  {
    hide Shift, Add;
    ShiftXor(x, y);
    var x1, y1 := Shift(x), Shift(y);
    ShiftXor(x1, y1);
    var x2, y2 := Shift(x1), Shift(y1);
    ShiftXor(x2, y2);
    var x3, y3 := Shift(x2), Shift(y2);
    ShiftXor(x3, y3);
    var x4, y4 := Shift(x3), Shift(y3);
    ShiftXor(x4, y4);
    var x5, y5 := Shift(x4), Shift(y4);
    ShiftXor(x5, y5);
    var x6, y6 := Shift(x5), Shift(y5);
    ShiftXor(x6, y6);
    ShiftXor(Shift(x6), Shift(y6));
  }

  /** A value of degree less than 8 is only moved up. */
  lemma Shift8Low(x: bv16)
    requires x & 0xFF00 == 0
    ensures Shift8(x) == x << 8
  {
  }

  lemma BringDownXor(x: bv16, y: bv16, a: bool, b: bool)
    ensures BringDown(Add(x, y), a != b) == Add(BringDown(x, a), BringDown(y, b))
  {
    hide Shift, Add, Unit, BringDown;
    BringDownParts(x, a);
    BringDownParts(y, b);
    BringDownParts(Add(x, y), a != b);
    ShiftXor(x, y);
    TapXor(a, b);
    AddSwap(Shift(x), Shift(y), Unit(a), Unit(b));
  }

  lemma BringDownParts(x: bv16, a: bool)
    ensures BringDown(x, a) == Add(Shift(x), Unit(a))
    ensures BringDown(x, false) == Shift(x)
  {
    hide Shift, Add;
    AddZero(Shift(x), 0);
  }

  function XorBits(a: seq<bool>, b: seq<bool>): (c: seq<bool>)
    requires |a| == |b|
    ensures |c| == |a| && forall i :: 0 <= i < |a| ==> c[i] == (a[i] != b[i])
  {
    seq(|a|, i requires 0 <= i < |a| => a[i] != b[i])
  }

  lemma {:induction false} RemainderXor(x: bv16, y: bv16, a: seq<bool>, b: seq<bool>)
    requires |a| == |b|
    ensures Remainder(Add(x, y), XorBits(a, b)) == Add(Remainder(x, a), Remainder(y, b))
    decreases |a|
  {
    hide BringDown, Add;
    if a != [] {
      BringDownXor(x, y, a[0], b[0]);
      RemainderXor(BringDown(x, a[0]), BringDown(y, b[0]), a[1..], b[1..]);
      assert XorBits(a, b)[1..] == XorBits(a[1..], b[1..]);
    }
  }

  // ---------- what divides and what does not ----------

  predicate AllFalse(bits: seq<bool>) {
    forall i :: 0 <= i < |bits| ==> !bits[i]
  }

  /** The generator has a constant term, so multiplication by x loses nothing. */
  lemma ShiftNonZero(x: bv16)
    ensures Shift(x) == 0 <==> x == 0
  {
  }

  lemma {:induction false} RemainderOfZeros(r: bv16, bits: seq<bool>)
    requires AllFalse(bits)
    ensures Remainder(r, bits) == 0 <==> r == 0
    decreases |bits|
  {
    hide Shift, BringDown;
    if bits != [] {
      BringDownParts(r, false);
      ShiftNonZero(r);
      RemainderOfZeros(Shift(r), bits[1..]);
    }
  }

  const MASKS: seq<bv16> := [
    0xFFFF, 0xFFFE, 0xFFFC, 0xFFF8, 0xFFF0, 0xFFE0, 0xFFC0, 0xFF80,
    0xFF00, 0xFE00, 0xFC00, 0xF800, 0xF000, 0xE000, 0xC000, 0x8000]

  /** A remainder of degree less than n. */
  predicate Degree(r: bv16, n: nat)
    requires n <= 16
  {
    n < 16 ==> r & MASKS[n] == 0
  }

  lemma Masks(n: nat)
    requires n < 16
    ensures MASKS[n] & 0x8000 != 0
    ensures n < 15 ==> MASKS[n + 1] == MASKS[n] << 1
  {
  }

  lemma DegreeStep(r: bv16, b: bool, m: bv16)
    requires m & 0x8000 != 0 && r & m == 0
    ensures BringDown(r, b) & (m << 1) == 0
    ensures BringDown(r, b) == 0 <==> r == 0 && !b
  {
  }

  lemma DegreeAfter(r: bv16, b: bool, n: nat)
    requires n < 16 && Degree(r, n)
    ensures Degree(BringDown(r, b), n + 1)
    ensures BringDown(r, b) == 0 <==> r == 0 && !b
  {
    hide BringDown;
    Masks(n);
    DegreeStep(r, b, MASKS[n]);
  }

  /** Sixteen bits at most are their own remainder. */
  lemma {:induction false} ShortIsNotDivisible(r: bv16, n: nat, bits: seq<bool>)
    requires n + |bits| <= 16 && Degree(r, n)
    ensures Remainder(r, bits) == 0 <==> r == 0 && AllFalse(bits)
    decreases |bits|
  {
    hide BringDown, Degree;
    if bits != [] {
      DegreeAfter(r, bits[0], n);
      ShortIsNotDivisible(BringDown(r, bits[0]), n + 1, bits[1..]);
      assert AllFalse(bits) <==> !bits[0] && AllFalse(bits[1..]);
    }
  }

  lemma DegreeZero()
    ensures Degree(0, 0)
  {
  }

  /** No burst is divisible: whatever differs from 0 within sixteen consecutive bits only. */
  lemma BurstIsNotDivisible(bits: seq<bool>, at: nat, n: nat)
    requires n <= 16 && at + n <= |bits| && !AllFalse(bits)
    requires forall i :: 0 <= i < |bits| && bits[i] ==> at <= i < at + n
    ensures Remainder(0, bits) != 0
  {
    hide Remainder, Degree;
    var before, burst, after := bits[..at], bits[at..at + n], bits[at + n..];
    assert bits == before + burst + after;
    var k :| 0 <= k < |bits| && bits[k];
    assert burst[k - at];
    RemainderConcat(0, before + burst, after);
    RemainderConcat(0, before, burst);
    RemainderOfZeros(0, before);
    DegreeZero();
    ShortIsNotDivisible(0, 0, burst);
    RemainderOfZeros(Remainder(0, burst), after);
  }
}
