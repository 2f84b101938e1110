/** The field GF(2^8) behind the log and antilog tables of rs.c: bytes under exclusive-or, and
    multiplication of polynomials over GF(2) modulo 1 + x^2 + x^3 + x^4 + x^8. */
module GF256 {
  import opened Bytes

  // ---------- exclusive-or ----------

  /** Bitwise exclusive-or, bit by bit from the low end. */
  function Xor(a: nat, b: nat): nat
    decreases a + b
  {
    if a == 0 then b
    else if b == 0 then a
    else 2 * Xor(a / 2, b / 2) + (a + b) % 2
  }

  lemma XorZero(a: nat, b: nat)
    ensures Xor(0, b) == b && Xor(a, 0) == a
  {
  }

  lemma XorBits(a: nat, b: nat)
    ensures Xor(a, b) / 2 == Xor(a / 2, b / 2)
    ensures Xor(a, b) % 2 == (a + b) % 2
  {
  }

  /** The bitwise reading of Xor, as one step for inductions over the bits. */
  lemma XorFromBits(v: nat, a: nat, b: nat)
    requires v / 2 == Xor(a / 2, b / 2) && v % 2 == (a + b) % 2
    ensures v == Xor(a, b)
  {
    XorBits(a, b);
  }

  lemma {:induction false} XorComm(a: nat, b: nat)
    ensures Xor(a, b) == Xor(b, a)
    decreases a + b
  {
    if a != 0 && b != 0 {
      XorComm(a / 2, b / 2);
    }
  }

  lemma ParityAssoc(a: nat, b: nat, c: nat, ab: nat, bc: nat)
    requires ab % 2 == (a + b) % 2 && bc % 2 == (b + c) % 2
    ensures (ab + c) % 2 == (a + bc) % 2
  {
  }

  lemma {:induction false} XorAssoc(a: nat, b: nat, c: nat)
    ensures Xor(Xor(a, b), c) == Xor(a, Xor(b, c))
    decreases a + b + c
  {
    if a + b + c > 0 {
      hide Xor;
      XorAssoc(a / 2, b / 2, c / 2);
      XorBits(a, b);
      XorBits(b, c);
      var ab, bc := Xor(a, b), Xor(b, c);
      XorBits(ab, c);
      ParityAssoc(a, b, c, ab, bc);
      XorFromBits(Xor(ab, c), a, bc);
    }
  }

  lemma {:induction false} XorSelf(a: nat)
    ensures Xor(a, a) == 0
  {
    if a != 0 {
      XorSelf(a / 2);
    }
  }

  predicate IsPowerOfTwo(m: nat) {
    m == 1 || (m > 1 && m % 2 == 0 && IsPowerOfTwo(m / 2))
  }

  lemma {:induction false} XorBound(a: nat, b: nat, m: nat)
    requires IsPowerOfTwo(m) && a < m && b < m
    ensures Xor(a, b) < m
    decreases m
  {
    if a != 0 && b != 0 {
      XorBound(a / 2, b / 2, m / 2);
    }
  }

  lemma HalfSum(a: nat, m: nat)
    requires m % 2 == 0
    ensures (a + m) / 2 == a / 2 + m / 2
  {
  }

  lemma {:induction false} XorPower(a: nat, m: nat)
    requires IsPowerOfTwo(m) && a < m
    ensures Xor(a, m) == a + m
    decreases m
  {
    hide Xor;
    if m == 1 {
      XorZero(a, m);
    } else {
      XorPower(a / 2, m / 2);
      HalfSum(a, m);
      XorFromBits(a + m, a, m);
    }
  }

  /** A shift right by one. */
  function Half(x: bv8): bv8 {
    x >> 1
  }

  lemma HalfBits(x: bv8)
    ensures Half(x) as int == (x as int) / 2
    ensures (x as int) % 2 == if x & 1 == 0 then 0 else 1
  {
  }

  /** The low bit of x. */
  function Low(x: bv8): (r: nat)
    ensures r == (x as int) % 2
  {
    HalfBits(x);
    if x & 1 == 0 then 0 else 1
  }

  lemma LowXor(x: bv8, y: bv8)
    ensures Low(x ^ y) == (Low(x) + Low(y)) % 2
  {
    assert (x ^ y) & 1 == (x & 1) ^ (y & 1);
    assert x & 1 == 0 || x & 1 == 1;
    assert y & 1 == 0 || y & 1 == 1;
  }

  lemma ParityAdd(a: nat, b: nat)
    ensures (a + b) % 2 == (a % 2 + b % 2) % 2
  {
  }

  lemma HalfXor(x: bv8, y: bv8)
    ensures ((x ^ y) as int) / 2 == (Half(x) ^ Half(y)) as int
  {
    assert Half(x ^ y) == Half(x) ^ Half(y);
    HalfBits(x ^ y);
  }

  lemma XorZeroBits(x: bv8, y: bv8)
    ensures x == 0 ==> x ^ y == y
    ensures y == 0 ==> x ^ y == x
    ensures x as int == 0 <==> x == 0
    ensures y as int == 0 <==> y == 0
  {
  }

  lemma ParityXor(x: bv8, y: bv8)
    ensures ((x ^ y) as int) % 2 == (x as int + y as int) % 2
  {
    LowXor(x, y);
    ParityAdd(x as int, y as int);
  }

  /** The bytes x, y and x ^ y read as the numbers a, b and v. */
  ghost predicate Reads(x: bv8, y: bv8, a: int, b: int, v: int) {
    x as int == a && y as int == b && (x ^ y) as int == v
  }

  /** Shifting both operands right gives the halves of a, b and their exclusive-or. */
  lemma Halves(x: bv8, y: bv8, a: int, b: int, v: int)
    requires Reads(x, y, a, b, v)
    ensures Reads(Half(x), Half(y), a / 2, b / 2, v / 2)
    ensures v % 2 == (a + b) % 2
    ensures a == 0 ==> v == b
    ensures b == 0 ==> v == a
  {
    HalfBits(x);
    HalfBits(y);
    HalfXor(x, y);
    ParityXor(x, y);
    XorZeroBits(x, y);
  }

  lemma {:induction false} MachineXor(x: bv8, y: bv8, a: nat, b: nat, v: nat)
    requires Reads(x, y, a, b, v)
    ensures v == Xor(a, b)
    decreases a + b
  {
    hide Xor, Reads, Half;
    Halves(x, y, a, b, v);
    XorZero(a, b);
    if a != 0 && b != 0 {
      MachineXor(Half(x), Half(y), a / 2, b / 2, v / 2);
      XorFromBits(v, a, b);
    }
  }

  /** Xor is the exclusive-or of machine bytes. */
  lemma XorIsMachineXor(x: bv8, y: bv8)
    ensures (x ^ y) as int == Xor(x as int, y as int)
  {
    MachineXor(x, y, x as int, y as int, (x ^ y) as int);
  }

  // ---------- addition ----------

  /** Addition of the field. */
  function Add(a: byte, b: byte): byte {
    XorBound(a, b, 256);
    Xor(a, b)
  }

  lemma AddLaws(a: byte, b: byte)
    ensures Add(a, b) == Add(b, a)
    ensures Add(a, a) == 0
    ensures Add(a, 0) == a == Add(0, a) && Add(b, 0) == b == Add(0, b)
    ensures Add(Add(a, b), b) == a && Add(b, Add(b, a)) == a
  {
    XorComm(a, b);
    XorSelf(a);
    XorSelf(b);
    XorAssoc(a, b, b);
    XorAssoc(b, b, a);
  }

  lemma AddAssoc(a: byte, b: byte, c: byte)
    ensures Add(Add(a, b), c) == Add(a, Add(b, c))
  {
    XorAssoc(a, b, c);
  }

  lemma AddSwap(p: byte, q: byte, r: byte, s: byte)
    ensures Add(Add(p, q), Add(r, s)) == Add(Add(p, r), Add(q, s))
  {
    hide Add;
    AddAssoc(p, q, Add(r, s));
    AddAssoc(q, r, s);
    AddLaws(q, r);
    AddAssoc(r, q, s);
    AddAssoc(p, r, Add(q, s));
  }

  // ---------- multiplication by x ----------

  /** Multiplication by x: a shift, then a reduction when x^8 appears. */
  function Xtime(a: byte): byte {
    if a >= 128 then Add(2 * (a - 128), 29) else 2 * a
  }

  lemma AddDouble(a: byte, b: byte)
    requires a < 128 && b < 128
    ensures Add(a, b) < 128 && 2 * Add(a, b) == Add(2 * a, 2 * b)
  {
    XorBound(a, b, 128);
  }

  lemma AddHigh(a: byte)
    requires a < 128
    ensures Add(a, 128) == a + 128
  {
    hide Xor;
    assert IsPowerOfTwo(128);
    XorPower(a, 128);
  }

  lemma AddLowBits(a: byte, b: byte)
    requires a < 128 && b < 128
    ensures Add(a, b) < 128 && 2 * Add(a, b) == Add(2 * a, 2 * b)
    ensures Add(a + 128, b) == Add(a, b) + 128 == Add(a, b + 128)
    ensures Add(a + 128, b + 128) == Add(a, b)
  {
    hide Add;
    AddDouble(a, b);
    AddHigh(a);
    AddHigh(b);
    AddHigh(Add(a, b));
    AddAssoc(a, 128, b);
    AddAssoc(a, b, 128);
    AddAssoc(a + 128, b, 128);
    AddLaws(Add(a, b), 128);
    AddLaws(128, b);
  }

  lemma XtimeAdd(a: byte, b: byte)
    ensures Xtime(Add(a, b)) == Add(Xtime(a), Xtime(b))
  {
    hide Add;
    var a0, b0 := a % 128, b % 128;
    AddLowBits(a0, b0);
    var x, y := 2 * a0, 2 * b0;
    AddAssoc(x, 29, y);
    AddAssoc(x, y, 29);
    AddLaws(29, y);
    AddAssoc(x, 29, Add(y, 29));
    AddLaws(29, Add(y, 29));
    AddLaws(y, 29);
  }

  // ---------- multiplication ----------

  /** a, or nothing: the contribution of one bit. */
  function Keep(bit: nat, a: byte): byte {
    if bit % 2 == 1 then a else 0
  }

  /** Multiplication, by Horner's rule over the bits of b. */
  function Mul(a: byte, b: byte): byte
    decreases b
  {
    if b == 0 then 0 else Add(Keep(b, a), Xtime(Mul(a, b / 2)))
  }

  lemma {:induction false} MulZero(a: byte)
    ensures Mul(a, 0) == 0 == Mul(0, a)
    decreases a
  {
    if a != 0 {
      MulZero(a / 2);
      AddLaws(0, 0);
    }
  }

  lemma MulHorner(a: byte, b: byte)
    ensures Mul(a, b) == Add(Keep(b, a), Xtime(Mul(a, b / 2)))
  {
    AddLaws(0, 0);
  }

  lemma KeepAdd(b: byte, c: byte, a: byte)
    ensures Keep(Add(b, c), a) == Add(Keep(b, a), Keep(c, a))
    ensures Add(b, c) / 2 == Add(b / 2, c / 2)
  {
    XorBits(b, c);
    assert Keep(b, a) == 0 || Keep(b, a) == a;
    hide Add;
    AddLaws(a, 0);
    AddLaws(a, a);
    AddLaws(0, 0);
  }

  lemma {:induction false} MulAdd(a: byte, b: byte, c: byte)
    ensures Mul(a, Add(b, c)) == Add(Mul(a, b), Mul(a, c))
    decreases b + c
  {
    hide Add, Mul, Keep, Xtime;
    if b == 0 || c == 0 {
      AddLaws(b, c);
      AddLaws(b, 0);
      AddLaws(c, 0);
      MulZero(a);
      AddLaws(Mul(a, b), Mul(a, c));
      AddLaws(Mul(a, b), 0);
      AddLaws(Mul(a, c), 0);
    } else {
      MulAdd(a, b / 2, c / 2);
      KeepAdd(b, c, a);
      var x, y := Mul(a, b / 2), Mul(a, c / 2);
      MulHorner(a, Add(b, c));
      MulHorner(a, b);
      MulHorner(a, c);
      XtimeAdd(x, y);
      AddSwap(Keep(b, a), Keep(c, a), Xtime(x), Xtime(y));
    }
  }

  lemma {:induction false} MulXtime(a: byte, b: byte)
    ensures Mul(Xtime(a), b) == Xtime(Mul(a, b))
    decreases b
  {
    if b != 0 {
      MulXtime(a, b / 2);
      XtimeAdd(Keep(b, a), Xtime(Mul(a, b / 2)));
    }
  }

  lemma {:induction false} OneMul(b: byte)
    ensures Mul(1, b) == b
    decreases b
  {
    if b != 0 {
      OneMul(b / 2);
      assert Add(b % 2, 2 * (b / 2)) == b by {
        XorBits(b % 2, 2 * (b / 2));
        AddLaws(0, b / 2);
      }
    }
  }

  // ---------- powers of the primitive element ----------

  /** Powers of the primitive element alpha = 2. */
  function Exp(n: nat): byte {
    if n == 0 then 1 else Xtime(Exp(n - 1))
  }

  lemma {:induction false} MulExp(m: nat, n: nat)
    ensures Mul(Exp(m), Exp(n)) == Exp(m + n)
  {
    if m == 0 {
      OneMul(Exp(n));
    } else {
      MulExp(m - 1, n);
      MulXtime(Exp(m - 1), Exp(n));
    }
  }

  /** Xtime on machine bytes: the form that evaluates well on constants. */
  function XtimeBits(x: bv8): bv8 {
    if x & 0x80 != 0 then (x << 1) ^ 0x1D else x << 1
  }

  lemma XtimeOnBits(x: bv8)
    ensures Xtime(x as int) == XtimeBits(x) as int
  {
    assert (x << 1) as int == if x & 0x80 == 0 then 2 * (x as int) else 2 * (x as int - 128);
    XorIsMachineXor(x << 1, 0x1D);
  }

  function XtimeBits4(x: bv8): bv8 {
    XtimeBits(XtimeBits(XtimeBits(XtimeBits(x))))
  }

  lemma Walk4(n: nat, x: bv8)
    requires Exp(n) == x as int
    ensures Exp(n + 4) == XtimeBits4(x) as int
  {
    var x1 := XtimeBits(x);
    var x2 := XtimeBits(x1);
    var x3 := XtimeBits(x2);
    hide Xtime, XtimeBits;
    XtimeOnBits(x);
    XtimeOnBits(x1);
    XtimeOnBits(x2);
    XtimeOnBits(x3);
    assert Exp(n + 1) == x1 as int;
    assert Exp(n + 2) == x2 as int;
    assert Exp(n + 3) == x3 as int;
  }

  function XtimeBits17(x: bv8): bv8 {
    XtimeBits(XtimeBits4(XtimeBits4(XtimeBits4(XtimeBits4(x)))))
  }

  lemma Walk17(n: nat, x: bv8, y: bv8)
    requires Exp(n) == x as int && XtimeBits17(x) == y
    ensures Exp(n + 17) == y as int
  {
    var x1 := XtimeBits4(x);
    var x2 := XtimeBits4(x1);
    var x3 := XtimeBits4(x2);
    var x4 := XtimeBits4(x3);
    hide Xtime, XtimeBits, XtimeBits4;
    Walk4(n, x);
    Walk4(n + 4, x1);
    Walk4(n + 8, x2);
    Walk4(n + 12, x3);
    XtimeOnBits(x4);
  }

  lemma WalkTo51(n: nat)
    requires Exp(n) == 1
    ensures Exp(n + 17) == 152 && Exp(n + 51) == 10
  {
    assert XtimeBits17(1) == 152 && XtimeBits17(152) == 78 && XtimeBits17(78) == 10;
    hide Exp, XtimeBits17;
    Walk17(n + 0, 1, 152);
    Walk17(n + 17, 152, 78);
    Walk17(n + 34, 78, 10);
  }

  lemma WalkTo85(n: nat)
    requires Exp(n) == 10
    ensures Exp(n + 34) == 214
  {
    assert XtimeBits17(10) == 153 && XtimeBits17(153) == 214;
    hide Exp, XtimeBits17;
    Walk17(n + 0, 10, 153);
    Walk17(n + 17, 153, 214);
  }

  lemma WalkTo170(n: nat)
    requires Exp(n) == 214
    ensures Exp(n + 85) == 215
  {
    assert XtimeBits17(214) == 68 && XtimeBits17(68) == 147 && XtimeBits17(147) == 79 && XtimeBits17(79) == 146 && XtimeBits17(146) == 215;
    hide Exp, XtimeBits17;
    Walk17(n + 0, 214, 68);
    Walk17(n + 17, 68, 147);
    Walk17(n + 34, 147, 79);
    Walk17(n + 51, 79, 146);
    Walk17(n + 68, 146, 215);
  }

  lemma WalkTo255(n: nat)
    requires Exp(n) == 215
    ensures Exp(n + 85) == 1
  {
    assert XtimeBits17(215) == 220 && XtimeBits17(220) == 221 && XtimeBits17(221) == 69 && XtimeBits17(69) == 11 && XtimeBits17(11) == 1;
    hide Exp, XtimeBits17;
    Walk17(n + 0, 215, 220);
    Walk17(n + 17, 220, 221);
    Walk17(n + 34, 221, 69);
    Walk17(n + 51, 69, 11);
    Walk17(n + 68, 11, 1);
  }

  lemma ExpSmall(n: nat)
    ensures n == 0 ==> Exp(n) == 1
    ensures n == 2 ==> Exp(n) == 4
  {
    if n == 2 {
      assert Exp(n - 1) == 2;
    }
  }

  /** The exponents are variables, so that Exp is not unrolled on them. */
  lemma ExpPowers(n15: nat, n51: nat, n85: nat, n255: nat)
    requires n15 == 15 && n51 == 51 && n85 == 85 && n255 == 255
    ensures Exp(n15) != 1 && Exp(n51) != 1 && Exp(n85) != 1 && Exp(n255) == 1
  {
    hide Exp, Mul;
    var n0, n2 := n51 - 51, n15 - 13;
    ExpSmall(n0);
    ExpSmall(n2);
    WalkTo51(n0);
    WalkTo85(n51);
    WalkTo170(n85);
    WalkTo255(n85 + n85);
    MulExp(n15, n2);
    OneMul(Exp(n2));
  }

  lemma SmallDivisorsOf255(q: nat, k: nat)
    requires 0 < q <= 15 && q * k == 255
    ensures (q == 1 && k == 255) || (q == 3 && k == 85) || (q == 5 && k == 51) || (q == 15 && k == 17)
  {
    assert q == 1 || q == 2 || q == 3 || q == 4 || q == 5 || q == 6 || q == 7 || q == 8 || q == 9
        || q == 10 || q == 11 || q == 12 || q == 13 || q == 14 || q == 15;
  }

  lemma DivisorsOf255(k: nat)
    requires 0 < k < 255 && 255 % k == 0
    ensures k == 1 || k == 3 || k == 5 || k == 15 || k == 17 || k == 51 || k == 85
  {
    var q := 255 / k;
    if k <= 15 {
      SmallDivisorsOf255(k, q);
    } else {
      assert q <= 15;
      SmallDivisorsOf255(q, k);
    }
  }

  lemma {:induction false} ExpMultiple(k: nat, c: nat)
    requires Exp(k) == 1
    ensures Exp(k * c) == 1
  {
    hide Exp, Mul;
    if c == 0 {
      ExpSmall(k * c);
    } else {
      ExpMultiple(k, c - 1);
      MulExp(k, k * (c - 1));
      OneMul(1);
      assert k + k * (c - 1) == k * c;
    }
  }

  /** A proper divisor of 255 divides 15, 51 or 85, so alpha does not have that order. */
  lemma DivisorOrder(k: nat, n255: nat)
    requires n255 == 255 && 0 < k < 255 && 255 % k == 0
    ensures Exp(k) != 1
  {
    hide Exp;
    DivisorsOf255(k);
    var n15, n51, n85 := n255 - 240, n255 - 204, n255 - 170;
    ExpPowers(n15, n51, n85, n255);
    var c := if k < 17 then n15 / k else if k < 85 then n51 / k else 1;
    assert k * c == n15 || k * c == n51 || k * c == n85;
    if Exp(k) == 1 {
      ExpMultiple(k, c);
    }
  }

  /** Euclid's algorithm on the exponents: alpha has order 255. */
  lemma {:induction false} ExpOrder(k: nat, n255: nat)
    requires n255 == 255 && 0 < k < 255
    ensures Exp(k) != 1 && Exp(n255) == 1
    decreases k
  {
    hide Exp, Mul;
    ExpPowers(n255 - 240, n255 - 204, n255 - 170, n255);
    var c, r := 255 / k, 255 % k;
    if r == 0 {
      DivisorOrder(k, n255);
    } else if Exp(k) == 1 {
      ExpMultiple(k, c);
      assert k * c + r == n255;
      MulExp(k * c, r);
      OneMul(Exp(r));
      ExpOrder(r, n255);
    }
  }
}
