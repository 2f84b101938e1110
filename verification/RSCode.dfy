/** The code of rs.c: its generator polynomial, the shift-register encoder, and why a word stored as
    data followed by parity vanishes at the 32 roots of the generator. */
module RSCode {
  import opened Bytes
  import opened GF256
  import opened Field
  import opened Poly

  const NN := 255
  const KK := 223
  const PARITY := 32
  const TT := 16

  // ---------- the generator polynomial ----------

  /** p(X) * (X + r). */
  function MulLinear(p: seq<byte>, r: byte): (q: seq<byte>)
    ensures |q| == |p| + 1
  {
    AddPoly([0] + p, Scale(r, p) + [0])
  }

  function Scale(c: byte, p: seq<byte>): (q: seq<byte>)
    ensures |q| == |p|
    ensures forall k :: 0 <= k < |p| ==> q[k] == Mul(c, p[k])
  {
    seq(|p|, k requires 0 <= k < |p| => Mul(c, p[k]))
  }

  /** The product of (X + alpha^i) for i = 1..n. */
  function GenPoly(n: nat): (g: seq<byte>)
    requires n >= 1
    ensures |g| == n + 1
  {
    if n == 1 then [2, 1] else MulLinear(GenPoly(n - 1), Exp(n))
  }

  lemma {:induction false} EvalScale(c: byte, p: seq<byte>, x: byte)
    ensures Eval(Scale(c, p), x) == Mul(c, Eval(p, x))
  {
    hide Add, Mul;
    MulLaws(c, 0);
    if p != [] {
      EvalScale(c, p[1..], x);
      assert Scale(c, p)[1..] == Scale(c, p[1..]);
      var t := Eval(p[1..], x);
      MulDistrib(p[0], Mul(x, t), c);
      MulAssoc(c, x, t);
      MulComm(c, x);
      MulAssoc(x, c, t);
    }
  }

  /** Leading zero coefficients do not change the value. */
  lemma {:induction false} EvalPadded(p: seq<byte>, z: seq<byte>, x: byte)
    requires AllZero(z)
    ensures Eval(p + z, x) == Eval(p, x)
  {
    hide Add, Mul;
    if p == [] {
      assert p + z == z;
      EvalZero(z, x);
    } else {
      EvalPadded(p[1..], z, x);
      assert (p + z)[1..] == p[1..] + z;
    }
  }

  lemma EvalShift(p: seq<byte>, x: byte)
    ensures Eval([0] + p, x) == Mul(x, Eval(p, x))
  {
    hide Add, Mul;
    assert ([0] + p)[1..] == p;
    AddLaws(0, Mul(x, Eval(p, x)));
  }

  lemma EvalMulLinear(p: seq<byte>, r: byte, x: byte)
    ensures Eval(MulLinear(p, r), x) == Mul(Add(x, r), Eval(p, x))
  {
    hide Add, Mul;
    EvalAddPoly([0] + p, Scale(r, p) + [0], x);
    EvalShift(p, x);
    EvalPadded(Scale(r, p), [0], x);
    EvalScale(r, p, x);
    MulDistrib(x, r, Eval(p, x));
  }

  lemma GenPolyFirst(x: byte, n: nat)
    requires n == 1
    ensures Eval(GenPoly(n), x) == Add(x, Exp(n))
  {
    assert Exp(n) == Xtime(Exp(n - 1)) == 2;
    hide Add, Mul, Exp;
    assert GenPoly(n) == [2, 1] && GenPoly(n)[1..] == [1];
    EvalConst(1, x);
    MulLaws(x, 1);
    AddLaws(2, x);
  }

  /** alpha, ..., alpha^n are roots of the n-th generator. */
  lemma {:induction false} GenPolyRoot(n: nat, i: nat)
    requires 1 <= i <= n
    ensures Eval(GenPoly(n), Exp(i)) == 0
  {
    hide Add, Mul, Exp;
    if n == 1 {
      GenPolyFirst(Exp(i), n);
      AddCancel(Exp(i), Exp(n));
    } else {
      EvalMulLinear(GenPoly(n - 1), Exp(n), Exp(i));
      MulLaws(Add(Exp(i), Exp(n)), Eval(GenPoly(n - 1), Exp(i)));
      AddCancel(Exp(i), Exp(n));
      if i < n {
        GenPolyRoot(n - 1, i);
      }
    }
  }

  lemma {:induction false} GenPolyMonic(n: nat)
    requires n >= 1
    ensures GenPoly(n)[n] == 1
  {
    if n > 1 {
      hide Add, Mul, Exp;
      GenPolyMonic(n - 1);
      AddLaws(1, 0);
    }
  }

  // ---------- no coefficient of the generator vanishes ----------

  /** p(alpha X), with the coefficients scaled by alpha^k, alpha^(k+1), ... */
  function Dilate(p: seq<byte>, k: nat): (q: seq<byte>)
    ensures |q| == |p|
    ensures forall j :: 0 <= j < |p| ==> q[j] == Mul(Exp(k + j), p[j])
  {
    seq(|p|, j requires 0 <= j < |p| => Mul(Exp(k + j), p[j]))
  }

  lemma {:induction false} EvalDilate(p: seq<byte>, k: nat, x: byte)
    ensures Eval(Dilate(p, k), x) == Mul(Exp(k), Eval(p, Mul(Exp(1), x)))
  {
    hide Add, Mul, Exp;
    MulLaws(Exp(k), 0);
    if p != [] {
      var y, t := Mul(Exp(1), x), Eval(p[1..], Mul(Exp(1), x));
      EvalDilate(p[1..], k + 1, x);
      assert Dilate(p, k)[1..] == Dilate(p[1..], k + 1);
      MulExp(k, 1);
      MulAssoc(x, Exp(k + 1), t);
      MulComm(x, Exp(k + 1));
      MulAssoc(Exp(k), Exp(1), x);
      MulAssoc(Exp(k), y, t);
      MulDistrib(p[0], Mul(y, t), Exp(k));
    }
  }

  /** (x + alpha^n) g(alpha x) == alpha^n (x + 1) g(x), from the roots being consecutive powers. */
  lemma {:induction false} GenPolyDilated(n: nat, x: byte)
    requires n >= 1
    ensures Mul(Add(x, Exp(n)), Eval(GenPoly(n), Mul(Exp(1), x)))
         == Mul(Mul(Exp(n), Add(x, 1)), Eval(GenPoly(n), x))
  {
    hide Add, Mul, Exp;
    var y := Mul(Exp(1), x);
    if n == 1 {
      GenPolyFirst(y, n);
      GenPolyFirst(x, n);
      MulLaws(Exp(1), 1);
      MulDistrib(x, 1, Exp(1));
      MulComm(Add(x, Exp(n)), Mul(Exp(n), Add(x, 1)));
    } else {
      var g, u, v := GenPoly(n - 1), Add(x, Exp(n - 1)), Add(x, Exp(n));
      GenPolyDilated(n - 1, x);
      EvalMulLinear(g, Exp(n), y);
      EvalMulLinear(g, Exp(n), x);
      MulExp(1, n - 1);
      MulDistrib(x, Exp(n - 1), Exp(1));
      MulAssoc(Exp(1), u, Eval(g, y));
      MulAssoc(Exp(n - 1), Add(x, 1), Eval(g, x));
      MulAssoc(Exp(1), Exp(n - 1), Mul(Add(x, 1), Eval(g, x)));
      MulComm(v, Mul(Exp(n), Mul(Add(x, 1), Eval(g, x))));
      MulAssoc(Exp(n), Mul(Add(x, 1), Eval(g, x)), v);
      MulComm(Mul(Add(x, 1), Eval(g, x)), v);
      MulAssoc(Exp(n), Add(x, 1), Mul(v, Eval(g, x)));
      MulAssoc(v, Add(x, 1), Eval(g, x));
      MulComm(v, Add(x, 1));
      MulAssoc(Add(x, 1), v, Eval(g, x));
    }
  }

  /** Two polynomials with at most 255 coefficients that agree everywhere are equal. */
  lemma PolyIdentity(p: seq<byte>, q: seq<byte>)
    requires |p| == |q| <= NN
    requires forall x: byte :: Eval(p, x) == Eval(q, x)
    ensures p == q
  {
    var d := AddPoly(p, q);
    var points := seq(|p|, i requires 0 <= i < |p| => Exp(i));
    forall i, j | 0 <= i < j < |p|
      ensures points[i] != points[j]
    {
      hide Exp;
      ExpInjective(i, j);
    }
    forall k | 0 <= k < |p|
      ensures Eval(d, points[k]) == 0
    {
      hide Add, Exp;
      EvalAddPoly(p, q, points[k]);
      AddCancel(Eval(p, points[k]), Eval(q, points[k]));
    }
    RootsForceZero(d, points);
    forall k | 0 <= k < |p|
      ensures p[k] == q[k]
    {
      hide Add;
      assert d[k] == 0;
      AddCancel(p[k], q[k]);
    }
  }

  lemma GenPolyRecurrence(n: nat, j: nat)
    requires 1 <= j <= n < NN - 1
    ensures Add(Mul(Exp(j - 1), GenPoly(n)[j - 1]), Mul(Exp(n), Mul(Exp(j), GenPoly(n)[j])))
         == Mul(Exp(n), Add(GenPoly(n)[j - 1], GenPoly(n)[j]))
  {
    var g := GenPoly(n);
    var p, q := MulLinear(Dilate(g, 0), Exp(n)), Scale(Exp(n), MulLinear(g, 1));
    forall x: byte
      ensures Eval(p, x) == Eval(q, x)
    {
      hide Add, Mul, Exp;
      EvalMulLinear(Dilate(g, 0), Exp(n), x);
      EvalDilate(g, 0, x);
      ExpSmall(0);
      MulLaws(Exp(0), Eval(g, Mul(Exp(1), x)));
      EvalScale(Exp(n), MulLinear(g, 1), x);
      EvalMulLinear(g, 1, x);
      MulAssoc(Exp(n), Add(x, 1), Eval(g, x));
      GenPolyDilated(n, x);
    }
    PolyIdentity(p, q);
    hide Add, Mul, Exp;
    assert p[j] == q[j];
    MulLaws(1, g[j]);
  }

  lemma {:induction false} GenPolyConstant(n: nat)
    requires n >= 1
    ensures GenPoly(n)[0] != 0
  {
    hide Add, Mul, Exp;
    if n > 1 {
      GenPolyConstant(n - 1);
      AddLaws(0, Mul(Exp(n), GenPoly(n - 1)[0]));
      MulNonZero(Exp(n), GenPoly(n - 1)[0]);
      ExpNonZero(n);
    }
  }

  /** Every coefficient of the generator has a logarithm, so the marker of zero never enters gg. */
  lemma {:induction false} GenPolyNonZero(n: nat, j: nat)
    requires 1 <= n < NN - 1 && j <= n
    ensures GenPoly(n)[j] != 0
  {
    hide Add, Mul, Exp;
    if j == 0 {
      GenPolyConstant(n);
    } else {
      GenPolyNonZero(n, j - 1);
      GenPolyRecurrence(n, j);
      var c := GenPoly(n)[j - 1];
      if GenPoly(n)[j] == 0 {
        MulLaws(Exp(j), 0);
        MulLaws(Exp(n), 0);
        AddLaws(Mul(Exp(j - 1), c), 0);
        AddLaws(c, 0);
        MulCancel(Exp(j - 1), Exp(n), c);
        ExpInjective(j - 1, n);
      }
    }
  }

  // ---------- the encoder ----------

  function Zeros(n: nat): (z: seq<byte>)
    ensures |z| == n && AllZero(z)
  {
    seq(n, _ => 0)
  }

  /** One turn of the feedback shift register with data symbol d. */
  function LfsrStep(g: seq<byte>, b: seq<byte>, d: byte): (r: seq<byte>)
    requires |g| == |b| + 1 >= 2
    ensures |r| == |b|
  {
    var feedback := Add(d, b[|b| - 1]);
    seq(|b|, j requires 0 <= j < |b| =>
      Add(if j == 0 then 0 else b[j - 1], Mul(g[j], feedback)))
  }

  /** The register after the symbols data[|data|-1], ..., data[0]. */
  function Lfsr(g: seq<byte>, data: seq<byte>): (b: seq<byte>)
    requires |g| >= 2
    ensures |b| == |g| - 1
  {
    if data == [] then Zeros(|g| - 1) else LfsrStep(g, Lfsr(g, data[1..]), data[0])
  }

  function Encode(data: seq<byte>): (parity: seq<byte>)
    ensures |parity| == PARITY
  {
    Lfsr(GenPoly(PARITY), data)
  }

  /** The feedback symbols: the coefficients of the quotient. */
  function Feedbacks(g: seq<byte>, data: seq<byte>): (q: seq<byte>)
    requires |g| >= 2
    ensures |q| == |data|
  {
    if data == [] then [] else
      [Add(data[0], Lfsr(g, data[1..])[|g| - 2])] + Feedbacks(g, data[1..])
  }

  /** One turn, as polynomials: b' + data X^n == X (b + data' X^n) + feedback g. */
  lemma LfsrStepPoly(g: seq<byte>, b: seq<byte>, data: seq<byte>, f: byte)
    requires |g| == |b| + 1 >= 2 && g[|b|] == 1 && data != []
    requires f == Add(data[0], b[|b| - 1])
    ensures LfsrStep(g, b, data[0]) + data
         == AddPoly([0] + (b + data[1..]), Scale(f, g) + Zeros(|data| - 1))
  {
    hide Add, Mul, LfsrStep, Scale, Zeros, AddPoly;
    var left, right := LfsrStep(g, b, data[0]) + data, AddPoly([0] + (b + data[1..]), Scale(f, g) + Zeros(|data| - 1));
    assert |left| == |right|;
    forall k | 0 <= k < |left|
      ensures left[k] == right[k]
    {
      LfsrStepAt(g, b, data, f, k);
    }
  }

  lemma LfsrStepAt(g: seq<byte>, b: seq<byte>, data: seq<byte>, f: byte, k: nat)
    requires |g| == |b| + 1 >= 2 && g[|b|] == 1 && data != [] && k < |b| + |data|
    requires f == Add(data[0], b[|b| - 1])
    ensures (LfsrStep(g, b, data[0]) + data)[k]
         == AddPoly([0] + (b + data[1..]), Scale(f, g) + Zeros(|data| - 1))[k]
  {
    hide Add, Mul;
    if k < |b| {
      MulComm(g[k], f);
    } else if k == |b| {
      MulLaws(f, 1);
      AddLaws(data[0], b[|b| - 1]);
      AddLaws(b[|b| - 1], data[0]);
    } else {
      AddLaws(data[k - |b|], 0);
    }
  }

  /** data(X) X^n + parity(X) is a multiple of g(X): the parity is the remainder. */
  lemma {:induction false} LfsrDivides(g: seq<byte>, data: seq<byte>, x: byte)
    requires |g| >= 2 && g[|g| - 1] == 1
    ensures Eval(Lfsr(g, data) + data, x) == Mul(Eval(Feedbacks(g, data), x), Eval(g, x))
    decreases |data|
  {
    hide Add, Mul;
    if data == [] {
      EvalZero(Lfsr(g, data) + data, x);
      MulLaws(0, Eval(g, x));
    } else {
      var b, t := Lfsr(g, data[1..]), data[1..];
      var f := Add(data[0], b[|b| - 1]);
      LfsrDivides(g, t, x);
      LfsrStepPoly(g, b, data, f);
      EvalAddPoly([0] + (b + t), Scale(f, g) + Zeros(|data| - 1), x);
      EvalShift(b + t, x);
      EvalPadded(Scale(f, g), Zeros(|data| - 1), x);
      EvalScale(f, g, x);
      var q, e := Eval(Feedbacks(g, t), x), Eval(g, x);
      assert Feedbacks(g, data)[1..] == Feedbacks(g, t);
      MulAssoc(x, q, e);
      MulDistrib(f, Mul(x, q), e);
      AddLaws(Mul(x, Mul(q, e)), Mul(f, e));
    }
  }

  // ---------- the layout of the code word ----------

  /** Rotating a word of 255 symbols multiplies its value at a power of alpha by a power of alpha. */
  lemma Cyclic(p: seq<byte>, q: seq<byte>, i: nat)
    requires |p| + |q| == NN
    ensures Eval(q + p, Exp(i)) == Mul(Exp(i * |q|), Eval(p + q, Exp(i)))
  {
    hide Add, Mul, Exp, Eval;
    var x := Exp(i);
    EvalConcat(q, p, i);
    EvalConcat(p, q, i);
    var c, a := Exp(i * |q|), Exp(i * |p|);
    MulDistrib(Eval(p, x), Mul(a, Eval(q, x)), c);
    MulAssoc(c, a, Eval(q, x));
    MulExp(i * |q|, i * |p|);
    assert i * |q| + i * |p| == i * NN;
    FullTurns(i);
    MulLaws(1, Eval(q, x));
    AddLaws(Eval(q, x), Mul(c, Eval(p, x)));
  }

  lemma FullTurns(i: nat)
    ensures Exp(i * NN) == 1
  {
    hide Exp;
    ExpCycle(i * NN);
    assert (i * NN) % NN == 0;
    ExpSmall((i * NN) % NN);
  }

  /** The code words of rs.c, as RS_Decode reads them: the 32 syndromes vanish. */
  ghost predicate CodeWord(w: seq<byte>) {
    forall i :: 1 <= i <= PARITY ==> Eval(w, Exp(i)) == 0
  }

  /** The encoder's output, stored after the data, is a code word. */
  lemma EncodedIsCodeWord(data: seq<byte>)
    requires |data| == KK
    ensures CodeWord(data + Encode(data))
  {
    var g, b := GenPoly(PARITY), Encode(data);
    GenPolyMonic(PARITY);
    forall i | 1 <= i <= PARITY
      ensures Eval(data + b, Exp(i)) == 0
    {
      hide Add, Mul, Exp, GenPoly, Lfsr;
      LfsrDivides(g, data, Exp(i));
      GenPolyRoot(PARITY, i);
      MulLaws(Eval(Feedbacks(g, data), Exp(i)), 0);
      Cyclic(data, b, i);
      MulNonZero(Exp(i * |b|), Eval(data + b, Exp(i)));
      ExpNonZero(i * |b|);
    }
  }

  lemma SumOfCodeWords(w: seq<byte>, y: seq<byte>)
    requires |w| == |y| && CodeWord(w) && CodeWord(y)
    ensures CodeWord(AddPoly(w, y))
  {
    forall i | 1 <= i <= PARITY
      ensures Eval(AddPoly(w, y), Exp(i)) == 0
    {
      hide Add, Mul, Exp;
      EvalAddPoly(w, y, Exp(i));
      AddLaws(0, 0);
    }
  }

  /** 32 symbols after 223 zeros that vanish at the 32 roots are zero. */
  lemma ZeroDataParity(z: seq<byte>, b: seq<byte>)
    requires |z| == KK && AllZero(z) && |b| == PARITY && CodeWord(z + b)
    ensures AllZero(b)
  {
    var points := seq(PARITY, k requires 0 <= k < PARITY => Exp(k + 1));
    forall i, j | 0 <= i < j < PARITY
      ensures points[i] != points[j]
    {
      hide Exp;
      ExpInjective(i + 1, j + 1);
    }
    forall k | 0 <= k < PARITY
      ensures Eval(b, points[k]) == 0
    {
      hide Add, Mul, Exp;
      Cyclic(z, b, k + 1);
      MulLaws(Exp((k + 1) * |b|), 0);
      EvalPadded(b, z, Exp(k + 1));
    }
    RootsForceZero(b, points);
  }

  lemma SumOfSameData(data: seq<byte>, p: seq<byte>, b: seq<byte>)
    requires |p| == |b|
    ensures AddPoly(data + p, data + b) == AddPoly(data, data) + AddPoly(p, b)
    ensures AllZero(AddPoly(data, data))
  {
    hide Add;
    forall k | 0 <= k < |data|
      ensures AddPoly(data, data)[k] == 0
    {
      AddLaws(data[k], data[k]);
    }
  }

  /** RS_Encode computes the only parity that makes the 32 syndromes vanish. */
  lemma ParityIsUnique(data: seq<byte>, parity: seq<byte>)
    requires |data| == KK && |parity| == PARITY
    ensures CodeWord(data + parity) <==> parity == Encode(data)
  {
    hide Add, Eval, AddPoly, AllZero, CodeWord, Encode;
    EncodedIsCodeWord(data);
    if CodeWord(data + parity) {
      var b := Encode(data);
      SumOfCodeWords(data + parity, data + b);
      SumOfSameData(data, parity, b);
      ZeroDataParity(AddPoly(data, data), AddPoly(parity, b));
      SumIsZero(parity, b);
    }
  }
}
