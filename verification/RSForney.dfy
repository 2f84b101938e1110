/** The error values of RS_Decode: the numerator polynomial z, evaluated at an inverse locator,
    is the error value times the denominator that the code divides by. */
module RSForney {
  import opened Bytes
  import opened GF256
  import opened Field
  import opened Poly
  import opened PowerSums
  import opened RSCode
  import opened RSDecoder
  import opened RSErrors

  /** sum of v_m * p(X) / (X + 1 / X_m). */
  function Mix(p: seq<byte>, v: seq<byte>, e: seq<nat>): (r: seq<byte>)
    requires |v| == |e| && Locators(e) && p != []
    ensures |r| == |p| - 1
  {
    if v == [] then Zeros(|p| - 1)
    else AddPoly(Scale(v[0], Quotient(p, Exp(NN - e[0]))), Mix(p, v[1..], e[1..]))
  }

  /** The evaluator polynomial of an error pattern: the locator plus X times the mix. */
  function EvaluatorPoly(v: seq<byte>, e: seq<nat>): (z: seq<byte>)
    requires |v| == |e| && Locators(e)
    ensures |z| == |e| + 1
  {
    AddPoly(LocatorPoly(e), [0] + Mix(LocatorPoly(e), v, e))
  }

  // ---------- the code's coefficients are those of the evaluator polynomial ----------

  lemma {:induction false} InnerSumIsConv(p: seq<byte>, s: seq<byte>, i: nat, n: nat)
    requires n <= i < |p| && i < |s|
    ensures InnerSum(p, s, i, n) == Conv(p[i - n..i], s, n)
  {
    hide Add, Mul;
    if n > 0 {
      InnerSumIsConv(p, s, i, n - 1);
      assert p[i - n..i][1..] == p[i - (n - 1)..i];
      AddLaws(InnerSum(p, s, i, n - 1), Mul(p[i - n], s[n]));
    }
  }

  lemma {:induction false} InnerSumSame(p: seq<byte>, s: seq<byte>, r: seq<byte>, i: nat, n: nat)
    requires n <= i < |p| && i < |s| == |r|
    requires forall j :: 1 <= j <= n ==> s[j] == r[j]
    ensures InnerSum(p, s, i, n) == InnerSum(p, r, i, n)
  {
    if n > 0 {
      InnerSumSame(p, s, r, i, n - 1);
    }
  }

  /** y^i p_(i..)(y) == p_(..i)(y) at a root y, so one locator's share of a coefficient of z. */
  lemma PrefixAtRoot(p: seq<byte>, e: nat, i: nat)
    requires e < NN && 1 <= i < |p| && Eval(p, Exp(NN - e)) == 0
    ensures Mul(Eval(p[..i], Exp(NN - e)), Power(e, i)) == Quotient(p, Exp(NN - e))[i - 1]
  {
    hide Add, Mul, Exp;
    var y := Exp(NN - e);
    QuotientAt(p, y, i - 1);
    EvalConcat(p[..i], p[i..], NN - e);
    assert p[..i] + p[i..] == p;
    var t := Exp((NN - e) * i);
    AddCancel(Eval(p[..i], y), Mul(t, Eval(p[i..], y)));
    MulComm(t, Eval(p[i..], y));
    MulAssoc(Eval(p[i..], y), t, Power(e, i));
    Opposite(e, i);
    MulLaws(Eval(p[i..], y), 1);
  }

  lemma Opposite(e: nat, i: nat)
    requires e < NN
    ensures Mul(Exp((NN - e) * i), Power(e, i)) == 1
  {
    hide Mul, Exp;
    MulExp((NN - e) * i, e * i);
    assert (NN - e) * i + e * i == i * NN;
    FullTurns(i);
  }

  /** A coefficient of the mix is the power sum that the code's inner loop adds up. */
  lemma {:induction false} MixAt(p: seq<byte>, v: seq<byte>, e: seq<nat>, i: nat)
    requires |v| == |e| && Locators(e) && 1 <= i < |p| && VanishesAt(p, e)
    ensures Mix(p, v, e)[i - 1] == PowerSum(AtInverses(p[..i], v, e), e, i)
    decreases |v|
  {
    hide Add, Mul, Exp, Power;
    if v != [] {
      var v1, e1 := v[1..], e[1..];
      MixAt(p, v1, e1, i);
      assert AtInverses(p[..i], v, e)[1..] == AtInverses(p[..i], v1, e1);
      PrefixAtRoot(p, e[0], i);
      MulAssoc(v[0], Eval(p[..i], Exp(NN - e[0])), Power(e[0], i));
    }
  }

  lemma EvaluatorCoefIsMix(zero: byte, p: seq<byte>, s: seq<byte>, v: seq<byte>, e: seq<nat>, i: nat)
    requires |v| == |e| && Locators(e) && SumsOf(s, v, e) && VanishesAt(p, e)
    requires 1 <= i < |p| <= |s| && p[0] == 1
    requires zero == 0 || forall j :: 1 <= j < |s| - 1 ==> s[j] != 0
    ensures EvaluatorCoef(zero, p, s, i) == Add(p[i], Mix(p, v, e)[i - 1])
  {
    hide Add, Mul, Exp, Power, Mix;
    InnerSumSame(p, ReadBackAll(zero, s), s, i, i - 1);
    assert InnerSum(p, s, i, i) == Add(InnerSum(p, s, i, i - 1), Mul(p[0], s[i]));
    MulLaws(1, s[i]);
    InnerSumIsConv(p, s, i, i);
    ConvSum(p[..i], s, v, e, i);
    MixAt(p, v, e, i);
    assert p[0..i] == p[..i];
    var t := InnerSum(p, s, i, i - 1);
    AddLaws(s[i], p[i]);
    AddAssoc(p[i], s[i], t);
    AddLaws(s[i], t);
  }

  lemma EvaluatorIsPoly(zero: byte, s: seq<byte>, v: seq<byte>, e: seq<nat>)
    requires |v| == |e| < |s| && Locators(e) && SumsOf(s, v, e)
    requires zero == 0 || forall j :: 1 <= j < |s| - 1 ==> s[j] != 0
    ensures Evaluator(zero, LocatorPoly(e), s) == EvaluatorPoly(v, e)
  {
    hide Add, Mul, Exp, Power, Mix, ProductPoly, EvaluatorCoef;
    var p := LocatorPoly(e);
    LocatorVanishes(e);
    var z, z' := Evaluator(zero, p, s), EvaluatorPoly(v, e);
    forall i | 0 <= i < |z|
      ensures z[i] == z'[i]
    {
      if i == 0 {
        AddLaws(p[0], 0);
      } else {
        EvaluatorCoefIsMix(zero, p, s, v, e, i);
      }
    }
  }

  lemma LocatorVanishes(e: seq<nat>)
    requires Locators(e)
    ensures LocatorPoly(e)[0] == 1 && VanishesAt(LocatorPoly(e), e)
  {
    hide Exp, Eval, ProductPoly;
    ProductPolyConstant(e, -1, |e|);
    forall k | 0 <= k < |e|
      ensures Eval(LocatorPoly(e), Exp(NN - e[k])) == 0
    {
      ProductPolyRoot(e, -1, |e|, k);
    }
  }

  // ---------- the value of the evaluator polynomial at an inverse locator ----------

  /** p(X) / (X + 1 / X_m) vanishes at the other inverse locators. */
  lemma QuotientElsewhere(p: seq<byte>, e: seq<nat>, m: nat, k: nat)
    requires Locators(e) && VanishesAt(p, e) && m < |e| && k < |e| && m != k
    ensures Eval(Quotient(p, Exp(NN - e[m])), Exp(NN - e[k])) == 0
  {
    hide Add, Mul, Exp;
    var y, r := Exp(NN - e[k]), Exp(NN - e[m]);
    assert Eval(p, y) == 0 && Eval(p, r) == 0;
    Factor(p, r, y);
    var q := Eval(Quotient(p, r), y);
    AddLaws(Mul(Add(y, r), q), 0);
    MulNonZero(Add(y, r), q);
    AddCancel(y, r);
    ExpDistinct(NN - e[k], NN - e[m]);
  }

  /** Only locator k contributes at its inverse. */
  lemma {:induction false} MixAtInverse(p: seq<byte>, v: seq<byte>, e: seq<nat>, n: nat, k: nat)
    requires |v| == |e| && Locators(e) && p != [] && VanishesAt(p, e) && n <= |v| && k < |v|
    ensures Locators(e[n..])
    ensures Eval(Mix(p, v[n..], e[n..]), Exp(NN - e[k]))
         == if k < n then 0 else Mul(v[k], Eval(Quotient(p, Exp(NN - e[k])), Exp(NN - e[k])))
    decreases |v| - n
  {
    hide Add, Mul, Exp;
    var y := Exp(NN - e[k]);
    if n == |v| {
      EvalZero(Zeros(|p| - 1), y);
    } else {
      MixAtInverse(p, v, e, n + 1, k);
      var q := Quotient(p, Exp(NN - e[n]));
      assert v[n..][1..] == v[n + 1..] && e[n..][1..] == e[n + 1..];
      EvalAddPoly(Scale(v[n], q), Mix(p, v[n + 1..], e[n + 1..]), y);
      EvalScale(v[n], q, y);
      var t := Mul(v[n], Eval(q, y));
      AddLaws(t, 0);
      if n != k {
        QuotientElsewhere(p, e, n, k);
        MulLaws(v[n], 0);
        AddLaws(0, Mul(v[k], Eval(Quotient(p, y), y)));
      }
    }
  }

  /** e without its k-th element. */
  function Without(e: seq<nat>, k: nat): (r: seq<nat>)
    requires k < |e|
    ensures |r| == |e| - 1
    ensures forall j :: 0 <= j < |r| ==> r[j] == if j < k then e[j] else e[j + 1]
  {
    e[..k] + e[k + 1..]
  }

  /** y_k q_k is the product over the other locators. */
  lemma QuotientIsProduct(p: seq<byte>, e: seq<nat>, k: nat)
    requires Locators(e) && |p| == |e| + 1 && p[0] == 1 && VanishesAt(p, e) && k < |e|
    ensures Scale(Exp(NN - e[k]), Quotient(p, Exp(NN - e[k]))) == ProductPoly(e, k, |e|)
  {
    hide Add, Mul, Exp, ProductPoly, Quotient;
    var y := Exp(NN - e[k]);
    var q, r := Quotient(p, y), ProductPoly(e, k, |e|);
    var e' := Without(e, k);
    assert Locators(e');
    forall j | 0 <= j < |e'|
      ensures Eval(Scale(y, q), Exp(NN - e'[j])) == Eval(r, Exp(NN - e'[j]))
    {
      var m := if j < k then j else j + 1;
      QuotientElsewhere(p, e, k, m);
      EvalScale(y, q, Exp(NN - e[m]));
      MulLaws(y, 0);
      ProductPolyRoot(e, k, |e|, m);
    }
    assert Scale(y, q)[0] == r[0] by {
      ProductPolyConstant(e, k, |e|);
      QuotientAt(p, y, 0);
      assert Eval(p, y) == 0;
      assert Eval(p, y) == Add(p[0], Mul(y, Eval(p[1..], y)));
      AddCancel(1, Mul(y, q[0]));
    }
    DeterminedByRoots(Scale(y, q), r, e');
  }

  /** Forney's formula: the numerator at an inverse locator. */
  lemma Numerator(v: seq<byte>, e: seq<nat>, k: nat)
    requires |v| == |e| && Locators(e) && k < |v|
    ensures Eval(EvaluatorPoly(v, e), Exp(NN - e[k])) == Mul(v[k], Eval(ProductPoly(e, k, |e|), Exp(NN - e[k])))
  {
    hide Add, Mul, Exp, ProductPoly, Quotient, Mix;
    var y, p := Exp(NN - e[k]), LocatorPoly(e);
    LocatorVanishes(e);
    var mix, q := Mix(p, v, e), Quotient(p, y);
    EvalAddPoly(p, [0] + mix, y);
    EvalShift(mix, y);
    MixAtInverse(p, v, e, 0, k);
    assert v[0..] == v && e[0..] == e;
    assert Eval(p, y) == 0;
    AddLaws(0, Mul(y, Eval(mix, y)));
    QuotientIsProduct(p, e, k);
    EvalScale(y, q, y);
    MulAssoc(y, v[k], Eval(q, y));
    MulComm(y, v[k]);
    MulAssoc(v[k], y, Eval(q, y));
  }

  /** The denominator the code computes is the value of the product over the other locators. */
  lemma {:induction false} DenominatorIsProduct(roots: seq<nat>, e: seq<nat>, k: nat, n: nat)
    requires RootList(roots) && |roots| == |e| && k < |e| && n <= |e|
    requires forall j :: 0 <= j < |e| ==> roots[j] == NN - e[j]
    ensures Denominator(roots, roots[k], k, n) == Eval(ProductPoly(e, k, n), Exp(roots[k]))
  {
    hide Add, Mul, Exp, Eval, MulOnePlus;
    if n == 0 {
      EvalConst(1, Exp(roots[k]));
    } else {
      DenominatorIsProduct(roots, e, k, n - 1);
      if n - 1 != k {
        EvalMulOnePlus(ProductPoly(e, k, n - 1), Exp(e[n - 1]), Exp(roots[k]));
        MulExp(e[n - 1], roots[k]);
        assert NN - roots[n - 1] + roots[k] == e[n - 1] + roots[k];
      }
    }
  }

  /** With the evaluator polynomial read back unchanged, the code computes the error value. */
  lemma ErrorValueIsError(zero: byte, v: seq<byte>, e: seq<nat>, roots: seq<nat>, k: nat)
    requires |v| == |e| == |roots| && Locators(e) && RootList(roots) && k < |v|
    requires forall j :: 0 <= j < |e| ==> roots[j] == NN - e[j]
    requires Searched(zero, EvaluatorPoly(v, e)) == EvaluatorPoly(v, e)
    ensures ErrorValue(zero, EvaluatorPoly(v, e), roots, k) == v[k]
  {
    hide Add, Mul, Exp, ProductPoly, Mix, EvaluatorPoly, Denominator, Inverse;
    DenominatorNonZero(roots, k, |roots|);
    var d := Denominator(roots, roots[k], k, |roots|);
    Numerator(v, e, k);
    DenominatorIsProduct(roots, e, k, |roots|);
    MulAssoc(v[k], d, Inverse(d));
    MulLaws(v[k], 1);
  }
}
