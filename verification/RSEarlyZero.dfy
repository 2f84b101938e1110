/** A zero that is misread early: when the first syndrome of a pattern of 16 errors is zero, the second
    coefficient of the numerators' polynomial is off by one of the locator polynomial, which always shows. */
module RSEarlyZero {
  import opened Bytes
  import opened GF256
  import opened Field
  import opened Poly
  import opened PowerSums
  import opened RSCode
  import opened RSDecoder
  import opened RSBerlekamp
  import opened RSErrors
  import opened RSForney
  import opened RSCorrection
  import opened RSExact
  import opened RSLateZero

  /** The correcting branch, when it succeeds: as many roots as the degree, and the corrections lead to w. */
  lemma CorrectRight(p: seq<byte>, s: seq<byte>, r: seq<byte>, w: seq<byte>)
    requires 1 <= |p| <= TT + 1 && |s| == PARITY + 1 && |r| == NN && Correct(1, p, s, r) == Outcome(1, w)
    ensures var roots := RootsUpTo(Searched(1, p), NN);
      |roots| == |p| - 1 && RootList(roots) && Corrected(1, Evaluator(1, p, s), roots, r, |roots|) == w
  {
    hide Corrected, Searched, Eval, Exp, Evaluator;
  }

  /** A word that comes out right: the polynomial that has been searched has all the error positions as roots. */
  lemma RightDecoding(w: seq<byte>, err: seq<byte>, s: seq<byte>, e: seq<nat>)
    requires |w| == |err| == NN && CodeWord(w) && Weight(err) == TT && e == Locations(err, NN) && Locators(e)
    requires s == Syndromes(AddPoly(w, err)) && Decode(1, AddPoly(w, err)) == Outcome(1, w)
    ensures var p := Locator(1, s);
      && |p| == TT + 1 && Searched(1, p) == LocatorPoly(e)
      && var roots := RootsUpTo(LocatorPoly(e), NN);
         RootList(roots) && Corrected(1, Evaluator(1, p, s), roots, AddPoly(w, err), |roots|) == w
  {
    hide Eval, Exp, ProductPoly, LocatorPoly, Corrected, Decode, Correct, AddPoly, CodeWord, Searched, RootsUpTo, Locations;
    hide Locators, Locator, Syndromes, Evaluator;
    var r, p := AddPoly(w, err), Locator(1, s);
    ErrorsAreNoticed(w, err);
    if |p| - 1 > TT {
      TooLongFails(r, s);
    } else {
      DecodeBranch(1, r, s, p);
      CorrectRight(p, s, r, w);
      var roots := RootsUpTo(Searched(1, p), NN);
      LocatorVanishes(e);
      SearchedVanishes(p, Evaluator(1, p, s), roots, w, err, e);
      AllRoots(err, e, roots, w, Evaluator(1, p, s));
      DeterminedByRoots(Searched(1, p), LocatorPoly(e), e);
    }
  }

  /** Every error is at a root, so there are no fewer roots than errors. */
  lemma AllRoots(err: seq<byte>, e: seq<nat>, roots: seq<nat>, w: seq<byte>, z: seq<byte>)
    requires |w| == |err| == NN && e == Locations(err, NN) && Locators(e) && RootList(roots) && |z| >= 1
    requires Corrected(1, z, roots, AddPoly(w, err), |roots|) == w
    ensures |roots| >= |e|
  {
    hide Corrected, AddPoly;
    forall k | 0 <= k < |e|
      ensures NN - e[k] in roots
    {
      EveryErrorFound(z, roots, w, err, e[k]);
    }
    ManyRoots(e, roots);
  }

  lemma ManyRoots(e: seq<nat>, roots: seq<nat>)
    requires Locators(e) && forall k :: 0 <= k < |e| ==> NN - e[k] in roots
    ensures |roots| >= |e|
  {
    var d := seq(|e|, k requires 0 <= k < |e| => NN - e[k]);
    NotLonger(d, roots);
  }

  /** Different elements of a sequence are no more than its length. */
  lemma {:induction false} NotLonger(d: seq<int>, r: seq<int>)
    requires Distinct(d) && forall k :: 0 <= k < |d| ==> d[k] in r
    ensures |d| <= |r|
    decreases |d|
  {
    if d != [] {
      var i :| 0 <= i < |r| && r[i] == d[0];
      var s := r[..i] + r[i + 1..];
      forall k | 0 <= k < |d| - 1
        ensures d[1..][k] in s
      {
        var j :| 0 <= j < |r| && r[j] == d[k + 1];
        assert s[if j < i then j else j - 1] == r[j];
      }
      NotLonger(d[1..], s);
    }
  }

  // ---------- the second coefficient ----------

  /** What is added up for it from a zero and from a misread zero cannot be read back as the same. */
  lemma NotTheSame(s2: byte, p2: byte, q1: byte, q2: byte)
    requires q1 != 0 && q1 != 1 && ReadBack(1, p2) == q2
    ensures ReadBack(1, Add(Add(s2, p2), q1)) != Add(s2, q2)
  {
    hide Add;
    var z, o := Add(Add(s2, p2), q1), Add(s2, q2);
    AddCancel(Add(s2, p2), q1);
    AddLaws(s2, q1);
    AddLaws(s2, p2);
    if p2 == 0 {
      AddLaws(s2, 1);
      if z == o {
        AddLaws(q1, s2);
        AddLaws(1, s2);
      } else if o == 1 {
        AddCancelRight(1, s2);
      }
    } else if z == o {
      AddCancelRight(o, q1);
    }
  }

  /** The same of the two numerators' polynomials. */
  lemma SecondCoefficient(p: seq<byte>, q: seq<byte>, s: seq<byte>)
    requires 3 <= |p| <= |s| && Searched(1, p) == q && s[1] == 0 && q[1] != 1
    ensures Searched(1, Evaluator(1, p, s)) != Evaluator(0, q, s)
  {
    hide Add, Mul;
    assert q[1] == ReadBack(1, p[1]) && q[2] == ReadBack(1, p[2]);
    FirstTerm(1, p, s);
    FirstTerm(0, q, s);
    MulLaws(p[1], 1);
    MulLaws(q[1], 0);
    AddLaws(Add(s[2], q[2]), 0);
    NotTheSame(s[2], p[2], q[1], q[2]);
    assert Searched(1, Evaluator(1, p, s))[2] == ReadBack(1, Evaluator(1, p, s)[2]);
  }

  lemma FirstTerm(zero: byte, p: seq<byte>, s: seq<byte>)
    requires 3 <= |p| <= |s|
    ensures Evaluator(zero, p, s)[2] == Add(Add(s[2], p[2]), Mul(p[1], ReadBack(zero, s[1])))
  {
    hide Add, Mul;
    var r := ReadBackAll(zero, s);
    assert InnerSum(p, r, 2, 1) == Add(InnerSum(p, r, 2, 0), Mul(p[1], r[1]));
    AddLaws(0, Mul(p[1], r[1]));
  }

  /** Two numerators that give the same error value are equal. */
  lemma SameNumerator(z: seq<byte>, o: seq<byte>, roots: seq<nat>, k: nat)
    requires |z| >= 1 && |o| >= 1 && RootList(roots) && k < |roots| && ErrorValue(1, z, roots, k) == ErrorValue(0, o, roots, k)
    ensures Eval(Searched(1, z), Exp(roots[k])) == Eval(Searched(0, o), Exp(roots[k]))
  {
    hide Mul, Eval, Exp, Searched, Denominator, Inverse;
    DenominatorNonZero(roots, k, |roots|);
    MulCancel(Eval(Searched(1, z), Exp(roots[k])), Eval(Searched(0, o), Exp(roots[k])),
              Inverse(Denominator(roots, roots[k], k, |roots|)));
  }

  /** At each root of a word that comes out right. */
  lemma NumeratorAt(w: seq<byte>, err: seq<byte>, v: seq<byte>, e: seq<nat>, roots: seq<nat>, z: seq<byte>, k: nat)
    requires |w| == |err| == NN && e == Locations(err, NN) && v == Values(err, NN) && Locators(e) && |z| == |e| + 1 && k < |e|
    requires RootList(roots) && |roots| == |e| && forall j :: 0 <= j < |e| ==> roots[j] == NN - e[j]
    requires Corrected(1, z, roots, AddPoly(w, err), |roots|) == w
    requires Searched(0, EvaluatorPoly(v, e)) == EvaluatorPoly(v, e)
    ensures Eval(Searched(1, z), Exp(NN - e[k])) == Eval(EvaluatorPoly(v, e), Exp(NN - e[k]))
  {
    hide Eval, Exp, ProductPoly, LocatorPoly, EvaluatorPoly, Corrected, AddPoly, Searched, ErrorValue, Locations, Values, Locators, RootList;
    ErrorValueForced(z, roots, w, err, k);
    ErrorValueIsError(0, v, e, roots, k);
    ValueAt(err, k);
    SameNumerator(z, EvaluatorPoly(v, e), roots, k);
  }

  /** A word that comes out right: the numerators' polynomial is read back as the right one. */
  lemma RightNumerators(w: seq<byte>, err: seq<byte>, v: seq<byte>, e: seq<nat>, roots: seq<nat>, z: seq<byte>)
    requires |w| == |err| == NN && e == Locations(err, NN) && v == Values(err, NN) && Locators(e) && |z| == |e| + 1
    requires roots == RootsUpTo(LocatorPoly(e), NN) && RootList(roots)
    requires Corrected(1, z, roots, AddPoly(w, err), |roots|) == w
    ensures Searched(1, z) == EvaluatorPoly(v, e)
  {
    hide Eval, Exp, ProductPoly, LocatorPoly, EvaluatorPoly, Corrected, AddPoly, Searched, ErrorValue, RootsUpTo, Locations, Values, Locators;
    hide RootList, NoZeroFrom;
    var found := RootsFound(err, e);
    EvaluatorConstant(v, e);
    ReadBackUnchanged(0, EvaluatorPoly(v, e));
    forall k | 0 <= k < |e|
      ensures Eval(Searched(1, z), Exp(NN - e[k])) == Eval(EvaluatorPoly(v, e), Exp(NN - e[k]))
    {
      NumeratorAt(w, err, v, e, roots, z, k);
    }
    DeterminedByRoots(Searched(1, z), EvaluatorPoly(v, e), e);
  }

  /** 16 errors whose first syndrome is zero are never corrected, unless the second coefficient of their locator
      polynomial happens to be 1. */
  lemma EarlyZeroFails(w: seq<byte>, err: seq<byte>)
    requires |w| == |err| == NN && CodeWord(w) && Weight(err) == TT
    requires Eval(err, Exp(1)) == 0 && LocatorPoly(Locations(err, NN))[1] != 1
    ensures Decode(1, AddPoly(w, err)) != Outcome(1, w)
  {
    hide Eval, Exp, ProductPoly, LocatorPoly, EvaluatorPoly, Corrected, Decode, AddPoly, CodeWord, Locations, Values, RootsUpTo;
    hide Locator, Syndromes, Evaluator, Searched, Locators;
    LocationsAreLocators(err);
    var v, e := ReceivedErrors(w, err);
    var s := Syndromes(AddPoly(w, err));
    if Decode(1, AddPoly(w, err)) == Outcome(1, w) {
      RightDecoding(w, err, s, e);
      var p := Locator(1, s);
      var z, roots := Evaluator(1, p, s), RootsUpTo(LocatorPoly(e), NN);
      RightNumerators(w, err, v, e, roots, z);
      EvaluatorIsPoly(0, s, v, e);
      SecondCoefficient(p, LocatorPoly(e), s);
    }
  }

  // ---------- such a pattern ----------

  /** 16 symbols at the beginning of the word, the first of them x and the others 1. */
  function FirstSixteen(x: byte): (err: seq<byte>)
    ensures |err| == NN && forall i :: 0 <= i < NN ==> err[i] == if i == 0 then x else if i < TT then 1 else 0
  {
    seq(NN, i => if i == 0 then x else if i < TT then 1 else 0)
  }

  /** 15 down to 0, as far as they are among the last n positions. */
  function Sixteen(n: nat): (e: seq<nat>)
    requires n <= NN
    ensures |e| == if n <= NN - TT then 0 else n - (NN - TT)
  {
    if n <= NN - TT then [] else Sixteen(n - 1) + [NN - n]
  }

  /** One position more, whatever the list of those before. */
  lemma OneMore(err: seq<byte>, n: nat, e: seq<nat>)
    requires |err| == NN && 0 < n <= NN && Locations(err, n - 1) == e
    ensures Locations(err, n) == if err[NN - n] != 0 then e + [NN - n] else e
  {
    hide Locations;
    LocationsStep(err, n);
    assert e + [] == e;
  }

  lemma {:induction false} SixteenLocations(x: byte, n: nat)
    requires x != 0 && n <= NN
    ensures Locations(FirstSixteen(x), n) == Sixteen(n)
  {
    hide Locations;
    if n == 0 {
      LocationsStep(FirstSixteen(x), 0);
    } else {
      SixteenLocations(x, n - 1);
      OneMore(FirstSixteen(x), n, Sixteen(n - 1));
    }
  }

  function Ones(n: nat): (p: seq<byte>)
    ensures |p| == n && forall i :: 0 <= i < n ==> p[i] == 1
  {
    if n == 0 then [] else Ones(n - 1) + [1]
  }

  /** (1 + alpha) (1 + alpha + ... + alpha^(n-1)) == 1 + alpha^n. */
  lemma {:induction false} GeometricSum(n: nat)
    ensures Mul(Add(1, Exp(1)), Eval(Ones(n), Exp(1))) == Add(1, Exp(n))
  {
    hide Add, Mul, Exp;
    var x := Exp(1);
    if n == 0 {
      ExpSmall(n);
      MulLaws(Add(1, x), 0);
      AddLaws(1, 1);
    } else {
      var t := Exp(n - 1);
      GeometricSum(n - 1);
      EvalSnoc(Ones(n - 1), 1, 1);
      assert 1 * |Ones(n - 1)| == n - 1;
      MulLaws(1, t);
      MulDistrib(Eval(Ones(n - 1), x), t, Add(1, x));
      MulDistrib(1, x, t);
      MulExp(1, n - 1);
      AddAssoc(Add(1, t), t, Exp(n));
      AddLaws(1, t);
    }
  }

  /** 1 + alpha + ... + alpha^14 is not zero. */
  lemma FifteenOnes(n: nat)
    requires n == 15
    ensures Eval(Ones(n), Exp(1)) != 0
  {
    hide Add, Mul, Exp;
    GeometricSum(n);
    MulLaws(Add(1, Exp(1)), 0);
    AddCancel(1, Exp(n));
    ExpSmall(0);
    ExpInjective(0, n);
  }

  /** The value of the pattern at alpha, all symbols but the first being 1. */
  lemma SixteenAt(x: byte, n: nat)
    requires n == 15
    ensures Eval(FirstSixteen(x), Exp(1)) == Add(x, Mul(Exp(1), Eval(Ones(n), Exp(1))))
  {
    hide Add, Mul, Exp;
    var p, z := Ones(n), Zeros(NN - TT);
    assert FirstSixteen(x)[1..] == p + z;
    EvalPadded(p, z, Exp(1));
  }

  /** The second coefficient of the locator polynomial is the sum of the locators. */
  lemma {:induction false} SecondIsSum(e: seq<nat>, v: seq<byte>, n: nat)
    requires |v| == |e| && n <= |e| && forall k :: 0 <= k < |v| ==> v[k] == 1
    ensures n >= 1 ==> ProductPoly(e, -1, n)[1] == PowerSum(v[..n], e[..n], 1)
  {
    hide Add, Mul, Exp;
    if n > 0 {
      var p, x := ProductPoly(e, -1, n - 1), Exp(e[n - 1]);
      ProductPolyConstant(e, -1, n - 1);
      SecondIsSum(e, v, n - 1);
      MulLaws(x, 1);
      PowerStep(e[n - 1], 0);
      PowerSumSnoc(v[..n - 1], e[..n - 1], 1, e[n - 1], 1);
      assert v[..n] == v[..n - 1] + [1] && e[..n] == e[..n - 1] + [e[n - 1]];
      assert MulOnePlus(p, x)[1] == Add((p + [0])[1], ([0] + Scale(x, p))[1]);
      assert v[..0] == [] && e[..0] == [];
      AddLaws(0, x);
    }
  }

  /** A pattern of 16 errors, all but one of magnitude 1, that is within the 16 the code is for and never
      corrected, whatever is sent. */
  lemma EarlyZeroPattern(w: seq<byte>) returns (err: seq<byte>)
    requires |w| == NN && CodeWord(w)
    ensures |err| == NN && Weight(err) == TT && Eval(err, Exp(1)) == 0
    ensures Decode(1, AddPoly(w, err)) != Outcome(1, w)
  {
    hide Add, Mul, Exp, Eval, CodeWord, Decode, FirstSixteen, Ones, Locations, Values, ProductPoly, AddPoly;
    var n := 15;
    var x := Mul(Exp(1), Eval(Ones(n), Exp(1)));
    FifteenOnes(n);
    ExpNonZero(1);
    MulNonZero(Exp(1), Eval(Ones(n), Exp(1)));
    err := FirstSixteen(x);
    SixteenAt(x, n);
    AddLaws(x, x);
    SixteenLocations(x, NN);
    SixteenLocations(1, NN);
    SecondOfSixteen(n);
    if Add(1, x) == 1 {
      AddCancelRight(1, x);
    }
    EarlyZeroFails(w, err);
  }

  lemma SecondOfSixteen(n: nat)
    requires n == 15
    ensures LocatorPoly(Sixteen(NN))[1] == Add(1, Mul(Exp(1), Eval(Ones(n), Exp(1))))
  {
    hide Add, Mul, Exp, Eval, FirstSixteen, Ones, Locations, Values, ProductPoly, Power, PowerSum;
    var err := FirstSixteen(1);
    SixteenLocations(1, NN);
    var v, e := Values(err, NN), Locations(err, NN);
    AllOnes(v, e, err);
    SecondIsSum(e, v, |e|);
    assert v[..|e|] == v && e[..|e|] == e;
    PowerSumOfErrors(err, NN, 1);
    assert err[0..] == err;
    PowerZero(1);
    MulLaws(1, Eval(err, Exp(1)));
    SixteenAt(1, n);
  }

  lemma AllOnes(v: seq<byte>, e: seq<nat>, err: seq<byte>)
    requires err == FirstSixteen(1) && v == Values(err, NN) && e == Locations(err, NN)
    ensures |v| == |e| && forall k :: 0 <= k < |v| ==> v[k] == 1
  {
  }
}
