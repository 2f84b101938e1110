/** What RS_Decode achieves: which corrupted code words it restores, how much it may change, and the
    inputs on which the byte-wide log tables make it fail. */
module RSCorrection {
  import opened Bytes
  import opened GF256
  import opened Field
  import opened Poly
  import opened PowerSums
  import opened RSCode
  import opened RSDecoder
  import opened RSBerlekamp
  import opened RSErrors
  import opened RSForney

  predicate NoZeroFrom(p: seq<byte>, n: nat) {
    forall k :: n <= k < |p| ==> p[k] != 0
  }

  /** None of the syndromes that are read as factors is zero; the last one never is read so. */
  ghost predicate SyndromesSet(err: seq<byte>)
    requires |err| == NN
  {
    forall i :: 1 <= i < PARITY ==> Eval(err, Exp(i)) != 0
  }

  /** No entry that the decoder reads back from logarithmic form is zero: neither one of the first 31
      syndromes, nor a coefficient of the locator or of the evaluator polynomial of the error pattern. */
  ghost predicate NothingMisread(err: seq<byte>)
    requires |err| == NN
  {
    LocationsAreLocators(err);
    var v, e := Values(err, NN), Locations(err, NN);
    && SyndromesSet(err)
    && NoZeroFrom(LocatorPoly(e), 1)
    && NoZeroFrom(EvaluatorPoly(v, e), 1)
  }

  lemma ReadBackUnchanged(zero: byte, p: seq<byte>)
    requires p != [] && p[0] == 1 && (zero == 0 || NoZeroFrom(p, 1))
    ensures Searched(zero, p) == p
  {
  }

  /** The syndromes of the received word, as errors. */
  lemma ReceivedErrors(w: seq<byte>, err: seq<byte>) returns (v: seq<byte>, e: seq<nat>)
    requires |w| == |err| == NN && CodeWord(w) && Weight(err) <= TT
    ensures v == Values(err, NN) && e == Locations(err, NN)
    ensures Errors(Syndromes(AddPoly(w, err)), v, e)
    ensures forall i :: 1 <= i <= PARITY ==> Syndromes(AddPoly(w, err))[i] == Eval(err, Exp(i))
  {
    v, e := Values(err, NN), Locations(err, NN);
    LocationsAreLocators(err);
    var s := Syndromes(AddPoly(w, err));
    forall i | 1 <= i <= PARITY
      ensures s[i] == PowerSum(v, e, i) == Eval(err, Exp(i))
    {
      hide Add, Mul, Exp, Power, PowerSum, Eval;
      SyndromesOfErrors(w, err, i);
    }
  }

  /** A correctable non-zero error pattern is always noticed. */
  lemma ErrorsAreNoticed(w: seq<byte>, err: seq<byte>)
    requires |w| == |err| == NN && CodeWord(w) && 1 <= Weight(err) <= TT
    ensures !CodeWord(AddPoly(w, err))
  {
    if CodeWord(AddPoly(w, err)) {
      hide Eval, PowerSum, Exp;
      var v, e := ReceivedErrors(w, err);
      var s := Syndromes(AddPoly(w, err));
      forall j | 1 <= j < 1 + |v|
        ensures PowerSum(v, e, j) == 0
      {
        assert s[j] == PowerSum(v, e, j);
      }
      var first := v[0];
      Vandermonde(v, e, 1);
      assert false;
    }
  }

  lemma NoErrors(w: seq<byte>, err: seq<byte>)
    requires |w| == |err| == NN && Weight(err) == 0
    ensures AddPoly(w, err) == w
  {
    var e := Locations(err, NN);
    forall p | 0 <= p < NN
      ensures AddPoly(w, err)[p] == w[p]
    {
      hide Add;
      assert err[p] != 0 ==> p in e;
      AddLaws(w[p], 0);
    }
  }

  /** The locator polynomial found by Berlekamp's iteration is that of the error pattern. */
  lemma LocatorFound(zero: byte, s: seq<byte>, v: seq<byte>, e: seq<nat>)
    requires Errors(s, v, e) && CleanSyndromes(zero, s)
    ensures Locator(zero, s) == LocatorPoly(e)
  {
    hide Eval, Exp, Locator, ProductPoly;
    LocatorRoots(zero, s, v, e);
    FullDegree(Locator(zero, s), e);
  }

  /** The search lists exactly the inverse locators. */
  lemma RootsFound(err: seq<byte>, e: seq<nat>) returns (roots: seq<nat>)
    requires |err| == NN && e == Locations(err, NN) && Locators(e)
    ensures roots == RootsUpTo(LocatorPoly(e), NN) && RootList(roots)
    ensures |roots| == |e| && forall k :: 0 <= k < |e| ==> roots[k] == NN - e[k]
  {
    hide Eval, Exp, ProductPoly, RootsUpTo, Locations;
    var p := LocatorPoly(e);
    LocatorVanishes(e);
    forall i | 1 <= i <= NN
      ensures Eval(p, Exp(i)) == 0 <==> err[NN - i] != 0
    {
      RootsExactly(p, err, e, i);
    }
    RootsAreLocations(p, err, NN);
    roots := RootsUpTo(p, NN);
  }

  /** The branches of the decoder that lead to the correction. */
  lemma CorrectBranch(zero: byte, p: seq<byte>, s: seq<byte>, r: seq<byte>, roots: seq<nat>, z: seq<byte>)
    requires |r| == NN && |s| == PARITY + 1 && 1 <= |p| <= TT + 1
    requires roots == RootsUpTo(Searched(zero, p), NN) && |roots| == |p| - 1
    requires z == Evaluator(zero, p, s)
    ensures |z| >= 1 && RootList(roots)
    ensures Correct(zero, p, s, r) == Outcome(1, Corrected(zero, z, roots, r, |roots|))
  {
    hide Corrected, Evaluator, Searched;
  }

  lemma DecodeBranch(zero: byte, r: seq<byte>, s: seq<byte>, p: seq<byte>)
    requires |r| == NN && !CodeWord(r) && s == Syndromes(r) && p == Locator(zero, s) && |p| - 1 <= TT
    ensures Decode(zero, r) == Correct(zero, p, s, r)
  {
    hide Correct, Locator, Syndromes, CodeWord;
  }

  /** The correction step, started with the locator polynomial of the error pattern. */
  lemma CorrectFromLocator(zero: byte, s: seq<byte>, r: seq<byte>, err: seq<byte>, e: seq<nat>, v: seq<byte>)
    returns (roots: seq<nat>)
    requires |r| == |err| == NN && e == Locations(err, NN) && v == Values(err, NN)
    requires Errors(s, v, e) && CleanSyndromes(zero, s)
    requires zero == 0 || NoZeroFrom(LocatorPoly(e), 1)
    ensures RootList(roots) && |roots| == |e| && forall k :: 0 <= k < |e| ==> roots[k] == NN - e[k]
    ensures Correct(zero, LocatorPoly(e), s, r) == Outcome(1, Corrected(zero, EvaluatorPoly(v, e), roots, r, |roots|))
  {
    hide Eval, Exp, ProductPoly, Mix, Corrected, Evaluator, Correct, Searched, EvaluatorPoly, RootsUpTo, PowerSum, Power;
    var p := LocatorPoly(e);
    LocatorVanishes(e);
    ReadBackUnchanged(zero, p);
    roots := RootsFound(err, e);
    EvaluatorIsPoly(zero, s, v, e);
    CorrectBranch(zero, p, s, r, roots, EvaluatorPoly(v, e));
  }

  /** The decoder reaches the correcting branch with the locator polynomial of the error pattern. */
  lemma DecodeFindsLocator(zero: byte, w: seq<byte>, err: seq<byte>, e: seq<nat>, v: seq<byte>) returns (s: seq<byte>)
    requires |w| == |err| == NN && CodeWord(w) && 1 <= Weight(err) <= TT
    requires e == Locations(err, NN) && v == Values(err, NN) && Locators(e)
    requires zero == 0 || SyndromesSet(err)
    ensures |s| == PARITY + 1 && |LocatorPoly(e)| <= TT + 1 && Errors(s, v, e) && CleanSyndromes(zero, s)
    ensures Decode(zero, AddPoly(w, err)) == Correct(zero, LocatorPoly(e), s, AddPoly(w, err))
  {
    hide Eval, Exp, ProductPoly, Locator, LocatorPoly, Syndromes, Decode, Correct, AddPoly, CodeWord;
    hide Locations, Values, PowerSum, SumsOf, Locators, Errors;
    var r := AddPoly(w, err);
    s := Syndromes(r);
    ErrorsAreNoticed(w, err);
    var v', e' := ReceivedErrors(w, err);
    forall i | 1 <= i < |s| - 1 && zero != 0
      ensures s[i] != 0
    {
      assert s[i] == Eval(err, Exp(i));
      assert Eval(err, Exp(i)) != 0;
    }
    LocatorFound(zero, s, v, e);
    DecodeBranch(zero, r, s, LocatorPoly(e));
  }

  /** The decoder reaches the correction step with the roots of the error pattern. */
  lemma DecodeReachesCorrection(zero: byte, w: seq<byte>, err: seq<byte>, e: seq<nat>, v: seq<byte>)
    returns (roots: seq<nat>)
    requires |w| == |err| == NN && CodeWord(w) && 1 <= Weight(err) <= TT
    requires e == Locations(err, NN) && v == Values(err, NN) && Locators(e)
    requires zero == 0 || SyndromesSet(err)
    requires zero == 0 || NoZeroFrom(LocatorPoly(e), 1)
    ensures RootList(roots) && |roots| == |e| && forall k :: 0 <= k < |e| ==> roots[k] == NN - e[k]
    ensures Decode(zero, AddPoly(w, err))
         == Outcome(1, Corrected(zero, EvaluatorPoly(v, e), roots, AddPoly(w, err), |roots|))
  {
    hide Eval, Exp, ProductPoly, LocatorPoly, Corrected, Decode, Correct, AddPoly, EvaluatorPoly, CodeWord;
    hide Locations, Values, RootList, Locators, NoZeroFrom, Errors, CleanSyndromes, SyndromesSet;
    var s := DecodeFindsLocator(zero, w, err, e, v);
    roots := CorrectFromLocator(zero, s, AddPoly(w, err), err, e, v);
  }

  /** c is w, but for the errors at the positions that are not among the first n of e. */
  ghost predicate PartlyCorrected(c: seq<byte>, w: seq<byte>, err: seq<byte>, e: seq<nat>, n: nat)
    requires |c| == |w| == |err| == NN && n <= |e|
  {
    forall p :: 0 <= p < NN ==> c[p] == if p in e[..n] then w[p] else Add(w[p], err[p])
  }

  lemma OneCorrection(c: seq<byte>, w: seq<byte>, err: seq<byte>, e: seq<nat>, n: nat)
    requires |c| == |w| == |err| == NN && n < |e| && Locators(e) && PartlyCorrected(c, w, err, e, n)
    ensures PartlyCorrected(c[e[n] := Add(c[e[n]], err[e[n]])], w, err, e, n + 1)
  {
    hide Add;
    AddLaws(w[e[n]], err[e[n]]);
    assert e[..n + 1] == e[..n] + [e[n]];
  }

  /** With the right error values, the corrections take the errors away one after the other. */
  lemma {:induction false} CorrectionsUndoErrors(
      zero: byte, z: seq<byte>, w: seq<byte>, err: seq<byte>, e: seq<nat>, roots: seq<nat>, n: nat)
    requires |w| == |err| == NN && Locators(e) && z != [] && RootList(roots) && |roots| == |e| && n <= |e|
    requires forall k :: 0 <= k < |e| ==> roots[k] == NN - e[k] && ErrorValue(zero, z, roots, k) == err[e[k]]
    ensures PartlyCorrected(Corrected(zero, z, roots, AddPoly(w, err), n), w, err, e, n)
  {
    hide Add, ErrorValue, PartlyCorrected;
    if n == 0 {
      StartCorrection(w, err, e);
    } else {
      CorrectionsUndoErrors(zero, z, w, err, e, roots, n - 1);
      OneCorrection(Corrected(zero, z, roots, AddPoly(w, err), n - 1), w, err, e, n - 1);
    }
  }

  lemma StartCorrection(w: seq<byte>, err: seq<byte>, e: seq<nat>)
    requires |w| == |err| == NN
    ensures PartlyCorrected(AddPoly(w, err), w, err, e, 0)
  {
  }

  lemma EndCorrection(c: seq<byte>, w: seq<byte>, err: seq<byte>)
    requires |c| == |w| == |err| == NN
    requires PartlyCorrected(c, w, err, Locations(err, NN), Weight(err))
    ensures c == w
  {
    var e := Locations(err, NN);
    assert e[..Weight(err)] == e;
    forall p | 0 <= p < NN
      ensures c[p] == w[p]
    {
      hide Add;
      AddLaws(w[p], 0);
    }
  }

  /** All error values of a pattern whose evaluator polynomial is read back unchanged. */
  lemma ErrorValuesFound(zero: byte, err: seq<byte>, e: seq<nat>, v: seq<byte>, roots: seq<nat>)
    requires |err| == NN && e == Locations(err, NN) && v == Values(err, NN) && Locators(e)
    requires RootList(roots) && |roots| == |e| && forall k :: 0 <= k < |e| ==> roots[k] == NN - e[k]
    requires zero == 0 || NoZeroFrom(EvaluatorPoly(v, e), 1)
    ensures forall k :: 0 <= k < |e| ==> ErrorValue(zero, EvaluatorPoly(v, e), roots, k) == err[e[k]]
  {
    hide Eval, Exp, EvaluatorPoly, ErrorValue;
    EvaluatorConstant(v, e);
    ReadBackUnchanged(zero, EvaluatorPoly(v, e));
    forall k | 0 <= k < |e|
      ensures ErrorValue(zero, EvaluatorPoly(v, e), roots, k) == err[e[k]]
    {
      ErrorValueIsError(zero, v, e, roots, k);
    }
  }

  /** The law of the decoder: up to 16 symbols in error, anywhere and of any value, are corrected,
      provided that no zero entry of its log tables is misread (zero == 0: signed tables). */
  lemma CorrectsErrors(zero: byte, w: seq<byte>, err: seq<byte>)
    requires |w| == |err| == NN && CodeWord(w) && Weight(err) <= TT
    requires zero == 0 || NothingMisread(err)
    ensures Decode(zero, AddPoly(w, err)) == Outcome(1, w)
  {
    hide Eval, Exp, ProductPoly, Corrected, EvaluatorPoly, ErrorValue, Locator, Correct, Add, PartlyCorrected;
    if Weight(err) == 0 {
      NoErrors(w, err);
    } else {
      hide Decode, AddPoly;
      LocationsAreLocators(err);
      var v, e := Values(err, NN), Locations(err, NN);
      var roots := DecodeReachesCorrection(zero, w, err, e, v);
      ErrorValuesFound(zero, err, e, v, roots);
      CorrectionsUndoErrors(zero, EvaluatorPoly(v, e), w, err, e, roots, |e|);
      EndCorrection(Corrected(zero, EvaluatorPoly(v, e), roots, AddPoly(w, err), |e|), w, err);
    }
  }

  lemma EvaluatorConstant(v: seq<byte>, e: seq<nat>)
    requires |v| == |e| && Locators(e)
    ensures EvaluatorPoly(v, e)[0] == 1
  {
    LocatorVanishes(e);
    AddLaws(1, 0);
  }

  // ---------- limits that hold of every received word ----------

  function Differences(a: seq<byte>, b: seq<byte>): set<nat>
    requires |a| == |b|
  {
    set i | 0 <= i < |a| && a[i] != b[i]
  }

  lemma NoDifferences(r: seq<byte>)
    ensures |Differences(r, r)| == 0
  {
    assert Differences(r, r) == {};
  }

  lemma UpdateDifferences(c: seq<byte>, r: seq<byte>, loc: nat, v: byte)
    requires |c| == |r| && loc < |c|
    ensures |Differences(c[loc := v], r)| <= |Differences(c, r)| + 1
  {
    var a, b := Differences(c[loc := v], r), Differences(c, r) + {loc};
    assert b == a + (b - a);
  }

  lemma {:induction false} CorrectedDifferences(zero: byte, z: seq<byte>, roots: seq<nat>, r: seq<byte>, n: nat)
    requires |z| >= 1 && RootList(roots) && n <= |roots| && |r| == NN
    ensures |Differences(Corrected(zero, z, roots, r, n), r)| <= n
  {
    hide ErrorValue, Add, Differences;
    if n == 0 {
      NoDifferences(r);
    } else {
      CorrectedDifferences(zero, z, roots, r, n - 1);
      var c, loc: nat := Corrected(zero, z, roots, r, n - 1), NN - roots[n - 1];
      UpdateDifferences(c, r, loc, Add(c[loc], ErrorValue(zero, z, roots, n - 1)));
    }
  }

  /** Whatever is received, a failed decoding leaves the word alone and a successful one changes at
      most 16 symbols; the search never records more roots than the arrays root and loc can hold. */
  lemma DecodeLimits(zero: byte, r: seq<byte>)
    requires |r| == NN
    ensures Decode(zero, r).ret == 0 ==> Decode(zero, r).word == r
    ensures Decode(zero, r).ret != 0 ==> Decode(zero, r).ret == 1 && |Differences(Decode(zero, r).word, r)| <= TT
    ensures var p := Locator(zero, Syndromes(r)); |RootsUpTo(Searched(zero, p), NN)| <= |p| - 1
  {
    hide Locator, Eval, Exp, Corrected, Evaluator, RootsUpTo, CodeWord, Syndromes;
    var s := Syndromes(r);
    var p := Locator(zero, s);
    RootBound(Searched(zero, p), NN);
    if !CodeWord(r) && |p| - 1 <= TT {
      var roots := RootsUpTo(Searched(zero, p), NN);
      CorrectedDifferences(zero, Evaluator(zero, p, s), roots, r, |roots|);
    } else {
      assert Differences(r, r) == {};
    }
  }

  // ---------- one symbol in error ----------

  function SingleError(p: nat, x: byte): (err: seq<byte>)
    requires p < NN
    ensures |err| == NN
    ensures forall i :: 0 <= i < NN ==> err[i] == if i == p then x else 0
  {
    seq(NN, i => if i == p then x else 0)
  }

  lemma {:induction false} SingleLocations(p: nat, x: byte, n: nat)
    requires p < NN && n <= NN
    ensures Locations(SingleError(p, x), n) == if x != 0 && NN - n <= p then [p] else []
    ensures Values(SingleError(p, x), n) == if x != 0 && NN - n <= p then [x] else []
  {
    hide SingleError, Locations, Values;
    LocationsStep(SingleError(p, x), n);
    if n > 0 {
      SingleLocations(p, x, n - 1);
    }
  }

  lemma LocationsStep(err: seq<byte>, n: nat)
    requires |err| == NN && n <= NN
    ensures n == 0 ==> Locations(err, n) == [] && Values(err, n) == []
    ensures n > 0 ==>
      && Locations(err, n) == Locations(err, n - 1) + (if err[NN - n] != 0 then [NN - n] else [])
      && Values(err, n) == Values(err, n - 1) + (if err[NN - n] != 0 then [err[NN - n]] else [])
  {
  }

  lemma SingleLocation(p: nat, x: byte)
    requires p < NN && x != 0
    ensures Locations(SingleError(p, x), NN) == [p] && Values(SingleError(p, x), NN) == [x]
  {
    SingleLocations(p, x, NN);
  }

  lemma SingleLocator(p: nat)
    requires p < NN
    ensures LocatorPoly([p]) == [1, Exp(p)]
  {
    hide Add, Mul, Exp;
    var e := Exp(p);
    assert ProductPoly([p], -1, 0) == [1];
    assert LocatorPoly([p]) == MulOnePlus([1], e);
    MulLaws(e, 1);
    AddLaws(1, 0);
    AddLaws(0, e);
  }

  lemma SingleMix(e: byte, x: byte, p: nat)
    requires p < NN
    ensures Mix([1, e], [x], [p]) == [Mul(x, e)]
  {
    hide Add, Mul, Exp;
    var y, l := Exp(NN - p), [1, e];
    EvalConst(e, y);
    assert l[1..] == [e];
    assert Quotient(l, y) == [Eval(l[1..], y)] + Quotient(l[1..], y);
    assert Quotient(l[1..], y) == [];
    assert Mix(l, [], []) == [0];
    assert [x][1..] == [] && [p][1..] == [];
    assert Mix(l, [x], [p]) == AddPoly(Scale(x, [e]), [0]);
    AddLaws(Mul(x, e), 0);
  }

  /** The locator and the evaluator polynomial of a single error. */
  lemma SinglePolys(p: nat, x: byte)
    requires p < NN
    ensures LocatorPoly([p]) == [1, Exp(p)]
    ensures EvaluatorPoly([x], [p]) == [1, Mul(Add(1, x), Exp(p))]
  {
    hide Add, Mul, Exp, LocatorPoly, Mix;
    SingleLocator(p);
    SingleMix(Exp(p), x, p);
    AddLaws(1, 0);
    MulDistrib(1, x, Exp(p));
    MulLaws(1, Exp(p));
  }

  lemma SingleSyndromes(p: nat, x: byte, i: nat)
    requires p < NN && x != 0 && 1 <= i <= PARITY
    ensures Eval(SingleError(p, x), Exp(i)) == Mul(x, Power(p, i)) != 0
  {
    hide Add, Mul, Exp, Power, Eval;
    var err := SingleError(p, x);
    SingleLocation(p, x);
    PowerSumOfErrors(err, NN, i);
    assert err[0..] == err;
    PowerZero(i);
    MulLaws(1, Eval(err, Exp(i)));
    assert [x][1..] == [] && [p][1..] == [];
    AddLaws(Mul(x, Power(p, i)), 0);
    MulNonZero(x, Power(p, i));
    PowerNonZero(p, i);
  }

  lemma SingleSyndromesSet(p: nat, x: byte)
    requires p < NN && x != 0
    ensures SyndromesSet(SingleError(p, x))
  {
    hide Add, Mul, Exp, Power, Eval, SingleError;
    forall i | 1 <= i < PARITY
      ensures Eval(SingleError(p, x), Exp(i)) != 0
    {
      SingleSyndromes(p, x, i);
    }
  }

  lemma SingleIsRead(p: nat, x: byte)
    requires p < NN && x != 0 && x != 1
    ensures NothingMisread(SingleError(p, x)) && Weight(SingleError(p, x)) <= TT
  {
    hide Add, Mul, Exp, Power, Eval, LocatorPoly, EvaluatorPoly, SyndromesSet, SingleError, Locations, Values;
    SingleLocation(p, x);
    SinglePolys(p, x);
    SingleSyndromesSet(p, x);
    ExpNonZero(p);
    MulNonZero(Add(1, x), Exp(p));
    AddCancel(1, x);
  }

  /** a + 1, corrected by 1 + y instead of 1. */
  lemma WrongSymbol(a: byte, y: byte)
    requires y != 0
    ensures Add(Add(a, 1), Add(1, y)) != a
  {
    hide Add;
    AddAssoc(a, 1, Add(1, y));
    AddLaws(1, Add(1, y));
    AddLaws(y, 1);
    AddLaws(1, y);
    AddAssoc(1, 1, y);
    AddLaws(1, 1);
    AddLaws(0, y);
    AddLaws(a, y);
    AddLaws(y, a);
    AddCancel(y, 0);
    AddAssoc(a, a, y);
    AddLaws(a, a);
  }

  /** A single error of magnitude 1 cancels the evaluator's coefficient; the zero is misread. */
  lemma MagnitudeOneFails(w: seq<byte>, p: nat)
    requires |w| == NN && CodeWord(w) && p < NN
    ensures Decode(1, AddPoly(w, SingleError(p, 1))).ret == 1
    ensures Decode(1, AddPoly(w, SingleError(p, 1))).word != w
  {
    hide Add, Mul, Exp, Power, Eval, LocatorPoly, EvaluatorPoly, Decode, Inverse, Locations, Values, ErrorValue;
    var err := SingleError(p, 1);
    SingleLocation(p, 1);
    SinglePolys(p, 1);
    ExpNonZero(p);
    SingleSyndromesSet(p, 1);
    var roots := DecodeReachesCorrection(1, w, err, [p], [1]);
    AddLaws(1, 1);
    MulLaws(0, Exp(p));
    WrongAfterCorrection(w, p, roots);
  }

  lemma WrongAfterCorrection(w: seq<byte>, p: nat, roots: seq<nat>)
    requires |w| == NN && p < NN && |roots| == 1 && RootList(roots) && roots[0] == NN - p
    ensures Corrected(1, [1, 0], roots, AddPoly(w, SingleError(p, 1)), 1) != w
  {
    hide Add, Exp, ErrorValue;
    var r := AddPoly(w, SingleError(p, 1));
    MisreadValue(p, roots);
    ExpNonZero(NN - p);
    WrongSymbol(w[p], Exp(NN - p));
    assert Corrected(1, [1, 0], roots, r, 0) == r;
    assert Corrected(1, [1, 0], roots, r, 1)[p] == Add(r[p], ErrorValue(1, [1, 0], roots, 0));
  }

  lemma MisreadValue(p: nat, roots: seq<nat>)
    requires p < NN && |roots| == 1 && RootList(roots) && roots[0] == NN - p
    ensures ErrorValue(1, [1, 0], roots, 0) == Add(1, Exp(NN - p))
  {
    hide Add, Mul, Exp;
    var y := Exp(NN - p);
    assert Searched(1, [1, 0]) == [1, 1];
    assert [1, 1][1..] == [1];
    EvalConst(1, y);
    MulLaws(y, 1);
    assert Denominator(roots, roots[0], 0, 1) == Denominator(roots, roots[0], 0, 0) == 1;
    hide Inverse, Eval;
    MulLaws(1, Inverse(1));
    MulLaws(Add(1, y), 1);
  }

  /** The exact law for one symbol in error, of the code as written: any position, any magnitude but 1. */
  lemma SingleErrorCorrected(w: seq<byte>, p: nat, x: byte)
    requires |w| == NN && CodeWord(w) && p < NN
    ensures Decode(1, AddPoly(w, SingleError(p, x))) == Outcome(1, w) <==> x != 1
  {
    hide Decode, NothingMisread;
    var err := SingleError(p, x);
    if x == 1 {
      MagnitudeOneFails(w, p);
    } else if x == 0 {
      ZeroError(w, p);
    } else {
      SingleIsRead(p, x);
      CorrectsErrors(1, w, err);
    }
  }

  lemma ZeroError(w: seq<byte>, p: nat)
    requires |w| == NN && CodeWord(w) && p < NN
    ensures Decode(1, AddPoly(w, SingleError(p, 0))) == Outcome(1, w)
  {
    SingleLocations(p, 0, NN);
    NoErrors(w, SingleError(p, 0));
  }

  // ---------- for every message ----------

  /** An encoded message is accepted as it is. */
  lemma EncodedIsAccepted(zero: byte, data: seq<byte>)
    requires |data| == KK
    ensures Decode(zero, data + Encode(data)) == Outcome(1, data + Encode(data))
  {
    hide CodeWord, Encode;
    EncodedIsCodeWord(data);
  }

  /** One byte of it is changed by x: the code as written gives the message back exactly when x is not 1. */
  lemma MessageSurvivesOneError(data: seq<byte>, p: nat, x: byte)
    requires |data| == KK && p < NN
    ensures Decode(1, AddPoly(data + Encode(data), SingleError(p, x))) == Outcome(1, data + Encode(data)) <==> x != 1
  {
    hide Decode, CodeWord, Encode, AddPoly, SingleError;
    EncodedIsCodeWord(data);
    SingleErrorCorrected(data + Encode(data), p, x);
  }
}
