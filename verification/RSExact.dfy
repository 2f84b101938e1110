/** Exactly which patterns of several errors RS_Decode as written restores, when no zero among the first
    31 syndromes is misread: a zero coefficient of the locator or of the evaluator polynomial always
    shows in the result. */
module RSExact {
  import opened Bytes
  import opened GF256
  import opened Field
  import opened Poly
  import opened PowerSums
  import opened RSCode
  import opened RSDecoder
  import opened RSBerlekamp
  import opened RSErrors
  import opened RSForney
  import opened RSCorrection

  /** A misread coefficient changes the polynomial. */
  lemma SearchedUnchanged(p: seq<byte>)
    requires p != [] && Searched(1, p) == p
    ensures NoZeroFrom(p, 1)
  {
    forall k | 1 <= k < |p|
      ensures p[k] != 0
    {
      assert Searched(1, p)[k] == ReadBack(1, p[k]);
    }
  }

  /** Only the symbols at the roots are touched. */
  lemma {:induction false} Untouched(zero: byte, z: seq<byte>, roots: seq<nat>, r: seq<byte>, n: nat, loc: nat)
    requires |z| >= 1 && RootList(roots) && n <= |roots| && |r| == NN && loc < NN
    requires NN - loc !in roots[..n]
    ensures Corrected(zero, z, roots, r, n)[loc] == r[loc]
  {
    hide Add, ErrorValue;
    if n > 0 {
      assert roots[..n] == roots[..n - 1] + [roots[n - 1]];
      Untouched(zero, z, roots, r, n - 1, loc);
    }
  }

  /** Each symbol at a root is changed once, by its error value. */
  lemma {:induction false} TouchedOnce(zero: byte, z: seq<byte>, roots: seq<nat>, r: seq<byte>, n: nat, k: nat)
    requires |z| >= 1 && RootList(roots) && k < n <= |roots| && |r| == NN
    ensures Corrected(zero, z, roots, r, n)[NN - roots[k]] == Add(r[NN - roots[k]], ErrorValue(zero, z, roots, k))
  {
    hide Add, ErrorValue;
    if k < n - 1 {
      TouchedOnce(zero, z, roots, r, n - 1, k);
      assert roots[k] < roots[n - 1];
    } else {
      Untouched(zero, z, roots, r, k, NN - roots[k]);
    }
  }

  /** A word that has come out right was changed at every error, so every error is at a recorded root. */
  lemma EveryErrorFound(z: seq<byte>, roots: seq<nat>, w: seq<byte>, err: seq<byte>, loc: nat)
    requires |z| >= 1 && RootList(roots) && |w| == |err| == NN && loc < NN && err[loc] != 0
    requires Corrected(1, z, roots, AddPoly(w, err), |roots|) == w
    ensures NN - loc in roots
  {
    hide Corrected, Add;
    if NN - loc !in roots {
      assert roots[..|roots|] == roots;
      Untouched(1, z, roots, AddPoly(w, err), |roots|, loc);
      AddLaws(w[loc], err[loc]);
      AddAssoc(w[loc], w[loc], err[loc]);
      AddLaws(err[loc], w[loc]);
      AddLaws(w[loc], w[loc]);
      AddCancel(w[loc], Add(w[loc], err[loc]));
    }
  }

  /** The error value at root k of a word that has come out right is the error. */
  lemma ErrorValueForced(z: seq<byte>, roots: seq<nat>, w: seq<byte>, err: seq<byte>, k: nat)
    requires |z| >= 1 && RootList(roots) && |w| == |err| == NN && k < |roots|
    requires Corrected(1, z, roots, AddPoly(w, err), |roots|) == w
    ensures ErrorValue(1, z, roots, k) == err[NN - roots[k]]
  {
    hide Corrected, Add, ErrorValue;
    var loc, x := NN - roots[k], ErrorValue(1, z, roots, k);
    TouchedOnce(1, z, roots, AddPoly(w, err), |roots|, k);
    AddAssoc(w[loc], err[loc], x);
    AddLaws(w[loc], Add(err[loc], x));
    AddCancelRight(w[loc], Add(err[loc], x));
    AddCancel(err[loc], x);
  }

  lemma AddCancelRight(a: byte, b: byte)
    requires Add(a, b) == a
    ensures b == 0
  {
    hide Add;
    AddLaws(a, b);
    AddLaws(b, a);
    AddLaws(a, a);
  }

  /** The correcting branch, when it succeeds. */
  lemma CorrectSucceeds(p: seq<byte>, s: seq<byte>, r: seq<byte>, w: seq<byte>) returns (roots: seq<nat>, z: seq<byte>)
    requires 1 <= |p| <= TT + 1 && |s| == PARITY + 1 && |r| == NN && Correct(1, p, s, r) == Outcome(1, w)
    ensures roots == RootsUpTo(Searched(1, p), NN) && RootList(roots) && |z| >= 1
    ensures Corrected(1, z, roots, r, |roots|) == w
  {
    hide Corrected, Searched, Eval, Exp, Evaluator;
    roots, z := RootsUpTo(Searched(1, p), NN), Evaluator(1, p, s);
  }

  lemma SearchedVanishes(p: seq<byte>, z: seq<byte>, roots: seq<nat>, w: seq<byte>, err: seq<byte>, e: seq<nat>)
    requires |p| >= 1 && |z| >= 1 && |w| == |err| == NN && e == Locations(err, NN)
    requires roots == RootsUpTo(Searched(1, p), NN) && RootList(roots)
    requires Corrected(1, z, roots, AddPoly(w, err), |roots|) == w
    ensures forall k :: 0 <= k < |e| ==> Eval(Searched(1, p), Exp(NN - e[k])) == 0
  {
    hide Eval, Exp, Corrected, AddPoly, Searched, RootList;
    forall k | 0 <= k < |e|
      ensures Eval(Searched(1, p), Exp(NN - e[k])) == 0
    {
      EveryErrorFound(z, roots, w, err, e[k]);
    }
  }

  /** If the word comes out right, no coefficient of the locator polynomial has been misread. */
  lemma LocatorForced(w: seq<byte>, err: seq<byte>, e: seq<nat>, v: seq<byte>)
    requires |w| == |err| == NN && CodeWord(w) && 1 <= Weight(err) <= TT
    requires e == Locations(err, NN) && v == Values(err, NN) && Locators(e) && SyndromesSet(err)
    requires Decode(1, AddPoly(w, err)) == Outcome(1, w)
    ensures NoZeroFrom(LocatorPoly(e), 1)
  {
    hide Eval, Exp, ProductPoly, LocatorPoly, Corrected, Decode, Correct, AddPoly, CodeWord, Searched, RootList, RootsUpTo;
    hide Values, Locations, Locators, NoZeroFrom, Errors, CleanSyndromes, SyndromesSet;
    var s := DecodeFindsLocator(1, w, err, e, v);
    var roots, z := CorrectSucceeds(LocatorPoly(e), s, AddPoly(w, err), w);
    LocatorVanishes(e);
    SearchedVanishes(LocatorPoly(e), z, roots, w, err, e);
    DeterminedByRoots(Searched(1, LocatorPoly(e)), LocatorPoly(e), e);
    SearchedUnchanged(LocatorPoly(e));
  }

  /** Two numerators that give the same error value are equal. */
  lemma NumeratorForced(z: seq<byte>, roots: seq<nat>, k: nat)
    requires |z| >= 1 && RootList(roots) && k < |roots| && ErrorValue(1, z, roots, k) == ErrorValue(0, z, roots, k)
    ensures Eval(Searched(1, z), Exp(roots[k])) == Eval(Searched(0, z), Exp(roots[k]))
  {
    hide Mul, Eval, Exp, Searched, Denominator, Inverse;
    DenominatorNonZero(roots, k, |roots|);
    MulCancel(Eval(Searched(1, z), Exp(roots[k])), Eval(Searched(0, z), Exp(roots[k])),
              Inverse(Denominator(roots, roots[k], k, |roots|)));
  }

  /** ... and none of the evaluator polynomial. */
  lemma EvaluatorForced(w: seq<byte>, err: seq<byte>, e: seq<nat>, v: seq<byte>)
    requires |w| == |err| == NN && CodeWord(w) && 1 <= Weight(err) <= TT
    requires e == Locations(err, NN) && v == Values(err, NN) && Locators(e) && SyndromesSet(err)
    requires NoZeroFrom(LocatorPoly(e), 1)
    requires Decode(1, AddPoly(w, err)) == Outcome(1, w)
    ensures NoZeroFrom(EvaluatorPoly(v, e), 1)
  {
    hide Eval, Exp, ProductPoly, LocatorPoly, EvaluatorPoly, Corrected, Decode, AddPoly, CodeWord, Searched, RootList, ErrorValue;
    hide Values, Locations, Locators, NoZeroFrom, SyndromesSet;
    var z := EvaluatorPoly(v, e);
    var roots := DecodeReachesCorrection(1, w, err, e, v);
    EvaluatorConstant(v, e);
    ReadBackUnchanged(0, z);
    forall k | 0 <= k < |e|
      ensures Eval(Searched(1, z), Exp(NN - e[k])) == Eval(z, Exp(NN - e[k]))
    {
      ErrorValueForced(z, roots, w, err, k);
      ErrorValueIsError(0, v, e, roots, k);
      ValueAt(err, k);
      NumeratorForced(z, roots, k);
    }
    DeterminedByRoots(Searched(1, z), z, e);
    SearchedUnchanged(z);
  }

  lemma ValueAt(err: seq<byte>, k: nat)
    requires |err| == NN && k < |Locations(err, NN)|
    ensures Values(err, NN)[k] == err[Locations(err, NN)[k]]
  {
  }

  /** The exact law for several errors, of the code as written: with no zero among the first 31 syndromes,
      up to 16 errors are corrected if and only if neither the locator nor the evaluator polynomial of
      the pattern has a zero coefficient. */
  lemma CorrectsExactly(w: seq<byte>, err: seq<byte>)
    requires |w| == |err| == NN && CodeWord(w) && 1 <= Weight(err) <= TT && SyndromesSet(err)
    ensures Decode(1, AddPoly(w, err)) == Outcome(1, w) <==> NothingMisread(err)
  {
    hide Decode, AddPoly, CodeWord, Values, Locations, SyndromesSet, NoZeroFrom, LocatorPoly, EvaluatorPoly, Locators;
    LocationsAreLocators(err);
    var v, e := Values(err, NN), Locations(err, NN);
    if Decode(1, AddPoly(w, err)) == Outcome(1, w) {
      LocatorForced(w, err, e, v);
      EvaluatorForced(w, err, e, v);
    }
    if NothingMisread(err) {
      CorrectsErrors(1, w, err);
    }
  }
}
