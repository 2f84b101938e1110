/** A zero among the first 31 syndromes, if it comes late enough, always defeats RS_Decode as written: the
    table holds the right locator polynomial by then, and the misread zero either makes it outgrow 16 or
    shows that a coefficient of it is zero. */
module RSLateZero {
  import opened Bytes
  import opened GF256
  import opened Field
  import opened Poly
  import opened PowerSums
  import opened RSCode
  import opened RSDecoder
  import opened RSBerlekamp
  import opened RSErrors
  import opened RSForney
  import opened RSCorrection
  import opened RSExact

  /** The first zero syndrome is s[j], and it comes when the locator polynomial of n errors has been found
      and any change of it would be too long. */
  ghost predicate FirstZero(s: seq<byte>, n: nat, j: nat) {
    |s| == PARITY + 1 && 1 <= n && TT + n <= j < PARITY && s[j] == 0 && forall i :: 1 <= i < j ==> s[i] != 0
  }

  /** Up to that zero the iteration goes its usual way. */
  lemma {:induction false} RunReaches(s: seq<byte>, v: seq<byte>, e: seq<nat>, t: Table, j: nat) returns (t': Table)
    requires Errors(s, v, e) && FirstZero(s, |v|, j)
    requires Shape(t) && |t.rows| <= j + 1 && TableKeeps(t, s) && Short(t, |v|)
    ensures Shape(t') && |t'.rows| == j + 1 && TableKeeps(t', s) && Short(t', |v|)
    ensures Run(1, s, t) == Run(1, s, t')
    decreases j + 1 - |t.rows|
  {
    hide Pass, TableKeeps, Errors;
    if |t.rows| == j + 1 {
      t' := t;
    } else {
      PassKeeps(1, s, t);
      PassShort(1, s, t, v, e);
      t' := RunReaches(s, v, e, Pass(1, s, t), j);
    }
  }

  /** A row that is checked far enough is the locator polynomial. */
  lemma LongEnough(row: seq<byte>, s: seq<byte>, v: seq<byte>, e: seq<nat>, u: nat)
    requires Errors(s, v, e) && 1 <= |row| <= u <= |s| && |row| <= |v| + 1 && 2 * |v| + 1 <= u && RowKeeps(row, s, u)
    ensures row == LocatorPoly(e)
  {
    hide Eval, Exp, ProductPoly, PowerSum, Conv;
    RecurrenceRoots(row, s, v, e, |row|);
    FullDegree(row, e);
  }

  /** The zero is read as 1: the discrepancy is off by one coefficient. */
  lemma MisreadDiscrepancy(row: seq<byte>, s: seq<byte>, n: nat, j: nat)
    requires FirstZero(s, n, j) && 2 <= |row| <= j + 1 && row[0] == 1
    ensures Discrepancy(1, row, s, j + 1) == Add(Conv(row, s, j + 1), row[1])
  {
    hide Add, Mul;
    var back, rest := ReadBackAll(1, s), row[2..];
    assert row[1..][1..] == rest && row[1..][0] == row[1];
    ConvSame(rest, back, s, j - 1);
    var c := Conv(rest, s, j - 1);
    MulLaws(row[1], 1);
    MulLaws(row[1], 0);
    MulLaws(1, s[j + 1]);
    AddLaws(0, c);
    AddLaws(row[1], c);
    AddAssoc(s[j + 1], c, row[1]);
  }

  /** The last row is p, no earlier one has a lead of n or more, and there is still a zero to come. */
  ghost predicate Settled(t: Table, p: seq<byte>, n: nat)
    requires Shape(t)
  {
    Last(t) == p && forall q :: 0 <= q < |t.rows| - 1 && t.disc[q] != 0 ==> Lead(t, q) <= n - 1
  }

  /** A change of the row would be longer than 17 coefficients. */
  lemma TooLong(t: Table, p: seq<byte>, n: nat)
    requires Shape(t) && TT + n + 2 <= |t.rows| < PARITY + 2 && Settled(t, p, n) && t.disc[|t.rows| - 1] != 0
    ensures |NextRow(t)| - 1 > TT
  {
    hide Add, Mul, Inverse, BestRow;
    var u := |t.rows| - 1;
    var q := BestRow(t, u);
    assert Lead(t, q) <= n - 1;
  }

  /** From then on the row stays, or it is too long. */
  lemma {:induction false} StaysOrFails(s: seq<byte>, t: Table, p: seq<byte>, n: nat)
    requires |s| == PARITY + 1 && Shape(t) && TT + n + 2 <= |t.rows| && Settled(t, p, n) && |p| - 1 <= TT
    ensures var r := Run(1, s, t); |Last(r)| - 1 > TT || (Last(r) == p && (|t.rows| < PARITY + 2 ==> t.disc[|t.rows| - 1] == 0))
    decreases PARITY + 2 - |t.rows|
  {
    hide NextRow, Discrepancy, Lead;
    if |t.rows| < PARITY + 2 {
      var next, u := Pass(1, s, t), |t.rows| - 1;
      assert Last(next) == NextRow(t);
      if t.disc[u] == 0 {
        StillSettled(s, t, p, n);
        StaysOrFails(s, next, p, n);
      } else {
        TooLong(t, p, n);
      }
    }
  }

  lemma StillSettled(s: seq<byte>, t: Table, p: seq<byte>, n: nat)
    requires |s| == PARITY + 1 && Shape(t) && |t.rows| < PARITY + 2 && Settled(t, p, n) && t.disc[|t.rows| - 1] == 0
    ensures Settled(Pass(1, s, t), p, n)
  {
    hide Discrepancy, BestRow, Combine, Mul, Inverse, Pass;
    var next := Pass(1, s, t);
    PassAdds(s, t);
    forall q | 0 <= q < |next.rows| - 1 && next.disc[q] != 0
      ensures Lead(next, q) <= n - 1
    {
      assert next.disc[q] == next.disc[..|t.disc|][q] == t.disc[q] && next.rows[q] == next.rows[..|t.rows|][q] == t.rows[q];
      assert q != |t.rows| - 1;
    }
  }

  lemma PassAdds(s: seq<byte>, t: Table)
    requires |s| == PARITY + 1 && Shape(t) && |t.rows| < PARITY + 2
    ensures Last(Pass(1, s, t)) == NextRow(t)
  {
    hide NextRow, Discrepancy;
  }

  /** The pass that adds the locator polynomial. */
  lemma FirstSettled(s: seq<byte>, v: seq<byte>, e: seq<nat>, t: Table, j: nat)
    requires Errors(s, v, e) && FirstZero(s, |v|, j)
    requires Shape(t) && |t.rows| == j + 1 && TableKeeps(t, s) && Short(t, |v|)
    ensures NextRow(t) == LocatorPoly(e) && Settled(Pass(1, s, t), LocatorPoly(e), |v|)
    ensures |LocatorPoly(e)| >= 2 ==> Pass(1, s, t).disc[j + 1] == LocatorPoly(e)[1]
  {
    hide Discrepancy, BestRow, NextRow, Conv, Errors;
    NextRowKeeps(t, s);
    var k := NextRowShort(t, s, v, e);
    var p, next := NextRow(t), Pass(1, s, t);
    LongEnough(p, s, v, e, j + 1);
    forall q | 0 <= q < |next.rows| - 1 && next.disc[q] != 0
      ensures Lead(next, q) <= |v| - 1
    {
      assert next.disc[q] == next.disc[..|t.disc|][q] == t.disc[q] && next.rows[q] == next.rows[..|t.rows|][q] == t.rows[q];
      if q > 0 {
        assert RowKeeps(t.rows[q], s, q) && t.disc[q] == Conv(t.rows[q], s, q);
        FirstFailure(t.rows[q], s, v, e, q);
      }
    }
    if |p| >= 2 {
      MisreadDiscrepancy(p, s, |v|, j);
      LocatorKeeps(s, v, e, j + 1);
      AddLaws(0, p[1]);
    }
  }

  /** The locator polynomial satisfies the recurrence everywhere. */
  lemma LocatorKeeps(s: seq<byte>, v: seq<byte>, e: seq<nat>, j: nat)
    requires Errors(s, v, e) && |e| + 1 <= j < |s|
    ensures Conv(LocatorPoly(e), s, j) == 0
  {
    hide Eval, Exp, ProductPoly, Conv, LocatorPoly;
    LocatorVanishes(e);
    RootsRecurrence(LocatorPoly(e), s, v, e, j);
  }

  /** So the iteration ends with too long a row, or with a locator polynomial that has a zero coefficient. */
  lemma LateZeroLocator(s: seq<byte>, v: seq<byte>, e: seq<nat>, j: nat)
    requires Errors(s, v, e) && FirstZero(s, |v|, j)
    ensures var p := Locator(1, s); |p| - 1 > TT || (p == LocatorPoly(e) && |p| >= 2 && p[1] == 0)
  {
    hide Run, Pass, TableKeeps, Errors, Settled, NextRow, LocatorPoly;
    var t := Start(1, s);
    StartKeeps(1, s);
    StartShort(s, |v|);
    ErrorsSize(s, v, e);
    var t1 := RunReaches(s, v, e, t, j);
    FirstSettled(s, v, e, t1, j);
    RunOnce(s, t1, |v|);
    StaysOrFails(s, Pass(1, s, t1), LocatorPoly(e), |v|);
  }

  lemma ErrorsSize(s: seq<byte>, v: seq<byte>, e: seq<nat>)
    requires Errors(s, v, e)
    ensures |LocatorPoly(e)| == |v| + 1 <= TT + 1
  {
  }

  lemma StartShort(s: seq<byte>, n: nat)
    requires |s| == PARITY + 1
    ensures Short(Start(1, s), n)
  {
    assert Lead(Start(1, s), 0) == -1;
  }

  lemma RunOnce(s: seq<byte>, t: Table, n: nat)
    requires |s| == PARITY + 1 && Shape(t) && |t.rows| < PARITY + 2 && Short(t, n) && n <= TT
    ensures Run(1, s, t) == Run(1, s, Pass(1, s, t))
  {
    hide Pass;
  }

  /** Neither lets the word come out right. */
  lemma LateZeroFails(w: seq<byte>, err: seq<byte>, j: nat)
    requires |w| == |err| == NN && CodeWord(w) && 1 <= Weight(err) <= TT
    requires TT + Weight(err) <= j < PARITY && Eval(err, Exp(j)) == 0 && forall i :: 1 <= i < j ==> Eval(err, Exp(i)) != 0
    ensures Decode(1, AddPoly(w, err)) != Outcome(1, w)
  {
    hide Eval, Exp, ProductPoly, LocatorPoly, Corrected, Decode, Correct, AddPoly, CodeWord, Searched, RootList, RootsUpTo;
    hide Values, Locations, Locators, NoZeroFrom, Errors, Locator, Syndromes;
    var r := AddPoly(w, err);
    var s := Syndromes(r);
    ErrorsAreNoticed(w, err);
    LocationsAreLocators(err);
    var v, e := ReceivedErrors(w, err);
    LateZeroLocator(s, v, e, j);
    var p := Locator(1, s);
    if |p| - 1 > TT {
      TooLongFails(r, s);
    } else {
      DecodeBranch(1, r, s, p);
      if Decode(1, r) == Outcome(1, w) {
        var roots, z := CorrectSucceeds(p, s, r, w);
        LocatorVanishes(e);
        SearchedVanishes(p, z, roots, w, err, e);
        DeterminedByRoots(Searched(1, p), p, e);
        SearchedUnchanged(p);
        FirstNotZero(p);
      }
    }
  }

  lemma FirstNotZero(p: seq<byte>)
    requires |p| >= 2 && NoZeroFrom(p, 1)
    ensures p[1] != 0
  {
  }

  lemma TooLongFails(r: seq<byte>, s: seq<byte>)
    requires |r| == NN && !CodeWord(r) && s == Syndromes(r) && |Locator(1, s)| - 1 > TT
    ensures Decode(1, r) == Outcome(0, r)
  {
    hide CodeWord, Locator, Syndromes;
  }

  /** The first zero from position j on. */
  lemma FirstZeroFrom(err: seq<byte>, j: nat) returns (k: nat)
    requires |err| == NN && 1 <= j <= PARITY && !SyndromesSet(err)
    requires forall i :: 1 <= i < j ==> Eval(err, Exp(i)) != 0
    ensures j <= k < PARITY && Eval(err, Exp(k)) == 0 && forall i :: 1 <= i < k ==> Eval(err, Exp(i)) != 0
    decreases PARITY - j
  {
    hide Eval, Exp;
    if j < PARITY && Eval(err, Exp(j)) == 0 {
      k := j;
    } else {
      k := FirstZeroFrom(err, j + 1);
    }
  }

  /** The exact law of the code as written, for up to 16 errors whose first 15 + n syndromes are not zero, n
      being their number: they are corrected if and only if no later one of the first 31 syndromes, no
      coefficient of the locator polynomial and none of the evaluator polynomial is zero either. */
  lemma ExactLaw(w: seq<byte>, err: seq<byte>)
    requires |w| == |err| == NN && CodeWord(w) && 1 <= Weight(err) <= TT
    requires forall i :: 1 <= i < TT + Weight(err) ==> Eval(err, Exp(i)) != 0
    ensures Decode(1, AddPoly(w, err)) == Outcome(1, w) <==> NothingMisread(err)
  {
    hide Decode, AddPoly, CodeWord, Eval, Exp, Locations, Values, LocatorPoly, EvaluatorPoly, Locators;
    if SyndromesSet(err) {
      CorrectsExactly(w, err);
    } else {
      var j := FirstZeroFrom(err, TT + Weight(err));
      LateZeroFails(w, err, j);
    }
  }
}
