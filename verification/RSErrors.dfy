/** Error patterns: where a received word differs from a code word, the polynomials that describe
    it, and the roots and error values that RS_Decode finds for it. */
module RSErrors {
  import opened Bytes
  import opened GF256
  import opened Field
  import opened Poly
  import opened PowerSums
  import opened RSCode
  import opened RSDecoder

  // ---------- locations and values of an error pattern ----------

  /** The positions NN-n..NN-1 at which err is not zero, from the last down. */
  function Locations(err: seq<byte>, n: nat): (e: seq<nat>)
    requires |err| == NN && n <= NN
    ensures forall k :: 0 <= k < |e| ==> NN - n <= e[k] < NN && err[e[k]] != 0
    ensures forall j, k :: 0 <= j < k < |e| ==> e[j] > e[k]
    ensures forall p :: NN - n <= p < NN && err[p] != 0 ==> p in e
  {
    if n == 0 then [] else Locations(err, n - 1) + (if err[NN - n] != 0 then [NN - n] else [])
  }

  function Values(err: seq<byte>, n: nat): (v: seq<byte>)
    requires |err| == NN && n <= NN
    ensures |v| == |Locations(err, n)|
    ensures forall k :: 0 <= k < |v| ==> v[k] == err[Locations(err, n)[k]]
  {
    if n == 0 then [] else Values(err, n - 1) + (if err[NN - n] != 0 then [err[NN - n]] else [])
  }

  /** The number of symbols in error. */
  function Weight(err: seq<byte>): nat
    requires |err| == NN
  {
    |Locations(err, NN)|
  }

  lemma {:induction false} PowerSumSnoc(c: seq<byte>, e: seq<nat>, x: byte, y: nat, j: nat)
    requires |c| == |e|
    ensures PowerSum(c + [x], e + [y], j) == Add(PowerSum(c, e, j), Mul(x, Power(y, j)))
  {
    hide Add, Mul, Power;
    AddLaws(0, Mul(x, Power(y, j)));
    if c == [] {
      assert ([x])[1..] == [] && ([y])[1..] == [];
    } else {
      PowerSumSnoc(c[1..], e[1..], x, y, j);
      assert (c + [x])[1..] == c[1..] + [x] && (e + [y])[1..] == e[1..] + [y];
      AddAssoc(Mul(c[0], Power(e[0], j)), PowerSum(c[1..], e[1..], j), Mul(x, Power(y, j)));
    }
  }

  lemma PowerNext(p: nat, j: nat)
    ensures Mul(Power(p, j), Exp(j)) == Power(p + 1, j)
  {
    hide Mul, Exp;
    MulExp(p * j, j);
    assert p * j + j == (p + 1) * j;
  }

  /** X^p (c + X t) == X^(p+1) t + c X^p. */
  lemma HornerShift(c: byte, t: byte, p: nat, j: nat)
    ensures Mul(Power(p, j), Add(c, Mul(Exp(j), t))) == Add(Mul(Power(p + 1, j), t), Mul(c, Power(p, j)))
  {
    hide Add, Mul, Exp, Power;
    MulDistrib(c, Mul(Exp(j), t), Power(p, j));
    MulAssoc(Power(p, j), Exp(j), t);
    PowerNext(p, j);
    MulComm(c, Power(p, j));
    AddLaws(Mul(Power(p, j), c), Mul(Power(p + 1, j), t));
  }

  lemma SumStep(err: seq<byte>, n: nat, j: nat)
    requires |err| == NN && n <= NN
    ensures n == 0 ==> PowerSum(Values(err, n), Locations(err, n), j) == 0
    ensures n > 0 && err[NN - n] == 0 ==> Values(err, n) == Values(err, n - 1) && Locations(err, n) == Locations(err, n - 1)
    ensures n > 0 && err[NN - n] != 0 ==>
      Values(err, n) == Values(err, n - 1) + [err[NN - n]] && Locations(err, n) == Locations(err, n - 1) + [NN - n]
  {
    hide Add, Mul, Exp, Power;
  }

  /** The locations and values give the value of the error polynomial at each power of alpha. */
  lemma {:induction false} PowerSumOfErrors(err: seq<byte>, n: nat, j: nat)
    requires |err| == NN && n <= NN
    ensures PowerSum(Values(err, n), Locations(err, n), j) == Mul(Power(NN - n, j), Eval(err[NN - n..], Exp(j)))
  {
    hide Add, Mul, Exp, Power, Locations, Values, PowerSum;
    SumStep(err, n, j);
    if n == 0 {
      assert err[NN..] == [];
      MulLaws(Power(NN, j), 0);
    } else {
      var p := NN - n;
      PowerSumOfErrors(err, n - 1, j);
      var t := Eval(err[p + 1..], Exp(j));
      assert err[p..][1..] == err[p + 1..];
      HornerShift(err[p], t, p, j);
      if err[p] != 0 {
        PowerSumSnoc(Values(err, n - 1), Locations(err, n - 1), err[p], p, j);
      } else {
        MulLaws(0, Power(p, j));
        AddLaws(Mul(Power(p + 1, j), t), 0);
      }
    }
  }

  /** The syndromes of a corrupted code word are those of the error pattern. */
  lemma SyndromesOfErrors(w: seq<byte>, err: seq<byte>, i: nat)
    requires |w| == |err| == NN && CodeWord(w) && 1 <= i <= PARITY
    ensures Eval(AddPoly(w, err), Exp(i)) == PowerSum(Values(err, NN), Locations(err, NN), i) == Eval(err, Exp(i))
  {
    hide Add, Mul, Exp, Power;
    EvalAddPoly(w, err, Exp(i));
    AddLaws(0, Eval(err, Exp(i)));
    PowerSumOfErrors(err, NN, i);
    assert err[0..] == err;
    PowerZero(i);
    MulLaws(1, Eval(err, Exp(i)));
  }

  lemma PowerZero(j: nat)
    ensures Power(0, j) == 1
  {
    assert 0 * j == 0;
  }

  // ---------- the polynomials of an error pattern ----------

  /** p(X) * (1 + x X). */
  function MulOnePlus(p: seq<byte>, x: byte): (q: seq<byte>)
    ensures |q| == |p| + 1
  {
    AddPoly(p + [0], [0] + Scale(x, p))
  }

  lemma EvalMulOnePlus(p: seq<byte>, x: byte, y: byte)
    ensures Eval(MulOnePlus(p, x), y) == Mul(Eval(p, y), Add(1, Mul(x, y)))
    ensures p != [] ==> MulOnePlus(p, x)[0] == p[0]
  {
    hide Add, Mul;
    var v := Eval(p, y);
    EvalAddPoly(p + [0], [0] + Scale(x, p), y);
    EvalPadded(p, [0], y);
    EvalShift(Scale(x, p), y);
    EvalScale(x, p, y);
    MulAssoc(y, x, v);
    MulComm(x, y);
    MulComm(v, Mul(y, x));
    MulDistrib(1, Mul(x, y), v);
    MulLaws(v, 1);
    if p != [] {
      AddLaws(p[0], 0);
    }
  }

  /** The product of 1 + X_j X over the locators j < n other than skip. */
  function ProductPoly(e: seq<nat>, skip: int, n: nat): (p: seq<byte>)
    requires n <= |e|
    ensures |p| == n + 1 - (if 0 <= skip < n then 1 else 0)
  {
    if n == 0 then [1]
    else if n - 1 == skip then ProductPoly(e, skip, n - 1)
    else MulOnePlus(ProductPoly(e, skip, n - 1), Exp(e[n - 1]))
  }

  /** The error locator polynomial. */
  function LocatorPoly(e: seq<nat>): (p: seq<byte>)
    ensures |p| == |e| + 1
  {
    ProductPoly(e, -1, |e|)
  }

  lemma {:induction false} ProductPolyConstant(e: seq<nat>, skip: int, n: nat)
    requires n <= |e|
    ensures ProductPoly(e, skip, n)[0] == 1
  {
    hide Add, Mul, Exp;
    if n > 0 {
      ProductPolyConstant(e, skip, n - 1);
      EvalMulOnePlus(ProductPoly(e, skip, n - 1), Exp(e[n - 1]), 0);
    }
  }

  /** The inverse of each locator in the product is a root of it. */
  lemma {:induction false} ProductPolyRoot(e: seq<nat>, skip: int, n: nat, k: nat)
    requires n <= |e| && k < n && k != skip && e[k] < NN
    ensures Eval(ProductPoly(e, skip, n), Exp(NN - e[k])) == 0
  {
    hide Add, Mul, Exp;
    var y := Exp(NN - e[k]);
    if n - 1 == skip {
      ProductPolyRoot(e, skip, n - 1, k);
    } else {
      var p := ProductPoly(e, skip, n - 1);
      EvalMulOnePlus(p, Exp(e[n - 1]), y);
      MulNonZero(Eval(p, y), Add(1, Mul(Exp(e[n - 1]), y)));
      if k == n - 1 {
        ExpInverse(e[k], NN - e[k]);
        AddLaws(1, 1);
      } else {
        ProductPolyRoot(e, skip, n - 1, k);
      }
    }
  }

  /** The inverse locators, as points. */
  function InversePoints(e: seq<nat>): (y: seq<byte>)
    requires Locators(e)
    ensures |y| == |e| && forall k :: 0 <= k < |e| ==> y[k] == Exp(NN - e[k])
  {
    seq(|e|, k requires 0 <= k < |e| => Exp(NN - e[k]))
  }

  lemma InversePointsDistinct(e: seq<nat>, i: nat, j: nat)
    requires Locators(e) && i < j < |e|
    ensures Exp(NN - e[i]) != Exp(NN - e[j])
  {
    ExpDistinct(NN - e[i], NN - e[j]);
  }

  /** Distinct exponents from 1 to 255 give distinct non-zero points. */
  lemma ExpDistinct(a: nat, b: nat)
    requires 1 <= a <= NN && 1 <= b <= NN && a != b
    ensures Exp(a) != Exp(b) && Exp(a) != 0
  {
    hide Exp;
    ExpNonZero(a);
    ExpCycle(a);
    ExpCycle(b);
    var x, y := a % NN, b % NN;
    if x < y {
      ExpInjective(x, y);
    } else {
      ExpInjective(y, x);
    }
  }

  lemma PointsDistinct(e: seq<nat>, points: seq<byte>)
    requires Locators(e) && points == [0] + InversePoints(e)
    ensures Distinct(points)
  {
    hide Exp;
    forall i, j | 0 <= i < j < |points|
      ensures points[i] != points[j]
    {
      if i == 0 {
        ExpNonZero(NN - e[j - 1]);
      } else {
        InversePointsDistinct(e, i - 1, j - 1);
      }
    }
  }

  /** A polynomial with constant term c, one coefficient per locator and one more, that vanishes at
      the inverse of every locator, is determined by c. */
  lemma DeterminedByRoots(p: seq<byte>, q: seq<byte>, e: seq<nat>)
    requires Locators(e) && |p| == |q| == |e| + 1 && p[0] == q[0]
    requires forall k :: 0 <= k < |e| ==> Eval(p, Exp(NN - e[k])) == Eval(q, Exp(NN - e[k]))
    ensures p == q
  {
    hide Add, Exp, Eval, AddPoly, AllZero, Distinct;
    var points := [0] + InversePoints(e);
    PointsDistinct(e, points);
    SumIsZero(p, q);
    EvalAtZero(p);
    EvalAtZero(q);
    forall k | 0 <= k < |points|
      ensures Eval(p, points[k]) == Eval(q, points[k])
    {
      if k > 0 {
        assert points[k] == Exp(NN - e[k - 1]);
      }
    }
    RootsForceZero(AddPoly(p, q), points);
  }

  // ---------- the roots found by the search ----------

  /** A polynomial with constant term 1 has at most as many roots as its degree. */
  lemma RootBound(p: seq<byte>, n: nat)
    requires p != [] && p[0] == 1 && n <= NN
    ensures |RootsUpTo(p, n)| <= |p| - 1
  {
    var roots := RootsUpTo(p, n);
    if |roots| > |p| - 1 {
      var points := seq(|p|, k requires 0 <= k < |p| => Exp(roots[k]));
      forall i, j | 0 <= i < j < |points|
        ensures points[i] != points[j]
      {
        hide Exp;
        ExpDistinct(roots[i], roots[j]);
      }
      RootsForceZero(p, points);
    }
  }

  /** p vanishes at the inverse of every locator. */
  ghost predicate VanishesAt(p: seq<byte>, e: seq<nat>)
    requires Locators(e)
  {
    forall k :: 0 <= k < |e| ==> Eval(p, Exp(NN - e[k])) == 0
  }

  /** Too short a polynomial cannot vanish at all the inverse locators. */
  lemma TooShort(p: seq<byte>, e: seq<nat>)
    requires Locators(e) && 1 <= |p| <= |e| && p[0] == 1
    ensures !VanishesAt(p, e)
  {
    if VanishesAt(p, e) {
      var points := InversePoints(e)[..|p|];
      forall a, b | 0 <= a < b < |points|
        ensures points[a] != points[b]
      {
        hide Exp;
        InversePointsDistinct(e, a, b);
      }
      RootsForceZero(p, points);
    }
  }

  lemma LocatorsSnoc(e: seq<nat>, x: nat) returns (e': seq<nat>)
    requires Locators(e) && x < NN && x !in e
    ensures e' == e + [x] && Locators(e')
  {
    e' := e + [x];
  }

  lemma LocationsAreLocators(err: seq<byte>)
    requires |err| == NN
    ensures Locators(Locations(err, NN))
  {
  }

  lemma NoOtherRoot(p: seq<byte>, e: seq<nat>, i: nat)
    requires Locators(e) && 1 <= |p| <= |e| + 1 && p[0] == 1 && VanishesAt(p, e)
    requires 1 <= i <= NN && NN - i !in e
    ensures Eval(p, Exp(i)) != 0
  {
    hide Exp, Eval;
    var e' := LocatorsSnoc(e, NN - i);
    if Eval(p, Exp(i)) == 0 {
      forall k | 0 <= k < |e'|
        ensures Eval(p, Exp(NN - e'[k])) == 0
      {
        if k < |e| {
          assert Eval(p, Exp(NN - e[k])) == 0;
        } else {
          assert NN - e'[k] == i;
        }
      }
      TooShort(p, e');
    }
  }

  /** Exactly the inverse locators are roots of a short enough polynomial that vanishes there. */
  lemma RootsExactly(p: seq<byte>, err: seq<byte>, e: seq<nat>, i: nat)
    requires |err| == NN && 1 <= i <= NN && e == Locations(err, NN) && Locators(e)
    requires 1 <= |p| <= |e| + 1 && p[0] == 1 && VanishesAt(p, e)
    ensures Eval(p, Exp(i)) == 0 <==> err[NN - i] != 0
  {
    hide Exp, Eval, Locations;
    if err[NN - i] != 0 {
      var k :| 0 <= k < |e| && e[k] == NN - i;
      assert Eval(p, Exp(NN - e[k])) == 0 && NN - e[k] == i;
    } else {
      NoOtherRoot(p, e, i);
    }
  }

  lemma FullDegree(p: seq<byte>, e: seq<nat>)
    requires Locators(e) && 1 <= |p| <= |e| + 1 && p[0] == 1 && VanishesAt(p, e)
    ensures p == LocatorPoly(e)
  {
    if |p| <= |e| {
      TooShort(p, e);
    }
    forall k | 0 <= k < |e|
      ensures Eval(LocatorPoly(e), Exp(NN - e[k])) == 0
    {
      ProductPolyRoot(e, -1, |e|, k);
    }
    ProductPolyConstant(e, -1, |e|);
    DeterminedByRoots(p, LocatorPoly(e), e);
  }

  lemma MapConcat(r: seq<nat>, a: seq<nat>, e: seq<nat>, b: seq<nat>)
    requires |r| == |e| && |a| == |b|
    requires forall k :: 0 <= k < |e| ==> r[k] == NN - e[k]
    requires forall k :: 0 <= k < |b| ==> a[k] == NN - b[k]
    ensures forall k :: 0 <= k < |e + b| ==> (r + a)[k] == NN - (e + b)[k]
  {
  }

  lemma RootsAndLocations(p: seq<byte>, err: seq<byte>, n: nat)
    requires |err| == NN && n <= NN
    ensures n == 0 ==> RootsUpTo(p, n) == [] && Locations(err, n) == []
    ensures n > 0 ==>
      && RootsUpTo(p, n) == RootsUpTo(p, n - 1) + (if Eval(p, Exp(n)) == 0 then [n] else [])
      && Locations(err, n) == Locations(err, n - 1) + (if err[NN - n] != 0 then [NN - n] else [])
  {
    hide Exp, Eval;
  }

  /** The search lists the inverse locators, in the order of Locations. */
  lemma {:induction false} RootsAreLocations(p: seq<byte>, err: seq<byte>, n: nat)
    requires |err| == NN && n <= NN
    requires forall i :: 1 <= i <= NN ==> (Eval(p, Exp(i)) == 0 <==> err[NN - i] != 0)
    ensures var roots, e := RootsUpTo(p, n), Locations(err, n);
      |roots| == |e| && forall k :: 0 <= k < |e| ==> roots[k] == NN - e[k]
  {
    hide Exp, Eval, RootsUpTo, Locations;
    RootsAndLocations(p, err, n);
    if n > 0 {
      RootsAreLocations(p, err, n - 1);
      var r, f := RootsUpTo(p, n - 1), Locations(err, n - 1);
      var a := if err[NN - n] != 0 then [n] else [];
      var b := if err[NN - n] != 0 then [NN - n] else [];
      assert Eval(p, Exp(n)) == 0 <==> err[NN - n] != 0;
      assert RootsUpTo(p, n) == r + a && Locations(err, n) == f + b;
      MapConcat(r, a, f, b);
    }
  }
}
