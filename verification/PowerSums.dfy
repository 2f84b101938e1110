/** Sums of powers c_0 X_0^j + ... + c_n X_n^j at distinct locators X_k = alpha^e_k: the form every
    syndrome sequence has, and the form a locator polynomial keeps it in. */
module PowerSums {
  import opened Bytes
  import opened GF256
  import opened Field
  import opened Poly

  /** The power X^j of the locator X = alpha^e. */
  function Power(e: nat, j: nat): byte {
    Exp(e * j)
  }

  lemma PowerStep(e: nat, j: nat)
    ensures Mul(Exp(e), Power(e, j)) == Power(e, j + 1)
    ensures Power(e, 0) == 1 && Power(e, 1) == Exp(e)
  {
    hide Mul, Exp;
    ExpStep(e, j);
    ExpSmall(e * 0);
    assert e * 1 == e && e * 0 == 0;
  }

  lemma PowerNonZero(e: nat, j: nat)
    ensures Power(e, j) != 0
  {
    ExpNonZero(e * j);
  }

  function PowerSum(c: seq<byte>, e: seq<nat>, j: nat): byte
    requires |c| == |e|
  {
    if c == [] then 0 else Add(Mul(c[0], Power(e[0], j)), PowerSum(c[1..], e[1..], j))
  }

  /** Locators are the powers with different exponents below 255. */
  predicate Locators(e: seq<nat>) {
    && (forall k :: 0 <= k < |e| ==> e[k] < 255)
    && (forall i, k :: 0 <= i < k < |e| ==> e[i] != e[k])
  }

  /** c_k * (X_k + x): the coefficients after the elimination of the locator x. */
  function Eliminate(c: seq<byte>, e: seq<nat>, x: byte): (d: seq<byte>)
    requires |c| == |e|
    ensures |d| == |c|
  {
    if c == [] then [] else [Mul(c[0], Add(Exp(e[0]), x))] + Eliminate(c[1..], e[1..], x)
  }

  lemma {:induction false} EliminateAt(c: seq<byte>, e: seq<nat>, x: byte, k: nat)
    requires k < |c| == |e|
    ensures Eliminate(c, e, x)[k] == Mul(c[k], Add(Exp(e[k]), x))
  {
    hide Add, Mul, Exp, Power;
    if k > 0 {
      EliminateAt(c[1..], e[1..], x, k - 1);
    }
  }

  /** One locator's share: (c (X + x)) X^j == c X^(j+1) + x (c X^j). */
  lemma EliminateTerm(c: byte, e: nat, x: byte, j: nat)
    ensures Mul(Mul(c, Add(Exp(e), x)), Power(e, j)) == Add(Mul(c, Power(e, j + 1)), Mul(x, Mul(c, Power(e, j))))
  {
    hide Add, Mul, Exp, Power;
    var v, w := Exp(e), Power(e, j);
    PowerStep(e, j);
    MulDistrib(v, x, c);
    MulDistrib(Mul(c, v), Mul(c, x), w);
    MulAssoc(c, v, w);
    MulComm(c, x);
    MulAssoc(x, c, w);
  }

  lemma {:induction false} EliminateSum(c: seq<byte>, e: seq<nat>, x: byte, j: nat)
    requires |c| == |e|
    ensures PowerSum(Eliminate(c, e, x), e, j) == Add(PowerSum(c, e, j + 1), Mul(x, PowerSum(c, e, j)))
  {
    hide Add, Mul, Exp, Power;
    if c == [] {
      MulLaws(x, 0);
      AddLaws(0, 0);
    } else {
      var c1, e1 := c[1..], e[1..];
      EliminateSum(c1, e1, x, j);
      assert Eliminate(c, e, x)[1..] == Eliminate(c1, e1, x);
      EliminateTerm(c[0], e[0], x, j);
      var t, t1 := Mul(c[0], Power(e[0], j)), Mul(c[0], Power(e[0], j + 1));
      MulDistrib(t, PowerSum(c1, e1, j), x);
      AddSwap(t1, Mul(x, t), PowerSum(c1, e1, j + 1), Mul(x, PowerSum(c1, e1, j)));
    }
  }

  lemma {:induction false} PowerSumZero(c: seq<byte>, e: seq<nat>, j: nat)
    requires |c| == |e| && AllZero(c)
    ensures PowerSum(c, e, j) == 0
  {
    hide Add, Mul, Exp, Power;
    if c != [] {
      PowerSumZero(c[1..], e[1..], j);
      MulLaws(0, Power(e[0], j));
      AddLaws(0, 0);
    }
  }

  /** The first coefficient is eliminated by its own locator. */
  lemma EliminateFirst(c: seq<byte>, e: seq<nat>, j: nat)
    requires |c| == |e| > 0
    ensures PowerSum(Eliminate(c, e, Exp(e[0])), e, j)
         == PowerSum(Eliminate(c[1..], e[1..], Exp(e[0])), e[1..], j)
  {
    hide Add, Mul, Exp, Power;
    var d := Eliminate(c[1..], e[1..], Exp(e[0]));
    assert Eliminate(c, e, Exp(e[0]))[1..] == d;
    AddLaws(Exp(e[0]), Exp(e[0]));
    MulLaws(c[0], 0);
    MulLaws(0, Power(e[0], j));
    AddLaws(0, PowerSum(d, e[1..], j));
  }

  lemma SumWithZeroTail(c: seq<byte>, e: seq<nat>, j: nat)
    requires |c| == |e| > 0 && AllZero(c[1..]) && PowerSum(c, e, j) == 0
    ensures AllZero(c)
  {
    hide Add, Mul, Exp, Power;
    PowerSumZero(c[1..], e[1..], j);
    AddLaws(Mul(c[0], Power(e[0], j)), 0);
    MulNonZero(c[0], Power(e[0], j));
    PowerNonZero(e[0], j);
    forall k | 0 <= k < |c|
      ensures c[k] == 0
    {
      if k > 0 {
        assert c[k] == c[1..][k - 1];
      }
    }
  }

  lemma EliminatedZero(c: seq<byte>, e: seq<nat>)
    requires |c| == |e| > 0 && Locators(e)
    requires AllZero(Eliminate(c[1..], e[1..], Exp(e[0])))
    ensures AllZero(c[1..])
  {
    var c1, e1, x := c[1..], e[1..], Exp(e[0]);
    forall k | 0 <= k < |c1|
      ensures c1[k] == 0
    {
      hide Add, Mul, Exp, Power;
      EliminateAt(c1, e1, x, k);
      MulNonZero(c1[k], Add(Exp(e1[k]), x));
      AddCancel(Exp(e1[k]), x);
      if e1[k] < e[0] {
        ExpInjective(e1[k], e[0]);
      } else {
        ExpInjective(e[0], e1[k]);
      }
    }
  }

  /** As many consecutive vanishing sums as there are locators leave no coefficient. */
  lemma {:induction false} Vandermonde(c: seq<byte>, e: seq<nat>, a: nat)
    requires |c| == |e| && Locators(e)
    requires forall j :: a <= j < a + |c| ==> PowerSum(c, e, j) == 0
    ensures AllZero(c)
    decreases |c|
  {
    if c != [] {
      hide Add, Mul, Exp, Power;
      var x := Exp(e[0]);
      var d := Eliminate(c[1..], e[1..], x);
      forall j | a <= j < a + |d|
        ensures PowerSum(d, e[1..], j) == 0
      {
        EliminateFirst(c, e, j);
        EliminateSum(c, e, x, j);
        assert PowerSum(c, e, j) == 0 && PowerSum(c, e, j + 1) == 0;
        MulLaws(x, 0);
        AddLaws(0, 0);
      }
      Vandermonde(d, e[1..], a);
      EliminatedZero(c, e);
      assert PowerSum(c, e, a) == 0;
      SumWithZeroTail(c, e, a);
    }
  }

  // ---------- a sequence of power sums against a polynomial ----------

  /** s_j p_0 + s_(j-1) p_1 + ...: the discrepancy of p at position j of the sequence s. */
  function Conv(p: seq<byte>, s: seq<byte>, j: int): byte
    requires |p| - 1 <= j < |s|
    decreases |p|
  {
    if p == [] then 0 else Add(Mul(p[0], s[j]), Conv(p[1..], s, j - 1))
  }

  /** s is the syndrome sequence of errors of value v_k at exponent e_k. */
  ghost predicate SumsOf(s: seq<byte>, v: seq<byte>, e: seq<nat>)
    requires |v| == |e|
  {
    forall j :: 1 <= j < |s| ==> s[j] == PowerSum(v, e, j)
  }

  /** v_k * p(1 / X_k). */
  function AtInverses(p: seq<byte>, v: seq<byte>, e: seq<nat>): (c: seq<byte>)
    requires |v| == |e| && Locators(e)
    ensures |c| == |v|
    ensures forall k :: 0 <= k < |c| ==> c[k] == Mul(v[k], Eval(p, Exp(255 - e[k])))
  {
    seq(|v|, k requires 0 <= k < |v| => Mul(v[k], Eval(p, Exp(255 - e[k]))))
  }

  /** X^j / X == X^(j-1). */
  lemma InversePower(e: nat, j: nat)
    requires e < 255 && j > 0
    ensures Mul(Exp(255 - e), Power(e, j)) == Power(e, j - 1)
  {
    hide Mul, Exp, Power;
    var y, w := Exp(255 - e), Power(e, j - 1);
    PowerStep(e, j - 1);
    MulAssoc(y, Exp(e), w);
    ExpInverse(255 - e, e);
    MulLaws(1, w);
  }

  /** One locator's share of the recursion of ConvSum. */
  lemma AtInverseTerm(v: byte, p0: byte, r: byte, e: nat, j: nat)
    requires e < 255 && j > 0
    ensures Mul(Mul(v, Add(p0, Mul(Exp(255 - e), r))), Power(e, j))
         == Add(Mul(p0, Mul(v, Power(e, j))), Mul(Mul(v, r), Power(e, j - 1)))
  {
    hide Add, Mul, Exp, Power;
    var y, w := Exp(255 - e), Power(e, j);
    MulDistrib(p0, Mul(y, r), v);
    MulDistrib(Mul(v, p0), Mul(v, Mul(y, r)), w);
    MulComm(v, p0);
    MulAssoc(p0, v, w);
    MulComm(y, r);
    MulAssoc(v, r, y);
    MulAssoc(Mul(v, r), y, w);
    InversePower(e, j);
  }

  lemma {:induction false} AtInversesSum(p: seq<byte>, v: seq<byte>, e: seq<nat>, j: nat)
    requires |v| == |e| && Locators(e) && p != [] && j > 0
    ensures PowerSum(AtInverses(p, v, e), e, j)
         == Add(Mul(p[0], PowerSum(v, e, j)), PowerSum(AtInverses(p[1..], v, e), e, j - 1))
    decreases |v|
  {
    hide Add, Mul, Exp, Power;
    if v == [] {
      MulLaws(p[0], 0);
      AddLaws(0, 0);
    } else {
      var v1, e1 := v[1..], e[1..];
      AtInversesSum(p, v1, e1, j);
      assert AtInverses(p, v, e)[1..] == AtInverses(p, v1, e1);
      assert AtInverses(p[1..], v, e)[1..] == AtInverses(p[1..], v1, e1);
      AtInverseTerm(v[0], p[0], Eval(p[1..], Exp(255 - e[0])), e[0], j);
      var t := Mul(v[0], Power(e[0], j));
      MulDistrib(t, PowerSum(v1, e1, j), p[0]);
      AddSwap(Mul(p[0], t), Mul(AtInverses(p[1..], v, e)[0], Power(e[0], j - 1)),
              Mul(p[0], PowerSum(v1, e1, j)), PowerSum(AtInverses(p[1..], v1, e1), e1, j - 1));
    }
  }

  /** The discrepancy of p is a sum of powers too, weighted by the values of p at the inverse locators. */
  lemma {:induction false} ConvSum(p: seq<byte>, s: seq<byte>, v: seq<byte>, e: seq<nat>, j: nat)
    requires |v| == |e| && Locators(e) && SumsOf(s, v, e)
    requires |p| <= j < |s|
    ensures Conv(p, s, j) == PowerSum(AtInverses(p, v, e), e, j)
    decreases |p|
  {
    hide Add, Mul, Exp, Power;
    if p == [] {
      ConvSumEmpty(v, e, j);
    } else {
      if |p| > 1 {
        ConvSum(p[1..], s, v, e, j - 1);
      } else {
        ConvSumEmpty(v, e, j - 1);
        assert p[1..] == [];
      }
      AtInversesSum(p, v, e, j);
    }
  }

  lemma ConvSumEmpty(v: seq<byte>, e: seq<nat>, j: nat)
    requires |v| == |e| && Locators(e)
    ensures PowerSum(AtInverses([], v, e), e, j) == 0
  {
    hide Add, Mul, Exp, Power;
    forall k | 0 <= k < |v|
      ensures AtInverses([], v, e)[k] == 0
    {
      MulLaws(v[k], 0);
    }
    PowerSumZero(AtInverses([], v, e), e, j);
  }

  /** A polynomial that keeps the recurrence over as many positions as there are errors has a root
      at the inverse of every locator. */
  lemma RecurrenceRoots(p: seq<byte>, s: seq<byte>, v: seq<byte>, e: seq<nat>, a: nat)
    requires |v| == |e| && Locators(e) && SumsOf(s, v, e)
    requires |p| <= a && a + |v| <= |s|
    requires forall j :: a <= j < a + |v| ==> Conv(p, s, j) == 0
    requires forall k :: 0 <= k < |v| ==> v[k] != 0
    ensures forall k :: 0 <= k < |v| ==> Eval(p, Exp(255 - e[k])) == 0
  {
    var c := AtInverses(p, v, e);
    forall j | a <= j < a + |c|
      ensures PowerSum(c, e, j) == 0
    {
      assert Conv(p, s, j) == 0;
      ConvSum(p, s, v, e, j);
    }
    Vandermonde(c, e, a);
    forall k | 0 <= k < |v|
      ensures Eval(p, Exp(255 - e[k])) == 0
    {
      hide Add, Mul, Exp, Power;
      assert c[k] == 0;
      MulNonZero(v[k], Eval(p, Exp(255 - e[k])));
    }
  }

  /** The converse: roots at the inverse locators make every discrepancy vanish. */
  lemma RootsRecurrence(p: seq<byte>, s: seq<byte>, v: seq<byte>, e: seq<nat>, j: nat)
    requires |v| == |e| && Locators(e) && SumsOf(s, v, e)
    requires |p| <= j < |s|
    requires forall k :: 0 <= k < |v| ==> Eval(p, Exp(255 - e[k])) == 0
    ensures Conv(p, s, j) == 0
  {
    var c := AtInverses(p, v, e);
    ConvSum(p, s, v, e, j);
    forall k | 0 <= k < |c|
      ensures c[k] == 0
    {
      hide Add, Mul, Exp, Power;
      MulLaws(v[k], 0);
    }
    PowerSumZero(c, e, j);
  }
}
