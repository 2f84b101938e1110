/** Polynomials over GF(2^8), lowest coefficient first, and sums of powers: what an evaluation at
    too many points, or at too many powers, says about the coefficients. */
module Poly {
  import opened Bytes
  import opened GF256
  import opened Field

  /** p(x), by Horner's rule. */
  function Eval(p: seq<byte>, x: byte): byte {
    if p == [] then 0 else Add(p[0], Mul(x, Eval(p[1..], x)))
  }

  /** a + b == c + d, from a == c + t and b == d + t. */
  lemma AddShared(a: byte, b: byte, c: byte, d: byte, t: byte)
    requires a == Add(c, t) && b == Add(d, t)
    ensures Add(a, b) == Add(c, d)
  {
    hide Add;
    AddSwap(c, t, d, t);
    AddLaws(t, t);
    AddLaws(Add(c, d), 0);
  }

  lemma ExpStep(i: nat, n: nat)
    ensures Mul(Exp(i), Exp(i * n)) == Exp(i * (n + 1))
    ensures Exp(i * 0) == 1
  {
    hide Mul, Exp;
    MulExp(i, i * n);
    ExpSmall(i * 0);
    assert i + i * n == i * (n + 1);
  }

  lemma {:induction false} EvalConcat(p: seq<byte>, q: seq<byte>, i: nat)
    ensures Eval(p + q, Exp(i)) == Add(Eval(p, Exp(i)), Mul(Exp(i * |p|), Eval(q, Exp(i))))
  {
    hide Add, Mul, Exp;
    var x, v := Exp(i), Eval(q, Exp(i));
    if p == [] {
      assert p + q == q;
      ExpStep(i, 0);
      MulLaws(1, v);
      AddLaws(0, v);
    } else {
      var t := p[1..];
      EvalConcat(t, q, i);
      assert (p + q)[1..] == t + q && (p + q)[0] == p[0] && |t| + 1 == |p|;
      ExpStep(i, |t|);
      var e := Exp(i * |t|);
      MulDistrib(Eval(t, x), Mul(e, v), x);
      MulAssoc(x, e, v);
      AddAssoc(p[0], Mul(x, Eval(t, x)), Mul(x, Mul(e, v)));
    }
  }

  lemma EvalConst(c: byte, x: byte)
    ensures Eval([c], x) == c
  {
    hide Add, Mul;
    assert [c][1..] == [];
    MulLaws(x, 0);
    AddLaws(c, 0);
  }

  /** One more coefficient adds one more term: the code's way of summing a syndrome. */
  lemma EvalSnoc(p: seq<byte>, c: byte, i: nat)
    ensures Eval(p + [c], Exp(i)) == Add(Eval(p, Exp(i)), Mul(c, Exp(i * |p|)))
  {
    hide Add, Mul, Exp;
    EvalConcat(p, [c], i);
    EvalConst(c, Exp(i));
    MulLaws(Exp(i * |p|), c);
  }

  function AddPoly(p: seq<byte>, q: seq<byte>): (r: seq<byte>)
    requires |p| == |q|
    ensures |r| == |p|
  {
    seq(|p|, k requires 0 <= k < |p| => Add(p[k], q[k]))
  }

  lemma {:induction false} EvalAddPoly(p: seq<byte>, q: seq<byte>, x: byte)
    requires |p| == |q|
    ensures Eval(AddPoly(p, q), x) == Add(Eval(p, x), Eval(q, x))
  {
    hide Add, Mul;
    AddLaws(0, 0);
    if p != [] {
      EvalAddPoly(p[1..], q[1..], x);
      assert AddPoly(p, q)[1..] == AddPoly(p[1..], q[1..]);
      MulDistrib(Eval(p[1..], x), Eval(q[1..], x), x);
      AddSwap(p[0], q[0], Mul(x, Eval(p[1..], x)), Mul(x, Eval(q[1..], x)));
    }
  }

  predicate AllZero(p: seq<byte>) {
    forall k :: 0 <= k < |p| ==> p[k] == 0
  }

  lemma {:induction false} EvalZero(p: seq<byte>, x: byte)
    requires AllZero(p)
    ensures Eval(p, x) == 0
  {
    hide Add, Mul;
    if p != [] {
      EvalZero(p[1..], x);
      MulLaws(x, 0);
      AddLaws(0, 0);
    }
  }

  /** The constant coefficient is the value at zero. */
  lemma EvalAtZero(p: seq<byte>)
    ensures Eval(p, 0) == if p == [] then 0 else p[0]
  {
    if p != [] {
      MulLaws(0, Eval(p[1..], 0));
      AddLaws(p[0], 0);
    }
  }

  /** Two polynomials agree where their sum is zero. */
  lemma SumIsZero(p: seq<byte>, q: seq<byte>)
    requires |p| == |q|
    ensures AllZero(AddPoly(p, q)) ==> p == q
    ensures forall x :: Eval(p, x) == Eval(q, x) ==> Eval(AddPoly(p, q), x) == 0
  {
    hide Add, Eval;
    if AllZero(AddPoly(p, q)) {
      forall k | 0 <= k < |p|
        ensures p[k] == q[k]
      {
        assert AddPoly(p, q)[k] == 0;
        AddCancel(p[k], q[k]);
      }
    }
    forall x | Eval(p, x) == Eval(q, x)
      ensures Eval(AddPoly(p, q), x) == 0
    {
      EvalAddPoly(p, q, x);
      AddCancel(Eval(p, x), Eval(q, x));
    }
  }

  // ---------- division by a linear factor ----------

  /** The quotient of p by X + r; the remainder is p(r). */
  function Quotient(p: seq<byte>, r: byte): (q: seq<byte>)
    ensures |q| == if p == [] then 0 else |p| - 1
  {
    if |p| <= 1 then [] else [Eval(p[1..], r)] + Quotient(p[1..], r)
  }

  lemma {:induction false} QuotientAt(p: seq<byte>, r: byte, k: nat)
    requires k + 1 < |p|
    ensures Quotient(p, r)[k] == Eval(p[k + 1..], r)
  {
    if k > 0 {
      QuotientAt(p[1..], r, k - 1);
      assert p[1..][k..] == p[k + 1..];
    }
  }

  lemma AddRegroup(c: byte, a: byte, d: byte, t: byte)
    ensures Add(c, Add(a, d)) == Add(Add(Add(d, t), a), Add(c, t))
  {
    hide Add;
    var u := Add(a, d);
    AddLaws(d, t);
    AddAssoc(t, d, a);
    AddLaws(d, a);
    AddLaws(t, u);
    AddShared(Add(Add(d, t), a), Add(c, t), u, c, t);
    AddLaws(u, c);
  }

  /** (x + r) * q(x) + p(r), unrolled by one coefficient. */
  lemma FactorStep(c: byte, x: byte, r: byte, e: byte, q: byte)
    ensures Add(c, Mul(x, Add(Mul(Add(x, r), q), e)))
         == Add(Mul(Add(x, r), Add(e, Mul(x, q))), Add(c, Mul(r, e)))
  {
    hide Add, Mul;
    var s := Add(x, r);
    MulDistrib(Mul(s, q), e, x);
    MulAssoc(x, s, q);
    MulComm(x, s);
    MulAssoc(s, x, q);
    MulDistrib(e, Mul(x, q), s);
    MulDistrib(x, r, e);
    AddRegroup(c, Mul(s, Mul(x, q)), Mul(x, e), Mul(r, e));
  }

  lemma {:induction false} Factor(p: seq<byte>, r: byte, x: byte)
    ensures Eval(p, x) == Add(Mul(Add(x, r), Eval(Quotient(p, r), x)), Eval(p, r))
  {
    hide Add, Mul;
    MulLaws(Add(x, r), 0);
    AddLaws(0, Eval(p, r));
    if |p| == 1 {
      assert p[1..] == [];
      MulLaws(x, 0);
      MulLaws(r, 0);
    } else if |p| > 1 {
      var t := p[1..];
      Factor(t, r, x);
      assert Quotient(p, r)[1..] == Quotient(t, r);
      FactorStep(p[0], x, r, Eval(t, r), Eval(Quotient(t, r), x));
    }
  }

  lemma {:induction false} QuotientZero(p: seq<byte>, r: byte)
    requires Eval(p, r) == 0 && AllZero(Quotient(p, r))
    ensures AllZero(p)
  {
    forall k | 0 <= k < |p|
      ensures p[k] == 0
    {
      hide Add, Mul;
      assert Eval(p[k..], r) == 0 by {
        if k > 0 {
          QuotientAt(p, r, k - 1);
        } else {
          assert p[0..] == p;
        }
      }
      assert Eval(p[k + 1..], r) == 0 by {
        if k + 1 < |p| {
          QuotientAt(p, r, k);
        }
      }
      assert p[k..][1..] == p[k + 1..];
      MulLaws(r, 0);
      AddLaws(p[k], 0);
    }
  }

  predicate Distinct(s: seq<int>) {
    forall i, j :: 0 <= i < j < |s| ==> s[i] != s[j]
  }

  /** A polynomial with as many roots as coefficients is zero. */
  lemma {:induction false} RootsForceZero(p: seq<byte>, roots: seq<byte>)
    requires |roots| == |p| && Distinct(roots)
    requires forall k :: 0 <= k < |roots| ==> Eval(p, roots[k]) == 0
    ensures AllZero(p)
    decreases |p|
  {
    if p != [] {
      hide Add, Mul;
      var n := |roots| - 1;
      var r, q := roots[n], Quotient(p, roots[n]);
      forall k | 0 <= k < n
        ensures Eval(q, roots[k]) == 0
      {
        Factor(p, r, roots[k]);
        AddLaws(Mul(Add(roots[k], r), Eval(q, roots[k])), 0);
        MulNonZero(Add(roots[k], r), Eval(q, roots[k]));
        AddCancel(roots[k], r);
      }
      RootsForceZero(q, roots[..n]);
      QuotientZero(p, r);
    }
  }
}
