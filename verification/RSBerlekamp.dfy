/** What Berlekamp's table of RS_Decode keeps: every row satisfies the syndrome recurrence as far as
    it has been checked, and no row is longer than the true number of errors allows. */
module RSBerlekamp {
  import opened Bytes
  import opened GF256
  import opened Field
  import opened Poly
  import opened PowerSums
  import opened RSCode
  import opened RSDecoder

  /** No zero among the syndromes before position n is misread; the last one is never read as a factor. */
  ghost predicate CleanTo(zero: byte, s: seq<byte>, n: nat) {
    zero == 0 || forall i :: 1 <= i < n && i < |s| - 1 ==> s[i] != 0
  }

  ghost predicate CleanSyndromes(zero: byte, s: seq<byte>) {
    CleanTo(zero, s, |s|)
  }

  /** Row v has constant term 1 and keeps the recurrence at the positions degree+1..v-1. */
  ghost predicate RowKeeps(row: seq<byte>, s: seq<byte>, v: nat)
    requires 1 <= |row| <= v <= |s|
  {
    row[0] == 1 && forall j :: |row| <= j < v ==> Conv(row, s, j) == 0
  }

  /** All rows keep the recurrence, and the recorded discrepancies are where it first fails. */
  ghost predicate TableKeeps(t: Table, s: seq<byte>)
    requires Shape(t) && |s| == PARITY + 1
  {
    && (forall v :: 1 <= v < |t.rows| ==> RowKeeps(t.rows[v], s, v))
    && (forall v :: 1 <= v < |t.disc| ==> t.disc[v] == Conv(t.rows[v], s, v))
  }

  lemma {:induction false} ConvSame(p: seq<byte>, s: seq<byte>, r: seq<byte>, j: int)
    requires |p| - 1 <= j < |s| == |r|
    requires forall i :: 0 <= i <= j && i > j - |p| ==> s[i] == r[i]
    ensures Conv(p, s, j) == Conv(p, r, j)
    decreases |p|
  {
    hide Add, Mul;
    if p != [] {
      ConvSame(p[1..], s, r, j - 1);
    }
  }

  /** With clean syndromes the code's discrepancy is the real one. */
  lemma DiscrepancyIsConv(zero: byte, row: seq<byte>, s: seq<byte>, v: nat)
    requires 1 <= |row| <= v < |s| && row[0] == 1
    requires CleanTo(zero, s, v)
    ensures Discrepancy(zero, row, s, v) == Conv(row, s, v)
  {
    hide Add, Mul;
    ConvSame(row[1..], ReadBackAll(zero, s), s, v - 1);
    MulLaws(1, s[v]);
  }

  function Tail(p: seq<byte>): seq<byte> {
    if p == [] then [] else p[1..]
  }

  lemma TailCoef(p: seq<byte>, i: int)
    requires i >= 0
    ensures Coef(p, i + 1) == Coef(Tail(p), i)
  {
  }

  lemma CombineAt(p: seq<byte>, c: byte, k: nat, q: seq<byte>, i: nat)
    requires i < |Combine(p, c, k, q)|
    ensures Combine(p, c, k, q)[i] == Add(Coef(p, i), Mul(c, Coef(q, i - k)))
  {
    hide Add, Mul, Coef;
  }

  lemma SameBytes(a: seq<byte>, b: seq<byte>)
    requires |a| == |b| && forall i: nat :: i < |a| ==> a[i] == b[i]
    ensures a == b
  {
  }

  lemma CombineTail(p: seq<byte>, c: byte, k: nat, q: seq<byte>)
    requires |p| + |q| + k > 0
    ensures |Combine(p, c, k, q)| > 0
    ensures k > 0 ==> Combine(p, c, k, q)[1..] == Combine(Tail(p), c, k - 1, q)
    ensures k == 0 ==> Combine(p, c, k, q)[1..] == Combine(Tail(p), c, 0, Tail(q))
  {
    hide Add, Mul, Coef, Combine;
    var r := Combine(p, c, k, q);
    var k', q' := if k > 0 then k - 1 else 0, if k > 0 then q else Tail(q);
    var r' := Combine(Tail(p), c, k', q');
    forall i: nat | i < |r'|
      ensures r[1..][i] == r'[i]
    {
      CombineAt(p, c, k, q, i + 1);
      CombineAt(Tail(p), c, k', q', i);
      TailCoef(p, i);
      if k == 0 {
        TailCoef(q, i);
      }
    }
    SameBytes(r[1..], r');
  }

  lemma ConvHead(p: seq<byte>, s: seq<byte>, j: int)
    requires |p| - 1 <= j < |s| && 0 <= j
    ensures Conv(p, s, j) == Add(Mul(Coef(p, 0), s[j]), Conv(Tail(p), s, j - 1))
  {
    hide Add, Mul;
    if p == [] {
      MulLaws(0, s[j]);
      AddLaws(0, 0);
    }
  }

  /** The discrepancy of p + c X^k q at j: that of p at j plus c times that of q at j - k. */
  lemma {:induction false} ConvCombine(p: seq<byte>, c: byte, k: nat, q: seq<byte>, s: seq<byte>, j: int)
    requires |p| - 1 <= j < |s| && |q| + k - 1 <= j
    ensures Conv(Combine(p, c, k, q), s, j) == Add(Conv(p, s, j), Mul(c, Conv(q, s, j - k)))
    decreases |p| + |q| + k
  {
    hide Add, Mul;
    var r := Combine(p, c, k, q);
    MulLaws(c, 0);
    AddLaws(0, 0);
    if |p| + |q| + k > 0 {
      CombineTail(p, c, k, q);
      ConvHead(p, s, j);
      var t := Conv(Tail(p), s, j - 1);
      assert r[0] == Add(Coef(p, 0), Mul(c, Coef(q, 0 - k)));
      if k > 0 {
        ConvCombine(Tail(p), c, k - 1, q, s, j - 1);
        AddLaws(Coef(p, 0), 0);
        AddAssoc(Mul(Coef(p, 0), s[j]), t, Mul(c, Conv(q, s, j - k)));
      } else {
        ConvHead(q, s, j);
        ConvCombine(Tail(p), c, 0, Tail(q), s, j - 1);
        var w := Conv(Tail(q), s, j - 1);
        MulDistrib(Coef(p, 0), Mul(c, Coef(q, 0)), s[j]);
        MulAssoc(c, Coef(q, 0), s[j]);
        MulDistrib(Mul(Coef(q, 0), s[j]), w, c);
        AddSwap(Mul(Coef(p, 0), s[j]), Mul(c, Mul(Coef(q, 0), s[j])), t, Mul(c, w));
      }
    }
  }

  /** d + (d / e) e == 0. */
  lemma Annihilate(d: byte, e: byte)
    requires e != 0
    ensures Add(d, Mul(Mul(d, Inverse(e)), e)) == 0
  {
    hide Add, Mul, Inverse;
    MulAssoc(d, Inverse(e), e);
    MulComm(Inverse(e), e);
    MulLaws(d, 1);
    AddLaws(d, d);
  }

  /** The new row keeps the recurrence one position further. */
  lemma NextRowKeeps(t: Table, s: seq<byte>)
    requires Shape(t) && |t.rows| < PARITY + 2 && |s| == PARITY + 1 && TableKeeps(t, s)
    ensures RowKeeps(NextRow(t), s, |t.rows|)
  {
    hide Add, Mul, Inverse, Best, LastNonZero;
    var u, row := |t.rows| - 1, NextRow(t);
    var p := t.rows[u];
    assert RowKeeps(p, s, u);
    if t.disc[u] != 0 {
      var q := BestRow(t, u);
      var k, c, e := u - q, Mul(t.disc[u], Inverse(t.disc[q])), t.rows[q];
      assert row[0] == 1 by {
        MulLaws(c, 0);
        AddLaws(1, 0);
      }
      forall j | |row| <= j < u + 1
        ensures Conv(row, s, j) == 0
      {
        ConvCombine(p, c, k, e, s, j);
        assert q >= 1;
        assert RowKeeps(e, s, q);
        if j < u {
          MulLaws(c, 0);
          AddLaws(0, 0);
        } else {
          Annihilate(t.disc[u], t.disc[q]);
        }
      }
    }
  }

  lemma PassKeeps(zero: byte, s: seq<byte>, t: Table)
    requires Shape(t) && |t.rows| < PARITY + 2 && |s| == PARITY + 1
    requires CleanTo(zero, s, |t.rows|) && TableKeeps(t, s)
    ensures TableKeeps(Pass(zero, s, t), s)
  {
    hide NextRow, Discrepancy;
    NextRowKeeps(t, s);
    var t', v := Pass(zero, s, t), |t.rows|;
    assert t'.rows[v] == NextRow(t);
    forall k | 1 <= k < |t'.rows|
      ensures RowKeeps(t'.rows[k], s, k)
    {
      if k < v {
        assert t'.rows[k] == t.rows[k];
      }
    }
    if v <= PARITY {
      DiscrepancyIsConv(zero, NextRow(t), s, v);
    }
    forall k | 1 <= k < |t'.disc|
      ensures t'.disc[k] == Conv(t'.rows[k], s, k)
    {
      if k < v {
        assert t'.rows[k] == t.rows[k] && t'.disc[k] == t.disc[k];
      }
    }
  }

  lemma StartKeeps(zero: byte, s: seq<byte>)
    requires |s| == PARITY + 1 && CleanTo(zero, s, 2)
    ensures TableKeeps(Start(zero, s), s)
  {
    hide Add, Mul;
    assert Conv([1][1..], s, 0) == 0;
    MulLaws(1, s[1]);
    AddLaws(s[1], 0);
  }

  /** The Berlekamp invariant: it holds of every table the decoder goes through. */
  lemma {:induction false} RunKeeps(zero: byte, s: seq<byte>, t: Table)
    requires Shape(t) && |s| == PARITY + 1
    requires CleanSyndromes(zero, s) && TableKeeps(t, s)
    ensures TableKeeps(Run(zero, s, t), s)
    decreases PARITY + 2 - |t.rows|
  {
    hide Pass, Start;
    if !(|t.rows| == PARITY + 2 || |Last(t)| - 1 > TT) {
      PassKeeps(zero, s, t);
      RunKeeps(zero, s, Pass(zero, s, t));
    }
  }

  // ---------- no row is longer than the number of errors allows ----------

  /** The syndromes come from errors of non-zero values v at distinct positions e. */
  ghost predicate Errors(s: seq<byte>, v: seq<byte>, e: seq<nat>) {
    && |s| == PARITY + 1 && |v| == |e| <= TT && Locators(e) && SumsOf(s, v, e)
    && forall k :: 0 <= k < |v| ==> v[k] != 0
  }

  /** A row that first fails at u has u - degree <= number of errors. */
  lemma FirstFailure(row: seq<byte>, s: seq<byte>, v: seq<byte>, e: seq<nat>, u: nat)
    requires Errors(s, v, e)
    requires 1 <= |row| <= u <= PARITY && RowKeeps(row, s, u) && Conv(row, s, u) != 0
    ensures u - (|row| - 1) <= |v|
  {
    if u - |row| >= |v| {
      RecurrenceRoots(row, s, v, e, |row|);
      RootsRecurrence(row, s, v, e, u);
    }
  }

  /** Every row has degree at most n, and some earlier failing row has a lead to match the last one. */
  ghost predicate Short(t: Table, n: nat)
    requires Shape(t)
  {
    && (forall w :: 0 <= w < |t.rows| ==> |t.rows[w]| <= n + 1)
    && exists j :: 0 <= j < |t.rows| - 1 && t.disc[j] != 0 && Lead(t, j) >= |Last(t)| - 2
  }

  lemma NextRowShort(t: Table, s: seq<byte>, v: seq<byte>, e: seq<nat>) returns (j: nat)
    requires Errors(s, v, e) && Shape(t) && |t.rows| < PARITY + 2
    requires TableKeeps(t, s) && Short(t, |v|)
    ensures |NextRow(t)| <= |v| + 1
    ensures j < |t.rows| && t.disc[j] != 0 && Lead(t, j) >= |NextRow(t)| - 2
  {
    hide Add, Mul, Inverse, Best, LastNonZero, Conv;
    var u := |t.rows| - 1;
    j :| 0 <= j < u && t.disc[j] != 0 && Lead(t, j) >= |t.rows[u]| - 2;
    if t.disc[u] != 0 {
      FirstFailure(t.rows[u], s, v, e, u);
      if |NextRow(t)| > |t.rows[u]| {
        j := u;
      }
    }
  }

  lemma PassShort(zero: byte, s: seq<byte>, t: Table, v: seq<byte>, e: seq<nat>)
    requires Errors(s, v, e) && Shape(t) && |t.rows| < PARITY + 2
    requires TableKeeps(t, s) && Short(t, |v|)
    ensures Short(Pass(zero, s, t), |v|)
  {
    hide Discrepancy, NextRow;
    var j := NextRowShort(t, s, v, e);
    var t' := Pass(zero, s, t);
    forall w | 0 <= w < |t.rows|
      ensures t'.rows[w] == t.rows[w]
    {
      assert t'.rows[..|t.rows|][w] == t.rows[w];
    }
    assert t'.disc[j] == t.disc[j] && Lead(t', j) == Lead(t, j);
  }

  lemma {:induction false} RunShort(zero: byte, s: seq<byte>, t: Table, v: seq<byte>, e: seq<nat>)
    requires Errors(s, v, e) && Shape(t)
    requires CleanSyndromes(zero, s) && TableKeeps(t, s) && Short(t, |v|)
    ensures Short(Run(zero, s, t), |v|)
    decreases PARITY + 2 - |t.rows|
  {
    hide Pass;
    if !(|t.rows| == PARITY + 2 || |Last(t)| - 1 > TT) {
      PassKeeps(zero, s, t);
      PassShort(zero, s, t, v, e);
      RunShort(zero, s, Pass(zero, s, t), v, e);
    }
  }

  /** The locator polynomial of an admissible number of errors: constant term 1, and the inverse
      locators of the errors are all its roots. */
  lemma LocatorRoots(zero: byte, s: seq<byte>, v: seq<byte>, e: seq<nat>)
    requires Errors(s, v, e) && CleanSyndromes(zero, s)
    ensures var p := Locator(zero, s);
      && |p| <= |v| + 1 && p[0] == 1
      && forall k :: 0 <= k < |v| ==> Eval(p, Exp(NN - e[k])) == 0
  {
    hide Run;
    var t := Start(zero, s);
    StartKeeps(zero, s);
    assert Lead(t, 0) == -1;
    assert Short(t, |v|);
    RunKeeps(zero, s, t);
    RunShort(zero, s, t, v, e);
    var r := Run(zero, s, t);
    assert RowKeeps(Last(r), s, PARITY + 1);
    RecurrenceRoots(Last(r), s, v, e, |Last(r)|);
  }
}
