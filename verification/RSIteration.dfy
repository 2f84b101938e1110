/** Berlekamp's iteration of RS_Decode on its arrays: the table elp with its rows switched to
    logarithmic form in place, and the row search over d and u_lu. */
module RSIteration {
  import opened Bytes
  import opened GF256
  import opened Field
  import opened Poly
  import opened PowerSums
  import opened RSCode
  import opened RSDecoder
  import opened RSTables
  import opened RSMachine

  const ROWS := PARITY + 2

  /** c X^k e, as a full row. */
  function ShiftedRow(c: byte, k: nat, e: seq<byte>): (r: seq<byte>)
    ensures |r| == PARITY
    ensures forall i :: 0 <= i < PARITY ==> r[i] == Mul(c, Coef(e, i - k))
  {
    seq<byte>(PARITY, i => Mul(c, Coef(e, i - k)))
  }

  /** alpha^(du - dq) == c, as the code multiplies by it: with exponents modulo 255. */
  ghost predicate LogQuotient(du: int, dq: int, c: byte) {
    && 0 <= du <= NN && 0 <= dq <= NN
    && forall x: byte :: x != 0 ==> Exp((du + NN - dq + Log(x)) % NN) == Mul(c, x)
  }

  /** The local arrays of the iteration. elp is 34 rows of 32 coefficients. */
  class Workspace {
    const elp: array2<int>
    const d: array<int>
    const lead: array<int>
    const l: array<byte>

    constructor ()
      ensures fresh(elp) && fresh(d) && fresh(lead) && fresh(l)
      ensures Sizes()
    {
      elp := new int[ROWS, PARITY];
      d := new int[ROWS];
      lead := new int[ROWS];
      l := new byte[ROWS];
    }

    ghost predicate Sizes() {
      && elp.Length0 == ROWS && elp.Length1 == PARITY
      && d.Length == ROWS && lead.Length == ROWS && l.Length == ROWS && d != lead
    }

    /** Row v in polynomial form. */
    ghost predicate PolyRow(v: nat, p: seq<byte>)
      requires Sizes() && v < ROWS && |p| <= PARITY
      reads elp
    {
      forall i :: 0 <= i < |p| ==> elp[v, i] == p[i]
    }

    /** Row v in index form. */
    ghost predicate IndexRow(v: nat, p: seq<byte>)
      requires Sizes() && v < ROWS && |p| <= PARITY
      reads elp
    {
      forall i :: 0 <= i < |p| ==> elp[v, i] == IndexForm(p[i])
    }

    /** The rows other than a and b are as in the given state of elp. */
    twostate predicate RowsKept(a: nat, b: nat)
      requires Sizes()
      reads elp
    {
      forall v, i :: 0 <= v < ROWS && 0 <= i < PARITY && v != a && v != b ==> elp[v, i] == old(elp[v, i])
    }

    // ---------- one pass: the new row ----------

    /** The row is copied, and the old one switched to index form. */
    method CopyRow(t: Tables, u: nat, ghost p: seq<byte>)
      requires t.FieldReady() && Sizes() && u + 1 < ROWS && 1 <= |p| <= PARITY
      requires PolyRow(u, p) && l[u] == |p| - 1
      modifies elp
      ensures PolyRow(u + 1, p) && IndexRow(u, p) && RowsKept(u, u + 1)
    {
      var i := 0;
      while i <= l[u] as int
        invariant 0 <= i <= |p|
        invariant forall k :: 0 <= k < i ==> elp[u + 1, k] == p[k] && elp[u, k] == IndexForm(p[k])
        invariant forall k :: i <= k < |p| ==> elp[u, k] == p[k]
        invariant RowsKept(u, u + 1)
      {
        elp[u + 1, i] := elp[u, i];
        elp[u, i] := t.indexOf[elp[u, i]];
        i := i + 1;
      }
    }

    /** The new row is set to c X^(u-q) e, for a row e in index form and c == alpha^(du - dq). */
    method ScaleRow(t: Tables, u: nat, q: nat, du: int, dq: int, ghost e: seq<byte>, ghost c: byte)
      requires t.FieldReady() && Sizes() && q < u && u + 1 < ROWS && 1 <= |e| && |e| + (u - q) <= PARITY
      requires IndexRow(q, e) && l[q] == |e| - 1
      requires LogQuotient(du, dq, c)
      modifies elp
      ensures PolyRow(u + 1, ShiftedRow(c, u - q, e)) && RowsKept(u + 1, u + 1)
    {
      hide Mul, Exp, Log;
      MulLaws(c, 0);
      ghost var r := ShiftedRow(c, u - q, e);
      var i, w := 0, u + 1;
      while i < PARITY
        invariant 0 <= i <= PARITY && RowsKept(u + 1, u + 1)
        invariant forall k :: 0 <= k < i ==> elp[w, k] == 0
      {
        elp[w, i] := 0;
        i := i + 1;
      }
      i := 0;
      while i <= l[q] as int
        invariant 0 <= i <= |e| && RowsKept(u + 1, u + 1)
        invariant forall k :: 0 <= k < i + (u - q) ==> elp[w, k] == r[k]
        invariant forall k :: i + (u - q) <= k < PARITY ==> elp[w, k] == 0
      {
        assert elp[q, i] == IndexForm(e[i]);
        if elp[q, i] != -1 {
          elp[w, i + u - q] := t.alphaTo[(du + NN - dq + elp[q, i]) % NN];
        }
        i := i + 1;
      }
    }

    /** The row u is added to the new row, and switched to index form. */
    method MergeRow(t: Tables, u: nat, ghost p: seq<byte>, ghost r: seq<byte>)
      requires t.FieldReady() && Sizes() && u + 1 < ROWS && 1 <= |p| <= PARITY == |r|
      requires PolyRow(u, p) && PolyRow(u + 1, r) && l[u] == |p| - 1
      modifies elp
      ensures forall i :: 0 <= i < PARITY ==> elp[u + 1, i] == Add(Coef(p, i), r[i])
      ensures IndexRow(u, p) && RowsKept(u, u + 1)
    {
      hide Add, Log;
      var i := 0;
      while i <= l[u] as int
        invariant 0 <= i <= |p| && RowsKept(u, u + 1)
        invariant forall k :: 0 <= k < i ==> elp[u, k] == IndexForm(p[k]) && elp[u + 1, k] == Add(p[k], r[k])
        invariant forall k :: i <= k < |p| ==> elp[u, k] == p[k]
        invariant forall k :: i <= k < PARITY ==> elp[u + 1, k] == r[k]
      {
        AddLaws(p[i], r[i]);
        elp[u + 1, i] := Add(elp[u + 1, i], elp[u, i]);
        elp[u, i] := t.indexOf[elp[u, i]];
        i := i + 1;
      }
      forall k | |p| <= k < PARITY
        ensures elp[u + 1, k] == Add(Coef(p, k), r[k])
      {
        AddLaws(0, r[k]);
      }
    }
  
    // ---------- one pass: the search for q and the discrepancy ----------

    /** The arrays d and u_lu agree with the table up to row u. */
    ghost predicate Scores(tb: Table, u: nat)
      requires Sizes() && Shape(tb) && u < |tb.disc|
      reads d, lead
    {
      forall v :: 0 <= v <= u ==> lead[v] == Lead(tb, v) && DiscIndex(d[v], tb.disc[v])
    }

    method SelectRow(u: nat, ghost tb: Table) returns (q: nat)
      requires Sizes() && Shape(tb) && 1 <= u < |tb.disc| && u < ROWS && Scores(tb, u)
      ensures q == BestRow(tb, u)
    {
      hide Exp, Scores;
      q := u - 1;
      ScoreOf(tb, u, q);
      while d[q] == -1 && q > 0
        invariant 0 <= q < u && LastNonZero(tb, u - 1) == LastNonZero(tb, q)
        invariant d[q] == -1 <==> tb.disc[q] == 0
      {
        q := q - 1;
        ScoreOf(tb, u, q);
      }
      q := ImproveRow(u, q, tb);
    }

    /** d and lead at one row. */
    lemma ScoreOf(tb: Table, u: nat, q: nat)
      requires Sizes() && Shape(tb) && q <= u < |tb.disc| && Scores(tb, u)
      ensures lead[q] == Lead(tb, q) && (d[q] == -1 <==> tb.disc[q] == 0)
    {
      hide Exp;
    }

    /** The second loop of the search: a better row further down. */
    method ImproveRow(u: nat, start: nat, ghost tb: Table) returns (q: nat)
      requires Sizes() && Shape(tb) && start <= u < |tb.disc| && Scores(tb, u) && tb.disc[start] != 0
      ensures q == Best(tb, start, start)
    {
      hide Exp, Scores, Lead;
      q := start;
      if q > 0 {
        var j := q;
        while j > 0
          invariant 0 <= j <= q <= start && tb.disc[q] != 0
          invariant Best(tb, start, start) == Best(tb, q, j)
        {
          j := j - 1;
          ScoreOf(tb, u, j);
          ScoreOf(tb, u, q);
          if d[j] != -1 && lead[q] < lead[j] {
            q := j;
          }
        }
      }
    }

    /** The discrepancy of the row v, on the marked syndromes s. */
    method ComputeDiscrepancy(t: Tables, s: array<byte>, v: nat, ghost row: seq<byte>, ghost syn: seq<byte>) returns (r: int)
      requires t.FieldReady() && Sizes() && s.Length == PARITY + 1 == |syn|
      requires forall i :: 1 <= i <= PARITY ==> s[i] == Mark(syn[i])
      requires 1 <= |row| <= v <= PARITY && PolyRow(v, row) && l[v] == |row| - 1
      ensures r == IndexForm(Discrepancy(MISREAD, row, syn, v))
    {
      hide Add, Mul, Exp, Log;
      ghost var back, p := ReadBackAll(MISREAD, syn), row[1..];
      MarkLookup(t, syn[v]);
      var sum := t.alphaTo[s[v]];
      AddLaws(sum, 0);
      var i := 1;
      while i <= l[v] as int
        invariant 1 <= i <= |row|
        invariant sum == Add(syn[v], Conv(p[..i - 1], back, v - 1))
      {
        assert row[i] == p[i - 1] && p[..i] == p[..i - 1] + [p[i - 1]];
        ConvSnoc(p[..i - 1], p[i - 1], back, v - 1);
        AddAssoc(syn[v], Conv(p[..i - 1], back, v - 1), Mul(row[i], back[v - i]));
        if elp[v, i] != 0 {
          MarkTimes(syn[v - i], Log(row[i]));
          MulComm(row[i], back[v - i]);
          sum := Add(sum, t.alphaTo[(s[v - i] + t.indexOf[elp[v, i]]) % NN]);
        } else {
          MulLaws(0, back[v - i]);
          AddLaws(sum, 0);
        }
        i := i + 1;
      }
      assert p[..i - 1] == p;
      r := t.indexOf[sum];
    }

    // ---------- one pass ----------

    /** The arrays hold the table: the last row in polynomial form, the earlier ones in index form. */
    ghost predicate Tracks(tb: Table)
      requires Sizes()
      reads elp, d, lead, l
    {
      && Shape(tb) && tb.disc[1] != 0
      && (forall v :: 0 <= v < |tb.rows| ==> |tb.rows[v]| <= PARITY)
      && PolyRow(|tb.rows| - 1, Last(tb))
      && (forall v :: 0 <= v < |tb.rows| - 1 ==> IndexRow(v, tb.rows[v]))
      && (forall v :: 0 <= v < |tb.rows| ==> l[v] == |tb.rows[v]| - 1 && lead[v] == Lead(tb, v))
      && (forall v :: 0 <= v < |tb.disc| ==> DiscIndex(d[v], tb.disc[v]))
    }

    /** Rows before u are in index form and l is the table's. */
    ghost predicate EarlierRows(tb: Table, u: nat)
      requires Sizes() && u < |tb.rows| <= ROWS
      reads elp, l
    {
      forall v :: 0 <= v < u ==> |tb.rows[v]| <= PARITY && IndexRow(v, tb.rows[v]) && l[v] == |tb.rows[v]| - 1
    }

    /** What Tracks says of the last row u and of the best row q before it. */
    lemma TracksBest(tb: Table, u: nat, q: nat)
      requires Sizes() && Tracks(tb) && u == |tb.rows| - 1 <= PARITY && tb.disc[u] != 0 && q == BestRow(tb, u)
      ensures PolyRow(u, tb.rows[u]) && IndexRow(q, tb.rows[q])
      ensures l[u] == |tb.rows[u]| - 1 && l[q] == |tb.rows[q]| - 1
      ensures |tb.rows[u]| <= PARITY && |tb.rows[q]| + (u - q) <= PARITY && |NextRow(tb)| <= PARITY
      ensures var c := Mul(tb.disc[u], Inverse(tb.disc[q]));
        NextRow(tb) == Combine(tb.rows[u], c, u - q, tb.rows[q]) && LogQuotient(d[u], d[q], c)
    {
      hide Add, Mul, Exp, Log, Inverse, BestRow, PolyRow, IndexRow, Combine;
      NextRowFits(tb);
      forall x: byte | x != 0
        ensures Exp((d[u] + NN - d[q] + Log(x)) % NN) == Mul(Mul(tb.disc[u], Inverse(tb.disc[q])), x)
      {
        QuotientIndex(d[u], d[q], tb.disc[u], tb.disc[q], x);
      }
    }

    lemma TracksScores(tb: Table, u: nat)
      requires Sizes() && Tracks(tb) && u == |tb.rows| - 1 <= PARITY
      ensures Shape(tb) && 1 <= u < |tb.disc| && Scores(tb, u)
    {
      hide DiscIndex, PolyRow, IndexRow;
    }

    /** A sum of p and the shifted row r is the combined row. */
    lemma IsCombined(w: nat, p: seq<byte>, c: byte, k: nat, e: seq<byte>)
      requires Sizes() && w < ROWS && |p| <= PARITY && |e| + k <= PARITY
      requires forall i :: 0 <= i < PARITY ==> elp[w, i] == Add(Coef(p, i), ShiftedRow(c, k, e)[i])
      ensures PolyRow(w, Combine(p, c, k, e))
    {
      hide Add, Mul, Coef;
    }

    /** The row p + c X^(u-q) e, where alpha^(du - dq) == c. */
    method CombineRows(t: Tables, u: nat, q: nat, du: int, dq: int, ghost p: seq<byte>, ghost e: seq<byte>, ghost c: byte)
      requires t.FieldReady() && Sizes() && q < u && u + 1 < ROWS
      requires 1 <= |p| <= PARITY && PolyRow(u, p) && l[u] == |p| - 1
      requires 1 <= |e| && |e| + (u - q) <= PARITY && IndexRow(q, e) && l[q] == |e| - 1
      requires LogQuotient(du, dq, c)
      modifies elp
      ensures PolyRow(u + 1, Combine(p, c, u - q, e)) && RowsKept(u, u + 1) && IndexRow(u, p)
    {
      hide Add, Mul, Combine, ShiftedRow, Coef, IndexRow, LogQuotient;
      ScaleRow(t, u, q, du, dq, e, c);
      MergeRow(t, u, p, ShiftedRow(c, u - q, e));
      IsCombined(u + 1, p, c, u - q, e);
    }

    /** A discrepancy that is not zero: the row is combined with the best earlier one. */
    method AddCombinedRow(t: Tables, u: nat, ghost tb: Table)
      requires t.FieldReady() && Sizes() && Tracks(tb) && u == |tb.rows| - 1 <= PARITY && tb.disc[u] != 0
      requires l != t.alphaTo
      modifies elp, l
      ensures |NextRow(tb)| <= PARITY && PolyRow(u + 1, NextRow(tb))
      ensures RowsKept(u, u + 1) && |tb.rows[u]| <= PARITY && IndexRow(u, tb.rows[u])
      ensures l[u + 1] == |NextRow(tb)| - 1 && forall v :: 0 <= v <= u ==> l[v] == old(l[v])
    {
      hide Add, Mul, Exp, Log, Inverse, BestRow, NextRow, Tracks, PolyRow, IndexRow, LogQuotient, Combine;
      TracksScores(tb, u);
      var q := SelectRow(u, tb);
      TracksBest(tb, u, q);
      ghost var c := Mul(tb.disc[u], Inverse(tb.disc[q]));
      CombineRows(t, u, q, d[u], d[q], tb.rows[u], tb.rows[q], c);
      l[u + 1] := if l[u] as int > l[q] + u - q then l[u] else ToByte(l[q] + u - q);
    }

    /** The body of the do-while loop up to l[u+1]: the new row. */
    method AddRow(t: Tables, u: nat, ghost tb: Table)
      requires t.FieldReady() && Sizes() && Tracks(tb) && u == |tb.rows| - 1 <= PARITY
      requires l != t.alphaTo
      modifies elp, l
      ensures |NextRow(tb)| <= PARITY && PolyRow(u + 1, NextRow(tb)) && l[u + 1] == |NextRow(tb)| - 1
      ensures EarlierRows(tb, u) && IndexRow(u, tb.rows[u]) && l[u] == |tb.rows[u]| - 1
    {
      hide NextRow;
      assert |NextRow(tb)| <= PARITY by {
        NextRowFits(tb);
      }
      if d[u] == -1 {
        assert NextRow(tb) == tb.rows[u] by {
          NextRowCopies(tb);
        }
        l[u + 1] := l[u];
        CopyRow(t, u, tb.rows[u]);
      } else {
        AddCombinedRow(t, u, tb);
      }
    }

    /** Assembles Tracks for the table one row longer. */
    lemma TracksLonger(tb: Table, tb': Table, u: nat, row: seq<byte>)
      requires Sizes() && Shape(tb) && Shape(tb') && u == |tb.rows| - 1 <= PARITY && |tb'.rows| == u + 2
      requires tb'.rows[u + 1] == row && |row| <= PARITY && PolyRow(u + 1, row) && l[u + 1] == |row| - 1
      requires forall v :: 0 <= v <= u ==> tb'.rows[v] == tb.rows[v]
      requires EarlierRows(tb, u) && |tb.rows[u]| <= PARITY && IndexRow(u, tb.rows[u]) && l[u] == |tb.rows[u]| - 1
      requires forall v :: 0 <= v <= u ==> lead[v] == Lead(tb, v)
      requires lead[u + 1] == Lead(tb', u + 1)
      requires tb'.disc[1] != 0 && forall v :: 0 <= v < |tb'.disc| ==> DiscIndex(d[v], tb'.disc[v])
      ensures Tracks(tb')
    {
      hide PolyRow, IndexRow, Exp;
      forall v | 0 <= v <= u
        ensures Lead(tb', v) == Lead(tb, v)
      {
      }
    }

    /** One turn of the do-while loop. */
    method Turn(t: Tables, s: array<byte>, u: nat, ghost syn: seq<byte>, ghost tb: Table)
      requires t.FieldReady() && Sizes() && Tracks(tb) && u == |tb.rows| - 1 <= PARITY
      requires l != t.alphaTo && l != s && d != t.indexOf && lead != t.indexOf
      requires s.Length == PARITY + 1 == |syn| && forall i :: 1 <= i <= PARITY ==> s[i] == Mark(syn[i])
      modifies elp, l, d, lead
      ensures Tracks(Pass(MISREAD, syn, tb))
    {
      hide NextRow, Discrepancy, Mark, Exp, PolyRow, IndexRow, Pass;
      PassRows(syn, tb, u);
      ghost var tb', row := Pass(MISREAD, syn, tb), NextRow(tb);
      assert forall v :: 0 <= v <= u ==> DiscIndex(d[v], tb.disc[v]);
      assert forall v :: 0 <= v <= u ==> lead[v] == Lead(tb, v);
      AddRow(t, u, tb);
      lead[u + 1] := u - l[u + 1] as int;
      if u < PARITY {
        var r := ComputeDiscrepancy(t, s, u + 1, row, syn);
        d[u + 1] := r;
        IndexFormIsDisc(Discrepancy(MISREAD, row, syn, u + 1));
      }
      TracksLonger(tb, tb', u, row);
    }

    /** The conventional first two rows. */
    method Initialize(s: array<byte>, ghost syn: seq<byte>)
      requires Sizes() && l != s
      requires s.Length == PARITY + 1 == |syn| && s[1] == Mark(syn[1])
      modifies elp, l, d, lead
      ensures Tracks(Start(MISREAD, syn))
    {
      d[0] := 0;
      d[1] := s[1];
      elp[0, 0] := 0;
      elp[1, 0] := 1;
      var i := 1;
      while i < PARITY
        invariant 1 <= i <= PARITY && elp[0, 0] == 0 && elp[1, 0] == 1 && d[0] == 0 && d[1] == s[1] == Mark(syn[1])
      {
        elp[0, i] := -1;
        elp[1, i] := 0;
        i := i + 1;
      }
      l[0] := 0;
      l[1] := 0;
      lead[0] := -1;
      lead[1] := 0;
      hide Exp, Mark, IndexForm;
      StartIndex(syn[1], d[0]);
      ghost var tb := Start(MISREAD, syn);
      assert PolyRow(1, Last(tb));
      assert IndexRow(0, tb.rows[0]);
      assert DiscIndex(d[0], tb.disc[0]);
      assert DiscIndex(d[1], tb.disc[1]);
    }

    /** What Tracks says of the last row. */
    lemma TracksLast(tb: Table)
      requires Sizes() && Tracks(tb)
      ensures Shape(tb) && |Last(tb)| <= PARITY
      ensures PolyRow(|tb.rows| - 1, Last(tb)) && l[|tb.rows| - 1] == |Last(tb)| - 1
    {
    }

    /** The whole iteration: it stops at row u, in polynomial form. */
    method Iterate(t: Tables, s: array<byte>, ghost syn: seq<byte>) returns (u: nat)
      requires t.FieldReady() && Sizes()
      requires l != t.alphaTo && l != s && d != t.indexOf && lead != t.indexOf
      requires s.Length == PARITY + 1 == |syn| && forall i :: 1 <= i <= PARITY ==> s[i] == Mark(syn[i])
      modifies elp, l, d, lead
      ensures u < ROWS && |Locator(MISREAD, syn)| <= PARITY && PolyRow(u, Locator(MISREAD, syn))
      ensures l[u] == |Locator(MISREAD, syn)| - 1
    {
      hide Mark, Pass, PolyRow, IndexRow, Run, Tracks, Exp;
      ghost var start := Start(MISREAD, syn);
      ghost var tb := start;
      Initialize(s, syn);
      u := 1;
      RunUnfolds(syn, tb);
      Turn(t, s, u, syn, tb);
      tb := Pass(MISREAD, syn, tb);
      TracksLast(tb);
      while u < PARITY && l[u + 1] as int <= TT
        invariant 1 <= u <= PARITY && Shape(tb) && |tb.rows| == u + 2 && Tracks(tb)
        invariant l[u + 1] == |Last(tb)| - 1
        invariant Run(MISREAD, syn, start) == Run(MISREAD, syn, tb)
      {
        u := u + 1;
        RunUnfolds(syn, tb);
        Turn(t, s, u, syn, tb);
        tb := Pass(MISREAD, syn, tb);
        TracksLast(tb);
      }
      u := u + 1;
      RunUnfolds(syn, tb);
      TracksLast(tb);
    }
  }

  lemma RunUnfolds(s: seq<byte>, tb: Table)
    requires |s| == PARITY + 1 && Shape(tb)
    ensures if |tb.rows| == PARITY + 2 || |Last(tb)| - 1 > TT then Run(MISREAD, s, tb) == tb
            else Run(MISREAD, s, tb) == Run(MISREAD, s, Pass(MISREAD, s, tb))
  {
    hide Pass;
  }

  lemma IndexFormIsDisc(v: byte)
    ensures DiscIndex(IndexForm(v), v)
  {
  }

  /** d[0] = 0 and d[1] = s[1]: a zero first syndrome gives 255, not -1. */
  lemma StartIndex(v: byte, n: nat)
    requires n == 0
    ensures DiscIndex(n, 1) && IndexForm(1) == n
    ensures ReadBack(MISREAD, v) != 0 && DiscIndex(Mark(v), ReadBack(MISREAD, v))
  {
    hide Exp, Log;
    ExpSmall(n);
    LogExp(n);
    var m := Mark(v);
    if v == 0 {
      ExpCycle(m);
      ExpSmall(m % NN);
    }
  }

  /** The table after a pass, row by row. */
  lemma PassRows(s: seq<byte>, tb: Table, u: nat)
    requires |s| == PARITY + 1 && Shape(tb) && u == |tb.rows| - 1 <= PARITY
    ensures var tb' := Pass(MISREAD, s, tb);
      && |tb'.rows| == u + 2 && tb'.rows[u + 1] == NextRow(tb)
      && (forall v :: 0 <= v <= u ==> tb'.rows[v] == tb.rows[v])
      && (forall v :: 0 <= v <= u ==> v < |tb'.disc| && tb'.disc[v] == tb.disc[v])
      && (u < PARITY ==> tb'.disc[u + 1] == Discrepancy(MISREAD, NextRow(tb), s, u + 1))
      && (u == PARITY ==> |tb'.disc| == u + 1)
  {
    hide NextRow, Discrepancy;
  }

  lemma NextRowCopies(t: Table)
    requires Shape(t) && |t.rows| < PARITY + 2 && t.disc[|t.rows| - 1] == 0
    ensures NextRow(t) == Last(t)
  {
    hide BestRow, Combine, Mul, Inverse, Add, Exp;
  }

  /** d is the index form of disc; only d[1], copied from a uint8_t, can be 255. */
  ghost predicate DiscIndex(d: int, disc: byte) {
    if disc == 0 then d == -1 else 0 <= d <= NN && Exp(d) == disc
  }

  lemma {:induction false} ConvSnoc(p: seq<byte>, c: byte, s: seq<byte>, j: int)
    requires |p| <= j < |s|
    ensures Conv(p + [c], s, j) == Add(Conv(p, s, j), Mul(c, s[j - |p|]))
    decreases |p|
  {
    hide Add, Mul;
    if p == [] {
      assert ([c])[1..] == [] && p + [c] == [c];
      AddLaws(0, Mul(c, s[j]));
    } else {
      ConvSnoc(p[1..], c, s, j - 1);
      assert (p + [c])[1..] == p[1..] + [c];
      AddAssoc(Mul(p[0], s[j]), Conv(p[1..], s, j - 1), Mul(c, s[j - |p|]));
    }
  }

  /** du - dq in index form is the quotient of the discrepancies. */
  lemma QuotientIndex(du: int, dq: int, u: byte, q: byte, x: byte)
    requires u != 0 && q != 0 && x != 0 && DiscIndex(du, u) && DiscIndex(dq, q)
    ensures Exp((du + NN - dq + Log(x)) % NN) == Mul(Mul(u, Inverse(q)), x)
  {
    hide Add, Mul, Exp, Log, Inverse;
    var m := NN - dq;
    ExpInverse(dq, m);
    MulCancel(Exp(m), Inverse(q), q);
    MulExp(du, m);
    MulExp(du + m, Log(x));
    ExpCycle(du + m + Log(x));
  }

  /** Rows stay within the 32 columns of elp: from the second pass on, q has a lead of 0 or more. */
  lemma NextRowFits(t: Table)
    requires Shape(t) && |t.rows| < PARITY + 2 && t.disc[1] != 0
    requires forall v :: 0 <= v < |t.rows| ==> |t.rows[v]| <= PARITY
    ensures |NextRow(t)| <= PARITY
    ensures t.disc[|t.rows| - 1] != 0 ==>
      var q := BestRow(t, |t.rows| - 1); |t.rows[q]| + (|t.rows| - 1 - q) <= PARITY
  {
    hide Add, Mul, Inverse;
    var u := |t.rows| - 1;
    if t.disc[u] != 0 {
      var q := BestRow(t, u);
      if u == 1 {
        assert q == 0;
      } else {
        assert Lead(t, q) >= Lead(t, 1) == 0;
      }
    }
  }
}
