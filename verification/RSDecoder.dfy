/** What RS_Decode of rs.c computes, on values: syndromes, Berlekamp's table of locator polynomials,
    the search for roots and the error values.
    The C code keeps logarithms in uint8_t arrays, where the logarithm -1 of zero becomes 255 and is
    no longer recognised: a zero entry then acts as alpha^255 = 1. Every function below takes that
    value as the parameter zero: 1 is the code as written, 0 is the code with signed arrays. */
module RSDecoder {
  import opened Bytes
  import opened GF256
  import opened Field
  import opened Poly
  import opened PowerSums
  import opened RSCode

  /** The value that an entry stored in logarithmic form is read back as. */
  function ReadBack(zero: byte, v: byte): byte {
    if v == 0 then zero else v
  }

  function ReadBackAll(zero: byte, s: seq<byte>): (r: seq<byte>)
    ensures |r| == |s|
    ensures forall k :: 0 <= k < |s| ==> r[k] == ReadBack(zero, s[k])
  {
    seq(|s|, k requires 0 <= k < |s| => ReadBack(zero, s[k]))
  }

  ghost function Inverse(a: byte): (r: byte)
    requires a != 0
    ensures r != 0 && Mul(a, r) == 1
  {
    ExpInverse(Log(a), 255 - Log(a));
    ExpNonZero(255 - Log(a));
    Exp(255 - Log(a))
  }

  /** s[1..32], the values of the received word at the roots of the generator; s[0] is not used. */
  function Syndromes(r: seq<byte>): (s: seq<byte>)
    ensures |s| == PARITY + 1
    ensures forall i :: 1 <= i <= PARITY ==> s[i] == Eval(r, Exp(i))
  {
    seq(PARITY + 1, i => if i == 0 then 0 else if i > 0 then Eval(r, Exp(i)) else 0)
  }

  // ---------- Berlekamp's table ----------

  /** rows[v] is the locator polynomial elp[v], l[v] + 1 coefficients long, and disc[v] the value of
      its discrepancy d[v]. Rows 0 and 1 are the conventional first two. */
  datatype Table = Table(rows: seq<seq<byte>>, disc: seq<byte>)

  /** u_lu[v], one less than the number of positions row v has been checked at. */
  function Lead(t: Table, v: nat): int
    requires v < |t.rows|
  {
    v - |t.rows[v]|
  }

  /** The shape the table keeps: one discrepancy a row, but for the last. */
  ghost predicate Shape(t: Table) {
    && 2 <= |t.rows| <= PARITY + 2
    && |t.disc| == (if |t.rows| == PARITY + 2 then PARITY + 1 else |t.rows|)
    && t.rows[0] == [1] && t.rows[1] == [1] && t.disc[0] == 1
    && (forall v :: 1 <= v < |t.rows| ==> 1 <= |t.rows[v]| <= v)
  }

  /** The last row at or below q whose discrepancy is not zero. */
  function LastNonZero(t: Table, q: nat): (r: nat)
    requires Shape(t) && q < |t.disc|
    ensures r <= q && t.disc[r] != 0
    ensures forall j :: r < j <= q ==> t.disc[j] == 0
  {
    if t.disc[q] != 0 || q == 0 then q else LastNonZero(t, q - 1)
  }

  /** The best of row q and the rows below j. */
  function Best(t: Table, q: nat, j: nat): (r: nat)
    requires Shape(t) && j <= q < |t.disc| && t.disc[q] != 0
    ensures r <= q && t.disc[r] != 0
    ensures Lead(t, r) >= Lead(t, q)
    ensures forall k :: 0 <= k < j && t.disc[k] != 0 ==> Lead(t, r) >= Lead(t, k)
    decreases j
  {
    if j == 0 then q
    else if t.disc[j - 1] != 0 && Lead(t, q) < Lead(t, j - 1) then Best(t, j - 1, j - 1)
    else Best(t, q, j - 1)
  }

  /** The row before u with a non-zero discrepancy and the greatest lead. */
  function BestRow(t: Table, u: nat): (q: nat)
    requires Shape(t) && 1 <= u < |t.disc|
    ensures q < u && t.disc[q] != 0
    ensures forall k :: 0 <= k < u && t.disc[k] != 0 ==> Lead(t, q) >= Lead(t, k)
  {
    var q := LastNonZero(t, u - 1);
    Best(t, q, q)
  }

  function Coef(p: seq<byte>, k: int): byte {
    if 0 <= k < |p| then p[k] else 0
  }

  function Max(a: int, b: int): int {
    if a > b then a else b
  }

  /** p(X) + c X^k q(X). */
  function Combine(p: seq<byte>, c: byte, k: nat, q: seq<byte>): (r: seq<byte>)
    ensures |r| == Max(|p|, |q| + k)
  {
    seq(Max(|p|, |q| + k), i => Add(Coef(p, i), Mul(c, Coef(q, i - k))))
  }

  /** The row that pass u adds. */
  ghost function NextRow(t: Table): (row: seq<byte>)
    requires Shape(t) && |t.rows| < PARITY + 2
    ensures 1 <= |row| <= |t.rows|
  {
    var u := |t.rows| - 1;
    if t.disc[u] == 0 then t.rows[u] else
      var q := BestRow(t, u);
      Combine(t.rows[u], Mul(t.disc[u], Inverse(t.disc[q])), u - q, t.rows[q])
  }

  /** The discrepancy the code computes for a row at position v. */
  function Discrepancy(zero: byte, row: seq<byte>, s: seq<byte>, v: nat): byte
    requires 1 <= |row| <= v < |s|
  {
    Add(s[v], Conv(row[1..], ReadBackAll(zero, s), v - 1))
  }

  ghost function Pass(zero: byte, s: seq<byte>, t: Table): (t': Table)
    requires |s| == PARITY + 1 && Shape(t) && |t.rows| < PARITY + 2
    ensures Shape(t') && |t'.rows| == |t.rows| + 1
    ensures t'.rows[..|t.rows|] == t.rows && t'.disc[..|t.disc|] == t.disc
  {
    var row, v := NextRow(t), |t.rows|;
    var disc := if v <= PARITY then t.disc + [Discrepancy(zero, row, s, v)] else t.disc;
    Table(t.rows + [row], disc)
  }

  /** The discrepancy of row 1 is the first syndrome itself, already in logarithmic form. */
  function Start(zero: byte, s: seq<byte>): (t: Table)
    requires |s| == PARITY + 1
    ensures Shape(t)
  {
    Table([[1], [1]], [1, ReadBack(zero, s[1])])
  }

  function Last(t: Table): seq<byte>
    requires Shape(t)
  {
    t.rows[|t.rows| - 1]
  }

  /** Passes until all 32 syndromes are used or the degree exceeds 16. */
  ghost function Run(zero: byte, s: seq<byte>, t: Table): (r: Table)
    requires |s| == PARITY + 1 && Shape(t)
    ensures Shape(r)
    ensures |Last(r)| - 1 <= TT ==> |r.rows| == PARITY + 2
    decreases PARITY + 2 - |t.rows|
  {
    if |t.rows| == PARITY + 2 || |Last(t)| - 1 > TT then t else Run(zero, s, Pass(zero, s, t))
  }

  ghost function Locator(zero: byte, s: seq<byte>): (p: seq<byte>)
    requires |s| == PARITY + 1
    ensures |p| >= 1
  {
    Last(Run(zero, s, Start(zero, s)))
  }

  // ---------- roots ----------

  /** The polynomial the search evaluates: constant term 1, the other coefficients read back. */
  function Searched(zero: byte, p: seq<byte>): (r: seq<byte>)
    requires |p| >= 1
    ensures |r| == |p| && r[0] == 1
    ensures forall k :: 1 <= k < |p| ==> r[k] == ReadBack(zero, p[k])
  {
    [1] + ReadBackAll(zero, p[1..])
  }

  /** The exponents 1..n at which p vanishes, in the order of the search. */
  function RootsUpTo(p: seq<byte>, n: nat): (roots: seq<nat>)
    ensures forall k :: 0 <= k < |roots| ==> 1 <= roots[k] <= n && Eval(p, Exp(roots[k])) == 0
    ensures forall j, k :: 0 <= j < k < |roots| ==> roots[j] < roots[k]
    ensures forall i :: 1 <= i <= n && Eval(p, Exp(i)) == 0 ==> i in roots
  {
    if n == 0 then [] else RootsUpTo(p, n - 1) + (if Eval(p, Exp(n)) == 0 then [n] else [])
  }

  // ---------- error values ----------

  /** sum of p[i - j] * s[j] for j = 1..n. */
  function InnerSum(p: seq<byte>, s: seq<byte>, i: nat, n: nat): byte
    requires n <= i < |p| && i < |s|
  {
    if n == 0 then 0 else Add(InnerSum(p, s, i, n - 1), Mul(p[i - n], s[n]))
  }

  /** z[i] before its conversion to logarithmic form. */
  function EvaluatorCoef(zero: byte, p: seq<byte>, s: seq<byte>, i: nat): byte
    requires 1 <= i < |p| <= |s|
  {
    Add(Add(s[i], p[i]), InnerSum(p, ReadBackAll(zero, s), i, i - 1))
  }

  /** The numerators' polynomial: 1 + z[1] X + ... + z[l] X^l. */
  function Evaluator(zero: byte, p: seq<byte>, s: seq<byte>): (z: seq<byte>)
    requires 1 <= |p| <= |s|
    ensures |z| == |p| && z[0] == 1
    ensures forall i :: 1 <= i < |p| ==> z[i] == EvaluatorCoef(zero, p, s, i)
  {
    seq(|p|, i requires 0 <= i < |p| => if i == 0 then 1 else EvaluatorCoef(zero, p, s, i))
  }

  /** The product of 1 + alpha^(255 - roots[j] + root) over j = 0..n-1, without index skip. */
  function Denominator(roots: seq<nat>, root: nat, skip: int, n: nat): byte
    requires n <= |roots| && forall k :: 0 <= k < |roots| ==> roots[k] <= NN
  {
    if n == 0 then 1
    else if n - 1 == skip then Denominator(roots, root, skip, n - 1)
    else Mul(Denominator(roots, root, skip, n - 1), Add(1, Exp(NN - roots[n - 1] + root)))
  }

  predicate RootList(roots: seq<nat>) {
    && (forall k :: 0 <= k < |roots| ==> 1 <= roots[k] <= NN)
    && (forall j, k :: 0 <= j < k < |roots| ==> roots[j] < roots[k])
  }

  lemma {:induction false} DenominatorNonZero(roots: seq<nat>, k: nat, n: nat)
    requires RootList(roots) && k < |roots| && n <= |roots|
    ensures Denominator(roots, roots[k], k, n) != 0
  {
    hide Add, Mul, Exp;
    if n > 0 {
      DenominatorNonZero(roots, k, n - 1);
      if n - 1 != k {
        FactorNonZero(roots[n - 1], roots[k]);
        MulNonZero(Denominator(roots, roots[k], k, n - 1), Add(1, Exp(NN - roots[n - 1] + roots[k])));
      }
    }
  }

  lemma FactorNonZero(a: nat, b: nat)
    requires 1 <= a <= NN && 1 <= b <= NN && a != b
    ensures Add(1, Exp(NN - a + b)) != 0
  {
    hide Add, Exp;
    AddCancel(1, Exp(NN - a + b));
    ExpCycle(NN - a + b);
    var r := (NN - a + b) % NN;
    ExpSmall(0);
    ExpInjective(0, r);
  }

  /** The error value at the k-th root. */
  ghost function ErrorValue(zero: byte, z: seq<byte>, roots: seq<nat>, k: nat): byte
    requires |z| >= 1 && RootList(roots) && k < |roots|
  {
    DenominatorNonZero(roots, k, |roots|);
    Mul(Eval(Searched(zero, z), Exp(roots[k])), Inverse(Denominator(roots, roots[k], k, |roots|)))
  }

  /** The word after the corrections at the first n roots. */
  ghost function Corrected(zero: byte, z: seq<byte>, roots: seq<nat>, r: seq<byte>, n: nat): (w: seq<byte>)
    requires |z| >= 1 && RootList(roots) && n <= |roots| && |r| == NN
    ensures |w| == NN
  {
    if n == 0 then r else
      var w := Corrected(zero, z, roots, r, n - 1);
      var loc := NN - roots[n - 1];
      w[loc := Add(w[loc], ErrorValue(zero, z, roots, n - 1))]
  }

  // ---------- the whole decoder ----------

  datatype Outcome = Outcome(ret: byte, word: seq<byte>)

  /** The end of the decoder, from a locator polynomial of admissible degree. */
  ghost function Correct(zero: byte, p: seq<byte>, s: seq<byte>, r: seq<byte>): (o: Outcome)
    requires 1 <= |p| <= TT + 1 && |s| == PARITY + 1 && |r| == NN
    ensures |o.word| == NN
  {
    var roots := RootsUpTo(Searched(zero, p), NN);
    if |roots| != |p| - 1 then Outcome(0, r)
    else Outcome(1, Corrected(zero, Evaluator(zero, p, s), roots, r, |roots|))
  }

  ghost function Decode(zero: byte, r: seq<byte>): (o: Outcome)
    requires |r| == NN
    ensures |o.word| == NN
  {
    if CodeWord(r) then Outcome(1, r) else
      var s := Syndromes(r);
      var p := Locator(zero, s);
      if |p| - 1 > TT then Outcome(0, r) else Correct(zero, p, s, r)
  }
}
