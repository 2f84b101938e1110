/** The end of RS_Decode on its arrays: the search for roots, the coefficients z, the error values
    and the corrections, and RS_Decode itself. */
module RSRepair {
  import opened Bytes
  import opened GF256
  import opened Field
  import opened Poly
  import opened PowerSums
  import opened RSCode
  import opened RSDecoder
  import opened RSErrors
  import opened RSTables
  import opened RSMachine
  import opened RSIteration

  // ---------- the search for roots ----------

  /** Register j after i passes, for a coefficient marked m. */
  function Register(m: byte, i: nat, j: nat): nat {
    Commute(i, j);
    (m + i * j) % NN
  }

  lemma RegisterTurn(r: nat, m: byte, i: nat, j: nat)
    requires r % NN == Register(m, i, j)
    ensures (r + j) % NN == Register(m, i + 1, j)
  {
    assert (i + 1) * j == i * j + j;
    ModAdd(r, m + i * j, j);
  }

  /** Register j holds the exponent of the j-th term of the value at alpha^i. */
  lemma RegisterTerm(f: seq<byte>, v: byte, i: nat, j: nat)
    requires j < |f| && f[j] == ReadBack(MISREAD, v)
    ensures Register(Mark(v), i, j) < NN
    ensures Eval(f[..j + 1], Exp(i)) == Add(Eval(f[..j], Exp(i)), Exp(Register(Mark(v), i, j)))
  {
    hide Mul, Add, Exp, Mark;
    Commute(i, j);
    MarkTimes(v, i * j);
    EvalSnoc(f[..j], f[j], i);
    assert f[..j + 1] == f[..j] + [f[j]];
  }

  lemma ModAdd(a: nat, b: nat, c: nat)
    requires a % NN == b % NN
    ensures (a + c) % NN == (b + c) % NN
  {
    assert a + c == NN * (a / NN) + (a % NN + c);
    assert b + c == NN * (b / NN) + (b % NN + c);
    ModShift(a / NN, a % NN + c);
    ModShift(b / NN, b % NN + c);
  }

  lemma {:induction false} ModShift(k: nat, c: nat)
    ensures (NN * k + c) % NN == c % NN
    decreases k
  {
    if k > 0 {
      ModShift(k - 1, c);
      assert NN * k + c == NN + (NN * (k - 1) + c);
    }
  }

  /** The registers hold the exponents of the terms of the searched polynomial at alpha^i. */
  ghost predicate Registers(reg: array<byte>, p: seq<byte>, i: nat)
    requires reg.Length == TT + 1 && 1 <= |p| <= TT + 1
    reads reg
  {
    forall j :: 1 <= j < |p| ==> reg[j] as int % NN == Register(Mark(p[j]), i, j)
  }

  method TurnRegister(t: Tables, reg: array<byte>, i: nat, j: nat, ghost m: byte) returns (term: byte)
    requires t.FieldReady() && reg.Length == TT + 1 && 1 <= j <= TT && i >= 1 && reg != t.alphaTo
    requires reg[j] as int % NN == Register(m, i - 1, j)
    modifies reg
    ensures reg[j] as int % NN == Register(m, i, j) < NN && term == Exp(Register(m, i, j))
    ensures forall k :: 0 <= k <= TT && k != j ==> reg[k] == old(reg[k])
  {
    RegisterTurn(reg[j], m, i - 1, j);
    hide Exp, Register;
    reg[j] := (reg[j] as int + j) % NN;
    term := t.alphaTo[reg[j]];
  }

  /** One pass of the search: the value of the searched polynomial at alpha^i, with all registers turned. */
  method SearchPass(t: Tables, reg: array<byte>, i: nat, ghost p: seq<byte>, len: nat) returns (q: byte)
    requires t.FieldReady() && reg.Length == TT + 1 && 1 <= |p| == len + 1 <= TT + 1 && i >= 1
    requires Registers(reg, p, i - 1) && reg != t.alphaTo
    modifies reg
    ensures Registers(reg, p, i)
    ensures q == Eval(Searched(MISREAD, p), Exp(i))
  {
    hide Mul, Add, Exp, Mark, Register, Eval;
    ghost var f := Searched(MISREAD, p);
    q := 1;
    assert f[..1] == [1];
    EvalConst(1, Exp(i));
    var j := 1;
    while j <= len
      invariant 1 <= j <= len + 1
      invariant forall k :: 1 <= k < j ==> reg[k] as int % NN == Register(Mark(p[k]), i, k)
      invariant forall k :: j <= k < |p| ==> reg[k] as int % NN == Register(Mark(p[k]), i - 1, k)
      invariant q == Eval(f[..j], Exp(i))
    {
      RegisterTerm(f, p[j], i, j);
      var term := TurnRegister(t, reg, i, j, Mark(p[j]));
      q := Add(q, term);
      j := j + 1;
    }
    assert f[..j] == f;
  }

  lemma RootsNone(f: seq<byte>)
    ensures RootsUpTo(f, 0) == []
  {
  }

  lemma RootsStep(f: seq<byte>, i: nat)
    requires i > 0
    ensures RootsUpTo(f, i) == RootsUpTo(f, i - 1) + (if Eval(f, Exp(i)) == 0 then [i] else [])
    ensures forall k :: 0 <= k < |RootsUpTo(f, i)| ==> 1 <= RootsUpTo(f, i)[k] <= i
  {
  }

  /** root and loc list the given exponents. */
  ghost predicate Listed(root: array<byte>, loc: array<byte>, roots: seq<nat>)
    requires root.Length == TT == loc.Length && |roots| <= TT
    reads root, loc
  {
    forall k :: 0 <= k < |roots| ==> root[k] == roots[k] && loc[k] == NN - roots[k]
  }

  method FindRoots(t: Tables, reg: array<byte>, root: array<byte>, loc: array<byte>, ghost p: seq<byte>, len: nat)
    returns (count: nat)
    requires t.FieldReady() && reg.Length == TT + 1 && root.Length == TT == loc.Length
    requires 1 <= |p| == len + 1 <= TT + 1
    requires reg != t.alphaTo && root != t.alphaTo && loc != t.alphaTo && reg != root && reg != loc && root != loc
    requires Registers(reg, p, 0)
    modifies reg, root, loc
    ensures count == |RootsUpTo(Searched(MISREAD, p), NN)| <= TT
    ensures Listed(root, loc, RootsUpTo(Searched(MISREAD, p), NN))
  {
    hide Mark, Eval, Exp, Register, Registers, RootsUpTo, Searched;
    ghost var f := Searched(MISREAD, p);
    ghost var roots: seq<nat> := RootsUpTo(f, 0);
    RootsNone(f);
    count := 0;
    var i := 1;
    while i <= NN
      invariant 1 <= i <= NN + 1 && Registers(reg, p, i - 1)
      invariant roots == RootsUpTo(f, i - 1) && count == |roots| <= TT
      invariant Listed(root, loc, roots)
    {
      var q := SearchPass(t, reg, i, p, len);
      RootBound(f, i);
      RootsStep(f, i);
      roots := RootsUpTo(f, i);
      if q == 0 {
        root[count] := i;
        loc[count] := NN - i;
        count := count + 1;
      }
      i := i + 1;
    }
  }

  // ---------- the coefficients z ----------

  method EvaluatorEntry(t: Tables, ws: Workspace, u: nat, s: array<byte>, i: nat, ghost p: seq<byte>, ghost syn: seq<byte>)
    returns (z: byte)
    requires t.FieldReady() && ws.Sizes() && u < ROWS && s.Length == PARITY + 1 == |syn|
    requires forall k :: 1 <= k <= PARITY ==> s[k] == Mark(syn[k])
    requires 1 <= i < |p| <= TT + 1 && ws.IndexRow(u, p)
    ensures z == EvaluatorCoef(MISREAD, p, syn, i)
  {
    hide Mul, Add, Exp, Mark, Log;
    ghost var back := ReadBackAll(MISREAD, syn);
    MarkLookup(t, syn[i]);
    assert ws.elp[u, i] == IndexForm(p[i]);
    if ws.elp[u, i] != -1 {
      z := Add(t.alphaTo[s[i]], t.alphaTo[ws.elp[u, i]]);
    } else {
      z := t.alphaTo[s[i]];
      AddLaws(syn[i], 0);
    }
    ghost var z0 := z;
    AddLaws(z0, 0);
    var j := 1;
    while j < i
      invariant 1 <= j <= i
      invariant z == Add(z0, InnerSum(p, back, i, j - 1))
    {
      assert ws.elp[u, i - j] == IndexForm(p[i - j]);
      AddAssoc(z0, InnerSum(p, back, i, j - 1), Mul(p[i - j], back[j]));
      if ws.elp[u, i - j] != -1 {
        MarkTimes(syn[j], Log(p[i - j]));
        MulComm(p[i - j], back[j]);
        z := Add(z, t.alphaTo[(ws.elp[u, i - j] + s[j]) % NN]);
      } else {
        MulLaws(0, back[j]);
        AddLaws(InnerSum(p, back, i, j - 1), 0);
      }
      j := j + 1;
    }
  }

  method EvaluatorEntries(t: Tables, ws: Workspace, u: nat, s: array<byte>, len: nat, ghost p: seq<byte>, ghost syn: seq<byte>)
    returns (z: array<byte>)
    requires t.FieldReady() && ws.Sizes() && u < ROWS && s.Length == PARITY + 1 == |syn|
    requires forall k :: 1 <= k <= PARITY ==> s[k] == Mark(syn[k])
    requires 1 <= |p| == len + 1 <= TT + 1 && ws.IndexRow(u, p)
    ensures fresh(z) && z.Length == TT + 1
    ensures forall i :: 1 <= i < |p| ==> z[i] == Mark(Evaluator(MISREAD, p, syn)[i])
  {
    hide Mark, EvaluatorCoef;
    z := new byte[TT + 1];
    var i := 1;
    while i <= len
      invariant 1 <= i <= len + 1
      invariant forall k :: 1 <= k < i ==> z[k] == Mark(Evaluator(MISREAD, p, syn)[k])
    {
      var v := EvaluatorEntry(t, ws, u, s, i, p, syn);
      MarkIsIndex(t, v);
      z[i] := ToByte(t.indexOf[v]);
      i := i + 1;
    }
  }

  lemma MarkIsIndex(t: Tables, v: byte)
    requires t.FieldReady()
    ensures ToByte(t.indexOf[v]) == Mark(v)
  {
  }

  // ---------- error values ----------

  /** The numerator at a root: the polynomial z, its entries read back, at alpha^root. */
  method NumeratorAt(t: Tables, z: array<byte>, root: nat, len: nat, ghost zp: seq<byte>) returns (e: byte)
    requires t.FieldReady() && z.Length == TT + 1 && 1 <= |zp| == len + 1 <= TT + 1
    requires forall i :: 1 <= i < |zp| ==> z[i] == Mark(zp[i])
    ensures e == Eval(Searched(MISREAD, zp), Exp(root))
  {
    hide Mul, Add, Exp, Mark;
    ghost var f := Searched(MISREAD, zp);
    e := 1;
    assert f[..1] == [1];
    EvalConst(1, Exp(root));
    var j := 1;
    while j <= len
      invariant 1 <= j <= len + 1
      invariant e == Eval(f[..j], Exp(root))
    {
      Commute(j, root);
      MarkTimes(zp[j], root * j);
      EvalSnoc(f[..j], f[j], root);
      assert f[..j + 1] == f[..j] + [f[j]];
      e := Add(e, t.alphaTo[(z[j] + j * root) % NN]);
      j := j + 1;
    }
    assert f[..j] == f;
  }

  lemma Commute(a: nat, b: nat)
    ensures a * b == b * a >= 0
  {
  }

  /** The logarithm of the denominator, as a sum. */
  method DenominatorIndex(t: Tables, loc: array<byte>, root: nat, i: nat, len: nat, ghost roots: seq<nat>) returns (q: nat)
    requires t.FieldReady() && loc.Length == TT && len == |roots| <= TT && i < len && RootList(roots)
    requires forall k :: 0 <= k < len ==> loc[k] == NN - roots[k]
    requires root == roots[i]
    ensures Exp(q) == Denominator(roots, root, i, len)
  {
    hide Mul, Add, Exp, Log;
    q := 0;
    ExpSmall(q);
    var j := 0;
    while j < len
      invariant 0 <= j <= len && Exp(q) == Denominator(roots, root, i, j)
    {
      if j != i {
        ghost var c := Add(1, Exp(NN - roots[j] + root));
        FactorNonZero(roots[j], root);
        ExpCycle(NN - roots[j] + root);
        assert t.indexOf[c] == Log(c);
        MulExp(q, Log(c));
        q := q + t.indexOf[Add(1, t.alphaTo[(loc[j] as int + root) % NN])];
      }
      j := j + 1;
    }
  }

  /** (e - q + 255) mod 255, from e and q in logarithmic form, is the quotient. */
  lemma QuotientOfLogs(num: byte, q: nat, den: byte)
    requires num != 0 && den != 0 && Exp(q) == den
    ensures 0 <= Log(num) - q % NN + NN
    ensures Exp((Log(num) - q % NN + NN) % NN) == Mul(num, Inverse(den))
  {
    hide Mul, Exp, Log, Inverse;
    var n, r: nat := Log(num), q % NN;
    var m := NN - r;
    ExpCycle(q);
    ExpInverse(r, m);
    MulCancel(Exp(m), Inverse(den), den);
    MulExp(n, m);
    ExpCycle(n + m);
  }

  /** One turn of the correction loop. */
  method CorrectOne(t: Tables, z: array<byte>, root: array<byte>, loc: array<byte>, recd: array<int>, i: nat, len: nat,
                    ghost zp: seq<byte>, ghost roots: seq<nat>)
    requires t.FieldReady() && z.Length == TT + 1 && 1 <= |zp| == len + 1 <= TT + 1
    requires forall k :: 1 <= k < |zp| ==> z[k] == Mark(zp[k])
    requires root.Length == TT == loc.Length && |roots| == len && RootList(roots) && i < len
    requires forall k :: 0 <= k < len ==> root[k] == roots[k] && loc[k] == NN - roots[k]
    requires recd.Length == NN && recd != t.indexOf && forall k :: 0 <= k < NN ==> 0 <= recd[k] < 256
    modifies recd
    ensures recd[NN - roots[i]] == Add(old(recd[NN - roots[i]]), ErrorValue(MISREAD, zp, roots, i))
    ensures forall k :: 0 <= k < NN && k != NN - roots[i] ==> recd[k] == old(recd[k])
  {
    hide Mul, Add, Exp, Log, Mark, Inverse, Denominator, Eval;
    var e := NumeratorAt(t, z, root[i], len, zp);
    DenominatorNonZero(roots, i, len);
    ghost var den := Denominator(roots, roots[i], i, len);
    MulLaws(0, Inverse(den));
    AddLaws(recd[loc[i]], 0);
    if e != 0 {
      var q := DenominatorIndex(t, loc, root[i], i, len, roots);
      QuotientOfLogs(e, q, den);
      assert t.indexOf[e] == Log(e);
      recd[loc[i]] := Add(recd[loc[i]], t.alphaTo[(t.indexOf[e] - q % NN + NN) % NN]);
    }
  }

  /** recd, back in polynomial form. */
  method ToPolyForm(t: Tables, recd: array<int>, ghost w: seq<byte>)
    requires t.FieldReady() && recd.Length == NN == |w| && recd != t.indexOf
    requires forall i :: 0 <= i < NN ==> recd[i] == IndexForm(w[i])
    modifies recd
    ensures recd[..] == w
  {
    hide Exp;
    var i := 0;
    while i < NN
      invariant 0 <= i <= NN
      invariant forall k :: 0 <= k < i ==> recd[k] == w[k]
      invariant forall k :: i <= k < NN ==> recd[k] == IndexForm(w[k])
    {
      if recd[i] != -1 {
        recd[i] := t.alphaTo[recd[i]];
      } else {
        recd[i] := 0;
      }
      i := i + 1;
    }
  }

  method ApplyCorrections(t: Tables, z: array<byte>, root: array<byte>, loc: array<byte>, recd: array<int>, len: nat,
                          ghost zp: seq<byte>, ghost roots: seq<nat>, ghost w: seq<byte>)
    requires t.FieldReady() && z.Length == TT + 1 && 1 <= |zp| == len + 1 <= TT + 1
    requires forall k :: 1 <= k < |zp| ==> z[k] == Mark(zp[k])
    requires root.Length == TT == loc.Length && |roots| == len && RootList(roots) && Listed(root, loc, roots)
    requires recd.Length == NN == |w| && recd != t.indexOf && recd[..] == w
    modifies recd
    ensures recd[..] == Corrected(MISREAD, zp, roots, w, len)
  {
    hide Exp, Mark, ErrorValue, Add;
    var i := 0;
    while i < len
      invariant 0 <= i <= len && recd[..] == Corrected(MISREAD, zp, roots, w, i)
    {
      assert forall k :: 0 <= k < NN ==> recd[k] == recd[..][k];
      CorrectOne(t, z, root, loc, recd, i, len, zp, roots);
      i := i + 1;
    }
  }

  /** elp[u] in index form, and the registers loaded from it. */
  method LoadRegisters(t: Tables, ws: Workspace, u: nat, len: nat, ghost p: seq<byte>) returns (reg: array<byte>)
    requires t.FieldReady() && ws.Sizes() && u < ROWS && 1 <= |p| == len + 1 <= TT + 1 && ws.PolyRow(u, p)
    modifies ws.elp
    ensures fresh(reg) && reg.Length == TT + 1 && Registers(reg, p, 0) && ws.IndexRow(u, p)
  {
    hide Exp, Log;
    var i := 0;
    while i <= len
      invariant 0 <= i <= len + 1
      invariant forall k :: 0 <= k < i ==> ws.elp[u, k] == IndexForm(p[k])
      invariant forall k :: i <= k < |p| ==> ws.elp[u, k] == p[k]
    {
      ws.elp[u, i] := t.indexOf[ws.elp[u, i]];
      i := i + 1;
    }
    reg := new byte[TT + 1];
    i := 1;
    while i <= len
      invariant 1 <= i <= len + 1 && ws.IndexRow(u, p)
      invariant forall k :: 1 <= k < i ==> reg[k] == Mark(p[k])
    {
      reg[i] := ToByte(ws.elp[u, i]);
      i := i + 1;
    }
  }

  /** The branch l[u] <= tt. */
  method Repair(t: Tables, ws: Workspace, u: nat, s: array<byte>, recd: array<int>, len: nat,
                ghost p: seq<byte>, ghost syn: seq<byte>, ghost w: seq<byte>) returns (ret: byte)
    requires t.FieldReady() && ws.Sizes() && u < ROWS && 1 <= |p| == len + 1 <= TT + 1 && ws.PolyRow(u, p)
    requires s.Length == PARITY + 1 == |syn| && forall k :: 1 <= k <= PARITY ==> s[k] == Mark(syn[k])
    requires recd.Length == NN == |w| && recd != t.indexOf
    requires forall i :: 0 <= i < NN ==> recd[i] == IndexForm(w[i])
    modifies ws.elp, recd
    ensures ret == Correct(MISREAD, p, syn, w).ret && recd[..] == Correct(MISREAD, p, syn, w).word
  {
    hide Mark, Exp, IndexForm, Searched, RootsUpTo, Evaluator, Corrected, Register, Eval;
    var reg := LoadRegisters(t, ws, u, len, p);
    var root, loc := new byte[TT], new byte[TT];
    var count := FindRoots(t, reg, root, loc, p, len);
    ghost var roots: seq<nat> := RootsUpTo(Searched(MISREAD, p), NN);
    if count == len {
      var z := EvaluatorEntries(t, ws, u, s, len, p, syn);
      ToPolyForm(t, recd, w);
      ApplyCorrections(t, z, root, loc, recd, len, Evaluator(MISREAD, p, syn), roots, w);
      ret := 1;
    } else {
      ToPolyForm(t, recd, w);
      ret := 0;
    }
  }

  /** RS_Decode, in place: the result and the word left in the buffer are those of the specification. */
  method Decode(t: Tables, b: array<byte>) returns (ret: byte)
    requires t.FieldReady() && b.Length == NN && b != t.alphaTo && b != t.gg
    modifies b
    ensures Outcome(ret, b[..]) == RSDecoder.Decode(MISREAD, old(b[..]))
  {
    hide Mark, Exp, IndexForm, Locator, Correct, CodeWord, Syndromes;
    ghost var w: seq<byte> := b[..];
    var recd := RSMachine.ToIndexForm(t, b);
    var s, synError := ComputeSyndromes(t, recd, w);
    ghost var syn := Syndromes(w);
    ret := 1;
    if synError {
      var ws := new Workspace();
      var u := ws.Iterate(t, s, syn);
      ghost var p := Locator(MISREAD, syn);
      if ws.l[u] as int <= TT {
        ret := Repair(t, ws, u, s, recd, ws.l[u] as int, p, syn, w);
      } else {
        ToPolyForm(t, recd, w);
        ret := 0;
      }
    } else {
      ToPolyForm(t, recd, w);
    }
    CopyBack(recd, b);
  }

  method CopyBack(recd: array<int>, b: array<byte>)
    requires recd.Length == NN == b.Length && forall i :: 0 <= i < NN ==> 0 <= recd[i] < 256
    modifies b
    ensures b[..] == recd[..]
  {
    var i := 0;
    while i < NN
      invariant 0 <= i <= NN && forall k :: 0 <= k < i ==> b[k] == recd[k]
    {
      b[i] := ToByte(recd[i]);
      i := i + 1;
    }
  }
}
