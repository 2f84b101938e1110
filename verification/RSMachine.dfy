/** RS_Decode of rs.c on its arrays, stage by stage, each stage proved to compute its part of
    RSDecoder.Decode. The parameter zero of RSDecoder is 1 here: the arrays s, z and reg are uint8_t. */
module RSMachine {
  import opened Bytes
  import opened GF256
  import opened Field
  import opened Poly
  import opened PowerSums
  import opened RSCode
  import opened RSDecoder
  import opened RSTables

  const MISREAD: byte := 1

  /** What a uint8_t array holds for the logarithm of v: 255 for zero. */
  ghost function Mark(v: byte): byte {
    ToByte(IndexForm(v))
  }

  /** A marked entry used as an exponent: zero is read back as 1. */
  lemma MarkTimes(v: byte, n: nat)
    ensures Mark(v) == (if v == 0 then NN else Log(v))
    ensures Exp((Mark(v) + n) % NN) == Mul(ReadBack(MISREAD, v), Exp(n))
  {
    hide Exp, Mul;
    if v == 0 {
      ExpCycle(NN + n);
      ExpCycle(n);
      assert (NN + n) % NN == n % NN;
      MulLaws(1, Exp(n));
    } else {
      MulLogs(v, Exp(n), Log(v), n);
    }
  }

  /** alpha_to of a marked entry is right even for zero, because alpha_to[255] is 0. */
  lemma MarkLookup(t: Tables, v: byte)
    requires t.FieldReady()
    ensures t.alphaTo[Mark(v)] == v
  {
    if v == 0 {
      assert Mark(v) == NN;
    } else {
      assert Mark(v) == Log(v);
      assert t.alphaTo[Log(v)] == Exp(Log(v));
    }
  }

  // ---------- syndromes ----------

  method ToIndexForm(t: Tables, b: array<byte>) returns (recd: array<int>)
    requires t.FieldReady() && b.Length == NN
    ensures fresh(recd) && recd.Length == NN
    ensures forall j :: 0 <= j < NN ==> recd[j] == IndexForm(b[j])
  {
    recd := new int[NN](_ => 0);
    var i := 0;
    while i < NN
      invariant 0 <= i <= NN && forall j :: 0 <= j < i ==> recd[j] == IndexForm(b[j])
    {
      recd[i] := t.indexOf[b[i]];
      i := i + 1;
    }
  }

  /** One received symbol's term in syndrome i. */
  lemma SyndromeTerm(c: byte, i: nat, j: nat)
    requires c != 0
    ensures i * j >= 0 && Exp((Log(c) + i * j) % NN) == Mul(c, Exp(i * j))
  {
    hide Exp, Mul;
    MulLogs(c, Exp(i * j), Log(c), i * j);
  }

  method Syndrome(t: Tables, recd: array<int>, ghost w: seq<byte>, i: nat) returns (v: byte)
    requires t.FieldReady() && recd.Length == NN == |w|
    requires forall j :: 0 <= j < NN ==> recd[j] == IndexForm(w[j])
    ensures v == Eval(w, Exp(i))
  {
    hide Exp, Mul, Add, Log;
    v := 0;
    var j := 0;
    while j < NN
      invariant 0 <= j <= NN && v == Eval(w[..j], Exp(i))
    {
      assert w[..j + 1] == w[..j] + [w[j]];
      EvalSnoc(w[..j], w[j], i);
      if recd[j] != -1 {
        SyndromeTerm(w[j], i, j);
        v := Add(v, t.alphaTo[(recd[j] + i * j) % NN]);
      } else {
        MulLaws(0, Exp(i * j));
        AddLaws(v, 0);
      }
      j := j + 1;
    }
    assert w[..NN] == w;
  }

  method ComputeSyndromes(t: Tables, recd: array<int>, ghost w: seq<byte>) returns (s: array<byte>, synError: bool)
    requires t.FieldReady() && recd.Length == NN == |w|
    requires forall j :: 0 <= j < NN ==> recd[j] == IndexForm(w[j])
    ensures fresh(s) && s.Length == PARITY + 1
    ensures forall i :: 1 <= i <= PARITY ==> s[i] == Mark(Syndromes(w)[i])
    ensures synError <==> !CodeWord(w)
  {
    hide Exp, Eval;
    s := new byte[PARITY + 1](_ => 0);
    synError := false;
    var i := 1;
    while i <= PARITY
      invariant 1 <= i <= PARITY + 1
      invariant forall k :: 1 <= k < i ==> s[k] == Mark(Syndromes(w)[k])
      invariant synError <==> exists k :: 1 <= k < i && Syndromes(w)[k] != 0
    {
      var v := Syndrome(t, recd, w, i);
      if v != 0 {
        synError := true;
      }
      s[i] := ToByte(t.indexOf[v]);
      i := i + 1;
    }
    assert forall k :: 1 <= k <= PARITY ==> Syndromes(w)[k] == Eval(w, Exp(k));
  }
}
