/** The static tables of rs.c and the loops that fill them, and the encoder that reads them. */
module RSTables {
  import opened Bytes
  import opened GF256
  import opened Field
  import opened Poly
  import opened RSCode

  const MM := 8

  /** The coefficients pp of the reduction polynomial. */
  const REDUCTION: seq<byte> := [1, 0, 1, 1, 1, 0, 0, 0, 1]

  /** An entry of index_of: -1 stands for the logarithm of zero. */
  ghost function IndexForm(v: byte): int {
    if v == 0 then -1 else Log(v)
  }

  class Tables {
    const alphaTo: array<byte>
    const indexOf: array<int>
    const gg: array<byte>

    /** Static storage: all zero. */
    constructor ()
      ensures fresh(alphaTo) && fresh(indexOf) && fresh(gg)
      ensures alphaTo.Length == 256 && indexOf.Length == 256 && gg.Length == PARITY + 1
      ensures alphaTo != gg && alphaTo[NN] == 0
    {
      alphaTo := new byte[256](_ => 0);
      indexOf := new int[256](_ => 0);
      gg := new byte[PARITY + 1](_ => 0);
    }

    ghost predicate Sizes() {
      alphaTo.Length == 256 && indexOf.Length == 256 && gg.Length == PARITY + 1 && alphaTo != gg
    }

    /** The tables hold the powers and the logarithms; alpha_to[255], never written, stays zero. */
    ghost predicate FieldReady()
      reads alphaTo, indexOf
    {
      && Sizes()
      && (forall i :: 0 <= i < NN ==> alphaTo[i] == Exp(i))
      && alphaTo[NN] == 0
      && (forall b: byte :: indexOf[b] == IndexForm(b))
    }

    /** gg holds the logarithms of the coefficients of the generator. */
    ghost predicate Ready()
      reads alphaTo, indexOf, gg
    {
      && FieldReady()
      && forall j :: 0 <= j <= PARITY ==> GenPoly(PARITY)[j] != 0 && gg[j] == Log(GenPoly(PARITY)[j])
    }

    /** The part of the tables that is filled after the first n powers. */
    ghost predicate Filled(n: nat)
      reads alphaTo, indexOf
      requires Sizes() && n <= NN
    {
      forall k :: 0 <= k < n ==> alphaTo[k] == Exp(k) && indexOf[Exp(k)] == k
    }

    /** Appending the next power keeps the earlier logarithms: powers are distinct. */
    method Append(i: nat, v: byte)
      requires Sizes() && i < NN && Filled(i) && v == Exp(i)
      modifies alphaTo, indexOf
      ensures Filled(i + 1)
      ensures forall k :: 0 <= k < 256 && k != i ==> alphaTo[k] == old(alphaTo[k])
    {
      hide Exp;
      forall k | 0 <= k < i
        ensures Exp(k) != Exp(i)
      {
        ExpInjective(k, i);
      }
      alphaTo[i] := v;
      indexOf[alphaTo[i]] := i;
    }

    method GenerateField()
      requires Sizes() && alphaTo[NN] == 0
      modifies alphaTo, indexOf
      ensures FieldReady()
    {
      var mask: int := 1;
      alphaTo[MM] := 0;
      var i := 0;
      while i < MM
        invariant 0 <= i <= MM && Filled(i)
        invariant mask == (if i == MM then 256 else Exp(i)) && (i < MM ==> mask == LowPower(i))
        invariant alphaTo[MM] == PartialReduction(i)
        invariant alphaTo[NN] == 0
      {
        hide Exp;
        LowPowers(i);
        Append(i, mask);
        if REDUCTION[i] != 0 {
          PartialReductions(i);
          alphaTo[MM] := Add(alphaTo[MM], mask);
        }
        mask := 2 * mask;
        i := i + 1;
      }
      LowPowers(MM - 1);
      assert Exp(i) == 29;
      hide Exp;
      Append(MM, alphaTo[MM]);
      mask := mask / 2;
      i := MM + 1;
      while i < NN
        invariant MM < i <= NN && Filled(i) && mask == 128 && alphaTo[NN] == 0
      {
        XtimeAsCode(i, alphaTo[i - 1]);
        if alphaTo[i - 1] >= mask {
          Append(i, Add(alphaTo[MM], 2 * Add(alphaTo[i - 1], mask)));
        } else {
          Append(i, 2 * alphaTo[i - 1]);
        }
        i := i + 1;
      }
      indexOf[0] := -1;
      FilledIsReady();
    }

    /** One coefficient times alpha^i, through the logarithm table. */
    method TimesPower(c: byte, i: nat) returns (r: byte)
      requires FieldReady() && c != 0
      ensures r == Mul(Exp(i), c)
    {
      hide Exp, Mul, Add, Log;
      ghost var n := Log(c);
      MulLogs(c, Exp(i), n, i);
      MulComm(Exp(i), c);
      assert indexOf[c] == n;
      r := alphaTo[(indexOf[c] + i) % NN];
    }

    /** One coefficient of the product with X + alpha^i. */
    method CombineCoef(i: nat, j: nat)
      requires FieldReady() && 1 <= j <= PARITY
      modifies gg
      ensures gg[j] == Add(old(gg[j - 1]), Mul(Exp(i), old(gg[j])))
      ensures forall k :: 0 <= k <= PARITY && k != j ==> gg[k] == old(gg[k])
    {
      hide Add, Mul, Exp;
      MulLaws(Exp(i), 0);
      AddLaws(gg[j - 1], 0);
      if gg[j] != 0 {
        var t := TimesPower(gg[j], i);
        gg[j] := Add(gg[j - 1], t);
      } else {
        gg[j] := gg[j - 1];
      }
    }

    /** The inner loop: the coefficients i-1 down to 1 of the product g' of g with X + alpha^i. */
    method CombineCoefs(i: nat, ghost g: seq<byte>, ghost g': seq<byte>)
      requires FieldReady() && 2 <= i <= PARITY && |g| == i && |g'| == i + 1
      requires forall k :: 0 <= k < i ==> gg[k] == g[k]
      requires gg[i] == g'[i]
      requires forall k :: 1 <= k < i ==> g'[k] == Add(g[k - 1], Mul(Exp(i), g[k]))
      modifies gg
      ensures gg[0] == g[0]
      ensures forall k :: 1 <= k <= i ==> gg[k] == g'[k]
    {
      hide Add, Mul, Exp;
      var j := i - 1;
      while j > 0
        invariant 0 <= j < i
        invariant FieldReady()
        invariant forall k :: 0 <= k <= j ==> gg[k] == g[k]
        invariant forall k :: j < k <= i ==> gg[k] == g'[k]
      {
        CombineCoef(i, j);
        j := j - 1;
      }
    }

    /** One turn of the outer loop: the product with X + alpha^i. */
    method TimesLinear(i: nat)
      requires FieldReady() && 2 <= i <= PARITY
      requires gg[..i] == GenPoly(i - 1)
      modifies gg
      ensures FieldReady() && gg[..i + 1] == GenPoly(i)
    {
      hide Add, Mul, Exp, Log, GenPoly;
      ghost var g, g' := GenPoly(i - 1), GenPoly(i);
      GenPolyStep(i, g, g');
      assert forall k :: 0 <= k < i ==> gg[..i][k] == gg[k];
      gg[i] := 1;
      CombineCoefs(i, g, g');
      var t := TimesPower(gg[0], i);
      gg[0] := t;
    }

    method GenerateGenerator()
      requires FieldReady()
      modifies gg
      ensures Ready()
    {
      gg[0] := 2;
      gg[1] := 1;
      var i: nat := 2;
      while i <= PARITY
        invariant 2 <= i <= PARITY + 1 && FieldReady()
        invariant gg[..i] == GenPoly(i - 1)
      {
        hide GenPoly, FieldReady;
        TimesLinear(i);
        i := i + 1;
      }
      ghost var g := GenPoly(i - 1);
      hide GenPoly;
      forall j | 0 <= j <= PARITY
        ensures g[j] != 0
      {
        GenPolyNonZero(i - 1, j);
      }
      assert i - 1 == PARITY && gg[..i] == gg[..];
      ToIndexForm(g);
    }

    /** The last loop of _gen_poly_: gg in index form. */
    method ToIndexForm(ghost g: seq<byte>)
      requires FieldReady() && |g| == PARITY + 1 && gg[..] == g && forall j :: 0 <= j <= PARITY ==> g[j] != 0
      modifies gg
      ensures forall j :: 0 <= j <= PARITY ==> gg[j] == Log(g[j])
    {
      hide Exp;
      var i := 0;
      while i <= PARITY
        invariant 0 <= i <= PARITY + 1 && FieldReady()
        invariant forall j :: 0 <= j < i ==> gg[j] == Log(g[j])
        invariant forall j :: i <= j <= PARITY ==> gg[j] == g[j]
      {
        assert indexOf[gg[i]] == IndexForm(g[i]);
        gg[i] := ToByte(indexOf[gg[i]]);
        i := i + 1;
      }
    }

    /** RS_Init. */
    method Init()
      requires Sizes() && alphaTo[NN] == 0
      modifies alphaTo, indexOf, gg
      ensures Ready()
    {
      GenerateField();
      GenerateGenerator();
    }

    // ---------- RS_Encode ----------

    /** One turn of the shift register, in place. */
    method Shift(data: byte, pOut: array<byte>)
      requires Ready() && pOut.Length == PARITY && pOut != alphaTo && pOut != gg
      modifies pOut
      ensures Ready() && pOut[..] == LfsrStep(GenPoly(PARITY), old(pOut[..]), data)
    {
      hide GenPoly, Exp, Mul, Add, Log;
      ghost var g, b := GenPoly(PARITY), pOut[..];
      ghost var f := Add(data, b[PARITY - 1]);
      var feedback := indexOf[Add(data, pOut[PARITY - 1])];
      var j := PARITY - 1;
      while j > 0
        invariant 0 <= j < PARITY && Ready()
        invariant forall k :: 0 <= k <= j ==> pOut[k] == b[k]
        invariant forall k :: j < k < PARITY ==> pOut[k] == LfsrStep(g, b, data)[k]
      {
        if feedback != -1 {
          MulLogs(g[j], f, Log(g[j]), Log(f));
          pOut[j] := Add(pOut[j - 1], alphaTo[(gg[j] + feedback) % NN]);
        } else {
          MulLaws(g[j], 0);
          AddLaws(b[j - 1], 0);
          pOut[j] := pOut[j - 1];
        }
        j := j - 1;
      }
      AddLaws(0, Mul(g[0], f));
      if feedback != -1 {
        MulLogs(g[0], f, Log(g[0]), Log(f));
        pOut[0] := alphaTo[(gg[0] + feedback) % NN];
      } else {
        MulLaws(g[0], 0);
        pOut[0] := 0;
      }
    }

    method Encode(pData: array<byte>, pOut: array<byte>)
      requires Ready() && pData.Length == KK && pOut.Length == PARITY
      requires pOut != alphaTo && pOut != gg && pOut != pData
      modifies pOut
      ensures Ready() && pOut[..] == RSCode.Encode(pData[..])
    {
      hide GenPoly;
      var i := 0;
      while i < PARITY
        invariant 0 <= i <= PARITY && Ready() && forall k :: 0 <= k < i ==> pOut[k] == 0
      {
        pOut[i] := 0;
        i := i + 1;
      }
      assert pOut[..] == Zeros(PARITY);
      i := KK;
      while i > 0
        invariant 0 <= i <= KK && Ready()
        invariant pOut[..] == Lfsr(GenPoly(PARITY), pData[i..])
      {
        i := i - 1;
        assert pData[i..][1..] == pData[i + 1..];
        Shift(pData[i], pOut);
      }
      assert pData[0..] == pData[..];
    }

    lemma FilledIsReady()
      requires Sizes() && alphaTo[NN] == 0 && indexOf[0] == -1
      requires forall k :: 0 <= k < NN ==> alphaTo[k] == Exp(k) && (Exp(k) != 0 ==> indexOf[Exp(k)] == k)
      ensures FieldReady()
    {
      hide Exp;
      forall b: byte
        ensures indexOf[b] == IndexForm(b)
      {
        if b != 0 {
          assert Exp(Log(b)) == b;
        }
      }
    }
  }

  lemma GenPolyCoef(i: nat, k: nat)
    requires 2 <= i && k < i
    ensures GenPoly(i)[k] == Add(if k == 0 then 0 else GenPoly(i - 1)[k - 1], Mul(Exp(i), GenPoly(i - 1)[k]))
  {
    hide Add, Mul, Exp;
  }

  /** The coefficients of the product with X + alpha^i, from those of the factor. */
  lemma GenPolyStep(i: nat, g: seq<byte>, g': seq<byte>)
    requires 2 <= i && g == GenPoly(i - 1) && g' == GenPoly(i)
    ensures |g| == i && |g'| == i + 1 && g'[i] == 1 && g[0] != 0 && g'[0] == Mul(Exp(i), g[0])
    ensures forall k :: 1 <= k < i ==> g'[k] == Add(g[k - 1], Mul(Exp(i), g[k]))
  {
    hide Add, Mul, Exp, GenPoly;
    forall k | 1 <= k < i
      ensures g'[k] == Add(g[k - 1], Mul(Exp(i), g[k]))
    {
      GenPolyCoef(i, k);
    }
    GenPolyCoef(i, 0);
    GenPolyMonic(i);
    GenPolyConstant(i - 1);
    AddLaws(0, g'[0]);
    AddLaws(0, Mul(Exp(i), g[0]));
  }

  /** 2^i, for the first eight powers. */
  function LowPower(i: nat): byte
    requires i < MM
  {
    [1, 2, 4, 8, 16, 32, 64, 128][i]
  }

  /** alpha_to[mm] after i turns of the first loop. */
  function PartialReduction(i: nat): byte
    requires i <= MM
  {
    [0, 1, 1, 5, 13, 29, 29, 29, 29][i]
  }

  lemma LowPowers(i: nat)
    requires i < MM && Exp(i) == LowPower(i)
    ensures i < MM - 1 ==> Exp(i + 1) == LowPower(i + 1) == 2 * LowPower(i)
    ensures i == MM - 1 ==> Exp(i + 1) == 29
  {
    assert Exp(i + 1) == Xtime(Exp(i));
    AddLaws(0, 29);
  }

  lemma PartialReductions(i: nat)
    requires i < MM && REDUCTION[i] != 0
    ensures Add(PartialReduction(i), LowPower(i)) == PartialReduction(i + 1)
  {
    XorPower(PartialReduction(i), LowPower(i));
  }

  /** The code's way to multiply by alpha. */
  lemma XtimeAsCode(i: nat, a: byte)
    requires i > 0 && a == Exp(i - 1)
    ensures a >= 128 ==> Add(a, 128) == a - 128 && Exp(i) == Add(29, 2 * (a - 128))
    ensures a < 128 ==> Exp(i) == 2 * a
  {
    assert Exp(i) == Xtime(a);
    hide Exp, Add;
    if a >= 128 {
      XorPower(a - 128, 128);
      AddIsXor(a - 128, 128);
      AddLaws(a - 128, 128);
      AddLaws(29, 2 * (a - 128));
    }
  }

  lemma AddIsXor(a: byte, b: byte)
    ensures Add(a, b) == Xor(a, b)
  {
  }
}
