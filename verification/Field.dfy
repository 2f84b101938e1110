/** The multiplicative structure of GF(2^8): every non-zero byte is one power of alpha, as the
    tables alpha_to and index_of of rs.c record it, and hence the remaining field laws. */
module Field {
  import opened Bytes
  import opened GF256

  lemma {:induction false} ExpCycle(n: nat)
    ensures Exp(n) == Exp(n % 255)
  {
    hide Exp, Mul;
    if n >= 255 {
      var n255 := n - (n - 255);
      ExpCycle(n - 255);
      ExpOrder(1, n255);
      MulExp(n255, n - 255);
      OneMul(Exp(n - 255));
    }
  }

  lemma ExpNonZero(n: nat)
    ensures Exp(n) != 0
  {
    hide Exp, Mul;
    var m := 255 - n % 255;
    ExpCycle(n + m);
    assert (n + m) % 255 == 0;
    ExpSmall((n + m) % 255);
    MulExp(n, m);
    MulZero(Exp(m));
  }

  lemma ExpInjective(i: nat, j: nat)
    requires i < j < 255
    ensures Exp(i) != Exp(j)
  {
    hide Exp, Mul;
    var n255 := i + (255 - i);
    assert (j + (255 - i)) % 255 == j - i;
    MulExp(i, 255 - i);
    MulExp(j, 255 - i);
    ExpOrder(j - i, n255);
    ExpCycle(j + (255 - i));
  }

  // ---------- every non-zero byte is a power of alpha ----------

  function Below(n: nat): (s: set<int>)
    ensures |s| == n
    ensures forall i :: i in s <==> 0 <= i < n
  {
    if n == 0 then {} else Below(n - 1) + {n - 1}
  }

  ghost function Powers(n: nat): set<int>
    requires n <= 255
  {
    set i: nat | i < n :: Exp(i)
  }

  lemma {:induction false} PowersSize(n: nat)
    requires n <= 255
    ensures |Powers(n)| == n
  {
    if n > 0 {
      PowersSize(n - 1);
      hide Exp;
      forall i: nat | i < n - 1
        ensures Exp(i) != Exp(n - 1)
      {
        ExpInjective(i, n - 1);
      }
      assert Powers(n) == Powers(n - 1) + {Exp(n - 1)};
      assert Exp(n - 1) !in Powers(n - 1);
    }
  }

  lemma SubsetOfSameSize(s: set<int>, t: set<int>)
    requires s <= t && |s| == |t|
    ensures s == t
  {
    assert t == s + (t - s);
    assert |t - s| == 0;
  }

  lemma ExpOnto(a: byte)
    requires a != 0
    ensures exists n: nat :: n < 255 && Exp(n) == a
  {
    hide Exp;
    var n := a + (256 - a);
    var s, t := Powers(n - 1), Below(n) - {0};
    PowersSize(n - 1);
    forall x | x in s
      ensures x in t
    {
      var i: nat :| i < 255 && Exp(i) == x;
      ExpNonZero(i);
    }
    SubsetOfSameSize(s, t);
    assert a in s;
  }

  /** The discrete logarithm to base alpha. */
  ghost function Log(a: byte): (n: nat)
    requires a != 0
    ensures n < 255 && Exp(n) == a
  {
    ExpOnto(a);
    var n: nat :| n < 255 && Exp(n) == a;
    n
  }

  lemma LogExp(n: nat)
    requires n < 255
    ensures Exp(n) != 0 && Log(Exp(n)) == n
  {
    hide Exp, Log;
    ExpNonZero(n);
    var m := Log(Exp(n));
    if m < n {
      ExpInjective(m, n);
    } else if n < m {
      ExpInjective(n, m);
    }
  }

  // ---------- the remaining field laws ----------

  lemma MulComm(a: byte, b: byte)
    ensures Mul(a, b) == Mul(b, a)
  {
    hide Exp, Mul, Log;
    if a == 0 || b == 0 {
      MulZero(a);
      MulZero(b);
    } else {
      MulExp(Log(a), Log(b));
      MulExp(Log(b), Log(a));
    }
  }

  lemma MulNonZero(a: byte, b: byte)
    ensures Mul(a, b) == 0 <==> a == 0 || b == 0
  {
    hide Exp, Mul, Log;
    if a == 0 || b == 0 {
      MulZero(a);
      MulZero(b);
    } else {
      MulExp(Log(a), Log(b));
      ExpNonZero(Log(a) + Log(b));
    }
  }

  lemma MulAssoc(a: byte, b: byte, c: byte)
    ensures Mul(Mul(a, b), c) == Mul(a, Mul(b, c))
  {
    hide Exp, Mul, Log;
    if a == 0 || b == 0 || c == 0 {
      MulNonZero(a, b);
      MulNonZero(b, c);
      MulNonZero(Mul(a, b), c);
      MulNonZero(a, Mul(b, c));
    } else {
      var i, j, k := Log(a), Log(b), Log(c);
      MulExp(i, j);
      MulExp(i + j, k);
      MulExp(j, k);
      MulExp(i, j + k);
      assert (i + j) + k == i + (j + k);
    }
  }

  /** Multiplication as the code does it: a sum of table indices, reduced modulo 255. */
  lemma MulLogs(a: byte, b: byte, m: nat, n: nat)
    requires Exp(m) == a && Exp(n) == b
    ensures Mul(a, b) == Exp((m + n) % 255)
  {
    hide Exp, Mul;
    MulExp(m, n);
    ExpCycle(m + n);
  }

  /** The laws of one multiplication. */
  lemma MulLaws(a: byte, b: byte)
    ensures Mul(a, b) == Mul(b, a)
    ensures Mul(a, b) == 0 <==> a == 0 || b == 0
    ensures Mul(a, 0) == 0 == Mul(0, a) && Mul(b, 0) == 0 == Mul(0, b)
    ensures Mul(a, 1) == a == Mul(1, a) && Mul(b, 1) == b == Mul(1, b)
  {
    hide Exp, Mul, Log;
    MulComm(a, b);
    MulComm(a, 1);
    MulComm(b, 1);
    MulZero(a);
    MulZero(b);
    MulNonZero(a, b);
    OneMul(a);
    OneMul(b);
  }

  lemma MulDistrib(a: byte, b: byte, c: byte)
    ensures Mul(Add(a, b), c) == Add(Mul(a, c), Mul(b, c))
    ensures Mul(c, Add(a, b)) == Add(Mul(c, a), Mul(c, b))
  {
    hide Exp, Mul, Log, Add;
    MulAdd(c, a, b);
    MulComm(Add(a, b), c);
    MulComm(a, c);
    MulComm(b, c);
  }

  lemma AddCancel(a: byte, b: byte)
    ensures Add(a, b) == 0 <==> a == b
  {
    hide Add;
    AddLaws(a, b);
    AddLaws(b, b);
    AddLaws(0, b);
  }

  lemma MulCancel(a: byte, b: byte, c: byte)
    requires c != 0 && (Mul(a, c) == Mul(b, c) || Mul(c, a) == Mul(c, b))
    ensures a == b
  {
    hide Add, Mul;
    MulComm(a, c);
    MulComm(b, c);
    MulDistrib(a, b, c);
    AddCancel(Mul(a, c), Mul(b, c));
    MulNonZero(Add(a, b), c);
    AddCancel(a, b);
  }

  /** The inverse, as the power with the opposite exponent. */
  lemma ExpInverse(n: nat, m: nat)
    requires (n + m) % 255 == 0
    ensures Mul(Exp(n), Exp(m)) == 1
  {
    hide Exp, Mul;
    MulExp(n, m);
    ExpCycle(n + m);
    ExpSmall((n + m) % 255);
  }
}
