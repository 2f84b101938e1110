/** The write command entry by entry: which verdict it gets, and what each parameter holds after it has been carried
    out; and what a restriction admits, on the bytes of a value. */
module ParamLaws {
  import opened Bytes
  import opened Params

  // ---------- the verdict ----------

  /** Where the entries of a command start: each behind the value of the one before, up to the end of the command or to
      the first parameter that is not known. */
  function Starts(cfg: Config, mem: seq<byte>, n: nat, at: nat): (ps: seq<nat>)
    requires Readable(mem, n)
    ensures ps == [] <==> at >= n
    ensures ps != [] ==> ps[0] == at && forall k :: 0 <= k < |ps| ==> at <= ps[k] < n
    ensures forall k :: 0 <= k < |ps| - 1 ==> mem[ps[k]] < |cfg.access| && ps[k + 1] == ps[k] + 1 + cfg.access[mem[ps[k]]].size
    ensures ps != [] ==> var p := ps[|ps| - 1]; mem[p] >= |cfg.access| || p + 1 + cfg.access[mem[p]].size >= n
    decreases n - at
  {
    if at >= n then [] else if mem[at] >= |cfg.access| then [at] else [at] + Starts(cfg, mem, n, at + 1 + cfg.access[mem[at]].size)
  }

  /** The verdict on one entry alone. */
  predicate Passes(cfg: Config, mem: seq<byte>, n: nat, p: nat)
    requires RestrictionsOk(cfg) && Readable(mem, n) && p < n
  {
    mem[p] < |cfg.access| && cfg.access[mem[p]].canWrite && Conforms(cfg, mem[p], mem[p + 1..])
  }

  predicate IsUnknown(cfg: Config, mem: seq<byte>, n: nat, p: nat)
    requires RestrictionsOk(cfg) && Readable(mem, n) && p < n
  {
    || mem[p] >= |cfg.access|
    || (Conforms(cfg, mem[p], mem[p + 1..]) && !cfg.access[mem[p]].canWrite && !cfg.access[mem[p]].canRead)
  }

  predicate IsDenied(cfg: Config, mem: seq<byte>, n: nat, p: nat)
    requires RestrictionsOk(cfg) && Readable(mem, n) && p < n
  {
    mem[p] < |cfg.access| && Conforms(cfg, mem[p], mem[p + 1..]) && !cfg.access[mem[p]].canWrite && cfg.access[mem[p]].canRead
  }

  predicate IsIllegal(cfg: Config, mem: seq<byte>, n: nat, p: nat)
    requires RestrictionsOk(cfg) && Readable(mem, n) && p < n
  {
    mem[p] < |cfg.access| && !Conforms(cfg, mem[p], mem[p + 1..])
  }

  /** The k-th entry is the first that does not pass. */
  ghost predicate FirstBad(cfg: Config, mem: seq<byte>, n: nat, ps: seq<nat>, k: nat)
    requires RestrictionsOk(cfg) && Readable(mem, n) && forall i :: 0 <= i < |ps| ==> ps[i] < n
  {
    k < |ps| && !Passes(cfg, mem, n, ps[k]) && forall i :: 0 <= i < k ==> Passes(cfg, mem, n, ps[i])
  }

  lemma StartsStep(cfg: Config, mem: seq<byte>, n: nat, at: nat)
    requires Readable(mem, n)
    ensures at >= n ==> Starts(cfg, mem, n, at) == []
    ensures at < n && mem[at] >= |cfg.access| ==> Starts(cfg, mem, n, at) == [at]
    ensures at < n && mem[at] < |cfg.access| ==> Starts(cfg, mem, n, at) == [at] + Starts(cfg, mem, n, at + 1 + cfg.access[mem[at]].size)
  {
  }

  lemma CheckedStep(cfg: Config, mem: seq<byte>, n: nat, at: nat)
    requires RestrictionsOk(cfg) && Readable(mem, n) && at < n
    ensures Passes(cfg, mem, n, at) ==> Checked(cfg, mem, n, at) == Checked(cfg, mem, n, at + 1 + cfg.access[mem[at]].size)
    ensures !Passes(cfg, mem, n, at) ==> var v := Checked(cfg, mem, n, at);
      && (v == UnknownParam(mem[at]) || v == Denied(mem[at]) || v == Illegal(mem[at]))
      && (v.UnknownParam? <==> IsUnknown(cfg, mem, n, at)) && (v.Denied? <==> IsDenied(cfg, mem, n, at))
      && (v.Illegal? <==> IsIllegal(cfg, mem, n, at))
  {
    hide Conforms;
  }

  ghost predicate AllPass(cfg: Config, mem: seq<byte>, n: nat, ps: seq<nat>)
    requires RestrictionsOk(cfg) && Readable(mem, n) && forall i :: 0 <= i < |ps| ==> ps[i] < n
  {
    forall k :: 0 <= k < |ps| ==> Passes(cfg, mem, n, ps[k])
  }

  lemma AllPassCons(cfg: Config, mem: seq<byte>, n: nat, at: nat, rest: seq<nat>)
    requires RestrictionsOk(cfg) && Readable(mem, n) && at < n && forall i :: 0 <= i < |rest| ==> rest[i] < n
    ensures AllPass(cfg, mem, n, [at] + rest) <==> Passes(cfg, mem, n, at) && AllPass(cfg, mem, n, rest)
  {
    hide Passes;
    var ps := [at] + rest;
    if AllPass(cfg, mem, n, ps) {
      assert Passes(cfg, mem, n, ps[0]);
      assert forall k :: 0 <= k < |rest| ==> rest[k] == ps[k + 1];
    }
  }

  /** A command is fine if and only if every entry names a parameter that is known and may be written, with a value that
      conforms. */
  lemma {:induction false} FineExactly(cfg: Config, mem: seq<byte>, n: nat, at: nat)
    requires RestrictionsOk(cfg) && Readable(mem, n)
    ensures Checked(cfg, mem, n, at) == Fine <==> AllPass(cfg, mem, n, Starts(cfg, mem, n, at))
    decreases n - at
  {
    hide Conforms, Starts, AllPass, Checked;
    StartsStep(cfg, mem, n, at);
    if at >= n {
      NoEntries(cfg, mem, n, at);
    } else {
      CheckedStep(cfg, mem, n, at);
      if mem[at] < |cfg.access| {
        FineExactly(cfg, mem, n, at + 1 + cfg.access[mem[at]].size);
        AllPassCons(cfg, mem, n, at, Starts(cfg, mem, n, at + 1 + cfg.access[mem[at]].size));
      } else {
        AllPassCons(cfg, mem, n, at, []);
        assert [at] + [] == [at];
      }
    }
  }

  lemma NoEntries(cfg: Config, mem: seq<byte>, n: nat, at: nat)
    requires RestrictionsOk(cfg) && Readable(mem, n) && at >= n
    ensures Checked(cfg, mem, n, at) == Fine && AllPass(cfg, mem, n, [])
  {
  }

  /** Otherwise the verdict is about the first entry that does not pass, and says what is wrong with it. */
  lemma {:induction false} VerdictExactly(cfg: Config, mem: seq<byte>, n: nat, at: nat, k: nat)
    requires RestrictionsOk(cfg) && Readable(mem, n) && FirstBad(cfg, mem, n, Starts(cfg, mem, n, at), k)
    ensures var p, v := Starts(cfg, mem, n, at)[k], Checked(cfg, mem, n, at);
      && (v == UnknownParam(mem[p]) || v == Denied(mem[p]) || v == Illegal(mem[p]))
      && (v.UnknownParam? <==> IsUnknown(cfg, mem, n, p)) && (v.Denied? <==> IsDenied(cfg, mem, n, p))
      && (v.Illegal? <==> IsIllegal(cfg, mem, n, p))
    decreases k
  {
    hide Conforms, Starts, IsUnknown, IsDenied, IsIllegal, Checked;
    var ps := Starts(cfg, mem, n, at);
    StartsStep(cfg, mem, n, at);
    CheckedStep(cfg, mem, n, at);
    if k > 0 {
      assert Passes(cfg, mem, n, ps[0]);
      var rest := Starts(cfg, mem, n, at + 1 + cfg.access[mem[at]].size);
      forall i | 0 <= i < k - 1
        ensures Passes(cfg, mem, n, rest[i])
      {
        assert rest[i] == ps[i + 1];
      }
      assert rest[k - 1] == ps[k];
      VerdictExactly(cfg, mem, n, at + 1 + cfg.access[mem[at]].size, k - 1);
    }
  }

  /** The entries that the replay applies are those, with the bytes that follow their identifiers. */
  lemma {:induction false} EntriesAre(cfg: Config, mem: seq<byte>, n: nat, at: nat)
    requires RestrictionsOk(cfg) && Readable(mem, n) && Checked(cfg, mem, n, at) == Fine
    ensures |Entries(cfg, mem, n, at)| == |Starts(cfg, mem, n, at)|
    ensures forall k: nat :: k < |Starts(cfg, mem, n, at)| ==> IsEntry(cfg, mem, n, Starts(cfg, mem, n, at)[k], Entries(cfg, mem, n, at)[k])
    decreases n - at
  {
    hide Conforms, IsEntry;
    if at < n {
      hide Starts;
      var next := at + 1 + cfg.access[mem[at]].size;
      EntriesAre(cfg, mem, n, next);
      StartsStep(cfg, mem, n, at);
      EntriesStep(cfg, mem, n, at);
      var ps, es := Starts(cfg, mem, n, at), Entries(cfg, mem, n, at);
      forall k: nat | 0 < k < |ps|
        ensures IsEntry(cfg, mem, n, ps[k], es[k])
      {
        assert ps[k] == Starts(cfg, mem, n, next)[k - 1] && es[k] == Entries(cfg, mem, n, next)[k - 1];
      }
    }
  }

  lemma EntriesStep(cfg: Config, mem: seq<byte>, n: nat, at: nat)
    requires Readable(mem, n) && at < n && mem[at] < |cfg.access|
    ensures var es, rest := Entries(cfg, mem, n, at), Entries(cfg, mem, n, at + 1 + cfg.access[mem[at]].size);
      && |es| == |rest| + 1 && IsEntry(cfg, mem, n, at, es[0]) && forall k :: 0 <= k < |rest| ==> es[k + 1] == rest[k]
  {
  }

  /** The entry that starts at p. */
  predicate IsEntry(cfg: Config, mem: seq<byte>, n: nat, p: nat, e: Entry)
    requires Readable(mem, n) && p < n
  {
    mem[p] < |cfg.access| && e.id == mem[p] && e.value == mem[p + 1..p + 1 + cfg.access[mem[p]].size]
  }

  // ---------- the values ----------

  /** What the entries leave in a parameter that held v. */
  function LastFor(es: seq<Entry>, id: nat, v: seq<byte>): seq<byte>
    decreases |es|
  {
    if es == [] then v else LastFor(es[1..], id, if es[0].id == id then es[0].value else v)
  }

  /** It is the value of the last entry that is for it, and v when there is none. */
  lemma {:induction false} LastForIs(es: seq<Entry>, id: nat, v: seq<byte>, k: nat)
    requires k <= |es| && (k > 0 ==> es[k - 1].id == id) && forall j :: k <= j < |es| ==> es[j].id != id
    ensures LastFor(es, id, v) == if k == 0 then v else es[k - 1].value
    decreases |es|
  {
    if es != [] {
      if k <= 1 {
        LastForIs(es[1..], id, if es[0].id == id then es[0].value else v, 0);
      } else {
        LastForIs(es[1..], id, if es[0].id == id then es[0].value else v, k - 1);
      }
    }
  }

  /** Applying authorised entries leaves in each parameter the last value that is for it, and the old one if there is
      none. */
  lemma {:induction false} AppliedValues(cfg: Config, values: seq<byte>, es: seq<Entry>, id: nat)
    requires WellFormed(cfg, |values|) && Separate(cfg) && AllAuthorised(cfg, es) && id < |cfg.access|
    ensures ValueOf(cfg, ApplyAll(cfg, values, es), id) == LastFor(es, id, ValueOf(cfg, values, id))
    decreases |es|
  {
    hide Stored, ValueOf, Separate;
    if es != [] {
      var e := es[0];
      assert Authorised(cfg, e);
      StoredValues(cfg, values, e, id);
      AppliedValues(cfg, Written(cfg, values, e.id, e.value), es[1..], id);
    }
  }

  /** So each parameter after a write command: its last entry's bytes if the command is fine, and what it was if not. */
  lemma CommandedValues(cfg: Config, values: seq<byte>, mem: seq<byte>, n: nat, id: nat)
    requires WellFormed(cfg, |values|) && Separate(cfg) && Readable(mem, n) && id < |cfg.access|
    ensures ValueOf(cfg, Commanded(cfg, values, mem, n), id) ==
      if Checked(cfg, mem, n, 1) == Fine then LastFor(Entries(cfg, mem, n, 1), id, ValueOf(cfg, values, id)) else ValueOf(cfg, values, id)
  {
    hide Checked, ValueOf, Separate, Commanded, ApplyAll, AllAuthorised;
    AllOrNothing(cfg, values, mem, n);
    if Checked(cfg, mem, n, 1) == Fine {
      AppliedValues(cfg, values, Entries(cfg, mem, n, 1), id);
    }
  }

  // ---------- restrictions ----------

  /** The number that a restriction looks at: its first bytes, the least significant first. */
  lemma NumberOnBytes(d: seq<byte>)
    requires |d| >= 8
    ensures Number(d, 1) == d[0] && Number(d, 2) == d[0] as int + 256 * d[1] as int
    ensures Number(d, 4) == d[0] as int + 0x100 * d[1] as int + 0x10000 * d[2] as int + 0x100_0000 * d[3] as int
    ensures Number(d, 8) == Number(d, 4) + 0x1_0000_0000 * Number(d[4..], 4)
  {
    hide Number, Pow256;
    NumberSplit(d, 1, 1);
    NumberSplit(d, 2, 1);
    NumberSplit(d, 3, 1);
    NumberSplit(d, 4, 4);
    One(d);
    One(d[1..]);
    One(d[2..]);
    One(d[3..]);
  }

  lemma One(d: seq<byte>)
    requires d != []
    ensures Number(d, 1) == d[0]
  {
    assert Number(d[1..], 0) == 0;
  }

  function Pow256(n: nat): nat {
    if n == 0 then 1 else 256 * Pow256(n - 1)
  }

  lemma {:induction false} NumberSplit(d: seq<byte>, a: nat, b: nat)
    requires a + b <= |d|
    ensures Number(d, a + b) == Number(d, a) + Pow256(a) * Number(d[a..], b)
    ensures Pow256(1) == 0x100 && Pow256(2) == 0x10000 && Pow256(3) == 0x100_0000 && Pow256(4) == 0x1_0000_0000
  {
    if a == 0 {
      assert d[0..] == d;
    } else {
      NumberSplit(d[1..], a - 1, b);
      assert d[1..][a - 1..] == d[a..];
    }
    assert Pow256(1) == 256 * Pow256(0) && Pow256(2) == 256 * Pow256(1) && Pow256(3) == 256 * Pow256(2) && Pow256(4) == 256 * Pow256(3);
  }

  /** Which restrictions admit a value: a multiple of the first number of the table; a number from the first to the
      second, both included; one of the first nb numbers; with a known width and a table in each case. */
  lemma AdmittedExactly(r: Restriction, d: seq<byte>)
    requires RestrictionOk(r) && |d| >= 8
    ensures r.kind == OtherKind ==> Admits(r, d)
    ensures r.kind != OtherKind && (r.table == [] || r.width == 0) ==> !Admits(r, d)
    ensures r.table != [] && r.width != 0 && r.kind == Modulo ==> (Admits(r, d) <==> IsMultiple(Number(d, r.width), r.table[0]))
    ensures r.table != [] && r.width != 0 && r.kind == Range ==>
      (Admits(r, d) <==> !(Number(d, r.width) < r.table[0]) && !(Number(d, r.width) > r.table[1]))
    ensures r.table != [] && r.width != 0 && r.kind == Enum ==> (Admits(r, d) <==> IsAmong(Number(d, r.width), r.table, r.nb))
  {
    hide Number, IsMultiple, IsAmong;
    if r.table != [] && r.width != 0 {
      var v := Number(d, r.width);
      match r.kind
      case Modulo => MultipleExactly(v, r.table[0]);
      case Enum => AmongExactly(v, r.table, r.nb);
      case _ =>
    }
  }

  ghost predicate IsMultiple(v: nat, m: nat) {
    exists q: nat :: v == q * m
  }

  ghost predicate IsAmong(v: nat, table: seq<nat>, nb: nat)
    requires nb <= |table|
  {
    exists k :: 0 <= k < nb && table[k] == v
  }

  lemma AmongExactly(v: nat, table: seq<nat>, nb: nat)
    requires nb <= |table|
    ensures v in table[..nb] <==> IsAmong(v, table, nb)
  {
    if v in table[..nb] {
      var k :| 0 <= k < nb && table[..nb][k] == v;
      assert table[k] == v;
    }
    if IsAmong(v, table, nb) {
      var k :| 0 <= k < nb && table[k] == v;
      assert table[..nb][k] == v;
    }
  }

  lemma MultipleExactly(v: nat, m: nat)
    requires m > 0
    ensures v % m == 0 <==> IsMultiple(v, m)
  {
    if v % m == 0 {
      assert v == (v / m) * m;
    }
    if IsMultiple(v, m) {
      var q: nat :| v == q * m;
      MultipleRemainder(q, m);
    }
  }

  /** Restriction number 0, and one behind the table, restrict nothing. */
  lemma ConformsExactly(cfg: Config, id: nat, d: seq<byte>)
    requires RestrictionsOk(cfg) && id < |cfg.access| && |d| >= 8
    ensures var k := cfg.access[id].restId;
      Conforms(cfg, id, d) <==> k == 0 || !(k < |cfg.restr|) || Admits(cfg.restr[k], d)
  {
    hide Admits;
  }

  lemma AtLeast(m: nat, d: nat)
    requires d >= 1
    ensures m * d >= m
  {
  }

  lemma MultipleRemainder(p: nat, m: nat)
    requires m > 0
    ensures p * m % m == 0
  {
    var v := p * m;
    var q, r := v / m, v % m;
    assert v == m * q + r;
    assert m * (p - q) == r;
    assert m * (p - q) == -(m * (q - p));
    if p - q >= 1 {
      AtLeast(m, p - q);
    } else if q - p >= 1 {
      AtLeast(m, q - p);
    }
  }

  // ---------- a read command ----------

  /** How many bytes the answer has before entry k: five of header, then each identifier and its value. */
  function AnswerUpTo(cfg: Config, mem: seq<byte>, k: nat): nat
    requires k <= |mem| && AllKnown(cfg, mem, k)
  {
    if k == 0 then 5 else AnswerUpTo(cfg, mem, k - 1) + 1 + cfg.access[mem[k - 1]].size
  }

  /** _adm_read_param_, from entry k of ids on: the error code of the answer. */
  function ReadError(cfg: Config, ids: seq<byte>, transMax: nat, k: nat): nat
    requires k <= |ids| && AllKnown(cfg, ids, k)
    decreases |ids| - k
  {
    if k == |ids| then 0
    else if ids[k] >= |cfg.access| then 1
    else if AnswerUpTo(cfg, ids, k) + cfg.access[ids[k]].size + 1 > transMax then 3
    else if !cfg.access[ids[k]].canRead then if !cfg.access[ids[k]].canWrite then 1 else 2
    else ReadError(cfg, ids, transMax, k + 1)
  }

  predicate AllKnown(cfg: Config, ids: seq<byte>, k: nat)
    requires k <= |ids|
  {
    forall j :: 0 <= j < k ==> ids[j] < |cfg.access|
  }

  /** The k-th identifier can be answered: it and all before it are known, it may be read, and it fits. */
  predicate CanAnswer(cfg: Config, ids: seq<byte>, transMax: nat, k: nat)
    requires k < |ids|
  {
    AllKnown(cfg, ids, k + 1) && cfg.access[ids[k]].canRead && AnswerUpTo(cfg, ids, k + 1) <= transMax
  }

  ghost predicate AllAnswered(cfg: Config, ids: seq<byte>, transMax: nat, k: nat)
    requires k <= |ids|
  {
    AllKnown(cfg, ids, k) && forall j: nat :: j < k ==> CanAnswer(cfg, ids, transMax, j)
  }

  /** No error if and only if every identifier can be answered; otherwise the first that cannot be decides: 1 for a
      parameter that does not exist or that nobody may access, 3 when it does not fit, 2 when it may only be written. */
  lemma {:induction false} ReadExactly(cfg: Config, ids: seq<byte>, transMax: nat, k: nat, j: nat)
    requires k <= j <= |ids| && AllAnswered(cfg, ids, transMax, j) && (j < |ids| ==> !CanAnswer(cfg, ids, transMax, j))
    ensures AllKnown(cfg, ids, k)
    ensures ReadError(cfg, ids, transMax, k) ==
      if j == |ids| then 0
      else if ids[j] >= |cfg.access| then 1
      else if AnswerUpTo(cfg, ids, j) + cfg.access[ids[j]].size + 1 > transMax then 3
      else if cfg.access[ids[j]].canWrite then 2 else 1
    decreases j - k
  {
    if k < j {
      assert CanAnswer(cfg, ids, transMax, k);
      ReadExactly(cfg, ids, transMax, k + 1, j);
    }
  }

  /** There is such a first one, or none. */
  lemma {:induction false} FirstRefused(cfg: Config, ids: seq<byte>, transMax: nat, k: nat) returns (j: nat)
    requires k <= |ids| && AllAnswered(cfg, ids, transMax, k)
    ensures k <= j <= |ids| && AllAnswered(cfg, ids, transMax, j) && (j < |ids| ==> !CanAnswer(cfg, ids, transMax, j))
    decreases |ids| - k
  {
    if k < |ids| && CanAnswer(cfg, ids, transMax, k) {
      j := FirstRefused(cfg, ids, transMax, k + 1);
    } else {
      j := k;
    }
  }
}
