/** What the device does to its parameters, its keys and the announced download, as a history of effects: a
    command executed, full transmission power restored, or the results of an install session written. */
module StoreEffects {
  import opened Bytes
  import opened Params
  import opened AdmSession

  const READ_PARAM: byte := 0x10
  const WRITE_PARAM: byte := 0x20
  const WRITE_KEY: byte := 0x28
  const ANNDOWNLOAD: byte := 0x30
  const EXECINSTPING: byte := 0x40

  const KEY_MOB := 16
  const KEY_MAC := 17
  const KEY_LOG := 18
  const ANN_SIZE := 42

  const TX_POWER := 0x10
  const TX_DELAY_FULLPOWER := 0x11
  const TX_FREQ_OFFSET := 0x12
  const CLOCK_CURRENT_EPOC := 0x20
  const PING_LAST_EPOCH := 0x34
  const PING_NBFOUND := 0x35
  const PING_REPLY1 := 0x36
  const EXECPING_PERIODE := 0x3E
  const NB_PING_REPLY := 8
  const MAX_POWER: byte := 0

  /** What is changed: the parameters, the keys and the announced download. */
  datatype Store = Store(values: seq<byte>, keys: map<nat, seq<byte>>, announced: seq<byte>)

  predicate Readable256(c: Cmd) {
    Readable(c.mem, c.n)
  }

  /** The parameters that the device writes itself are in the table, with these sizes. */
  predicate OwnParameters(cfg: Config) {
    && |cfg.access| > EXECPING_PERIODE
    && cfg.access[TX_POWER].size == 1 && cfg.access[TX_DELAY_FULLPOWER].size == 2 && cfg.access[EXECPING_PERIODE].size == 1
    && cfg.access[TX_FREQ_OFFSET].size == 2 && cfg.access[CLOCK_CURRENT_EPOC].size == 4
    && cfg.access[PING_LAST_EPOCH].size == 4 && cfg.access[PING_NBFOUND].size == 1
    && forall id :: PING_REPLY1 <= id < PING_REPLY1 + NB_PING_REPLY ==> cfg.access[id].size == 9
  }

  datatype Option<T> = None | Some(value: T)

  /** What the pongs of an install session have left: the clock and the frequency offset, if they are to be
      adjusted, the replies, worst last, the time of the ping and the number of pongs. */
  datatype Pongs = Pongs(clock: Option<seq<byte>>, offset: Option<seq<byte>>, replies: seq<seq<byte>>, epoch: seq<byte>, found: byte)
  {
    predicate Valid() {
      && (clock.Some? ==> |clock.value| == 4) && (offset.Some? ==> |offset.value| == 2)
      && |replies| == NB_PING_REPLY && (forall i :: 0 <= i < NB_PING_REPLY ==> |replies[i]| == 9) && |epoch| == 4
    }
  }

  /** The replies from the last down to number n. */
  function ReplyWrites(p: Pongs, n: nat): (es: seq<Entry>)
    requires p.Valid() && n <= NB_PING_REPLY
    ensures |es| == NB_PING_REPLY - n
    ensures forall i :: 0 <= i < |es| ==> es[i] == Entry(PING_REPLY1 + NB_PING_REPLY - 1 - i, p.replies[NB_PING_REPLY - 1 - i])
    decreases NB_PING_REPLY - n
  {
    if n == NB_PING_REPLY then [] else ReplyWrites(p, n + 1) + [Entry(PING_REPLY1 + n, p.replies[n])]
  }

  /** What InstInt_End writes, in its order. */
  function InstallWrites(p: Pongs): seq<Entry>
    requires p.Valid()
  {
    (if p.clock.Some? then [Entry(CLOCK_CURRENT_EPOC, p.clock.value)] else [])
    + (if p.offset.Some? then [Entry(TX_FREQ_OFFSET, p.offset.value)] else [])
    + ReplyWrites(p, 0) + [Entry(PING_LAST_EPOCH, p.epoch), Entry(PING_NBFOUND, [p.found])]
  }

  lemma InstallWritesFit(cfg: Config, p: Pongs)
    requires OwnParameters(cfg) && p.Valid()
    ensures AllFit(cfg, InstallWrites(p))
  {
    var a := if p.clock.Some? then [Entry(CLOCK_CURRENT_EPOC, p.clock.value)] else [];
    var b := if p.offset.Some? then [Entry(TX_FREQ_OFFSET, p.offset.value)] else [];
    var c := ReplyWrites(p, 0);
    var d := [Entry(PING_LAST_EPOCH, p.epoch), Entry(PING_NBFOUND, [p.found])];
    assert AllFit(cfg, a) && AllFit(cfg, b) && AllFit(cfg, c) && AllFit(cfg, d);
    AllFitConcat(cfg, a, b);
    AllFitConcat(cfg, a + b, c);
    AllFitConcat(cfg, a + b + c, d);
  }

  lemma AllFitConcat(cfg: Config, a: seq<Entry>, b: seq<Entry>)
    requires AllFit(cfg, a) && AllFit(cfg, b)
    ensures AllFit(cfg, a + b)
  {
  }

  predicate AllFit(cfg: Config, es: seq<Entry>) {
    forall i {:trigger es[i]} :: 0 <= i < |es| ==> Fits(cfg, es[i])
  }

  function StoredAll(cfg: Config, values: seq<byte>, es: seq<Entry>): (r: seq<byte>)
    requires WellFormed(cfg, |values|) && AllFit(cfg, es)
    ensures |r| == |values|
    decreases |es|
  {
    if es == [] then values else StoredAll(cfg, Stored(cfg, values, es[0].id, es[0].value), es[1..])
  }

  /** One more write. */
  lemma {:induction false} StoredAllMore(cfg: Config, values: seq<byte>, a: seq<Entry>, e: Entry)
    requires WellFormed(cfg, |values|) && AllFit(cfg, a) && Fits(cfg, e)
    ensures AllFit(cfg, a + [e]) && StoredAll(cfg, values, a + [e]) == Stored(cfg, StoredAll(cfg, values, a), e.id, e.value)
    decreases |a|
  {
    hide Stored;
    if a == [] {
      assert a + [e] == [e];
      assert [e][1..] == [];
    } else {
      StoredAllMore(cfg, Stored(cfg, values, a[0].id, a[0].value), a[1..], e);
      assert (a + [e])[1..] == a[1..] + [e];
    }
  }

  /** The effect of executing a command; none on an answer that reports an error. */
  function Executed(cfg: Config, s: Store, c: Cmd): (r: Store)
    requires WellFormed(cfg, |s.values|) && Readable256(c)
    ensures |r.values| == |s.values|
  {
    if c.mem[0] == WRITE_PARAM then s.(values := Commanded(cfg, s.values, c.mem, c.n))
    else if c.mem[0] == WRITE_KEY then
      if c.mem[1] == 1 then s.(keys := s.keys[KEY_MOB := c.mem[2..34]])
      else if c.mem[1] == 2 then s.(keys := s.keys[KEY_MAC := c.mem[2..34]])
      else s
    else if c.mem[0] == ANNDOWNLOAD then s.(keys := s.keys[KEY_LOG := c.mem[4..20]], announced := c.mem[..ANN_SIZE])
    else s
  }

  // ---------- the history ----------

  /** Execute is the k-th command taken, which is c. */
  datatype Effect = Execute(k: nat, c: Cmd) | FullPower | Installed(p: Pongs)

  predicate EffectOk(e: Effect) {
    (e.Execute? ==> Readable256(e.c)) && (e.Installed? ==> e.p.Valid())
  }

  predicate HistoryOk(h: seq<Effect>) {
    forall i {:trigger h[i]} :: 0 <= i < |h| ==> EffectOk(h[i])
  }

  function Applied(cfg: Config, s: Store, e: Effect): (r: Store)
    requires WellFormed(cfg, |s.values|) && OwnParameters(cfg) && EffectOk(e)
    ensures |r.values| == |s.values|
  {
    match e
    case Execute(_, c) => Executed(cfg, s, c)
    case FullPower => s.(values := Stored(cfg, s.values, TX_POWER, [MAX_POWER]))
    case Installed(p) =>
      InstallWritesFit(cfg, p);
      s.(values := StoredAll(cfg, s.values, InstallWrites(p)))
  }

  /** The store after a history. */
  function After(cfg: Config, s: Store, h: seq<Effect>): (r: Store)
    requires WellFormed(cfg, |s.values|) && OwnParameters(cfg) && HistoryOk(h)
    ensures |r.values| == |s.values|
  {
    if h == [] then s else
      assert forall i {:trigger h[..|h| - 1][i]} :: 0 <= i < |h| - 1 ==> h[..|h| - 1][i] == h[i];
      Applied(cfg, After(cfg, s, h[..|h| - 1]), h[|h| - 1])
  }

  lemma AfterOne(cfg: Config, s: Store, h: seq<Effect>, e: Effect)
    requires WellFormed(cfg, |s.values|) && OwnParameters(cfg) && HistoryOk(h) && EffectOk(e)
    ensures HistoryOk(h + [e]) && After(cfg, s, h + [e]) == Applied(cfg, After(cfg, s, h), e)
  {
    hide Applied, EffectOk;
    assert (h + [e])[..|h|] == h;
  }

  /** Commands are executed in the order in which they have been taken, none of them twice. */
  ghost predicate InOrder(h: seq<Effect>, accepted: seq<Cmd>) {
    && (forall i {:trigger h[i]} :: 0 <= i < |h| && h[i].Execute? ==> h[i].k < |accepted| && h[i].c == accepted[h[i].k])
    && (forall i, j :: 0 <= i < j < |h| && h[i].Execute? && h[j].Execute? ==> h[i].k < h[j].k)
  }

  /** The commands from the k-th on have not been executed. */
  ghost predicate NotYet(h: seq<Effect>, k: nat) {
    forall i {:trigger h[i]} :: 0 <= i < |h| && h[i].Execute? ==> h[i].k < k
  }

  lemma NotYetLater(h: seq<Effect>, k: nat, m: nat)
    requires NotYet(h, k) && k <= m
    ensures NotYet(h, m)
  {
  }

  /** A command that has just been taken. */
  lemma InOrderTaken(h: seq<Effect>, accepted: seq<Cmd>, c: Cmd)
    requires InOrder(h, accepted)
    ensures InOrder(h, accepted + [c]) && NotYet(h, |accepted|)
  {
  }

  /** One more effect. */
  lemma InOrderMore(h: seq<Effect>, accepted: seq<Cmd>, e: Effect)
    requires InOrder(h, accepted)
    requires e.Execute? ==> NotYet(h, e.k) && e.k < |accepted| && e.c == accepted[e.k]
    ensures InOrder(h + [e], accepted)
    ensures e.Execute? ==> NotYet(h + [e], e.k + 1)
    ensures !e.Execute? ==> forall k: nat :: NotYet(h, k) ==> NotYet(h + [e], k)
  {
    var g := h + [e];
    assert forall i {:trigger g[i]} :: 0 <= i < |g| ==> g[i] == if i < |h| then h[i] else e;
  }

  /** No command taken has the counter of the one before it. */
  ghost predicate CountersDiffer(accepted: seq<Cmd>) {
    forall k :: 0 < k < |accepted| ==> accepted[k].id != accepted[k - 1].id
  }

  /** How often the k-th command has been executed. */
  function Executions(h: seq<Effect>, k: nat): nat {
    if h == [] then 0 else Executions(h[..|h| - 1], k) + if h[|h| - 1].Execute? && h[|h| - 1].k == k then 1 else 0
  }

  lemma InOrderPrefix(h: seq<Effect>, accepted: seq<Cmd>)
    requires InOrder(h, accepted) && h != []
    ensures InOrder(h[..|h| - 1], accepted)
  {
    var g := h[..|h| - 1];
    assert forall i {:trigger g[i]} :: 0 <= i < |g| ==> g[i] == h[i];
  }

  lemma {:induction false} NoExecution(h: seq<Effect>, k: nat)
    requires NotYet(h, k)
    ensures Executions(h, k) == 0
  {
    if h != [] {
      var g := h[..|h| - 1];
      assert forall i :: 0 <= i < |g| ==> g[i] == h[i];
      NoExecution(g, k);
    }
  }

  /** In such a history no command is executed twice. */
  lemma {:induction false} AtMostOnce(h: seq<Effect>, accepted: seq<Cmd>, k: nat)
    requires InOrder(h, accepted)
    ensures Executions(h, k) <= 1
  {
    if h != [] {
      var g := h[..|h| - 1];
      InOrderPrefix(h, accepted);
      AtMostOnce(g, accepted, k);
      if h[|h| - 1].Execute? && h[|h| - 1].k == k {
        assert forall i :: 0 <= i < |g| ==> g[i] == h[i];
        NoExecution(g, k);
      }
    }
  }

  // ---------- conformity over a history ----------

  /** The device's own writes are admitted by the restrictions of their parameters. */
  ghost predicate OwnWritesConform(cfg: Config, e: Effect)
    requires RestrictionsOk(cfg) && Separate(cfg) && EffectOk(e)
  {
    match e
    case Execute(_, _) => true
    case FullPower => AdmitsAll(cfg, [Entry(TX_POWER, [MAX_POWER])])
    case Installed(p) => AdmitsAll(cfg, InstallWrites(p))
  }

  ghost predicate AdmitsAll(cfg: Config, es: seq<Entry>)
    requires RestrictionsOk(cfg) && Separate(cfg)
  {
    forall i {:trigger es[i]} :: 0 <= i < |es| ==>
      Fits(cfg, es[i]) && (Restricted(cfg, es[i].id) ==> Admits(cfg.restr[cfg.access[es[i].id].restId], es[i].value))
  }

  lemma {:induction false} StoredAllConforms(cfg: Config, values: seq<byte>, es: seq<Entry>)
    requires WellFormed(cfg, |values|) && Separate(cfg) && AllConform(cfg, values)
    requires AllFit(cfg, es) && AdmitsAll(cfg, es)
    ensures AllConform(cfg, StoredAll(cfg, values, es))
    decreases |es|
  {
    hide Stored, AllConform, Admits;
    if es != [] {
      StoreKeepsConform(cfg, values, es[0]);
      StoredAllConforms(cfg, Stored(cfg, values, es[0].id, es[0].value), es[1..]);
    }
  }

  lemma AppliedConforms(cfg: Config, s: Store, e: Effect)
    requires WellFormed(cfg, |s.values|) && OwnParameters(cfg) && EffectOk(e)
    requires Separate(cfg) && AllConform(cfg, s.values) && OwnWritesConform(cfg, e)
    ensures AllConform(cfg, Applied(cfg, s, e).values)
  {
    hide Stored, StoredAll, AllConform, Admits, Commanded, InstallWrites;
    match e
    case Execute(_, c) => CommandKeepsConform(cfg, s.values, c.mem, c.n);
    case FullPower =>
      var w := [Entry(TX_POWER, [MAX_POWER])];
      assert w[0] == Entry(TX_POWER, [MAX_POWER]);
      StoreKeepsConform(cfg, s.values, w[0]);
    case Installed(p) =>
      InstallWritesFit(cfg, p);
      StoredAllConforms(cfg, s.values, InstallWrites(p));
  }

  /** From conforming parameters, over any history of commands and of writes that the restrictions admit,
      every restricted parameter conforms. */
  lemma {:induction false} HistoryConforms(cfg: Config, s: Store, h: seq<Effect>)
    requires WellFormed(cfg, |s.values|) && OwnParameters(cfg) && HistoryOk(h)
    requires Separate(cfg) && AllConform(cfg, s.values)
    requires forall i {:trigger h[i]} :: 0 <= i < |h| ==> OwnWritesConform(cfg, h[i])
    ensures AllConform(cfg, After(cfg, s, h).values)
  {
    hide Applied, AllConform, OwnWritesConform;
    if h != [] {
      var g := h[..|h| - 1];
      assert forall i {:trigger g[i]} :: 0 <= i < |g| ==> g[i] == h[i];
      HistoryConforms(cfg, s, g);
      AppliedConforms(cfg, After(cfg, s, g), h[|h| - 1]);
    }
  }
}
