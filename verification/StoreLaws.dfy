/** What a history of effects leaves in the key store, the announced download and each parameter, said of the bytes of the
    commands that are in it. */
module StoreLaws {
  import opened Bytes
  import opened Params
  import opened ParamLaws
  import opened AdmSession
  import opened StoreEffects

  // ---------- keys ----------

  /** A WRITE_KEY command with that identifier, and an announcement. */
  predicate IsKeyCommand(e: Effect, keyId: byte) {
    e.Execute? && Readable256(e.c) && e.c.mem[0] == 0x28 && e.c.mem[1] == keyId
  }

  predicate IsAnnouncement(e: Effect) {
    e.Execute? && Readable256(e.c) && e.c.mem[0] == 0x30
  }

  /** The effect writes key k: identifier 1 is key 16, identifier 2 is key 17, and an announcement writes key 18. */
  predicate WritesKey(e: Effect, k: nat) {
    (k == 16 && IsKeyCommand(e, 1)) || (k == 17 && IsKeyCommand(e, 2)) || (k == 18 && IsAnnouncement(e))
  }

  /** The bytes that it writes. */
  function KeyBytes(e: Effect): (v: seq<byte>)
    requires e.Execute? && Readable256(e.c)
  {
    if e.c.mem[0] == 0x30 then e.c.mem[4..20] else e.c.mem[2..34]
  }

  /** One effect on the keys. */
  lemma EffectOnKey(cfg: Config, s: Store, e: Effect, k: nat)
    requires WellFormed(cfg, |s.values|) && OwnParameters(cfg) && EffectOk(e)
    ensures WritesKey(e, k) ==> k in Applied(cfg, s, e).keys && Applied(cfg, s, e).keys[k] == KeyBytes(e)
    ensures !WritesKey(e, k) ==> (k in Applied(cfg, s, e).keys <==> k in s.keys)
    ensures !WritesKey(e, k) && k in s.keys ==> Applied(cfg, s, e).keys[k] == s.keys[k]
  {
    hide Commanded, Stored, StoredAll, InstallWrites, AllFit;
    if e.Installed? {
      InstallWritesFit(cfg, e.p);
    }
  }

  lemma AfterLast(cfg: Config, s: Store, h: seq<Effect>)
    requires WellFormed(cfg, |s.values|) && OwnParameters(cfg) && HistoryOk(h) && h != []
    ensures HistoryOk(h[..|h| - 1]) && EffectOk(h[|h| - 1])
    ensures After(cfg, s, h) == Applied(cfg, After(cfg, s, h[..|h| - 1]), h[|h| - 1])
  {
    hide Applied, EffectOk;
    assert forall i {:trigger h[..|h| - 1][i]} :: 0 <= i < |h| - 1 ==> h[..|h| - 1][i] == h[i];
  }

  /** Key k after a history: what the last effect that writes it, the n-th, has written; and what it was at the start
      when there is none (n is 0). */
  lemma {:induction false} KeyAfter(cfg: Config, s: Store, h: seq<Effect>, k: nat, n: nat)
    requires WellFormed(cfg, |s.values|) && OwnParameters(cfg) && HistoryOk(h) && n <= |h|
    requires (n > 0 ==> WritesKey(h[n - 1], k)) && forall i :: n <= i < |h| ==> !WritesKey(h[i], k)
    ensures n > 0 ==> k in After(cfg, s, h).keys && After(cfg, s, h).keys[k] == KeyBytes(h[n - 1])
    ensures n == 0 ==> (k in After(cfg, s, h).keys <==> k in s.keys) && (k in s.keys ==> After(cfg, s, h).keys[k] == s.keys[k])
    decreases |h|
  {
    hide Applied, After, WritesKey, KeyBytes;
    if h == [] {
      NothingDone(cfg, s);
    } else {
      AfterLast(cfg, s, h);
      var g := h[..|h| - 1];
      EffectOnKey(cfg, After(cfg, s, g), h[|h| - 1], k);
      if n < |h| {
        KeyAfter(cfg, s, g, k, n);
      }
    }
  }

  lemma NothingDone(cfg: Config, s: Store)
    requires WellFormed(cfg, |s.values|) && OwnParameters(cfg)
    ensures After(cfg, s, []) == s
  {
  }

  // ---------- the announcement ----------

  lemma EffectOnAnnounced(cfg: Config, s: Store, e: Effect)
    requires WellFormed(cfg, |s.values|) && OwnParameters(cfg) && EffectOk(e)
    ensures Applied(cfg, s, e).announced == if IsAnnouncement(e) then e.c.mem[..42] else s.announced
  {
    hide Commanded, Stored, StoredAll, InstallWrites, AllFit;
    if e.Installed? {
      InstallWritesFit(cfg, e.p);
    }
  }

  /** The announced download after a history: the bytes of the last announcement, the n-th effect, or none yet. */
  lemma {:induction false} AnnouncedAfter(cfg: Config, s: Store, h: seq<Effect>, n: nat)
    requires WellFormed(cfg, |s.values|) && OwnParameters(cfg) && HistoryOk(h) && n <= |h|
    requires (n > 0 ==> IsAnnouncement(h[n - 1])) && forall i :: n <= i < |h| ==> !IsAnnouncement(h[i])
    ensures After(cfg, s, h).announced == if n > 0 then h[n - 1].c.mem[..42] else s.announced
    decreases |h|
  {
    hide Applied, After, IsAnnouncement;
    if h == [] {
      NothingDone(cfg, s);
    } else {
      AfterLast(cfg, s, h);
      var g := h[..|h| - 1];
      EffectOnAnnounced(cfg, After(cfg, s, g), h[|h| - 1]);
      if n < |h| {
        AnnouncedAfter(cfg, s, g, n);
      } else {
        AnnouncementReadable(h[|h| - 1]);
      }
    }
  }

  lemma AnnouncementReadable(e: Effect)
    requires IsAnnouncement(e)
    ensures e.Execute? && |e.c.mem| >= 42
  {
  }

  // ---------- parameters ----------

  lemma {:induction false} LastForConcat(a: seq<Entry>, b: seq<Entry>, id: nat, v: seq<byte>)
    ensures LastFor(a + b, id, v) == LastFor(b, id, LastFor(a, id, v))
    decreases |a|
  {
    if a == [] {
      assert a + b == b;
    } else {
      assert (a + b)[0] == a[0] && (a + b)[1..] == a[1..] + b;
      LastForConcat(a[1..], b, id, if a[0].id == id then a[0].value else v);
    }
  }

  lemma LastForOne(e: Entry, id: nat, v: seq<byte>)
    ensures LastFor([e], id, v) == if e.id == id then e.value else v
  {
    assert [e][1..] == [];
  }

  lemma {:induction false} StoredAllValues(cfg: Config, values: seq<byte>, es: seq<Entry>, id: nat)
    requires WellFormed(cfg, |values|) && Separate(cfg) && AllFit(cfg, es) && id < |cfg.access|
    ensures ValueOf(cfg, StoredAll(cfg, values, es), id) == LastFor(es, id, ValueOf(cfg, values, id))
    decreases |es|
  {
    hide Stored, ValueOf, Separate;
    if es != [] {
      StoredValues(cfg, values, es[0], id);
      StoredAllValues(cfg, Stored(cfg, values, es[0].id, es[0].value), es[1..], id);
    }
  }

  /** What the results of an install session leave in a parameter: the clock 0x20 and the frequency offset 0x12 if they are
      to be adjusted, the replies from 0x36 to 0x3D in the order of the list, the time 0x34 and the number 0x35. */
  function InstalledValue(p: Pongs, id: nat, v: seq<byte>): seq<byte>
    requires p.Valid()
  {
    if id == 0x20 && p.clock.Some? then p.clock.value
    else if id == 0x12 && p.offset.Some? then p.offset.value
    else if 0x36 <= id < 0x3E then p.replies[id - 0x36]
    else if id == 0x34 then p.epoch
    else if id == 0x35 then [p.found]
    else v
  }

  lemma RepliesValue(p: Pongs, id: nat, v: seq<byte>)
    requires p.Valid()
    ensures LastFor(ReplyWrites(p, 0), id, v) == if 0x36 <= id < 0x3E then p.replies[id - 0x36] else v
  {
    var es := ReplyWrites(p, 0);
    LastForIs(es, id, v, if 0x36 <= id < 0x3E then 0x3E - id else 0);
  }

  lemma InstallValues(p: Pongs, id: nat, v: seq<byte>)
    requires p.Valid()
    ensures LastFor(InstallWrites(p), id, v) == InstalledValue(p, id, v)
  {
    hide LastFor;
    var a := if p.clock.Some? then [Entry(CLOCK_CURRENT_EPOC, p.clock.value)] else [];
    var b := if p.offset.Some? then [Entry(TX_FREQ_OFFSET, p.offset.value)] else [];
    var c := ReplyWrites(p, 0);
    var e, f := Entry(PING_LAST_EPOCH, p.epoch), Entry(PING_NBFOUND, [p.found]);
    assert InstallWrites(p) == a + b + c + [e, f];
    var va := LastFor(a, id, v);
    var vb := LastFor(b, id, va);
    var vc := LastFor(c, id, vb);
    NoEntry(id, v);
    NoEntry(id, va);
    if p.clock.Some? {
      LastForOne(a[0], id, v);
    }
    if p.offset.Some? {
      LastForOne(b[0], id, va);
    }
    RepliesValue(p, id, vb);
    LastForConcat(a, b, id, v);
    LastForConcat(a + b, c, id, v);
    LastForConcat(a + b + c, [e, f], id, v);
    LastForConcat([e], [f], id, vc);
    LastForOne(e, id, vc);
    LastForOne(f, id, LastFor([e], id, vc));
    assert [e] + [f] == [e, f];
  }

  lemma NoEntry(id: nat, v: seq<byte>)
    ensures LastFor([], id, v) == v
  {
  }

  /** What one effect leaves in a parameter that held v: a fine write command the last of its values for it, full power
      a zero in 0x10, an install session its results; everything else nothing. */
  function ValueBy(cfg: Config, e: Effect, id: nat, v: seq<byte>): seq<byte>
    requires RestrictionsOk(cfg) && EffectOk(e)
  {
    match e
    case Execute(_, c) =>
      if c.mem[0] == 0x20 && Checked(cfg, c.mem, c.n, 1) == Fine then LastFor(Entries(cfg, c.mem, c.n, 1), id, v) else v
    case FullPower => if id == 0x10 then [0] else v
    case Installed(p) => InstalledValue(p, id, v)
  }

  lemma EffectOnValue(cfg: Config, s: Store, e: Effect, id: nat)
    requires WellFormed(cfg, |s.values|) && OwnParameters(cfg) && Separate(cfg) && EffectOk(e) && id < |cfg.access|
    ensures ValueOf(cfg, Applied(cfg, s, e).values, id) == ValueBy(cfg, e, id, ValueOf(cfg, s.values, id))
  {
    hide Commanded, Stored, StoredAll, InstallWrites, AllFit, ValueOf, Separate, Checked, Entries, LastFor, InstalledValue;
    match e
    case Execute(_, c) =>
      if c.mem[0] == WRITE_PARAM {
        CommandedValues(cfg, s.values, c.mem, c.n, id);
      }
    case FullPower =>
      StoredValues(cfg, s.values, Entry(TX_POWER, [MAX_POWER]), id);
    case Installed(p) =>
      InstallWritesFit(cfg, p);
      StoredAllValues(cfg, s.values, InstallWrites(p), id);
      InstallValues(p, id, ValueOf(cfg, s.values, id));
  }

  function ValueByAll(cfg: Config, h: seq<Effect>, id: nat, v: seq<byte>): seq<byte>
    requires RestrictionsOk(cfg) && HistoryOk(h)
  {
    if h == [] then v else
      assert forall i {:trigger h[..|h| - 1][i]} :: 0 <= i < |h| - 1 ==> h[..|h| - 1][i] == h[i];
      ValueBy(cfg, h[|h| - 1], id, ValueByAll(cfg, h[..|h| - 1], id, v))
  }

  /** Each parameter after a history, on its own. */
  lemma {:induction false} ValueAfter(cfg: Config, s: Store, h: seq<Effect>, id: nat)
    requires WellFormed(cfg, |s.values|) && OwnParameters(cfg) && Separate(cfg) && HistoryOk(h) && id < |cfg.access|
    ensures ValueOf(cfg, After(cfg, s, h).values, id) == ValueByAll(cfg, h, id, ValueOf(cfg, s.values, id))
    decreases |h|
  {
    hide Applied, After, ValueBy, ValueOf, Separate, EffectOk;
    if h == [] {
      NothingDone(cfg, s);
    } else {
      AfterLast(cfg, s, h);
      var g := h[..|h| - 1];
      ValueAfter(cfg, s, g, id);
      EffectOnValue(cfg, After(cfg, s, g), h[|h| - 1], id);
    }
  }
}
