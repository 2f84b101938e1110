/** Commands in ses_dispatcher.c and adm_internal.c: a command is checked and answered when it arrives, and
    executed when its answer has been sent, at most once for each counter value. */
module Dispatcher {
  import opened Bytes
  import opened Params
  import opened ParamLaws
  import opened ParamTable
  import opened AdmSession
  import opened StoreEffects
  import opened SesTurn

  class SesDisp {
    const table: Table
    const adm: Session
    var keys: map<nat, seq<byte>>
    var announced: seq<byte>
    var rsp: Rsp                // sRspMsg
    var cmdPending: bool        // SES_ADM_CMD_PEND
    var rspPending: bool        // SES_ADM_RSP_PEND
    var active: Active
    var periodInst: nat         // u16PeriodInst
    var fullPower: nat          // u16FullPower
    ghost const start: Store            // what there was at the start
    ghost var accepted: seq<Cmd>        // the commands taken as new, in order
    ghost var history: seq<Effect>      // all that has been done to the store, in order

    constructor (cfg: Config, defaults: seq<byte>, first: Cmd)
      requires WellFormed(cfg, |defaults|) && OwnParameters(cfg) && Readable256(first)
      ensures Valid() && fresh(table) && fresh(table.values) && fresh(adm) && accepted == [] && history == []
      ensures start == Store(defaults, map[], []) && table.cfg == cfg && rsp == Rsp(0, 0, 0) && !cmdPending
      ensures active == Nobody && adm.state == Idle
    {
      table := new Table(cfg, defaults);
      adm := new Session(first);
      keys, announced, rsp := map[], [], Rsp(0, 0, 0);
      cmdPending, rspPending, active := false, false, Nobody;
      periodInst, fullPower := 0, 0;
      start, accepted, history := Store(defaults, map[], []), [], [];
    }

    function Now(): Store
      reads this`keys, this`announced, table.values
    {
      Store(table.values[..], keys, announced)
    }

    ghost function Ses(): Sessions
      reads this`active, adm
    {
      Sessions(active, adm.state, adm.pending, adm.ready, adm.byPass)
    }

    ghost function Seen(): View
      requires table.Valid() && OwnParameters(table.cfg)
      reads this, table, table.values, adm
    {
      View(Ses(), adm.cmd, rsp, cmdPending, accepted, history, fullPower, FullPowerDays())
    }

    /** A pending command is the last one taken, it has not been executed, and the response is about it. */
    ghost predicate PendingOk()
      requires RestrictionsOk(table.cfg)
      reads this`cmdPending, this`accepted, this`history, this`rsp, adm
    {
      cmdPending ==>
        && accepted != [] && NotYet(history, |accepted| - 1)
        && Readable256(accepted[|accepted| - 1]) && Answers(table.cfg, rsp, accepted[|accepted| - 1])
        && (adm.Answering() ==> adm.cmd == accepted[|accepted| - 1])
    }

    /** The response is to the last command taken, and each command has another counter than the one before. */
    ghost predicate CountersOk()
      reads this`accepted, this`rsp
    {
      CountersDiffer(accepted) && (accepted != [] ==> rsp.id == accepted[|accepted| - 1].id)
    }

    /** The store is what the history has made of the start, and the commands in it are in order. */
    ghost predicate StoreOk()
      requires WellFormed(table.cfg, table.values.Length) && OwnParameters(table.cfg)
      reads this`keys, this`announced, this`history, this`accepted, table.values
    {
      && |start.values| == table.values.Length && HistoryOk(history) && InOrder(history, accepted)
      && Now() == After(table.cfg, start, history)
    }

    ghost predicate Valid()
      reads this, table, table.values, adm
    {
      && table.Valid() && OwnParameters(table.cfg) && adm.Valid() && Readable256(adm.cmd)
      && CountersOk() && StoreOk() && PendingOk()
    }

    /** Another effect on the store. */
    lemma Later(h: seq<Effect>, e: Effect)
      requires table.Valid() && OwnParameters(table.cfg) && |start.values| == table.values.Length
      requires HistoryOk(h) && EffectOk(e) && InOrder(h, accepted)
      requires e.Execute? ==> NotYet(h, e.k) && e.k < |accepted| && e.c == accepted[e.k]
      ensures HistoryOk(h + [e]) && InOrder(h + [e], accepted)
      ensures After(table.cfg, start, h + [e]) == Applied(table.cfg, After(table.cfg, start, h), e)
      ensures !e.Execute? ==> forall k: nat :: NotYet(h, k) ==> NotYet(h + [e], k)
    {
      hide After, Applied, EffectOk, InOrder, NotYet;
      AfterOne(table.cfg, start, h, e);
      InOrderMore(h, accepted, e);
    }

    /** The network writes a frame into the command buffer. */
    method Deliver(c: Cmd)
      requires Valid() && adm.state == Listening && Readable256(c)
      modifies adm`cmd
      ensures Valid() && Seen() == old(Seen()).(cmd := c) && Now() == old(Now())
    {
      hide StoreOk, Answers;
      adm.Deliver(c);
    }

    // ---------- commands ----------

    /** AdmInt_PreCmd: a counter that differs from the response's is taken as new, checked and answered. With
        the same counter, the response is left as it is (a ping excepted, which is answered only now). */
    method PreCmd(w: World) returns (ret: nat)
      requires table.Valid() && Readable256(adm.cmd)
      modifies this`rsp, this`accepted
      ensures ret <= 2
      ensures ret == 2 <==> adm.cmd.id == old(rsp.id)
      ensures ret == 2 ==> accepted == old(accepted) && rsp.id == old(rsp.id)
      ensures ret == 2 && adm.cmd.mem[0] != EXECINSTPING ==> rsp == old(rsp)
      ensures ret != 2 ==> accepted == old(accepted) + [adm.cmd] && rsp.id == adm.cmd.id
      ensures ret == 0 <==> ret != 2 && adm.cmd.mem[0] == EXECINSTPING
      ensures ret <= 1 ==> Answers(table.cfg, rsp, adm.cmd) && (adm.cmd.mem[0] == ANNDOWNLOAD ==> rsp.error == w.annError)
      ensures ret <= 1 && adm.cmd.mem[0] == 0x28 ==> rsp.error == if adm.cmd.mem[1] == 1 || adm.cmd.mem[1] == 2 then 0 else 2
      ensures ret <= 1 && adm.cmd.mem[0] !in {0x10, 0x20, 0x28, 0x30, 0x40} ==> rsp.to == adm.cmd.mem[0] && rsp.error == 0xFF
      ensures ret <= 1 && adm.cmd.mem[0] == READ_PARAM ==> rsp.error == ReadError(table.cfg, ReadIds(adm.cmd), w.transMax, 0)
    {
      hide Checked, ReadError;
      ret := 1;
      var c := adm.cmd;
      if c.id != rsp.id {
        accepted := accepted + [c];
        rsp := rsp.(id := c.id);
        if c.mem[0] == READ_PARAM {
          var error := CheckRead(c, w.transMax);
          rsp := Rsp(c.id, READ_PARAM, error);
        } else if c.mem[0] == WRITE_PARAM {
          var v := table.CheckCommand(c.mem, c.n);
          rsp := Rsp(c.id, WRITE_PARAM, WriteError(v));
        } else if c.mem[0] == WRITE_KEY {
          rsp := Rsp(c.id, WRITE_KEY, if c.mem[1] != 1 && c.mem[1] != 2 then 2 else 0);
        } else if c.mem[0] == ANNDOWNLOAD {
          rsp := Rsp(c.id, ANNDOWNLOAD, w.annError);
        } else if c.mem[0] == EXECINSTPING {
          ret := 0;
        } else {
          rsp := Rsp(c.id, c.mem[0], 0xFF);
        }
      } else {
        if c.mem[0] == EXECINSTPING {
          rsp := Rsp(rsp.id, EXECINSTPING, 0);
        }
        ret := 2;
      }
    }

    /** The error code of _adm_read_param_: the answer's five bytes of header are followed by the entries. */
    method CheckRead(c: Cmd, transMax: nat) returns (error: nat)
      requires table.Valid() && Readable256(c)
      ensures error == ReadError(table.cfg, ReadIds(c), transMax, 0)
    {
      error := 0;
      var nb := (c.n + 255) % 256;
      var ids := c.mem[1..1 + nb];
      var idx, out := 0, 5;
      while idx < nb
        invariant 0 <= idx <= nb && AllKnown(table.cfg, ids, idx) && out == AnswerUpTo(table.cfg, ids, idx)
        invariant ReadError(table.cfg, ids, transMax, 0) == ReadError(table.cfg, ids, transMax, idx)
      {
        if ids[idx] >= |table.cfg.access| {
          return 1;
        }
        var a := table.cfg.access[ids[idx]];
        if out + a.size + 1 > transMax {
          return 3;
        }
        if !a.canRead {
          return if !a.canWrite then 1 else 2;
        }
        idx, out := idx + 1, out + 1 + a.size;
      }
    }

    /** _ses_disp_postCmd_: nothing is executed when the response reports an error. */
    method PostCmd()
      requires table.Valid() && Readable256(adm.cmd) && Answers(table.cfg, rsp, adm.cmd)
      modifies table.values, this`keys, this`announced
      ensures Now() == if rsp.error == 0 then Executed(table.cfg, old(Now()), adm.cmd) else old(Now())
    {
      hide Checked, Replayed;
      var c := adm.cmd;
      if rsp.error == 0 {
        if c.mem[0] == READ_PARAM {
        } else if c.mem[0] == WRITE_PARAM {
          table.ReplayCommand(c.mem, c.n);
        } else if c.mem[0] == WRITE_KEY {
          if c.mem[1] == 1 {
            keys := keys[KEY_MOB := c.mem[2..34]];
          } else if c.mem[1] == 2 {
            keys := keys[KEY_MAC := c.mem[2..34]];
          }
        } else if c.mem[0] == ANNDOWNLOAD {
          keys := keys[KEY_LOG := c.mem[4..20]];
          announced := c.mem[..ANN_SIZE];
        }
      }
    }

    /** The command is checked, and what is pending is noted. A command whose counter is the response's takes
        back an execution that is still pending. */
    method Noted(w: World) returns (ret: nat)
      requires Valid() && !adm.Answering()
      modifies this`rsp, this`accepted, this`cmdPending, this`rspPending
      ensures Valid() && (ret == 0 <==> !old(Seen()).IsAnswered())
      ensures ret != 0 && cmdPending ==> adm.cmd == accepted[|accepted| - 1]
      ensures Looked(table.cfg, adm.cmd, w, old(rsp), old(accepted), rsp, accepted) && cmdPending == old(Seen()).PendingAfter(Heard)
      ensures rspPending == (adm.cmd.id != old(rsp.id) && (old(rspPending) || adm.cmd.mem[0] == EXECINSTPING))
    {
      hide Checked, Answers, After, HistoryOk, InOrder, NotYet, FullPowerDays;
      InOrderTaken(history, accepted, adm.cmd);
      ret := PreCmd(w);
      if ret == 0 {
        rspPending := true;
      } else {
        if ret == 1 {
          cmdPending := true;
        } else {
          cmdPending, rspPending := false, false;
        }
      }
    }

    /** The response is declared ready. */
    method Signal(w: World)
      requires Valid() && (cmdPending ==> adm.cmd == accepted[|accepted| - 1])
      modifies adm`state, adm`pending, adm`ready, adm`byPass
      ensures Valid() && Ses() == old(Ses()).(ready := true)
    {
      hide StoreOk, Answers, NextState, NextPending, NextReady;
      ReadyFacts(adm.state, w.env, adm.pending, true, adm.byPass);
      var f := adm.Fsm(READY, w.env);
    }

    /** SES_FLG_CMD_RECV: the command is checked and, unless it is a new ping, its response may go. */
    method Received(w: World)
      requires Valid() && !adm.Answering()
      modifies this`rsp, this`accepted, this`cmdPending, this`rspPending, this`fullPower, adm`state, adm`pending, adm`ready, adm`byPass
      ensures Valid() && fullPower == 0
      ensures Looked(table.cfg, adm.cmd, w, old(rsp), old(accepted), rsp, accepted) && cmdPending == old(Seen()).PendingAfter(Heard)
      ensures Ses() == if old(Seen()).IsAnswered() then old(Ses()).(ready := true) else old(Ses())
      ensures cmdPending == (adm.cmd.id != old(rsp.id) && (old(cmdPending) || adm.cmd.mem[0] != 0x40))
      ensures adm.ready == (old(adm.ready) || adm.cmd.id == old(rsp.id) || adm.cmd.mem[0] != 0x40)
      ensures rspPending == (adm.cmd.id != old(rsp.id) && (old(rspPending) || adm.cmd.mem[0] == EXECINSTPING))
    {
      hide StoreOk, PendingOk, CountersOk, Looked, FullPowerDays;
      var ret := Noted(w);
      if ret != 0 {
        Signal(w);
      }
      fullPower := 0;
    }

    /** SES_FLG_RSP_SENT: the pending command is executed, unless the response that has been sent reports an error. */
    method Responded()
      requires Valid() && (cmdPending ==> adm.cmd == accepted[|accepted| - 1]) && !adm.Answering()
      modifies this`cmdPending, this`history, this`keys, this`announced, table.values
      ensures Valid() && !cmdPending
      ensures history == old(history) + if old(cmdPending) && rsp.error == 0 then [Execute(|accepted| - 1, adm.cmd)] else []
    {
      hide Checked, Executed, After, HistoryOk, InOrder, NotYet, Answers;
      if cmdPending {
        ghost var e := Execute(|accepted| - 1, adm.cmd);
        Later(history, e);
        PostCmd();
        cmdPending := false;
        if rsp.error == 0 {
          history := history + [e];
        }
      }
    }

    /** The fsm of the active session. */
    method ActiveFsm(e: Event, w: World) returns (f: Flags)
      requires Valid() && !e.ready && w.Valid()
      modifies adm`state, adm`pending, adm`ready, adm`byPass
      ensures Valid()
      ensures Ses() == if active == Admin then AfterFsm(old(Ses()), e, w.env) else old(Ses())
      ensures f.complete <==> if active == Admin then Completes(old(Ses()), e, w.env) else w.other.complete
      ensures f.rspSent <==> active == Admin && old(adm.state) == Sending && !e.close && e.sendDone && old(adm.pending)
      ensures f.cmdRecv <==> active == Admin && old(adm.state) == Listening && !e.close && e.recvDone && !w.env.timerFails
      ensures f.cmdRecv || f.rspSent ==> !adm.Answering()
    {
      hide StoreOk, Answers, NextState, NextPending, NextReady;
      if active == Admin {
        f := adm.Fsm(e, w.env);
      } else {
        f := w.other;
      }
    }

    /** _ses_disp_bckflg_. */
    method BackFlag(f: Flags)
      requires Valid()
      modifies this`active
      ensures Valid() && active == if f.complete then Nobody else old(active)
    {
      hide StoreOk, Answers;
      if f.complete {
        active := Nobody;
      }
    }

    // ---------- the device's own writes ----------

    /** TX_DELAY_FULLPOWER, which is in network order. */
    function FullPowerDays(): nat
      requires table.Valid() && OwnParameters(table.cfg)
      reads table.values
    {
      var v := ValueOf(table.cfg, table.values[..], TX_DELAY_FULLPOWER);
      256 * v[0] as int + v[1] as int
    }

    /** Its two bytes in the table, the first the more significant. */
    lemma FullPowerOnBytes()
      requires table.Valid() && OwnParameters(table.cfg)
      ensures var o := table.cfg.access[0x11].offset;
        o + 1 < table.values.Length && FullPowerDays() == table.values[o] as int * 0x100 + table.values[o + 1] as int
    {
      hide Restricted;
      assert ValueOf(table.cfg, table.values[..], TX_DELAY_FULLPOWER)[0] == table.values[table.cfg.access[0x11].offset];
    }

    method ReadFullPowerDays() returns (v: nat)
      requires table.Valid() && OwnParameters(table.cfg)
      ensures v == FullPowerDays()
    {
      var d := table.LocalRead(TX_DELAY_FULLPOWER);
      v := 256 * d[0] as int + d[1] as int;
    }

    /** Full power, which is a parameter. */
    method RestorePower()
      requires Valid()
      modifies this`history, this`fullPower, table.values
      ensures Valid() && history == old(history) + [FullPower] && fullPower == 0
    {
      hide Stored, After, HistoryOk, InOrder, NotYet, Answers;
      Later(history, FullPower);
      table.LocalWrite(TX_POWER, [MAX_POWER]);
      history := history + [FullPower];
      fullPower := 0;
    }

    /** _ses_disp_OnDayPass_: after as many days without a command as TX_DELAY_FULLPOWER says, the power is at
        its maximum again. The flag of a periodic install is noted, and looked at by nothing. */
    method OnDayPass()
      requires Valid()
      modifies this`periodInst, this`fullPower, this`history, table.values
      ensures Valid()
      ensures fullPower == if old(fullPower) >= old(FullPowerDays()) then 0 else old(fullPower) + 1
      ensures history == old(history) + if old(fullPower) >= old(FullPowerDays()) then [FullPower] else []
    {
      hide StoreOk, PendingOk, CountersOk, FullPowerDays;
      var p := table.LocalRead(EXECPING_PERIODE);
      if periodInst < p[0] as int * 30 {
        periodInst := periodInst + 1;
      }
      var v := ReadFullPowerDays();
      if fullPower >= v {
        RestorePower();
      } else {
        fullPower := fullPower + 1;
      }
    }

    /** One of the writes of InstInt_End. */
    method WriteOne(ghost base: seq<byte>, ghost es: seq<Entry>, e: Entry)
      requires table.Valid() && |base| == table.values.Length && AllFit(table.cfg, es) && Fits(table.cfg, e)
      requires table.values[..] == StoredAll(table.cfg, base, es)
      modifies table.values
      ensures AllFit(table.cfg, es + [e]) && table.values[..] == StoredAll(table.cfg, base, es + [e])
    {
      hide Stored, StoredAll, AllFit;
      StoredAllMore(table.cfg, base, es, e);
      table.LocalWrite(e.id, e.value);
    }

    /** The replies, from the last down. */
    method WriteReplies(p: Pongs, ghost base: seq<byte>, ghost es: seq<Entry>)
      requires table.Valid() && OwnParameters(table.cfg) && p.Valid() && |base| == table.values.Length && AllFit(table.cfg, es)
      requires table.values[..] == StoredAll(table.cfg, base, es)
      modifies table.values
      ensures AllFit(table.cfg, es + ReplyWrites(p, 0))
      ensures table.values[..] == StoredAll(table.cfg, base, es + ReplyWrites(p, 0))
    {
      hide Stored, StoredAll, AllFit;
      var n := NB_PING_REPLY;
      assert es + ReplyWrites(p, n) == es;
      while n > 0
        invariant 0 <= n <= NB_PING_REPLY && AllFit(table.cfg, es + ReplyWrites(p, n))
        invariant table.values[..] == StoredAll(table.cfg, base, es + ReplyWrites(p, n))
      {
        n := n - 1;
        WriteOne(base, es + ReplyWrites(p, n + 1), Entry(PING_REPLY1 + n, p.replies[n]));
        assert es + ReplyWrites(p, n + 1) + [Entry(PING_REPLY1 + n, p.replies[n])] == es + ReplyWrites(p, n);
      }
    }

    method WriteAll(p: Pongs)
      requires table.Valid() && OwnParameters(table.cfg) && p.Valid()
      modifies table.values
      ensures AllFit(table.cfg, InstallWrites(p))
      ensures table.values[..] == StoredAll(table.cfg, old(table.values[..]), InstallWrites(p))
    {
      hide Stored, AllFit, StoredAll, ReplyWrites;
      ghost var base, es := table.values[..], [];
      NoWrites(table.cfg, base);
      if p.clock.Some? {
        WriteOne(base, es, Entry(CLOCK_CURRENT_EPOC, p.clock.value));
        es := es + [Entry(CLOCK_CURRENT_EPOC, p.clock.value)];
      }
      if p.offset.Some? {
        WriteOne(base, es, Entry(TX_FREQ_OFFSET, p.offset.value));
        es := es + [Entry(TX_FREQ_OFFSET, p.offset.value)];
      }
      WriteReplies(p, base, es);
      es := es + ReplyWrites(p, 0);
      WriteOne(base, es, Entry(PING_LAST_EPOCH, p.epoch));
      WriteOne(base, es + [Entry(PING_LAST_EPOCH, p.epoch)], Entry(PING_NBFOUND, [p.found]));
      assert InstallWrites(p) == es + [Entry(PING_LAST_EPOCH, p.epoch)] + [Entry(PING_NBFOUND, [p.found])];
    }

    /** InstInt_End: the results are written, if there has been a pong. */
    method WritePongs(pongs: Option<Pongs>)
      requires Valid() && (pongs.Some? ==> pongs.value.Valid())
      modifies this`history, table.values
      ensures Valid() && history == old(history) + if pongs.Some? then [Installed(pongs.value)] else []
    {
      hide Stored, StoredAll, AllFit, After, HistoryOk, InOrder, NotYet, Answers, InstallWrites;
      if pongs.Some? {
        Later(history, Installed(pongs.value));
        WriteAll(pongs.value);
        history := history + [Installed(pongs.value)];
      }
    }

    // ---------- the dispatcher ----------

    method NewPeriod()
      requires Valid()
      modifies this`periodInst
      ensures Valid()
    {
      hide StoreOk, Answers;
      periodInst := 0;
    }

    /** The pending execution is dropped, and the command in the buffer looked at again. */
    method LookAgain(w: World)
      requires Valid() && cmdPending
      modifies this`rsp, this`accepted, this`cmdPending
      ensures Valid() && !cmdPending && Looked(table.cfg, adm.cmd, w, old(rsp), old(accepted), rsp, accepted)
    {
      hide Checked, Answers, After, HistoryOk, InOrder, NotYet, FullPowerDays;
      cmdPending := false;
      InOrderTaken(history, accepted, adm.cmd);
      var ret := PreCmd(w);
    }

    /** The end of an install session. The pending flag it looks at is the one of an execution, so that one is
        dropped; the command in the buffer is then looked at again. */
    method InstallEnd(f: Flags, w: World)
      requires Valid() && w.Valid()
      modifies this`rsp, this`accepted, this`cmdPending, this`history, this`periodInst, table.values
      ensures Valid()
      ensures Handled(table.cfg, old(Seen()), if f.complete && active == Install then Ended else Quiet, w, Seen())
    {
      hide Valid, Looked, FullPowerDays;
      PendingFacts();
      if f.complete && active == Install {
        WritePongs(w.pongs);
        if cmdPending {
          LookAgain(w);
        }
        NewPeriod();
      }
    }

    /** SES_FLG_CMD_RECV and SES_FLG_RSP_SENT, which never come together. */
    method Commands(f: Flags, w: World)
      requires Valid() && (f.cmdRecv ==> !f.rspSent) && (f.cmdRecv || f.rspSent ==> !adm.Answering())
      requires f.rspSent && cmdPending ==> adm.cmd == accepted[|accepted| - 1]
      modifies this`rsp, this`accepted, this`cmdPending, this`rspPending, this`fullPower, this`history, this`keys, this`announced
      modifies adm`state, adm`pending, adm`ready, adm`byPass, table.values
      ensures Valid()
      ensures Handled(table.cfg, old(Seen()), TurnOfFlags(f), w, Seen())
      ensures Ses() == if f.cmdRecv && old(Seen()).IsAnswered() then old(Ses()).(ready := true) else old(Ses())
    {
      hide StoreOk, PendingOk, CountersOk, Checked, Answers, FullPowerDays;
      PendingFacts();
      if f.cmdRecv {
        Received(w);
      }
      if f.rspSent {
        Responded();
      }
    }

    lemma PendingFacts()
      requires Valid()
      ensures table.Valid() && OwnParameters(table.cfg) && Seen().Valid()
      ensures cmdPending && adm.Answering() ==> adm.cmd == accepted[|accepted| - 1]
    {
      hide StoreOk, Answers;
    }

    /** An event of the network or of the end of a time-out, for the active session. */
    method NetEvent(word: Word, w: World)
      requires Valid() && word.Valid() && word.net && active != Nobody && w.Valid()
      modifies this, adm`state, adm`pending, adm`ready, adm`byPass, table.values
      ensures Valid()
      ensures var t := TurnOf(old(Ses()), word, w);
        Ses() == Networked(old(Ses()), word, w, t == Heard && old(Seen()).IsAnswered()) && Handled(table.cfg, old(Seen()), t, w, Seen())
    {
      hide Valid, Handled, AfterFsm, Completes, FullPowerDays;
      PendingFacts();
      ghost var v := Seen();
      var f := ActiveFsm(word.event, w);
      PendingFacts();
      ghost var before := Seen();
      Commands(f, w);
      PendingFacts();
      ghost var mid := Seen();
      InstallEnd(f, w);
      ghost var after := Seen();
      HandledThen(table.cfg, before, TurnOfFlags(f), w, mid, if f.complete && active == Install then Ended else Quiet, after);
      if f.complete || f.error {
        BackFlag(f);
      }
      HandledIgnores(table.cfg, before, v, TurnOf(v.ses, word, w), w, after, Seen());
    }

    method Network(word: Word, w: World)
      requires Valid() && word.Valid() && w.Valid()
      modifies this, adm`state, adm`pending, adm`ready, adm`byPass, table.values
      ensures Valid()
      ensures var t := TurnOf(old(Ses()), word, w);
        Ses() == Networked(old(Ses()), word, w, t == Heard && old(Seen()).IsAnswered()) && Handled(table.cfg, old(Seen()), t, w, Seen())
    {
      hide Valid, Handled, AfterActive, FullPowerDays;
      PendingFacts();
      HandlesNothing(table.cfg, Seen(), w);
      if word.net {
        if active != Nobody {
          NetEvent(word, w);
        }
      }
    }

    /** The active session is another one. */
    method Choose(a: Active)
      requires Valid()
      modifies this`active
      ensures Valid() && active == a
    {
      hide StoreOk, Answers;
      active := a;
    }

    /** _adm_mgr_get_param_: a session that shall not listen is marked, until the next one opens. */
    method GetParam(w: World)
      requires Valid()
      modifies adm`byPass
      ensures Valid() && adm.byPass == w.deaf
    {
      hide StoreOk, Answers;
      adm.byPass := w.deaf;
    }

    /** A request of the API: a session is opened when none is active. */
    method Request(word: Word, w: World)
      requires Valid() && w.Valid() && word.Valid()
      modifies this`active, adm`state, adm`pending, adm`ready, adm`byPass
      ensures Valid() && Ses() == Requested(old(Ses()), word, w)
    {
      hide Valid, AfterFsm, Completes;
      if word.api && active == Nobody {
        Choose(word.request);
        if active != Install {
          GetParam(w);
        }
        var f := ActiveFsm(OPEN, w);
        if f.complete || f.error {
          BackFlag(f);
        }
      }
    }

    /** An event of a delay: the session it belongs to becomes the active one. */
    method Delayed(word: Word, w: World)
      requires Valid() && word.Valid() && w.Valid()
      modifies this`active, adm`state, adm`pending, adm`ready, adm`byPass
      ensures Valid() && Ses() == DelayedTo(old(Ses()), word, w)
    {
      hide Valid, AfterFsm, Completes;
      if word.delay && active != Nobody {
        if word.downloadDelay {
          Choose(Download);
        } else if word.admDelay {
          Choose(Admin);
        } else if word.installDelay {
          Choose(Install);
        }
        var f := ActiveFsm(word.event, w);
        if f.complete || f.error {
          BackFlag(f);
        }
      }
    }

    /** _ses_disp_fsm_: what one event word makes of the sessions, of the commands and of the store. */
    method Step(word: Word, w: World)
      requires Valid() && word.Valid() && w.Valid()
      modifies this, adm`state, adm`pending, adm`ready, adm`byPass, table.values
      ensures Valid() && Stepped(table.cfg, old(Seen()), word, w, Seen())
    {
      hide Valid, Handled, TurnOf, Requested, Networked, DelayedTo, FullPowerDays;
      PendingFacts();
      ghost var v := Seen();
      if word.day {
        OnDayPass();
      }
      Request(word, w);
      PendingFacts();
      ghost var before := Seen();
      Network(word, w);
      ghost var after := Seen();
      Delayed(word, w);
      HandledIgnores(table.cfg, before, v.AfterDay(word), TurnOf(Requested(v.ses, word, w), word, w), w, after, Seen());
    }

    // ---------- whole runs ----------

    /** One input. */
    method Move(input: Input)
      requires Valid() && input.Valid()
      modifies this, adm`state, adm`pending, adm`ready, adm`byPass, adm`cmd, table.values
      ensures Valid() && Seen().Valid() && Moves(table.cfg, old(Seen()), input, Seen())
      ensures old(accepted) <= accepted && old(history) <= history
    {
      hide Valid, Stepped, FullPowerDays;
      PendingFacts();
      ghost var v := Seen();
      match input {
        case Frame(c) =>
          if adm.state == Listening {
            Deliver(c);
          }
        case Events(word, w) =>
          Step(word, w);
      }
      PendingFacts();
      MoveGrows(table.cfg, v, input, Seen());
    }

    /** Any run of frames received and events, seen as vs: the store is what the history has made of it, no command
        is executed twice, a frame with the counter of the last command is not taken as a command again, and a
        command taken in the run is executed exactly when it has been answered without an error and its response
        has been sent before another frame was received or an install session ended. */
    method Run(inputs: seq<Input>) returns (ghost vs: seq<View>)
      requires Valid() && forall i {:trigger inputs[i]} :: 0 <= i < |inputs| ==> inputs[i].Valid()
      modifies this, adm`state, adm`pending, adm`ready, adm`byPass, adm`cmd, table.values
      ensures Valid() && IsRun(table.cfg, vs, inputs) && vs[0] == old(Seen()) && vs[|inputs|] == Seen()
      ensures old(accepted) <= accepted && old(history) <= history
      ensures forall k: nat {:trigger Executions(history, k)} :: old(|accepted|) <= k ==>
        Executions(history, k) == if Due(vs, inputs, k, |inputs|) then 1 else 0
      ensures Now() == After(table.cfg, start, history) && CountersDiffer(accepted)
      ensures forall k: nat :: Executions(history, k) <= 1
      ensures forall i {:trigger history[i]} :: 0 <= i < |history| && history[i].Execute? ==>
        history[i].k < |accepted| && history[i].c == accepted[history[i].k]
    {
      hide Valid, StoreOk, PendingOk, CountersOk, Executions, After, Moves, FullPowerDays;
      PendingFacts();
      TimeFacts();
      vs := [Seen()];
      NoMove(table.cfg, Seen());
      for i := 0 to |inputs|
        invariant Valid() && IsRun(table.cfg, vs, inputs[..i]) && |vs| == i + 1
        invariant vs[0] == old(Seen()) && vs[i] == Seen() && old(accepted) <= accepted && old(history) <= history
      {
        Move(inputs[i]);
        RunMore(table.cfg, vs, inputs[..i], inputs[i], Seen());
        assert inputs[..i + 1] == inputs[..i] + [inputs[i]];
        vs := vs + [Seen()];
      }
      assert inputs[..|inputs|] == inputs;
      RunFacts();
      forall k: nat | old(|accepted|) <= k
        ensures Executions(history, k) == if Due(vs, inputs, k, |inputs|) then 1 else 0
      {
        ExecutedExactly(table.cfg, vs, inputs, k, |inputs|);
      }
    }

    lemma TimeFacts()
      requires Valid()
      ensures InTime(Seen())
    {
      hide After, HistoryOk, Executions, InOrder, NotYet, Answers;
      InOrderTaken(history, accepted, adm.cmd);
      forall k: nat | |accepted| <= k
        ensures Executions(history, k) == 0
      {
        NotYetLater(history, |accepted|, k);
        NoExecution(history, k);
      }
      if cmdPending {
        NoExecution(history, |accepted| - 1);
      }
    }

    lemma RunFacts()
      requires Valid()
      ensures StoreOk() && Now() == After(table.cfg, start, history) && CountersDiffer(accepted) && InOrder(history, accepted)
      ensures forall k: nat :: Executions(history, k) <= 1
    {
      forall k: nat
        ensures Executions(history, k) <= 1
      {
        AtMostOnce(history, accepted, k);
      }
    }

    /** From conforming parameters every restricted parameter conforms at any time, as far as the device's own
        writes are admitted. */
    lemma StaysConform()
      requires Valid() && Separate(table.cfg) && AllConform(table.cfg, start.values)
      requires forall i {:trigger history[i]} :: 0 <= i < |history| ==> OwnWritesConform(table.cfg, history[i])
      ensures AllConform(table.cfg, table.values[..])
    {
      hide After, AllConform, Separate, OwnWritesConform;
      HistoryConforms(table.cfg, start, history);
    }
  }

  /** From an idle session to the frame c in the buffer. */
  method ListenTo(d: SesDisp, c: Cmd)
    requires d.Valid() && d.active == Nobody && d.adm.state == Idle && Readable256(c)
    modifies d, d.adm`state, d.adm`pending, d.adm`ready, d.adm`byPass, d.adm`cmd, d.table.values
    ensures d.Valid() && d.Seen() == old(d.Seen()).(ses := LISTENING, cmd := c, days := d.FullPowerDays())
  {
    hide SesDisp.Valid, Requested, Networked, DelayedTo, TurnOf, SesDisp.FullPowerDays;
    d.PendingFacts();
    ExchangeStates(d.Ses());
    d.Step(ASK, CALM);
    d.Step(NetWord(SENT), CALM);
    d.Step(DELAY, CALM);
    d.Deliver(c);
  }

  /** A new command whose response cannot be sent. */
  method AnswerFails(d: SesDisp, c: Cmd)
    requires d.Valid() && d.active == Nobody && d.adm.state == Idle && Readable256(c)
    requires c.id != d.rsp.id && c.mem[0] != EXECINSTPING
    modifies d, d.adm`state, d.adm`pending, d.adm`ready, d.adm`byPass, d.adm`cmd, d.table.values
    ensures d.Valid() && d.active == Nobody && d.adm.state == Idle && d.cmdPending
    ensures d.accepted == old(d.accepted) + [c] && Answers(d.table.cfg, d.rsp, c) && d.history == old(d.history)
  {
    hide SesDisp.Valid, Answers, Requested, Networked, DelayedTo, TurnOf, SesDisp.FullPowerDays;
    ListenTo(d, c);
    d.PendingFacts();
    ExchangeStates(d.Ses());
    FailingState();
    d.Step(NetWord(HEARD), CALM);
    d.PendingFacts();
    d.Step(DELAY, FAILING);
  }

  /** A command with the counter of the last response, whose own response is sent: before is what is seen before
      the last event. */
  method AnswerAgain(d: SesDisp, c: Cmd) returns (ghost before: View)
    requires d.Valid() && d.active == Nobody && d.adm.state == Idle && Readable256(c)
    requires c.id == d.rsp.id && c.mem[0] != EXECINSTPING
    modifies d, d.adm`state, d.adm`pending, d.adm`ready, d.adm`byPass, d.adm`cmd, d.table.values
    ensures d.Valid() && d.accepted == old(d.accepted) && d.history == old(d.history) && d.rsp == old(d.rsp)
    ensures before.Valid() && before.rsp == d.rsp && TurnAt(before, Events(NetWord(SENT), CALM)) == Sent
    ensures Stepped(d.table.cfg, before, NetWord(SENT), CALM, d.Seen())
  {
    hide SesDisp.Valid, Answers, Requested, Networked, DelayedTo, TurnOf, SesDisp.FullPowerDays;
    ListenTo(d, c);
    d.PendingFacts();
    ExchangeStates(d.Ses());
    d.Step(NetWord(HEARD), CALM);
    d.PendingFacts();
    d.Step(DELAY, CALM);
    d.PendingFacts();
    before := d.Seen();
    d.Step(NetWord(SENT), CALM);
  }

  /** A write command that may be carried out is taken, its response cannot be sent, and it is sent once more. It
      is then answered without an error, and nothing is ever written. */
  method LostByRetransmission(cfg: Config, defaults: seq<byte>, first: Cmd, c: Cmd) returns (d: SesDisp, ghost before: View)
    requires WellFormed(cfg, |defaults|) && OwnParameters(cfg) && Readable256(first) && Readable256(c)
    requires c.id != 0 && c.mem[0] == WRITE_PARAM && Checked(cfg, c.mem, c.n, 1) == Fine
    ensures d.Valid() && d.table.cfg == cfg && d.accepted == [c] && d.history == []
    ensures d.Now() == Store(defaults, map[], [])
    ensures before.Valid() && before.rsp.id == c.id && before.rsp.error == 0
    ensures TurnAt(before, Events(NetWord(SENT), CALM)) == Sent && Stepped(cfg, before, NetWord(SENT), CALM, d.Seen())
  {
    hide Checked, TurnAt, Stepped, SesDisp.Seen, StoreEffects.HistoryOk, StoreEffects.InOrder, NotYet;
    d := new SesDisp(cfg, defaults, first);
    AnswerFails(d, c);
    before := AnswerAgain(d, c);
  }

  lemma NoWrites(cfg: Config, values: seq<byte>)
    requires WellFormed(cfg, |values|)
    ensures AllFit(cfg, []) && StoredAll(cfg, values, []) == values
  {
  }
}
