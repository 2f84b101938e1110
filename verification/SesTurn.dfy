/** One turn of the session dispatcher on values: where the sessions go, what becomes of a command that waits
    for its execution, and what a whole run of turns executes. */
module SesTurn {
  import opened Bytes
  import opened Params
  import opened ParamLaws
  import opened AdmSession
  import opened StoreEffects

  /** The response that is kept: the command it answers, its counter and its error code. */
  datatype Rsp = Rsp(id: nat, to: byte, error: nat)

  /** The error code of the write command's answer. */
  function WriteError(v: Verdict): nat {
    match v
    case Fine => 0
    case UnknownParam(_) => 1
    case Denied(_) => 2
    case Illegal(_) => 3
  }

  /** A response that says of a write command exactly what checking it has found, of a key whether it is one of the
      two that can be written, and of a command that is not known just that. */
  ghost predicate Answers(cfg: Config, rsp: Rsp, c: Cmd)
    requires RestrictionsOk(cfg) && Readable256(c)
  {
    && rsp.id == c.id && (c.mem[0] == WRITE_PARAM ==> rsp.error == WriteError(Checked(cfg, c.mem, c.n, 1)))
    && (c.mem[0] == WRITE_KEY ==> rsp.error == if c.mem[1] == 1 || c.mem[1] == 2 then 0 else 2)
    && (c.mem[0] !in {READ_PARAM, WRITE_PARAM, WRITE_KEY, ANNDOWNLOAD, EXECINSTPING} ==> rsp.error == 0xFF)
    && (c.mem[0] != EXECINSTPING ==> rsp.to == c.mem[0])
  }

  /** The code of the answer to a write command, entry by entry: 0 if all pass, and otherwise what is wrong with the k-th,
      which is the first that does not. */
  lemma WriteAnswered(cfg: Config, rsp: Rsp, c: Cmd, k: nat)
    requires RestrictionsOk(cfg) && Readable256(c) && c.mem[0] == 0x20 && Answers(cfg, rsp, c)
    ensures rsp.error == 0 <==> AllPass(cfg, c.mem, c.n, Starts(cfg, c.mem, c.n, 1))
    ensures FirstBad(cfg, c.mem, c.n, Starts(cfg, c.mem, c.n, 1), k) ==> var p := Starts(cfg, c.mem, c.n, 1)[k];
      && (IsUnknown(cfg, c.mem, c.n, p) ==> rsp.error == 1) && (IsDenied(cfg, c.mem, c.n, p) ==> rsp.error == 2)
      && (IsIllegal(cfg, c.mem, c.n, p) ==> rsp.error == 3) && 1 <= rsp.error <= 3
  {
    hide Checked, Starts, AllPass, FirstBad, IsUnknown, IsDenied, IsIllegal;
    FineExactly(cfg, c.mem, c.n, 1);
    if FirstBad(cfg, c.mem, c.n, Starts(cfg, c.mem, c.n, 1), k) {
      VerdictExactly(cfg, c.mem, c.n, 1, k);
    }
  }

  /** The identifiers of a read command; their number is kept in a byte. */
  function ReadIds(c: Cmd): (ids: seq<byte>)
    requires Readable256(c)
    ensures 0 < c.n <= 256 ==> ids == c.mem[1..c.n]
    ensures c.n == 0 ==> ids == c.mem[1..256]
  {
    c.mem[1..1 + (c.n + 255) % 256]
  }

  /** Which session is active. */
  datatype Active = Nobody | Install | Admin | Download

  /** What the environment does in a step: how the network and the timers answer, the flags of the install
      or download session when that is the active one (neither ever reports a command or a sent response),
      the pongs an install session has got, if any, the verdict on an announcement, L7TRANSMIT_LENGTH_MAX, and
      whether EXCH_RX_LENGTH is 0. */
  datatype World = World(env: Env, other: Flags, pongs: Option<Pongs>, annError: nat, transMax: nat, deaf: bool)
  {
    predicate Valid() {
      !other.cmdRecv && !other.rspSent && (pongs.Some? ==> pongs.value.Valid())
    }
  }

  /** The event word, with the session that an API request is for. */
  datatype Word = Word(day: bool, api: bool, request: Active, net: bool, delay: bool, installDelay: bool, admDelay: bool, downloadDelay: bool,
                       event: Event)
  {
    /** The ready bit is for the dispatcher's own calls of the session only. */
    predicate Valid() {
      !event.ready && (api ==> request != Nobody)
    }
  }

  // ---------- the sessions ----------

  /** The active session and the state of the administration session. */
  datatype Sessions = Sessions(active: Active, state: SesState, pending: bool, ready: bool, byPass: bool)
  {
    predicate Valid() {
      (state == WaitingRx || state == Listening ==> !pending) && (state == WaitingTx ==> pending)
    }

    /** The response to a command is about to be sent, or is being sent. */
    predicate Answering() {
      pending && ((state == WaitingTx && ready) || state == Sending)
    }
  }

  /** The administration session after an event. */
  function AfterFsm(s: Sessions, e: Event, env: Env): Sessions {
    var from := if e.close then Idle else s.state;
    s.(state := NextState(from, e, env, s.pending, s.ready || e.ready, s.byPass), pending := NextPending(from, e, s.pending),
       ready := NextReady(from, e, s.pending, s.ready || e.ready), byPass := s.byPass && !(from == Idle && e.open))
  }

  /** The event ends the administration session. */
  predicate Completes(s: Sessions, e: Event, env: Env) {
    (AfterFsm(s, e, env).state == Idle && s.state != Idle) || (e.close && !(e.open && env.sendFails))
  }

  /** After an event for the active session; none is active when that has come to its end. */
  function AfterActive(s: Sessions, e: Event, w: World): Sessions {
    if s.active == Admin then
      if Completes(s, e, w.env) then AfterFsm(s, e, w.env).(active := Nobody) else AfterFsm(s, e, w.env)
    else if w.other.complete then s.(active := Nobody) else s
  }

  /** A request of the API opens a session when none is active. */
  function Requested(s: Sessions, word: Word, w: World): Sessions {
    if word.api && s.active == Nobody then
      AfterActive(s.(active := word.request, byPass := if word.request == Install then s.byPass else w.deaf), OPEN, w)
    else s
  }

  /** After an event of the network; an answer that is available is signalled to the session. */
  function Networked(s: Sessions, word: Word, w: World, signalled: bool): Sessions {
    if word.net && s.active != Nobody then
      var t := AfterActive(s, word.event, w);
      if signalled then t.(ready := true) else t
    else s
  }

  /** After an event of a delay: the session it belongs to becomes the active one. */
  function DelayedTo(s: Sessions, word: Word, w: World): Sessions {
    if word.delay && s.active != Nobody then
      var a := if word.downloadDelay then Download else if word.admDelay then Admin else if word.installDelay then Install else s.active;
      AfterActive(s.(active := a), word.event, w)
    else s
  }

  /** The sessions other than the administration session: an event for one of them leaves that one as it is, and makes
      nobody active exactly when it ends. A delay makes the session active that it belongs to, the download session
      before the administration session and that one before the install session. */
  lemma OtherSessions(s: Sessions, word: Word, w: World)
    ensures s.active != Admin ==> AfterActive(s, word.event, w) == s.(active := if w.other.complete then Nobody else s.active)
    ensures word.delay && s.active != Nobody ==> var t := DelayedTo(s, word, w);
      && (word.downloadDelay ==> t == s.(active := if w.other.complete then Nobody else Download))
      && (!word.downloadDelay && word.admDelay ==> t.active == if Completes(s.(active := Admin), word.event, w.env) then Nobody else Admin)
      && (!word.downloadDelay && !word.admDelay && word.installDelay ==> t == s.(active := if w.other.complete then Nobody else Install))
    ensures !word.delay || s.active == Nobody ==> DelayedTo(s, word, w) == s
  {
    hide NextState, NextPending, NextReady;
  }

  /** The administration session is active until it becomes idle, or is closed and not opened again. */
  lemma AdminEnds(s: Sessions, e: Event, w: World)
    requires s.active == Admin
    ensures !e.close ==> (AfterActive(s, e, w).active == Nobody <==> s.state != Idle && AfterActive(s, e, w).state == Idle)
    ensures e.close && !e.open ==> AfterActive(s, e, w).active == Nobody && AfterActive(s, e, w).state == Idle
    ensures AfterActive(s, e, w).active in {Admin, Nobody}
  {
    hide NextPending, NextReady;
  }

  /** A request is refused while a session is active. Otherwise that session becomes active; the administration session
      then has its data out, or has failed to send them, with nothing pending. */
  lemma RequestOpens(s: Sessions, word: Word, w: World)
    ensures !word.api || s.active != Nobody ==> Requested(s, word, w) == s
    ensures word.api && s.active == Nobody && word.request == Admin && s.state == Idle ==>
      Requested(s, word, w) == Sessions(Admin, if w.env.sendFails then Idle else Sending, false, false, false)
    ensures word.api && s.active == Nobody && word.request != Admin ==>
      Requested(s, word, w).active == (if w.other.complete then Nobody else word.request) && Requested(s, word, w).state == s.state
  {
  }

  // ---------- commands ----------

  /** What an event of the network is for the commands: a frame has been received, a response has been sent, an
      install session has ended, or none of these. */
  datatype Turn = Quiet | Heard | Sent | Ended

  function TurnOf(s: Sessions, word: Word, w: World): Turn {
    if !word.net then Quiet
    else if s.active == Install then if w.other.complete then Ended else Quiet
    else if s.active != Admin || word.event.close then Quiet
    else if s.state == Listening && word.event.recvDone && !w.env.timerFails then Heard
    else if s.state == Sending && word.event.sendDone && s.pending then Sent
    else Quiet
  }

  /** An install session ends in the turn in which it is active no more. A frame is received, and a response sent, by the
      administration session, unless it is closed. */
  lemma TurnsAre(s: Sessions, word: Word, w: World, signalled: bool)
    ensures TurnOf(s, word, w) == Ended <==> word.net && s.active == Install && Networked(s, word, w, signalled).active == Nobody
    ensures TurnOf(s, word, w) == Heard <==>
      word.net && s.active == Admin && s.state == Listening && !word.event.close && word.event.recvDone && !w.env.timerFails
    ensures TurnOf(s, word, w) == Sent <==>
      word.net && s.active == Admin && s.state == Sending && !word.event.close && word.event.sendDone && s.pending
    ensures !word.net || s.active == Nobody ==> Networked(s, word, w, signalled) == s
  {
    hide NextState, NextPending, NextReady;
  }

  /** The same by the flags of the administration session. */
  function TurnOfFlags(f: Flags): Turn {
    if f.cmdRecv then Heard else if f.rspSent then Sent else Quiet
  }

  /** What the dispatcher looks at and changes. days is TX_DELAY_FULLPOWER, power counts the days without a
      command. */
  datatype View = View(ses: Sessions, cmd: Cmd, rsp: Rsp, cmdPending: bool, accepted: seq<Cmd>, history: seq<Effect>, power: nat, days: nat)
  {
    /** The frame in the buffer has another counter than the last response. */
    predicate IsNew() {
      cmd.id != rsp.id
    }

    /** The answer is available at once: only that to a new ping is not. */
    predicate IsAnswered()
      requires Readable256(cmd)
    {
      !IsNew() || cmd.mem[0] != EXECINSTPING
    }

    /** A day has passed. */
    function DayEffect(word: Word): seq<Effect> {
      if word.day && power >= days then [FullPower] else []
    }

    function AfterDay(word: Word): View {
      this.(history := history + DayEffect(word), power := if !word.day then power else if power >= days then 0 else power + 1)
    }

    /** The effect of an event of the network: the pending command is executed when its response has been sent
        without an error, and the results of an install session are written at its end. */
    function NetEffect(t: Turn, w: World): seq<Effect>
      requires cmdPending ==> accepted != []
    {
      if t == Sent && cmdPending && rsp.error == 0 then [Execute(|accepted| - 1, accepted[|accepted| - 1])]
      else if t == Ended && w.pongs.Some? then [Installed(w.pongs.value)]
      else []
    }

    /** Whether a command is pending afterwards: a response sent, a counter repeated and the end of an install
        session clear it. */
    predicate PendingAfter(t: Turn)
      requires Readable256(cmd)
    {
      match t
      case Quiet => cmdPending
      case Heard => IsNew() && (cmdPending || IsAnswered())
      case Sent => false
      case Ended => false
    }

    /** The frame in the buffer is looked at. */
    predicate LooksAt(t: Turn) {
      t == Heard || (t == Ended && cmdPending)
    }

    predicate Valid() {
      ses.Valid() && Readable256(cmd) && (cmdPending ==> accepted != [])
    }
  }

  /** What looking at a frame makes of the response and of the commands taken. */
  ghost predicate Looked(cfg: Config, c: Cmd, w: World, rsp: Rsp, accepted: seq<Cmd>, rsp': Rsp, accepted': seq<Cmd>)
    requires RestrictionsOk(cfg) && Readable256(c)
  {
    && rsp'.id == c.id
    && (c.id != rsp.id ==> accepted' == accepted + [c] && Answers(cfg, rsp', c))
    && (c.id != rsp.id && c.mem[0] == ANNDOWNLOAD ==> rsp'.error == w.annError)
    && (c.id != rsp.id && c.mem[0] == READ_PARAM ==> rsp'.error == ReadError(cfg, ReadIds(c), w.transMax, 0))
    && (c.id == rsp.id ==> accepted' == accepted)
    && (c.id == rsp.id && c.mem[0] != EXECINSTPING ==> rsp' == rsp)
  }

  /** What a turn makes of the commands and of the store. */
  ghost predicate Handled(cfg: Config, v: View, t: Turn, w: World, to: View)
    requires RestrictionsOk(cfg) && v.Valid()
  {
    && to.cmd == v.cmd && to.history == v.history + v.NetEffect(t, w) && to.cmdPending == v.PendingAfter(t)
    && (if v.LooksAt(t) then Looked(cfg, v.cmd, w, v.rsp, v.accepted, to.rsp, to.accepted) else to.rsp == v.rsp && to.accepted == v.accepted)
    && to.power == if t == Heard then 0 else v.power
  }

  /** A turn of the dispatcher, from the view v. */
  ghost predicate Stepped(cfg: Config, v: View, word: Word, w: World, to: View)
    requires RestrictionsOk(cfg) && v.Valid()
  {
    var s := Requested(v.ses, word, w);
    var t := TurnOf(s, word, w);
    to.ses == DelayedTo(Networked(s, word, w, t == Heard && v.IsAnswered()), word, w) && Handled(cfg, v.AfterDay(word), t, w, to)
  }

  /** The sessions apart, what a turn does depends on the commands and the store alone. */
  lemma HandledIgnores(cfg: Config, v: View, v': View, t: Turn, w: World, to: View, to': View)
    requires RestrictionsOk(cfg) && v.Valid() && v'.Valid()
    requires v' == v.(ses := v'.ses, days := v'.days) && to' == to.(ses := to'.ses, days := to'.days)
    ensures Handled(cfg, v, t, w, to) == Handled(cfg, v', t, w, to')
  {
    hide Looked;
  }

  lemma HandlesNothing(cfg: Config, v: View, w: World)
    requires RestrictionsOk(cfg) && v.Valid()
    ensures Handled(cfg, v, Quiet, w, v)
  {
    hide Looked;
    assert v.history + [] == v.history;
  }

  /** A turn that does nothing, before or after another. */
  lemma HandledThen(cfg: Config, v: View, t: Turn, w: World, mid: View, t': Turn, to: View)
    requires RestrictionsOk(cfg) && v.Valid() && mid.Valid() && (t == Quiet || t' == Quiet)
    requires Handled(cfg, v, t, w, mid) && Handled(cfg, mid, t', w, to)
    ensures Handled(cfg, v, if t == Quiet then t' else t, w, to)
  {
    hide Looked;
  }

  // ---------- whole runs ----------

  /** What a run is made of: a frame that arrives, which counts while the session listens, or an event word. */
  datatype Input = Frame(c: Cmd) | Events(word: Word, w: World)
  {
    predicate Valid() {
      match this
      case Frame(c) => Readable256(c)
      case Events(word, w) => word.Valid() && w.Valid()
    }
  }

  ghost predicate Moves(cfg: Config, v: View, input: Input, to: View)
    requires RestrictionsOk(cfg) && v.Valid()
  {
    match input
    case Frame(c) => to == if v.ses.state == Listening then v.(cmd := c) else v
    case Events(word, w) => Stepped(cfg, v, word, w, to)
  }

  /** vs[i] is what is seen before the i-th input. */
  ghost predicate IsRun(cfg: Config, vs: seq<View>, inputs: seq<Input>)
    requires RestrictionsOk(cfg)
  {
    && |vs| == |inputs| + 1 && (forall i {:trigger vs[i]} :: 0 <= i < |vs| ==> vs[i].Valid())
    && forall i {:trigger inputs[i]} :: 0 <= i < |inputs| ==> inputs[i].Valid() && Moves(cfg, vs[i], inputs[i], vs[i + 1])
  }

  lemma NoMove(cfg: Config, v: View)
    requires RestrictionsOk(cfg) && v.Valid()
    ensures IsRun(cfg, [v], [])
  {
  }

  lemma RunMore(cfg: Config, vs: seq<View>, inputs: seq<Input>, input: Input, to: View)
    requires RestrictionsOk(cfg) && IsRun(cfg, vs, inputs)
    requires to.Valid() && input.Valid() && Moves(cfg, vs[|inputs|], input, to)
    ensures IsRun(cfg, vs + [to], inputs + [input])
  {
    hide Moves;
    var us, all := vs + [to], inputs + [input];
    forall i {:trigger all[i]} | 0 <= i < |all|
      ensures all[i].Valid() && Moves(cfg, us[i], all[i], us[i + 1])
    {
      assert i < |inputs| ==> all[i] == inputs[i] && us[i] == vs[i] && us[i + 1] == vs[i + 1];
    }
  }

  function TurnAt(v: View, input: Input): Turn {
    match input
    case Frame(_) => Quiet
    case Events(word, w) => TurnOf(Requested(v.ses, word, w), word, w)
  }

  /** The k-th command is taken, and its response is available. */
  predicate Takes(v: View, input: Input, k: nat)
    requires v.Valid()
  {
    TurnAt(v, input) == Heard && v.IsNew() && v.IsAnswered() && |v.accepted| == k
  }

  ghost predicate QuietUntil(vs: seq<View>, inputs: seq<Input>, i: nat, j: nat)
    requires j <= |inputs| < |vs|
  {
    forall m {:trigger inputs[m]} :: i < m < j ==> TurnAt(vs[m], inputs[m]) == Quiet
  }

  /** The k-th command is taken at i and answered without an error, and the next turn for the commands is at j,
      where the response has been sent. */
  ghost predicate AnsweredBy(vs: seq<View>, inputs: seq<Input>, k: nat, i: nat, j: nat)
    requires |vs| == |inputs| + 1 && forall i {:trigger vs[i]} :: 0 <= i < |vs| ==> vs[i].Valid()
  {
    && i < j < |inputs| && Takes(vs[i], inputs[i], k) && vs[i + 1].rsp.error == 0
    && QuietUntil(vs, inputs, i, j) && TurnAt(vs[j], inputs[j]) == Sent
  }

  ghost predicate Due(vs: seq<View>, inputs: seq<Input>, k: nat, n: nat)
    requires |vs| == |inputs| + 1 && forall i {:trigger vs[i]} :: 0 <= i < |vs| ==> vs[i].Valid()
  {
    exists i: nat, j: nat :: j < n && AnsweredBy(vs, inputs, k, i, j)
  }

  // ---------- a response under way ----------

  lemma FsmAnswering(s: Sessions, e: Event, env: Env)
    requires s.Valid() && !e.ready
    ensures AfterFsm(s, e, env).Valid() && (AfterFsm(s, e, env).Answering() ==> s.Answering())
  {
    hide NextState, NextPending, NextReady;
    StateFacts(if e.close then Idle else s.state, e, env, s.pending, s.ready, s.byPass);
  }

  lemma ActiveAnswering(s: Sessions, e: Event, w: World)
    requires s.Valid() && !e.ready
    ensures AfterActive(s, e, w).Valid() && (AfterActive(s, e, w).Answering() ==> s.Answering())
  {
    hide AfterFsm, Completes;
    FsmAnswering(s, e, w.env);
  }

  /** A response gets under way in a turn only when a frame has been answered in it. */
  lemma TurnAnswering(s: Sessions, word: Word, w: World, signalled: bool)
    requires s.Valid() && word.Valid()
    ensures var r := Requested(s, word, w);
      && r.Valid() && (r.Answering() ==> s.Answering())
      && (TurnOf(r, word, w) == Sent ==> s.Answering()) && (TurnOf(r, word, w) == Heard ==> !r.Answering())
      && (!signalled && DelayedTo(Networked(r, word, w, signalled), word, w).Answering() ==> r.Answering())
  {
    hide AfterActive;
    var o := s.(active := word.request, byPass := if word.request == Install then s.byPass else w.deaf);
    ActiveAnswering(o, OPEN, w);
    var r := Requested(s, word, w);
    ActiveAnswering(r, word.event, w);
    var t := Networked(r, word, w, false);
    var a := if word.downloadDelay then Download else if word.admDelay then Admin else if word.installDelay then Install else t.active;
    ActiveAnswering(t.(active := a), word.event, w);
  }

  // ---------- what is executed ----------

  /** What a move makes of a pending command. */
  lemma MovePending(cfg: Config, v: View, input: Input, to: View)
    requires RestrictionsOk(cfg) && v.Valid() && input.Valid() && Moves(cfg, v, input, to)
    ensures TurnAt(v, input) == Quiet ==> to.cmdPending == v.cmdPending && to.accepted == v.accepted && to.rsp == v.rsp
    ensures TurnAt(v, input) == Heard ==> to.cmdPending == v.PendingAfter(Heard)
    ensures TurnAt(v, input) == Heard ==> to.accepted == v.accepted + if v.IsNew() then [v.cmd] else []
    ensures TurnAt(v, input) == Sent || TurnAt(v, input) == Ended ==> !to.cmdPending
    ensures TurnAt(v, input) == Sent ==> v.ses.Answering()
    ensures to.ses.Answering() ==> if TurnAt(v, input) == Heard then v.IsAnswered() else v.ses.Answering()
  {
    hide Answers, Requested, Networked, DelayedTo, TurnOf;
    match input
    case Frame(_) =>
    case Events(word, w) =>
      TurnAnswering(v.ses, word, w, TurnAt(v, input) == Heard && v.IsAnswered());
  }

  /** One more effect. */
  lemma ExecutionsMore(h: seq<Effect>, e: Effect, k: nat)
    ensures Executions(h + [e], k) == Executions(h, k) + if e.Execute? && e.k == k then 1 else 0
  {
    assert (h + [e])[..|h|] == h;
  }

  /** What a move executes. */
  lemma MoveExecutes(cfg: Config, v: View, input: Input, to: View, k: nat)
    requires RestrictionsOk(cfg) && v.Valid() && input.Valid() && Moves(cfg, v, input, to)
    ensures Executions(to.history, k) == Executions(v.history, k)
      + if TurnAt(v, input) == Sent && v.cmdPending && v.rsp.error == 0 && |v.accepted| == k + 1 then 1 else 0
  {
    hide Looked, Requested, Networked, DelayedTo, TurnOf, Executions;
    match input
    case Frame(_) =>
    case Events(word, w) =>
      var d, n := v.DayEffect(word), v.NetEffect(TurnAt(v, input), w);
      assert to.history == v.history + d + n;
      if d != [] {
        ExecutionsMore(v.history, FullPower, k);
      }
      assert v.history + [] == v.history && v.history + d + [] == v.history + d;
      if n != [] {
        ExecutionsMore(v.history + d, n[0], k);
      }
  }

  /** Commands that have not been taken have not been executed, and neither has the pending one. */
  ghost predicate InTime(v: View) {
    (forall k: nat :: |v.accepted| <= k ==> Executions(v.history, k) == 0)
    && (v.cmdPending && v.accepted != [] ==> Executions(v.history, |v.accepted| - 1) == 0)
  }

  lemma MoveInTime(cfg: Config, v: View, input: Input, to: View)
    requires RestrictionsOk(cfg) && v.Valid() && to.Valid() && input.Valid() && Moves(cfg, v, input, to) && InTime(v)
    ensures InTime(to)
  {
    hide Moves, TurnAt, Executions;
    MovePending(cfg, v, input, to);
    MoveGrows(cfg, v, input, to);
    forall k: nat | |to.accepted| <= k
      ensures Executions(to.history, k) == 0
    {
      MoveExecutes(cfg, v, input, to, k);
    }
    if to.cmdPending {
      MoveExecutes(cfg, v, input, to, |to.accepted| - 1);
    }
  }

  /** Commands taken stay taken, and what has been done stays done. */
  lemma MoveGrows(cfg: Config, v: View, input: Input, to: View)
    requires RestrictionsOk(cfg) && v.Valid() && input.Valid() && Moves(cfg, v, input, to)
    ensures v.accepted <= to.accepted && v.history <= to.history
  {
    hide Answers, Requested, Networked, DelayedTo, TurnOf;
  }

  /** A command stays pending, and its response stays as it is, as long as the turns are quiet. */
  lemma {:induction false} PendingStays(cfg: Config, vs: seq<View>, inputs: seq<Input>, k: nat, i: nat, m: nat)
    requires RestrictionsOk(cfg) && IsRun(cfg, vs, inputs) && i < m <= |inputs|
    requires Takes(vs[i], inputs[i], k) && QuietUntil(vs, inputs, i, m)
    ensures vs[m].cmdPending && |vs[m].accepted| == k + 1 && vs[m].rsp == vs[i + 1].rsp
    decreases m
  {
    hide Moves, TurnAt;
    MovePending(cfg, vs[m - 1], inputs[m - 1], vs[m]);
    if m > i + 1 {
      PendingStays(cfg, vs, inputs, k, i, m - 1);
    }
  }

  /** A pending command whose response is under way has been taken, and all has been quiet since. */
  lemma {:induction false} PendingSince(cfg: Config, vs: seq<View>, inputs: seq<Input>, k: nat, m: nat) returns (i: nat)
    requires RestrictionsOk(cfg) && IsRun(cfg, vs, inputs) && m <= |inputs| && |vs[0].accepted| <= k
    requires vs[m].cmdPending && vs[m].ses.Answering() && |vs[m].accepted| == k + 1
    ensures i < m && Takes(vs[i], inputs[i], k) && QuietUntil(vs, inputs, i, m)
    decreases m
  {
    hide Moves, TurnAt;
    MovePending(cfg, vs[m - 1], inputs[m - 1], vs[m]);
    if TurnAt(vs[m - 1], inputs[m - 1]) == Heard {
      i := m - 1;
    } else {
      i := PendingSince(cfg, vs, inputs, k, m - 1);
    }
  }

  /** Over any run: a command that has been taken is executed exactly when it has been answered without an error
      and its response is sent before another frame is received or an install session ends. */
  lemma {:induction false} ExecutedExactly(cfg: Config, vs: seq<View>, inputs: seq<Input>, k: nat, n: nat)
    requires RestrictionsOk(cfg) && IsRun(cfg, vs, inputs) && n <= |inputs| && |vs[0].accepted| <= k && InTime(vs[0])
    ensures InTime(vs[n])
    ensures Executions(vs[n].history, k) == if Due(vs, inputs, k, n) then 1 else 0
    decreases n
  {
    hide Moves, TurnAt, Executions;
    if n > 0 {
      var v, input := vs[n - 1], inputs[n - 1];
      ExecutedExactly(cfg, vs, inputs, k, n - 1);
      MoveInTime(cfg, v, input, vs[n]);
      MoveExecutes(cfg, v, input, vs[n], k);
      MovePending(cfg, v, input, vs[n]);
      if TurnAt(v, input) == Sent && v.cmdPending && v.rsp.error == 0 && |v.accepted| == k + 1 {
        var i := PendingSince(cfg, vs, inputs, k, n - 1);
        PendingStays(cfg, vs, inputs, k, i, n - 1);
        assert AnsweredBy(vs, inputs, k, i, n - 1);
      } else {
        var j := n - 1;
        forall i: nat | AnsweredBy(vs, inputs, k, i, j)
          ensures false
        {
          PendingStays(cfg, vs, inputs, k, i, j);
        }
      }
    }
  }

  // ---------- full power ----------

  function FullPowers(h: seq<Effect>): nat {
    if h == [] then 0 else FullPowers(h[..|h| - 1]) + if h[|h| - 1].FullPower? then 1 else 0
  }

  lemma FullPowersMore(h: seq<Effect>, e: Effect)
    ensures FullPowers(h + [e]) == FullPowers(h) + if e.FullPower? then 1 else 0
  {
    assert (h + [e])[..|h|] == h;
  }

  predicate IsDay(input: Input) {
    input.Events? && input.word.day
  }

  function DaysIn(inputs: seq<Input>): nat {
    if inputs == [] then 0 else DaysIn(inputs[..|inputs| - 1]) + if IsDay(inputs[|inputs| - 1]) then 1 else 0
  }

  /** What a move makes of the count of days. */
  lemma MovePower(cfg: Config, v: View, input: Input, to: View)
    requires RestrictionsOk(cfg) && v.Valid() && input.Valid() && Moves(cfg, v, input, to)
    ensures TurnAt(v, input) == Heard ==> to.power == 0
    ensures TurnAt(v, input) != Heard ==> to.power == if !IsDay(input) then v.power else if v.power >= v.days then 0 else v.power + 1
    ensures FullPowers(to.history) == FullPowers(v.history) + if IsDay(input) && v.power >= v.days then 1 else 0
  {
    hide Looked, Requested, Networked, DelayedTo, TurnOf, FullPowers;
    match input
    case Frame(_) =>
    case Events(word, w) =>
      var d, n := v.DayEffect(word), v.NetEffect(TurnAt(v, input), w);
      assert to.history == v.history + d + n;
      if d != [] {
        FullPowersMore(v.history, FullPower);
      }
      assert v.history + [] == v.history && v.history + d + [] == v.history + d;
      if n != [] {
        FullPowersMore(v.history + d, n[0]);
      }
  }

  /** Over any stretch of a run in which no frame is received, with the same number of days in the parameter: full power is
      restored once for each so many days and one more, those before the stretch that have been counted included. */
  lemma {:induction false} FullPowerInTime(cfg: Config, vs: seq<View>, inputs: seq<Input>, i: nat, j: nat, days: nat)
    requires RestrictionsOk(cfg) && IsRun(cfg, vs, inputs) && i <= j <= |inputs| && vs[i].power <= days
    requires forall m {:trigger vs[m]} :: i <= m < j ==> vs[m].days == days && TurnAt(vs[m], inputs[m]) != Heard
    ensures vs[j].power <= days
    ensures (days + 1) * FullPowers(vs[j].history) + vs[j].power
         == (days + 1) * FullPowers(vs[i].history) + vs[i].power + DaysIn(inputs[i..j])
    decreases j
  {
    hide Moves, TurnAt, FullPowers, DaysIn, IsDay;
    DaysInMore(inputs, i, j);
    if i < j {
      FullPowerInTime(cfg, vs, inputs, i, j - 1, days);
      MovePower(cfg, vs[j - 1], inputs[j - 1], vs[j]);
      Times(days + 1, FullPowers(vs[j - 1].history));
    }
  }

  lemma DaysInMore(inputs: seq<Input>, i: nat, j: nat)
    requires i <= j <= |inputs|
    ensures DaysIn(inputs[i..j]) == if i == j then 0 else DaysIn(inputs[i..j - 1]) + if IsDay(inputs[j - 1]) then 1 else 0
  {
    assert i < j ==> inputs[i..j][..j - 1 - i] == inputs[i..j - 1];
  }

  lemma Times(k: nat, a: nat)
    ensures k * (a + 1) == k * a + k
  {
  }

  // ---------- an exchange ----------

  const NOTHING := Event(false, false, false, false, false, false, false)
  const SENT := NOTHING.(sendDone := true)
  const HEARD := NOTHING.(recvDone := true)
  const EXPIRED := NOTHING.(delayExpired := true)
  const CALM := World(Env(false, false, false), NONE, None, 0, 0, false)
  const FAILING := CALM.(env := Env(true, false, false))
  const ASK := Word(false, true, Admin, false, false, false, false, false, NOTHING)
  const DELAY := Word(false, false, Nobody, false, true, false, true, false, EXPIRED)

  function NetWord(e: Event): Word {
    Word(false, false, Nobody, true, false, false, false, false, e)
  }

  predicate Goes(s: Sessions, word: Word, w: World, t: Turn, signalled: bool, to: Sessions) {
    var r := Requested(s, word, w);
    TurnOf(r, word, w) == t && DelayedTo(Networked(r, word, w, signalled), word, w) == to
  }

  const SENDING := Sessions(Admin, Sending, false, false, false)
  const WAITING := Sessions(Admin, WaitingRx, false, false, false)
  const LISTENING := Sessions(Admin, Listening, false, false, false)
  const ANSWERED := Sessions(Admin, WaitingTx, true, true, false)
  const ANSWERING := Sessions(Admin, Sending, true, true, false)

  /** Where the administration session goes in an exchange without disturbance. */
  lemma ExchangeStates(s: Sessions)
    ensures s.active == Nobody && s.state == Idle ==> Goes(s, ASK, CALM, Quiet, false, SENDING)
    ensures Goes(SENDING, NetWord(SENT), CALM, Quiet, false, WAITING)
    ensures Goes(WAITING, DELAY, CALM, Quiet, false, LISTENING)
    ensures Goes(LISTENING, NetWord(HEARD), CALM, Heard, true, ANSWERED)
    ensures Goes(ANSWERED, DELAY, CALM, Quiet, false, ANSWERING)
    ensures Goes(ANSWERING, NetWord(SENT), CALM, Sent, false, ANSWERING.(active := Nobody, state := Idle, pending := false, ready := false))
  {
  }

  /** And when the response cannot be sent. */
  lemma FailingState()
    ensures Goes(ANSWERED, DELAY, FAILING, Quiet, false, ANSWERED.(active := Nobody, state := Idle))
  {
  }
}
