/** What the administration session does over its events: stage by stage to its end, and at once to its end when
    something fails or times out. */
module AdmLaws {
  import opened AdmSession

  /** How many stages are still to come: data out, delay, command in, delay, response out. */
  function Stages(state: SesState, pending: bool): nat {
    match state
    case Sending => if pending then 1 else 5
    case WaitingRx => 4
    case Listening => 3
    case WaitingTx => 2
    case _ => 0
  }

  predicate Sane(state: SesState, pending: bool) {
    (state == WaitingRx || state == Listening ==> !pending) && (state == WaitingTx ==> pending)
  }

  /** The event that the session waits for. */
  predicate Awaited(state: SesState, e: Event) {
    || (state == Sending && (e.sendDone || e.timeout))
    || (state == Listening && (e.recvDone || e.timeout))
    || ((state == WaitingRx || state == WaitingTx) && e.delayExpired)
  }

  /** What ends the session before its time: a time-out on the air, a call that fails, a response that is not ready, and
      a session that is not to listen. */
  predicate Disturbed(state: SesState, e: Event, env: Env, pending: bool, ready: bool, byPass: bool) {
    match state
    case Sending => e.timeout || (e.sendDone && !pending && (byPass || env.timerFails))
    case WaitingRx => e.delayExpired && (byPass || env.listenFails)
    case Listening => e.timeout || (e.recvDone && env.timerFails)
    case WaitingTx => e.delayExpired && (!ready || env.sendFails)
    case _ => false
  }

  /** An event that is awaited takes the session one stage on, or ends it if something is wrong; no other does anything
      to it. A session that is idle begins when it is opened and the data can be sent. */
  lemma OneStage(state: SesState, e: Event, env: Env, pending: bool, ready: bool, byPass: bool)
    requires Sane(state, pending)
    ensures var to, p := NextState(state, e, env, pending, ready, byPass), NextPending(state, e, pending);
      && Sane(to, p)
      && (Disturbed(state, e, env, pending, ready, byPass) ==> to == Idle)
      && (Awaited(state, e) && !Disturbed(state, e, env, pending, ready, byPass) ==> Stages(to, p) == Stages(state, pending) - 1)
      && (!Awaited(state, e) && state != Idle ==> to == state && p == pending)
      && (state == Idle ==> to == if e.open && !env.sendFails then Sending else Idle)
      && (state == Idle && e.open ==> Stages(Sending, p) == 5)
  {
  }

  /** Each kind of end is told by its flag. */
  lemma EndsAreTold(state: SesState, e: Event, env: Env, pending: bool, ready: bool, byPass: bool, closed: bool)
    ensures var f := ActFlags(state, e, env, pending, ready, byPass, NONE.(complete := closed));
      match state
      case Idle => !f.timeout && !f.success && (f.error <==> e.open && env.sendFails)
      case Sending => !f.success && (f.timeout <==> e.timeout) && (f.error <==> e.sendDone && !pending && !byPass && env.timerFails)
      case WaitingRx => !f.timeout && (f.success <==> e.delayExpired && byPass) && (f.error <==> e.delayExpired && !byPass && env.listenFails)
      case Listening => !f.success && (f.error <==> e.recvDone && env.timerFails) && (f.timeout <==> e.timeout && !f.error)
      case WaitingTx => !f.timeout && !f.success && (f.error <==> e.delayExpired && ready && env.sendFails)
      case Disabled => f == NONE.(complete := closed)
  {
    match state
    case Idle =>
    case Sending =>
    case WaitingRx =>
    case Listening =>
    case WaitingTx =>
    case Disabled =>
  }

  // ---------- a whole session ----------

  datatype Adm = Adm(state: SesState, pending: bool, ready: bool, byPass: bool)

  function Moved(a: Adm, e: Event, env: Env): Adm {
    var ready := a.ready || e.ready;
    Adm(NextState(a.state, e, env, a.pending, ready, a.byPass), NextPending(a.state, e, a.pending),
        NextReady(a.state, e, a.pending, ready), a.byPass && !(a.state == Idle && e.open))
  }

  /** The awaited events of a run, up to the end of the session. */
  function AwaitedOf(a: Adm, run: seq<(Event, Env)>): nat
    decreases |run|
  {
    if run == [] then 0 else AwaitedOf(Moved(a, run[0].0, run[0].1), run[1..]) + if Awaited(a.state, run[0].0) then 1 else 0
  }

  function MovedAll(a: Adm, run: seq<(Event, Env)>): Adm
    decreases |run|
  {
    if run == [] then a else MovedAll(Moved(a, run[0].0, run[0].1), run[1..])
  }

  /** A session is over after at most five awaited events, whatever else happens; and if it is not, each of them has taken
      it one stage on. */
  lemma {:induction false} SessionEnds(a: Adm, run: seq<(Event, Env)>)
    requires Sane(a.state, a.pending) && forall k :: 0 <= k < |run| ==> !run[k].0.open
    ensures AwaitedOf(a, run) <= Stages(a.state, a.pending) <= 5
    ensures var z := MovedAll(a, run);
      z.state != Idle && z.state != Disabled ==> Stages(z.state, z.pending) + AwaitedOf(a, run) == Stages(a.state, a.pending)
    ensures a.state == Idle ==> MovedAll(a, run).state == Idle
    decreases |run|
  {
    hide NextState, NextPending, NextReady, Disturbed;
    if run != [] {
      OneStage(a.state, run[0].0, run[0].1, a.pending, a.ready || run[0].0.ready, a.byPass);
      SessionEnds(Moved(a, run[0].0, run[0].1), run[1..]);
    }
  }
}
