/** The administration session of adm_mgr.c: data out, then perhaps a command in and its response out. What
    the network and the timers answer is a parameter. */
module AdmSession {
  import opened Bytes

  datatype SesState = Disabled | Idle | WaitingRx | Listening | WaitingTx | Sending

  /** The bits of an event word that are looked at here. */
  datatype Event = Event(open: bool, close: bool, ready: bool, delayExpired: bool, sendDone: bool, recvDone: bool, timeout: bool)

  const OPEN := Event(true, false, false, false, false, false, false)
  const READY := Event(false, false, true, false, false, false, false)

  /** The bits of the flag word that is handed back. */
  datatype Flags = Flags(error: bool, success: bool, timeout: bool, cmdRecv: bool, pongRecv: bool, dataSent: bool, rspSent: bool,
                         complete: bool, outDate: bool)

  const NONE := Flags(false, false, false, false, false, false, false, false, false)
  const ERROR := NONE.(error := true)

  /** Whether NetMgr_Send, NetMgr_Listen and TimeEvt_TimerStart fail. */
  datatype Env = Env(sendFails: bool, listenFails: bool, timerFails: bool)

  /** A command as it lies in the receive buffer: its counter, the buffer and the length. */
  datatype Cmd = Cmd(id: nat, mem: seq<byte>, n: nat)

  /** The flags after the answer to a frame received while listening, and after a frame has been sent. */
  function ListenFlags(e: Event, env: Env): Flags {
    if e.recvDone && env.timerFails then ERROR else NONE.(cmdRecv := e.recvDone, timeout := e.timeout)
  }

  function SendFlags(e: Event, env: Env, pending: bool, byPass: bool): Flags {
    if !e.sendDone then NONE.(timeout := e.timeout)
    else if pending then NONE.(rspSent := true, timeout := e.timeout)
    else (if !byPass && env.timerFails then ERROR else NONE).(dataSent := true, timeout := e.timeout)
  }

  function RxFlags(e: Event, env: Env, byPass: bool): Flags {
    if !e.delayExpired then NONE else if byPass then NONE.(success := true) else if env.listenFails then ERROR else NONE
  }

  function TxFlags(e: Event, env: Env, ready: bool): Flags {
    if !e.delayExpired then NONE else if !ready then NONE.(outDate := true) else if env.sendFails then ERROR else NONE
  }

  /** The flags of one event; g are those of a close event. */
  function ActFlags(from: SesState, e: Event, env: Env, pending: bool, ready: bool, byPass: bool, g: Flags): Flags {
    match from
    case Idle => if e.open && env.sendFails then ERROR else g
    case WaitingRx => RxFlags(e, env, byPass)
    case Listening => ListenFlags(e, env)
    case WaitingTx => TxFlags(e, env, ready)
    case Sending => SendFlags(e, env, pending, byPass)
    case Disabled => g
  }

  function RxNext(e: Event, env: Env, byPass: bool): SesState {
    if !e.delayExpired then WaitingRx else if byPass || env.listenFails then Idle else Listening
  }

  function TxNext(e: Event, env: Env, ready: bool): SesState {
    if !e.delayExpired then WaitingTx else if ready && !env.sendFails then Sending else Idle
  }

  function ListenNext(e: Event, env: Env): SesState {
    if e.timeout || (e.recvDone && env.timerFails) then Idle else if e.recvDone then WaitingTx else Listening
  }

  function SendNext(e: Event, env: Env, pending: bool, byPass: bool): SesState {
    if e.timeout || (e.sendDone && (pending || byPass || env.timerFails)) then Idle
    else if e.sendDone then WaitingRx else Sending
  }

  /** Where the session goes. */
  function NextState(from: SesState, e: Event, env: Env, pending: bool, ready: bool, byPass: bool): SesState {
    match from
    case Idle => if e.open && !env.sendFails then Sending else Idle
    case WaitingRx => RxNext(e, env, byPass)
    case Listening => ListenNext(e, env)
    case WaitingTx => TxNext(e, env, ready)
    case Sending => SendNext(e, env, pending, byPass)
    case Disabled => Disabled
  }

  /** The two pending bits after an event: opening clears both, a command sets the first, and the end of
      sending clears what has been sent. */
  function NextPending(from: SesState, e: Event, pending: bool): bool {
    if from == Idle && e.open then false else if from == Listening && e.recvDone then true else pending && !(from == Sending && e.sendDone)
  }

  function NextReady(from: SesState, e: Event, pending: bool, ready: bool): bool {
    ready && !(from == Idle && e.open) && !(from == Listening && e.recvDone) && !(from == Sending && e.sendDone && pending)
  }

  class Session {
    var state: SesState
    var pending: bool       // ADM_RSP_PEND
    var ready: bool         // ADM_RSP_READY
    var byPass: bool
    var cmd: Cmd            // sCmdMsg

    /** _adm_mgr_ini_. */
    constructor (cmd: Cmd)
      ensures state == Idle && !pending && !ready && this.cmd == cmd && Valid()
    {
      state, pending, ready, byPass := Idle, false, false, false;
      this.cmd := cmd;
    }

    /** While a command may still arrive, none is pending. */
    predicate Valid()
      reads this
    {
      (state == WaitingRx || state == Listening ==> !pending) && (state == WaitingTx ==> pending)
    }

    /** The response to a command is about to be sent, or is being sent. */
    predicate Answering()
      reads this
    {
      pending && ((state == WaitingTx && ready) || state == Sending)
    }

    /** The network writes a frame into the command buffer, which it does only while it listens. */
    method Deliver(c: Cmd)
      requires Valid() && state == Listening
      modifies this`cmd
      ensures cmd == c && Valid()
    {
      cmd := c;
    }

    /** _adm_mgr_fsm_. */
    method Fsm(e: Event, env: Env) returns (f: Flags)
      requires Valid()
      modifies this`state, this`pending, this`ready, this`byPass
      ensures Valid()
      ensures state == NextState(if e.close then Idle else old(state), e, env, old(pending), old(ready) || e.ready, old(byPass))
      ensures pending == NextPending(if e.close then Idle else old(state), e, old(pending))
      ensures ready == NextReady(if e.close then Idle else old(state), e, old(pending), old(ready) || e.ready)
      ensures byPass == (old(byPass) && !((e.close || old(state) == Idle) && e.open))
      ensures f.cmdRecv <==> old(state) == Listening && !e.close && e.recvDone && !env.timerFails
      ensures f.cmdRecv ==> pending && !ready
      ensures f.rspSent <==> old(state) == Sending && !e.close && e.sendDone && old(pending)
      ensures f.dataSent <==> old(state) == Sending && !e.close && e.sendDone && !old(pending)
      ensures f.outDate <==> old(state) == WaitingTx && !e.close && e.delayExpired && !(old(ready) || e.ready)
      ensures f.success <==> old(state) == WaitingRx && !e.close && e.delayExpired && old(byPass)
      ensures f.timeout <==> !e.close && e.timeout && (old(state) == Sending || (old(state) == Listening && !(e.recvDone && env.timerFails)))
      ensures f.error <==> Fails(if e.close then Idle else old(state), e, env, old(pending), old(ready) || e.ready, old(byPass))
      ensures f.rspSent ==> state == Idle
      ensures Answering() ==> e.ready || old(Answering())
      ensures f.complete <==> (state == Idle && old(state) != Idle) || (e.close && !(e.open && env.sendFails))
    {
      hide NextState, NextPending, NextReady, ActFlags, Fails;
      var previous := state;
      if e.close {
        state := Idle;
      }
      if e.ready {
        ready := true;
      }
      ghost var from := state;
      FlagFacts(from, e, env, pending, ready, byPass, NONE.(complete := e.close));
      StateFacts(from, e, env, pending, ready, byPass);
      f := Act(e, env, NONE.(complete := e.close));
      if state != previous {
        if state == Idle {
          f := f.(complete := true);
        }
      }
    }

    /** The switch over the states. */
    method Act(e: Event, env: Env, g: Flags) returns (f: Flags)
      requires Valid() && (g != NONE ==> state == Idle)
      modifies this`state, this`pending, this`ready, this`byPass
      ensures state == NextState(old(state), e, env, old(pending), old(ready), old(byPass))
      ensures pending == NextPending(old(state), e, old(pending)) && ready == NextReady(old(state), e, old(pending), old(ready))
      ensures f == ActFlags(old(state), e, env, old(pending), old(ready), old(byPass), g)
      ensures byPass == (old(byPass) && !(old(state) == Idle && e.open))
    {
      hide RxFlags, TxFlags, ListenFlags, SendFlags, RxNext, TxNext, ListenNext, SendNext, NextState, ActFlags;
      Cases(state, e, env, pending, ready, byPass, g);
      f := g;
      match state {
        case Idle =>
          f := Opened(e, env, f);
        case WaitingRx =>
          f := RxDelay(e, env);
        case Listening =>
          f := Listened(e, env);
        case WaitingTx =>
          f := TxDelay(e, env);
        case Sending =>
          f := Sent(e, env);
        case Disabled =>
      }
    }

    /** SES_STATE_IDLE: the data go out. */
    method Opened(e: Event, env: Env, g: Flags) returns (f: Flags)
      requires state == Idle
      modifies this`state, this`pending, this`ready, this`byPass
      ensures state == if e.open && !env.sendFails then Sending else Idle
      ensures e.open ==> !pending && !ready && !byPass
      ensures !e.open ==> pending == old(pending) && ready == old(ready) && byPass == old(byPass)
      ensures f == if e.open && env.sendFails then ERROR else g
    {
      f := g;
      if e.open {
        byPass := false;
        pending, ready := false, false;
        if env.sendFails {
          state := Idle;
          f := ERROR;
        } else {
          state := Sending;
        }
      }
    }

    /** SES_STATE_WAITING_RX_DELAY. */
    method RxDelay(e: Event, env: Env) returns (f: Flags)
      requires state == WaitingRx
      modifies this`state
      ensures state == RxNext(e, env, byPass) && f == RxFlags(e, env, byPass)
    {
      f := NONE;
      if e.delayExpired {
        if !byPass {
          if env.listenFails {
            state := Idle;
            f := ERROR;
          } else {
            state := Listening;
          }
        } else {
          state := Idle;
          f := f.(success := true);
        }
      }
    }

    /** SES_STATE_WAITING_TX_DELAY: the response goes if it is ready. */
    method TxDelay(e: Event, env: Env) returns (f: Flags)
      requires state == WaitingTx
      modifies this`state
      ensures state == TxNext(e, env, ready) && f == TxFlags(e, env, ready)
    {
      f := NONE;
      if e.delayExpired {
        if ready {
          if env.sendFails {
            state := Idle;
            f := ERROR;
          } else {
            state := Sending;
          }
        } else {
          state := Idle;
          f := f.(outDate := true);
        }
      }
    }

    /** SES_STATE_LISTENING. The timer is for the response delay, or 30 ms. */
    method Listened(e: Event, env: Env) returns (f: Flags)
      requires state == Listening && !pending
      modifies this`state, this`pending, this`ready
      ensures state == ListenNext(e, env) && f == ListenFlags(e, env)
      ensures pending == e.recvDone && ready == (old(ready) && !e.recvDone)
    {
      f := NONE;
      if e.recvDone {
        f := f.(cmdRecv := true);
        pending, ready := true, false;
        if env.timerFails {
          state := Idle;
          f := ERROR;
          return;
        }
        state := WaitingTx;
      }
      if e.timeout {
        state := Idle;
        f := f.(timeout := true);
      }
    }

    /** SES_STATE_SENDING. */
    method Sent(e: Event, env: Env) returns (f: Flags)
      requires state == Sending
      modifies this`state, this`pending, this`ready
      ensures state == SendNext(e, env, old(pending), byPass) && f == SendFlags(e, env, old(pending), byPass)
      ensures pending == (old(pending) && !e.sendDone) && ready == (old(ready) && !(e.sendDone && old(pending)))
    {
      f := NONE;
      if e.sendDone {
        if pending {
          state := Idle;
          pending, ready := false, false;
          f := f.(rspSent := true);
        } else {
          if !byPass {
            if env.timerFails {
              state := Idle;
              f := ERROR;
            } else {
              state := WaitingRx;
            }
          } else {
            state := Idle;
          }
          f := f.(dataSent := true);
        }
      }
      if e.timeout {
        state := Idle;
        f := f.(timeout := true);
      }
    }
  }

  /** The four functions, state by state. */
  lemma Cases(from: SesState, e: Event, env: Env, pending: bool, ready: bool, byPass: bool, g: Flags)
    ensures from == Idle ==>
      && NextState(from, e, env, pending, ready, byPass) == (if e.open && !env.sendFails then Sending else Idle)
      && ActFlags(from, e, env, pending, ready, byPass, g) == if e.open && env.sendFails then ERROR else g
    ensures from == WaitingRx ==>
      && NextState(from, e, env, pending, ready, byPass) == RxNext(e, env, byPass)
      && ActFlags(from, e, env, pending, ready, byPass, g) == RxFlags(e, env, byPass)
    ensures from == Listening ==>
      && NextState(from, e, env, pending, ready, byPass) == ListenNext(e, env)
      && ActFlags(from, e, env, pending, ready, byPass, g) == ListenFlags(e, env)
    ensures from == WaitingTx ==>
      && NextState(from, e, env, pending, ready, byPass) == TxNext(e, env, ready)
      && ActFlags(from, e, env, pending, ready, byPass, g) == TxFlags(e, env, ready)
    ensures from == Sending ==>
      && NextState(from, e, env, pending, ready, byPass) == SendNext(e, env, pending, byPass)
      && ActFlags(from, e, env, pending, ready, byPass, g) == SendFlags(e, env, pending, byPass)
    ensures from == Disabled ==>
      NextState(from, e, env, pending, ready, byPass) == from && ActFlags(from, e, env, pending, ready, byPass, g) == g
  {
    hide RxFlags, TxFlags, ListenFlags, SendFlags, RxNext, TxNext, ListenNext, SendNext;
  }

  /** A call that fails: data or response are not sent, nothing is listened to, or a timer does not start. */
  predicate Fails(from: SesState, e: Event, env: Env, pending: bool, ready: bool, byPass: bool) {
    || (from == Idle && e.open && env.sendFails)
    || (from == Sending && e.sendDone && !pending && !byPass && env.timerFails)
    || (from == WaitingRx && e.delayExpired && !byPass && env.listenFails)
    || (from == Listening && e.recvDone && env.timerFails)
    || (from == WaitingTx && e.delayExpired && ready && env.sendFails)
  }

  /** Which flag is raised when. */
  lemma FlagFacts(from: SesState, e: Event, env: Env, pending: bool, ready: bool, byPass: bool, g: Flags)
    requires g == NONE || g == NONE.(complete := true)
    ensures var f := ActFlags(from, e, env, pending, ready, byPass, g);
      && (f.cmdRecv <==> from == Listening && e.recvDone && !env.timerFails)
      && (f.rspSent <==> from == Sending && e.sendDone && pending)
      && (f.dataSent <==> from == Sending && e.sendDone && !pending)
      && (f.outDate <==> from == WaitingTx && e.delayExpired && !ready)
      && (f.success <==> from == WaitingRx && e.delayExpired && byPass)
      && (f.timeout <==> e.timeout && (from == Sending || (from == Listening && !(e.recvDone && env.timerFails))))
      && (f.error <==> Fails(from, e, env, pending, ready, byPass))
      && (f.complete <==> g.complete && (from == Idle || from == Disabled) && !(from == Idle && e.open && env.sendFails))
  {
  }

  /** The ready event alone changes nothing but the ready bit. */
  lemma ReadyFacts(from: SesState, env: Env, pending: bool, ready: bool, byPass: bool)
    ensures NextState(from, READY, env, pending, ready, byPass) == from
    ensures NextPending(from, READY, pending) == pending && NextReady(from, READY, pending, ready) == ready
  {
  }

  /** While a command may still arrive none is pending; a response that is under way has been declared ready. */
  lemma StateFacts(from: SesState, e: Event, env: Env, pending: bool, ready: bool, byPass: bool)
    requires (from == WaitingRx || from == Listening ==> !pending) && (from == WaitingTx ==> pending)
    ensures var to, p, r := NextState(from, e, env, pending, ready, byPass), NextPending(from, e, pending), NextReady(from, e, pending, ready);
      && (to == WaitingRx || to == Listening ==> !p) && (to == WaitingTx ==> p)
      && (p && ((to == WaitingTx && r) || to == Sending) ==> pending && ((from == WaitingTx && ready) || from == Sending))
      && (from == Listening && e.recvDone ==> p && !r)
      && (from == Sending && e.sendDone && pending ==> to == Idle)
  {
  }
}
