/** The download session of dwn_mgr.c: receive windows, one each u8DeltaSec, on several days. The clock and
    what the timers and the network answer are parameters. */
module DwnSession {

  const DAY := 86400
  const U32 := 0x1_0000_0000

  datatype SesState = Disabled | Idle | Waiting | WaitingRx | Listening

  datatype Event = Event(open: bool, close: bool, ready: bool, delayExpired: bool, recvDone: bool, timeout: bool)

  /** Whether the timer for a day, the periodic one, NetMgr_SetDwlink and NetMgr_Listen fail. */
  datatype Env = Env(now: nat, dayTimerFails: bool, deltaTimerFails: bool, linkFails: bool, listenFails: bool)

  datatype Flags = Flags(error: bool, success: bool, timeout: bool, blkRecv: bool, complete: bool)

  const NONE := Flags(false, false, false, false, false)
  const ERROR := NONE.(error := true)

  /** What the session's timer was last started with. */
  datatype Timer = Stopped | At(time: nat) | Every(seconds: nat)

  /** All days' blocks that are still to come: the current day has blocks, each of the days left has perDay. */
  function Left(days: nat, blocks: nat, perDay: nat): nat {
    days * perDay + blocks
  }

  /** Delay events that are still to come before the session is done. */
  function Measure(days: nat, blocks: nat, perDay: nat): nat {
    days * (perDay + 1) + blocks
  }

  /** A new day begins when the blocks of the last one are used up. */
  lemma NewDay(days: nat, perDay: nat)
    requires days > 0
    ensures Left(days - 1, perDay, perDay) == Left(days, 0, perDay)
    ensures Measure(days - 1, perDay, perDay) == Measure(days, 0, perDay) - 1
  {
  }

  lemma LeftBound(days: nat, blocks: nat, repeat: nat, perDay: nat)
    requires days <= repeat && blocks <= perDay
    ensures Left(days, blocks, perDay) <= perDay * (repeat + 1)
    ensures Measure(days, blocks, perDay) < (perDay + 1) * (repeat + 1)
  {
    assert days * perDay <= repeat * perDay;
    assert days * (perDay + 1) <= repeat * (perDay + 1);
  }

  /** The state and the counts of a session. */
  datatype Book = Book(state: SesState, dayNext: nat, days: nat, blocks: nat)

  /** One delay event within a day: a window, the next day, or the end. */
  function Opened(b: Book, env: Env, perDay: nat): Book {
    if b.blocks > 0 then
      b.(blocks := b.blocks - 1, state := if env.linkFails then WaitingRx else if env.listenFails then Idle else Listening)
    else if b.days > 0 then Book(if env.dayTimerFails then Idle else Waiting, b.dayNext + DAY, b.days - 1, perDay)
    else b.(state := Idle)
  }

  /** One event, but for the opening of a session. */
  function Moved(b: Book, e: Event, env: Env, perDay: nat): Book {
    match b.state
    case Waiting =>
      if !e.delayExpired then b else if env.deltaTimerFails then b.(state := Idle) else Opened(b.(state := WaitingRx), env, perDay)
    case WaitingRx => if e.delayExpired then Opened(b, env, perDay) else b
    case Listening => if e.recvDone || e.timeout then b.(state := WaitingRx) else b
    case _ => b
  }

  // ---------- a whole session ----------

  function After(b: Book, run: seq<(Event, Env)>, perDay: nat): Book
    decreases |run|
  {
    if run == [] then b else After(Moved(b, run[0].0, run[0].1, perDay), run[1..], perDay)
  }

  /** The windows that a run opens. */
  function WindowsOf(b: Book, run: seq<(Event, Env)>, perDay: nat): nat
    decreases |run|
  {
    if run == [] then 0 else
      var next := Moved(b, run[0].0, run[0].1, perDay);
      WindowsOf(next, run[1..], perDay) + if next.state == Listening && b.state != Listening then 1 else 0
  }

  /** The delay events that it handles. */
  function DelaysOf(b: Book, run: seq<(Event, Env)>, perDay: nat): nat
    decreases |run|
  {
    if run == [] then 0 else
      DelaysOf(Moved(b, run[0].0, run[0].1, perDay), run[1..], perDay)
      + if run[0].0.delayExpired && (b.state == Waiting || b.state == WaitingRx) then 1 else 0
  }

  lemma MoveCounts(b: Book, e: Event, env: Env, perDay: nat)
    ensures var c := Moved(b, e, env, perDay);
      && Left(c.days, c.blocks, perDay) + (if c.state == Listening && b.state != Listening then 1 else 0) <= Left(b.days, b.blocks, perDay)
      && c.dayNext + DAY * c.days == b.dayNext + DAY * b.days
      && (b.state == Idle ==> c.state == Idle)
      && (e.delayExpired && (b.state == Waiting || b.state == WaitingRx) ==>
            c.state == Idle || Measure(c.days, c.blocks, perDay) + 1 == Measure(b.days, b.blocks, perDay))
      && (!(e.delayExpired && (b.state == Waiting || b.state == WaitingRx)) ==>
            c.days == b.days && c.blocks == b.blocks)
  {
    hide Left, Measure;
    if b.days > 0 {
      NewDay(b.days, perDay);
    }
    if b.blocks > 0 {
      OneBlock(b.days, b.blocks, perDay);
    }
    LeftGrows(b.days, b.blocks, perDay);
  }

  lemma OneBlock(days: nat, blocks: nat, perDay: nat)
    requires blocks > 0
    ensures Left(days, blocks - 1, perDay) + 1 == Left(days, blocks, perDay)
    ensures Measure(days, blocks - 1, perDay) + 1 == Measure(days, blocks, perDay)
  {
  }

  lemma LeftGrows(days: nat, blocks: nat, perDay: nat)
    ensures Left(days, 0, perDay) <= Left(days, blocks, perDay)
  {
  }

  /** Over a whole session, whatever happens: the days still add up, each window uses up one block, and each
      delay event but the last uses up one unit of the measure. */
  lemma {:induction false} SessionBounded(b: Book, run: seq<(Event, Env)>, perDay: nat)
    ensures var c := After(b, run, perDay);
      && c.dayNext + DAY * c.days == b.dayNext + DAY * b.days
      && WindowsOf(b, run, perDay) + Left(c.days, c.blocks, perDay) <= Left(b.days, b.blocks, perDay)
    ensures b.state == Idle ==> DelaysOf(b, run, perDay) == 0
    ensures DelaysOf(b, run, perDay) <= Measure(b.days, b.blocks, perDay) + 1
    decreases |run|
  {
    hide Left, Measure, Moved;
    if run != [] {
      MoveCounts(b, run[0].0, run[0].1, perDay);
      SessionBounded(Moved(b, run[0].0, run[0].1, perDay), run[1..], perDay);
    }
  }

  /** Nothing fails. */
  predicate Calm(env: Env) {
    !env.dayTimerFails && !env.deltaTimerFails && !env.linkFails && !env.listenFails
  }

  /** Then each window that is left is opened when its delay has passed, a window ends with a block or a time-out, a day
      follows on the other, and the session does not end before all windows are used up. */
  lemma MoveExactly(b: Book, e: Event, env: Env, perDay: nat)
    requires Calm(env)
    ensures var c := Moved(b, e, env, perDay);
      && Left(c.days, c.blocks, perDay) + (if c.state == Listening && b.state != Listening then 1 else 0) == Left(b.days, b.blocks, perDay)
      && (e.delayExpired && (b.state == Waiting || b.state == WaitingRx) ==>
            c.state == if b.blocks > 0 then Listening else if b.days > 0 then Waiting else Idle)
      && (b.state == Listening ==> c == b.(state := if e.recvDone || e.timeout then WaitingRx else Listening))
      && (!e.delayExpired && b.state != Listening ==> c == b)
      && (c.state == Idle && b.state != Idle ==> Left(c.days, c.blocks, perDay) == 0)
  {
    hide Left;
    if b.days > 0 {
      NewDay(b.days, perDay);
    }
    if b.blocks > 0 {
      OneBlock(b.days, b.blocks, perDay);
    }
    NoneLeft(perDay);
  }

  lemma NoneLeft(perDay: nat)
    ensures Left(0, 0, perDay) == 0
  {
  }

  /** So a session in which nothing fails opens exactly the windows it had, if it comes to its end. */
  lemma {:induction false} SessionExactly(b: Book, run: seq<(Event, Env)>, perDay: nat)
    requires forall k :: 0 <= k < |run| ==> Calm(run[k].1)
    ensures var c := After(b, run, perDay);
      && WindowsOf(b, run, perDay) + Left(c.days, c.blocks, perDay) == Left(b.days, b.blocks, perDay)
      && (c.state == Idle && b.state != Idle ==> WindowsOf(b, run, perDay) == Left(b.days, b.blocks, perDay))
    ensures b.state == Idle ==> After(b, run, perDay) == b
    decreases |run|
  {
    hide Left, Moved;
    if run != [] {
      MoveExactly(b, run[0].0, run[0].1, perDay);
      IdleStays(b, run[0].0, run[0].1, perDay);
      SessionExactly(Moved(b, run[0].0, run[0].1, perDay), run[1..], perDay);
    }
  }

  lemma IdleStays(b: Book, e: Event, env: Env, perDay: nat)
    ensures b.state == Idle ==> Moved(b, e, env, perDay) == b
  {
  }

  /** Windows of a day that have started once some seconds of it have gone by, one each delta seconds. */
  function Started(elapsed: nat, delta: nat): nat
    requires delta > 0
  {
    elapsed / delta + if elapsed % delta != 0 then 1 else 0
  }

  /** Window k of a day is among them exactly when its start is past. */
  lemma StartedAre(elapsed: nat, delta: nat, k: nat)
    requires delta > 0
    ensures k < Started(elapsed, delta) <==> delta * k < elapsed
  {
    var q, r := elapsed / delta, elapsed % delta;
    assert elapsed == delta * q + r;
    if k < q {
      assert delta * k <= delta * (q - 1) == delta * q - delta;
    } else if k > q {
      assert delta * k >= delta * (q + 1) == delta * q + delta;
    }
  }

  /** The number of windows past, as it is kept. */
  function Skipped(elapsed: nat, delta: nat): nat
    requires delta > 0
  {
    Started(elapsed, delta) % 0x10000
  }

  lemma SkippedIs(elapsed: nat, delta: nat)
    requires delta > 0
    ensures Skipped(elapsed, delta) == (elapsed / delta % 0x10000 + if elapsed % delta != 0 then 1 else 0) % 0x10000
    ensures elapsed == 0 ==> Skipped(elapsed, delta) == 0
  {
  }

  lemma StartedBound(elapsed: nat, delta: nat)
    requires delta > 0
    ensures if delta == 1 then Started(elapsed, delta) == elapsed else 2 * Started(elapsed, delta) <= elapsed + 2
  {
    var q := elapsed / delta;
    if delta > 1 {
      assert 2 * q <= delta * q <= elapsed;
    }
  }

  /** It is the number of windows that have started, unless there are 65536 of them in a day. */
  lemma SkippedWraps(elapsed: nat, delta: nat)
    requires delta > 0 && elapsed < DAY
    ensures Skipped(elapsed, delta) == Started(elapsed, delta) <==> delta > 1 || elapsed < 0x10000
  {
    hide Started;
    StartedBound(elapsed, delta);
  }

  /** What is returned once elapsed seconds of the day have gone by: the rest of the current interval, and one
      interval more when that is too short to prepare for. */
  function Offset(elapsed: nat, delta: nat, least: nat): nat
    requires delta > 0
  {
    var next := delta - elapsed % delta;
    next + if next < least then delta else 0
  }

  /** The windows that are left out: those that have started, and the next one when there is no time for it. */
  function LeftOut(elapsed: nat, delta: nat, least: nat): nat
    requires delta > 0
  {
    Started(elapsed, delta) + if delta - elapsed % delta < least then 1 else 0
  }

  /** Counted from the start of the day, this is where the next window starts if and only if exactly one interval
      has gone by; and after two it is past. */
  lemma OffsetRight(elapsed: nat, delta: nat, least: nat)
    requires delta > 0 && elapsed > 0
    ensures Offset(elapsed, delta, least) == delta * LeftOut(elapsed, delta, least) <==> elapsed == delta
    ensures elapsed >= 2 * delta ==> Offset(elapsed, delta, least) <= elapsed
  {
    var q, r := elapsed / delta, elapsed % delta;
    var d := if delta - r < least then 1 else 0;
    assert elapsed == delta * q + r;
    assert delta * (q + d) == delta * q + delta * d && delta * (q + 1 + d) == delta * q + delta + delta * d;
    if r == 0 {
      assert q != 1 ==> delta * q != delta;
    }
  }

  /** Counted from now it is the start of a window for which there is time: of the first that is not left out, or of
      the one behind it when now is itself the start of one. */
  lemma OffsetFromNow(elapsed: nat, delta: nat, least: nat)
    requires delta > 0
    ensures elapsed + Offset(elapsed, delta, least) == delta * (LeftOut(elapsed, delta, least) + if elapsed % delta == 0 then 1 else 0)
    ensures 0 < least <= delta ==> least <= Offset(elapsed, delta, least) < least + delta
  {
    var q, r := elapsed / delta, elapsed % delta;
    var d := if delta - r < least then 1 else 0;
    assert elapsed == delta * q + r;
    assert delta * (q + 1 + d) == delta * q + delta + delta * d;
  }

  class Session {
    // announced
    const daysProg: nat
    const dayRepeat: nat
    const deltaSec: nat
    const blocksCount: nat
    const initDelayMin: nat
    // bookkeeping
    var state: SesState
    var dayNext: nat
    var days: nat       // _u8DayCount
    var blocks: nat     // _u16BlocksCount
    var pending: bool
    var timer: Timer
    ghost var windows: nat      // receive windows opened since adjustInit

    constructor (daysProg: nat, dayRepeat: nat, deltaSec: nat, blocksCount: nat, initDelayMin: nat)
      requires dayRepeat < 256 && 1 <= deltaSec < 256 && 1 <= blocksCount < 0x10000
      requires daysProg + DAY * dayRepeat < U32
      ensures Valid() && state == Idle && this.daysProg == daysProg && this.dayRepeat == dayRepeat && this.deltaSec == deltaSec
      ensures this.blocksCount == blocksCount && this.initDelayMin == initDelayMin
    {
      this.daysProg, this.dayRepeat, this.deltaSec := daysProg, dayRepeat, deltaSec;
      this.blocksCount, this.initDelayMin := blocksCount, initDelayMin;
      state, dayNext, days, blocks, pending, timer := Idle, daysProg, dayRepeat, blocksCount, false, Stopped;
      windows := 0;
    }

    predicate Announced() {
      dayRepeat < 256 && 1 <= deltaSec < 256 && 1 <= blocksCount < 0x10000 && daysProg + DAY * dayRepeat < U32
    }

    function Now(): Book
      reads this
    {
      Book(state, dayNext, days, blocks)
    }

    /** The days that are left and the next day add up, and so do the windows opened and those to come. */
    ghost predicate Valid()
      reads this
    {
      && Announced()
      && dayNext + DAY * days == daysProg + DAY * dayRepeat
      && days <= dayRepeat && blocks <= blocksCount
      && windows + Left(days, blocks, blocksCount) <= blocksCount * (dayRepeat + 1)
      && (state == Waiting ==> timer.At?)
      && (state == WaitingRx || state == Listening ==> timer == Every(deltaSec))
    }

    /** The day of the programme at that time, and whether no window of it is left. */
    function DayAt(now: nat): nat
      requires now >= daysProg
    {
      (now - daysProg) / DAY
    }

    predicate DayIsOver(now: nat)
      requires Announced() && now >= daysProg
    {
      Skipped((now - daysProg) % DAY, deltaSec) >= blocksCount
    }

    /** There is a day to open: today while windows are left, or the day after. */
    predicate HasDay(now: nat)
      requires Announced()
    {
      now > daysProg ==> DayAt(now) + (if DayIsOver(now) then 1 else 0) < dayRepeat
    }

    function DayOf(now: nat): nat
      requires Announced()
    {
      if now > daysProg then daysProg + DAY * (DayAt(now) + if DayIsOver(now) then 1 else 0) else daysProg
    }

    /** The day of now is over once its last window has started, where the seconds that have gone by are counted from
        65536 on anew when there is a window each second; the day to open is then the one after. */
    lemma DayRight(now: nat)
      requires Announced()
      ensures now <= daysProg ==> HasDay(now) && DayOf(now) == daysProg
      ensures now > daysProg ==>
        var k, elapsed := (now - daysProg) / DAY, (now - daysProg) % DAY;
        var counted := if deltaSec == 1 && elapsed >= 0x10000 then elapsed - 0x10000 else elapsed;
        && now - elapsed == daysProg + DAY * k
        && (deltaSec * (blocksCount - 1) >= counted ==> DayOf(now) == now - elapsed && (HasDay(now) <==> k < dayRepeat))
        && (deltaSec * (blocksCount - 1) < counted ==> DayOf(now) == now - elapsed + DAY && (HasDay(now) <==> k + 1 < dayRepeat))
    {
      if now > daysProg {
        var elapsed := (now - daysProg) % DAY;
        var counted := if deltaSec == 1 && elapsed >= 0x10000 then elapsed - 0x10000 else elapsed;
        SkippedWraps(elapsed, deltaSec);
        StartedBound(elapsed, deltaSec);
        StartedBound(counted, deltaSec);
        StartedAre(counted, deltaSec, blocksCount - 1);
      }
    }

    /** The windows past, in 16 bits. */
    method CountPassed(elapsed: nat) returns (passed: nat)
      requires Announced()
      ensures passed == Skipped(elapsed, deltaSec) && (elapsed == 0 ==> passed == 0)
    {
      SkippedIs(elapsed, deltaSec);
      passed := elapsed / deltaSec % 0x10000;
      passed := (passed + if elapsed % deltaSec != 0 then 1 else 0) % 0x10000;
    }

    /** The first part of _dwn_mgr_adjustInit_: days and windows that are already past are skipped. The number
        of days past is kept in a byte, the number of windows past in 16 bits. */
    method SkipPast(now: nat) returns (more: bool)
      requires Announced() && now < daysProg + 256 * DAY && state == Idle
      modifies this`dayNext, this`days, this`blocks, this`windows
      ensures Valid() && windows == 0
      ensures more == HasDay(now) && (more ==> dayNext == DayOf(now))
      ensures more ==> now < dayNext + DAY && blocks > 0
      ensures more ==> blocks == blocksCount - (if now > dayNext then Skipped(now - dayNext, deltaSec) else 0)
    {
      hide Left, Skipped;
      days, dayNext, blocks := dayRepeat, daysProg, blocksCount;
      windows := 0;
      LeftBound(days, blocks, dayRepeat, blocksCount);
      if now > daysProg {
        var dayPassed := (now - daysProg) / DAY;
        if dayPassed >= dayRepeat {
          return false;
        }
        days := days - dayPassed;
        dayNext := dayNext + dayPassed * DAY;
        LeftBound(days, blocks, dayRepeat, blocksCount);
        var passed := CountPassed(now - dayNext);
        if passed >= blocksCount {
          if days > 1 {
            days := days - 1;
            dayNext := dayNext + DAY;
            passed := 0;
          } else {
            return false;
          }
        }
        blocks := blocks - passed;
        LeftBound(days, blocks, dayRepeat, blocksCount);
      }
      return true;
    }

    /** What AdjustInit leaves when it has found a day, and returns. */
    predicate Adjusted(now: nat, offset: int)
      requires Announced()
      reads this
    {
      && dayNext == DayOf(now) && now < dayNext + DAY && blocks <= blocksCount
      && (now <= dayNext ==>
            blocksCount - blocks == (if initDelayMin > 0 then 1 else 0) && offset == deltaSec * (blocksCount - blocks))
      && (now > dayNext ==> var elapsed := now - dayNext;
            && offset == Offset(elapsed, deltaSec, initDelayMin)
            && blocksCount - blocks == Skipped(elapsed, deltaSec) + LeftOut(elapsed, deltaSec, initDelayMin) - Started(elapsed, deltaSec))
    }

    /** _dwn_mgr_adjustInit_: when the next window starts, or -1. The caller adds the result to the start of the
        day, which is right when that is still to come; in a day that has begun it is right only exactly one
        interval after its start, and from two intervals on the time is past. */
    method AdjustInit(now: nat) returns (offset: int)
      requires Announced() && now < daysProg + 256 * DAY && state == Idle
      modifies this`dayNext, this`days, this`blocks, this`windows
      ensures Valid() && windows == 0 && offset >= -1
      ensures (offset >= 0 <==> HasDay(now)) && (offset >= 0 ==> Adjusted(now, offset))
      ensures offset >= 0 && now > dayNext ==> var elapsed := now - dayNext;
        && (offset == deltaSec * LeftOut(elapsed, deltaSec, initDelayMin) <==> elapsed == deltaSec)
        && (elapsed >= 2 * deltaSec ==> dayNext + offset <= now)
    {
      hide Left, Skipped, Started;
      var more := SkipPast(now);
      if !more {
        return -1;
      }
      if now > dayNext {
        OffsetRight(now - dayNext, deltaSec, initDelayMin);
        offset := deltaSec - (now - dayNext) % deltaSec;
      } else {
        offset := 0;
      }
      if offset < initDelayMin {
        offset := offset + deltaSec;
        blocks := blocks - 1;
        LeftBound(days, blocks, dayRepeat, blocksCount);
      }
    }

    /** What opening a session comes to: it waits for the first window if there is a day left and the timer starts. */
    ghost predicate OpenedBy(env: Env)
      requires Announced()
      reads this
    {
      && windows == 0 && state == (if HasDay(env.now) && !env.dayTimerFails then Waiting else Idle)
      && (state == Waiting ==> timer.At? && Adjusted(env.now, timer.time as int - dayNext))
    }

    /** A call that fails when a delay has passed. */
    predicate Fails(env: Env)
      reads this
    {
      || (state == Waiting && env.deltaTimerFails)
      || (if blocks > 0 then env.linkFails || env.listenFails else days > 0 && env.dayTimerFails)
    }

    /** _dwn_mgr_fsm_. */
    method Fsm(e: Event, env: Env) returns (f: Flags)
      requires Valid() && env.now < daysProg + 256 * DAY
      modifies this
      ensures Valid()
      ensures (e.close || old(state) == Idle) && e.open ==> OpenedBy(env)
      ensures !((e.close || old(state) == Idle) && e.open) ==>
        Now() == Moved(if e.close then old(Now()).(state := Idle) else old(Now()), e, env, blocksCount)
      ensures e.delayExpired && !e.close && old(blocks) == 0 && old(days) > 0 && old(state) != Idle && state == Waiting ==> timer == At(old(dayNext) + DAY)
      ensures e.close && state == Idle ==> timer == Stopped
      ensures e.delayExpired && !e.close && (old(state) == Waiting || old(state) == WaitingRx) ==>
        state == Idle || Measure(days, blocks, blocksCount) == old(Measure(days, blocks, blocksCount)) - 1
      ensures !((e.close || old(state) == Idle) && e.open) ==>
        windows == old(windows) + if state == Listening && old(state) != Listening then 1 else 0
      ensures f.success <==> e.delayExpired && !e.close && old(blocks) == 0 && old(days) == 0
                             && (old(state) == WaitingRx || (old(state) == Waiting && !env.deltaTimerFails))
      ensures f.blkRecv <==> old(state) == Listening && !e.close && e.recvDone && (e.ready || !old(pending))
      ensures pending == ((old(pending) && !e.ready) || f.blkRecv)
      ensures f.timeout <==> old(state) == Listening && !e.close && e.timeout
      ensures f.complete <==> e.close || (state == Idle && (old(state) != Idle || e.open))
      ensures f.error <==> if e.close || old(state) == Idle then e.open && HasDay(env.now) && env.dayTimerFails
        else e.delayExpired && (old(state) == Waiting || old(state) == WaitingRx) && old(Fails(env))
    {
      hide Left, Measure, Moved, HasDay, OpenedBy, Adjusted, Announced;
      var previous := state;
      if e.close {
        timer := Stopped;
        state := Idle;
      }
      if e.ready {
        pending := false;
      }
      f := Act(e, env, NONE.(complete := e.close));
      if state != previous {
        if state == Idle {
          f := f.(complete := true);
        }
      }
    }

    /** The switch over the states. */
    method Act(e: Event, env: Env, g: Flags) returns (f: Flags)
      requires Valid() && env.now < daysProg + 256 * DAY && (g == NONE || (state == Idle && g == NONE.(complete := true)))
      modifies this
      ensures Valid()
      ensures !(old(state) == Idle && e.open) ==> Now() == Moved(old(Now()), e, env, blocksCount)
      ensures old(state) == Idle && e.open ==> OpenedBy(env) && (state == Idle ==> f.complete && timer == old(timer))
      ensures e.delayExpired && old(blocks) == 0 && old(days) > 0 && state == Waiting && old(state) != Idle ==> timer == At(old(dayNext) + DAY)
      ensures !(old(state) == Idle && e.open) && old(state) != Waiting && old(state) != WaitingRx ==> timer == old(timer)
      ensures f.timeout <==> old(state) == Listening && e.timeout
      ensures f.complete <==> g.complete || (old(state) == Idle && e.open && state == Idle)
      ensures f.error <==> if old(state) == Idle then e.open && HasDay(env.now) && env.dayTimerFails
        else e.delayExpired && (old(state) == Waiting || old(state) == WaitingRx) && old(Fails(env))
      ensures e.delayExpired && (old(state) == Waiting || old(state) == WaitingRx) ==>
        state == Idle || Measure(days, blocks, blocksCount) == old(Measure(days, blocks, blocksCount)) - 1
      ensures !(old(state) == Idle && e.open) ==> windows == old(windows) + if state == Listening && old(state) != Listening then 1 else 0
      ensures f.success <==> e.delayExpired && old(blocks) == 0 && old(days) == 0
                             && (old(state) == WaitingRx || (old(state) == Waiting && !env.deltaTimerFails))
      ensures f.blkRecv <==> old(state) == Listening && e.recvDone && !old(pending)
      ensures pending == (old(pending) || f.blkRecv)
    {
      hide Left, Measure, HasDay, OpenedBy, Adjusted, Announced;
      f := g;
      match state {
        case Idle =>
          if e.open {
            f := Open(env, f);
          }
        case Waiting =>
          if e.delayExpired {
            if env.deltaTimerFails {
              state := Idle;
              f := ERROR;
            } else {
              timer := Every(deltaSec);
              state := WaitingRx;
              f := Window(env, f);
            }
          }
        case WaitingRx =>
          if e.delayExpired {
            f := Window(env, f);
          }
        case Listening =>
          f := Listened(e);
        case Disabled =>
      }
    }

    /** SES_STATE_LISTENING. */
    method Listened(e: Event) returns (f: Flags)
      requires state == Listening
      modifies this`state, this`pending
      ensures state == if e.recvDone || e.timeout then WaitingRx else Listening
      ensures f == NONE.(blkRecv := e.recvDone && !old(pending), timeout := e.timeout)
      ensures pending == (old(pending) || e.recvDone)
    {
      f := NONE;
      if e.recvDone {
        if !pending {
          f := f.(blkRecv := true);
          pending := true;
        }
        state := WaitingRx;
      }
      if e.timeout {
        state := WaitingRx;
        f := f.(timeout := true);
      }
    }

    /** A session opens no more windows than its days have blocks, and the delay events are bounded too. */
    lemma WindowsBound()
      requires Valid()
      ensures windows <= blocksCount * (dayRepeat + 1)
      ensures Measure(days, blocks, blocksCount) < (blocksCount + 1) * (dayRepeat + 1)
    {
      LeftBound(days, blocks, dayRepeat, blocksCount);
    }

    /** SES_STATE_IDLE with an open event. */
    method Open(env: Env, g: Flags) returns (f: Flags)
      requires Announced() && env.now < daysProg + 256 * DAY && state == Idle && (g == NONE || g == NONE.(complete := true))
      modifies this`state, this`dayNext, this`days, this`blocks, this`windows, this`timer
      ensures Valid() && OpenedBy(env) && (state == Idle ==> timer == old(timer))
      ensures f == if state == Waiting then g else NONE.(complete := true, error := HasDay(env.now))
    {
      f := g;
      var offset := AdjustInit(env.now);
      if offset < 0 {
        f := NONE.(complete := true);
      } else if env.dayTimerFails {
        f := ERROR.(complete := true);
      } else {
        timer := At(dayNext + offset);
        state := Waiting;
      }
    }

    /** One delay event: a window for a block that is left, the next day, or the end. */
    method Window(env: Env, g: Flags) returns (f: Flags)
      requires Valid() && state == WaitingRx && g == NONE
      modifies this`state, this`dayNext, this`days, this`blocks, this`windows, this`timer
      ensures Valid()
      ensures Now() == Opened(old(Now()), env, blocksCount)
      ensures state == Idle || Measure(days, blocks, blocksCount) == old(Measure(days, blocks, blocksCount)) - 1
      ensures windows == old(windows) + (if state == Listening then 1 else 0)
      ensures !f.blkRecv && !f.timeout && !f.complete && (f.success <==> old(blocks) == 0 && old(days) == 0)
      ensures f.error == old(Fails(env))
      ensures old(blocks) == 0 && state == Waiting ==> timer == At(old(dayNext) + DAY)
    {
      f := g;
      if blocks > 0 {
        blocks := blocks - 1;
        if env.linkFails {
          f := ERROR;
        } else if env.listenFails {
          state := Idle;
          f := ERROR;
        } else {
          state := Listening;
          windows := windows + 1;
        }
      } else {
        timer := Stopped;
        if days > 0 {
          NewDay(days, blocksCount);
          days := days - 1;
          dayNext := dayNext + DAY;
          blocks := blocksCount;
          if env.dayTimerFails {
            state := Idle;
            f := ERROR;
          } else {
            timer := At(dayNext);
            state := Waiting;
          }
        } else {
          state := Idle;
          f := f.(success := true);
        }
      }
    }
  }

  /** Two and a half intervals after the start of a day, the timer is set to half an interval after that start. */
  method LateOpening() returns (s: Session, offset: int)
    ensures s.Valid() && s.deltaSec == 60 && s.dayNext == 1000 && offset == 30
    ensures Started(150, 60) == 3 && s.blocks == s.blocksCount - 3
  {
    s := new Session(1000, 2, 60, 100, 0);
    offset := s.AdjustInit(1150);
  }
}
