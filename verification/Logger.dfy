/** The logger of logger.c as the interleaved steps of any number of producers (Logger_Put, Logger_Post,
    Logger_Frame) and of the one task that prints. A step is one call of the kernel, one turn of the
    search for a free buffer, or one copy. Message is the text a producer ends up with in its buffer. */
module Logger {

  const ITEMS := 15

  datatype Holder = Nobody | Producer(p: nat) | Printer

  /** Where a producer is. */
  datatype Stage<M> =
    | Idle
    | Wants(msg: M)                 // before xSemaphoreTake
    | Taken(msg: M)                 // before the mutex is taken
    | Searching(msg: M, at: nat)    // in the loop of _logger_acquire_id_
    | Failed(msg: M)                // that loop has come to -1
    | Found(msg: M, id: nat)        // before the mutex is given back
    | Owning(msg: M, id: nat)       // before the buffer is filled
    | Filled(msg: M, id: nat)       // before xQueueSend

  /** Where the printing task is. */
  datatype Task =
    | Receiving
    | Printing(id: nat)
    | Printed(id: nat)              // before the mutex is taken
    | Releasing(id: nat)
    | Released                      // before the mutex is given back
    | Giving                        // before xSemaphoreGive

  datatype State<M> = State(
    sem: nat,
    mutex: Holder,
    locks: seq<bool>,
    buffers: seq<M>,
    queue: seq<nat>,
    producers: seq<Stage<M>>,
    task: Task,
    out: seq<M>,                    // what pfOut has been given
    posted: seq<M>,                 // what has been sent to the queue
    senders: seq<nat>)              // and by whom

  datatype Action<M> =
    | Call(p: nat, msg: M)
    | Advance(p: nat)
    | TaskStep

  // ---------- the steps ----------

  predicate CanAdvance<M>(s: State<M>, p: nat)
    requires p < |s.producers|
  {
    match s.producers[p]
    case Idle => false
    case Wants(_) => s.sem > 0
    case Taken(_) => s.mutex == Nobody
    case Filled(_, _) => |s.queue| < ITEMS
    case _ => true
  }

  /** What a producer does next. */
  function Advanced<M>(s: State<M>, p: nat): State<M>
    requires p < |s.producers| && CanAdvance(s, p) && Sizes(s)
  {
    match s.producers[p]
    case Wants(msg) => s.(sem := s.sem - 1, producers := s.producers[p := Taken(msg)])
    case Taken(msg) => s.(mutex := Producer(p), producers := s.producers[p := Searching(msg, 0)])
    case Searching(msg, at) =>
      if at >= ITEMS then s.(producers := s.producers[p := Failed(msg)])
      else if s.locks[at] then s.(producers := s.producers[p := Searching(msg, at + 1)])
      else s.(locks := s.locks[at := true], producers := s.producers[p := Found(msg, at)])
    case Failed(msg) => s.(mutex := Nobody, producers := s.producers[p := Idle])
    case Found(msg, id) => s.(mutex := Nobody, producers := s.producers[p := Owning(msg, id)])
    case Owning(msg, id) =>
      if id < ITEMS then s.(buffers := s.buffers[id := msg], producers := s.producers[p := Filled(msg, id)]) else s
    case Filled(msg, id) => s.(queue := s.queue + [id], posted := s.posted + [msg], senders := s.senders + [p],
                                  producers := s.producers[p := Idle])
    case Idle => s
  }

  predicate CanStep<M>(s: State<M>) {
    match s.task
    case Receiving => s.queue != []
    case Printed(_) => s.mutex == Nobody
    case _ => true
  }

  /** What the printing task does next. */
  function Stepped<M>(s: State<M>): State<M>
    requires CanStep(s) && Sizes(s)
  {
    match s.task
    case Receiving => s.(task := Printing(s.queue[0]), queue := s.queue[1..])
    case Printing(id) => if id < ITEMS then s.(task := Printed(id), out := s.out + [s.buffers[id]]) else s
    case Printed(id) => s.(task := Releasing(id), mutex := Printer)
    case Releasing(id) => if id < ITEMS then s.(task := Released, locks := s.locks[id := false]) else s
    case Released => s.(task := Giving, mutex := Nobody)
    case Giving => s.(task := Receiving, sem := s.sem + 1)
  }

  predicate Sizes<M>(s: State<M>) {
    |s.locks| == ITEMS && |s.buffers| == ITEMS
  }

  predicate Enabled<M>(s: State<M>, a: Action<M>) {
    match a
    case Call(p, _) => p < |s.producers| && s.producers[p] == Idle
    case Advance(p) => p < |s.producers| && CanAdvance(s, p)
    case TaskStep => CanStep(s)
  }

  function Next<M>(s: State<M>, a: Action<M>): State<M>
    requires Enabled(s, a) && Sizes(s)
  {
    match a
    case Call(p, msg) => s.(producers := s.producers[p := Wants(msg)])
    case Advance(p) => Advanced(s, p)
    case TaskStep => Stepped(s)
  }

  /** Logger_Setup. */
  ghost predicate Initial<M>(s: State<M>) {
    && Sizes(s) && s.sem == ITEMS && s.mutex == Nobody && s.queue == [] && s.task == Receiving && s.out == [] && s.posted == [] && s.senders == []
    && (forall i :: 0 <= i < ITEMS ==> !s.locks[i]) && (forall p :: 0 <= p < |s.producers| ==> s.producers[p] == Idle)
  }

  // ---------- counting ----------

  function One(b: bool): nat {
    if b then 1 else 0
  }

  function Locked(locks: seq<bool>): nat {
    if locks == [] then 0 else Locked(locks[..|locks| - 1]) + One(locks[|locks| - 1])
  }

  /** Producers that have taken the semaphore but hold no buffer yet. */
  predicate Taker<M>(st: Stage<M>) {
    st.Taken? || st.Searching? || st.Failed?
  }

  function Takers<M>(producers: seq<Stage<M>>): nat {
    if producers == [] then 0 else Takers(producers[..|producers| - 1]) + One(Taker(producers[|producers| - 1]))
  }

  function Pending(t: Task): nat {
    One(t == Released || t == Giving)
  }

  lemma {:induction false} LockedAfter(locks: seq<bool>, i: nat, b: bool)
    requires i < |locks|
    ensures Locked(locks[i := b]) + One(locks[i]) == Locked(locks) + One(b)
    decreases |locks|
  {
    var n := |locks| - 1;
    if i < n {
      LockedAfter(locks[..n], i, b);
      assert locks[i := b][..n] == locks[..n][i := b];
    } else {
      assert locks[i := b][..n] == locks[..n];
    }
  }

  lemma {:induction false} TakersAfter<M>(producers: seq<Stage<M>>, p: nat, st: Stage<M>)
    requires p < |producers|
    ensures Takers(producers[p := st]) + One(Taker(producers[p])) == Takers(producers) + One(Taker(st))
    decreases |producers|
  {
    var n := |producers| - 1;
    if p < n {
      TakersAfter(producers[..n], p, st);
      assert producers[p := st][..n] == producers[..n][p := st];
    } else {
      assert producers[p := st][..n] == producers[..n];
    }
  }

  lemma {:induction false} TakersCount<M>(producers: seq<Stage<M>>, p: nat)
    requires p < |producers| && Taker(producers[p])
    ensures Takers(producers) > 0
    decreases |producers|
  {
    if p < |producers| - 1 {
      TakersCount(producers[..|producers| - 1], p);
    }
  }

  lemma {:induction false} AllLocked(locks: seq<bool>)
    requires forall i :: 0 <= i < |locks| ==> locks[i]
    ensures Locked(locks) == |locks|
    decreases |locks|
  {
    if locks != [] {
      AllLocked(locks[..|locks| - 1]);
    }
  }

  lemma {:induction false} NoneLocked(locks: seq<bool>)
    requires forall i :: 0 <= i < |locks| ==> !locks[i]
    ensures Locked(locks) == 0
    decreases |locks|
  {
    if locks != [] {
      NoneLocked(locks[..|locks| - 1]);
    }
  }

  /** Every unit of the semaphore is accounted for. */
  ghost predicate Conserved<M>(s: State<M>) {
    s.sem + Takers(s.producers) + Locked(s.locks) + Pending(s.task) == ITEMS
  }

  // ---------- the invariant ----------

  /** Who a buffer belongs to; no step looks at it. */
  datatype Owner = Free | ByProducer(p: nat) | Queued | ByTask

  predicate Holding<M>(st: Stage<M>) {
    st.Found? || st.Owning? || st.Filled?
  }

  predicate TaskHolding(t: Task) {
    t.Printing? || t.Printed? || t.Releasing?
  }

  predicate InMutex<M>(st: Stage<M>) {
    st.Searching? || st.Failed? || st.Found?
  }

  /** The mutex is with the one that is inside. */
  ghost predicate MutexOk<M>(s: State<M>) {
    && (forall p: nat :: p < |s.producers| ==> (InMutex(s.producers[p]) <==> s.mutex == Producer(p)))
    && (s.mutex.Producer? ==> s.mutex.p < |s.producers|)
    && (s.mutex == Printer <==> s.task.Releasing? || s.task == Released)
  }

  ghost predicate Prefix(locks: seq<bool>, n: nat) {
    forall i :: 0 <= i < n && i < |locks| ==> locks[i]
  }

  /** The part of the pool already searched is taken, and no search fails. */
  ghost predicate SearchOk<M>(s: State<M>) {
    forall p: nat :: p < |s.producers| ==>
      match s.producers[p]
      case Searching(_, at) => at <= ITEMS && Prefix(s.locks, at)
      case Failed(_) => false
      case _ => true
  }

  ghost predicate ProducersOwn<M>(producers: seq<Stage<M>>, o: seq<Owner>)
    requires |o| == ITEMS
  {
    && (forall p: nat :: p < |producers| && Holding(producers[p]) ==> producers[p].id < ITEMS && o[producers[p].id] == ByProducer(p))
    && (forall id: nat :: id < ITEMS && o[id].ByProducer? ==>
          o[id].p < |producers| && Holding(producers[o[id].p]) && producers[o[id].p].id == id)
  }

  ghost predicate QueueOwns(queue: seq<nat>, o: seq<Owner>)
    requires |o| == ITEMS
  {
    && (forall i :: 0 <= i < |queue| ==> queue[i] < ITEMS && o[queue[i]] == Queued)
    && (forall i, j :: 0 <= i < j < |queue| ==> queue[i] != queue[j])
    && (forall id: nat :: id < ITEMS && o[id] == Queued ==> id in queue)
  }

  ghost predicate TaskOwns(t: Task, o: seq<Owner>)
    requires |o| == ITEMS
  {
    && (TaskHolding(t) ==> t.id < ITEMS && o[t.id] == ByTask)
    && (forall id: nat :: id < ITEMS && o[id] == ByTask ==> TaskHolding(t) && t.id == id)
  }

  ghost predicate LocksOk(locks: seq<bool>, o: seq<Owner>)
    requires |locks| == ITEMS && |o| == ITEMS
  {
    forall id: nat :: id < ITEMS ==> (locks[id] <==> o[id] != Free)
  }

  /** Every buffer in use has exactly one owner: a producer, the queue or the printing task. */
  ghost predicate OwnersOk<M>(s: State<M>, o: seq<Owner>)
    requires Sizes(s) && |o| == ITEMS
  {
    ProducersOwn(s.producers, o) && QueueOwns(s.queue, o) && TaskOwns(s.task, o) && LocksOk(s.locks, o)
  }

  /** The texts of the queue, in order. */
  function Texts<M>(buffers: seq<M>, queue: seq<nat>): (t: seq<M>)
    requires forall i :: 0 <= i < |queue| ==> queue[i] < |buffers|
    ensures |t| == |queue| && forall i :: 0 <= i < |t| ==> t[i] == buffers[queue[i]]
  {
    seq(|queue|, i requires 0 <= i < |queue| => buffers[queue[i]])
  }

  function InHand<M>(buffers: seq<M>, t: Task): seq<M> {
    if t.Printing? && t.id < |buffers| then [buffers[t.id]] else []
  }

  ghost predicate FilledOk<M>(producers: seq<Stage<M>>, buffers: seq<M>)
  {
    forall p: nat :: p < |producers| && producers[p].Filled? && producers[p].id < |buffers| ==>
      buffers[producers[p].id] == producers[p].msg
  }

  /** What has been printed, is being printed and is queued is what has been posted, in that order. */
  ghost predicate TextOk<M>(s: State<M>)
  {
    && (forall i :: 0 <= i < |s.queue| ==> s.queue[i] < |s.buffers|)
    && s.out + InHand(s.buffers, s.task) + Texts(s.buffers, s.queue) == s.posted
  }

  ghost predicate Inv<M>(s: State<M>, o: seq<Owner>) {
    && Sizes(s) && |o| == ITEMS && Conserved(s) && MutexOk(s) && SearchOk(s)
    && OwnersOk(s, o) && FilledOk(s.producers, s.buffers) && TextOk(s)
  }

  lemma InitialInv<M>(s: State<M>) returns (o: seq<Owner>)
    requires Initial(s)
    ensures Inv(s, o)
  {
    o := seq(ITEMS, i => Free);
    NoneLocked(s.locks);
    NoTakers(s.producers);
    assert Texts(s.buffers, s.queue) == [];
  }

  lemma {:induction false} NoTakers<M>(producers: seq<Stage<M>>)
    requires forall p :: 0 <= p < |producers| ==> !Taker(producers[p])
    ensures Takers(producers) == 0
    decreases |producers|
  {
    if producers != [] {
      NoTakers(producers[..|producers| - 1]);
    }
  }

  // ---------- every step keeps it: the counts ----------

  lemma CallKeepsCounts<M>(s: State<M>, p: nat, msg: M)
    requires Sizes(s) && Conserved(s) && Enabled(s, Call(p, msg))
    ensures Sizes(Next(s, Call(p, msg))) && Conserved(Next(s, Call(p, msg)))
  {
    TakersAfter(s.producers, p, Wants(msg));
  }

  lemma AdvanceKeepsCounts<M>(s: State<M>, p: nat)
    requires Sizes(s) && Conserved(s) && p < |s.producers| && CanAdvance(s, p) && !s.producers[p].Failed?
    ensures Sizes(Advanced(s, p)) && Conserved(Advanced(s, p))
  {
    TakersAfter(s.producers, p, Advanced(s, p).producers[p]);
    if s.producers[p].Searching? && s.producers[p].at < ITEMS {
      LockedAfter(s.locks, s.producers[p].at, true);
    }
  }

  lemma TaskKeepsCounts<M>(s: State<M>)
    requires Sizes(s) && Conserved(s) && CanStep(s)
    requires s.task.Releasing? ==> s.task.id < ITEMS && s.locks[s.task.id]
    ensures Sizes(Stepped(s)) && Conserved(Stepped(s))
  {
    if s.task.Releasing? {
      LockedAfter(s.locks, s.task.id, false);
    }
  }

  /** There is always a buffer to find: the search never comes to the end of the pool. */
  lemma SearchFinds<M>(s: State<M>, p: nat)
    requires Sizes(s) && Conserved(s) && SearchOk(s) && p < |s.producers| && s.producers[p].Searching?
    ensures s.producers[p].at < ITEMS
  {
    TakersCount(s.producers, p);
    if forall i :: 0 <= i < ITEMS ==> s.locks[i] {
      AllLocked(s.locks);
    }
  }

  // ---------- the mutex and the search ----------

  lemma CallKeepsMutex<M>(s: State<M>, p: nat, msg: M)
    requires Sizes(s) && MutexOk(s) && SearchOk(s) && Enabled(s, Call(p, msg))
    ensures MutexOk(Next(s, Call(p, msg))) && SearchOk(Next(s, Call(p, msg)))
  {
  }

  lemma AdvanceKeepsMutex<M>(s: State<M>, p: nat)
    requires Sizes(s) && MutexOk(s) && SearchOk(s) && p < |s.producers| && CanAdvance(s, p)
    requires s.producers[p].Searching? ==> s.producers[p].at < ITEMS
    ensures MutexOk(Advanced(s, p)) && SearchOk(Advanced(s, p))
  {
  }

  lemma TaskKeepsMutex<M>(s: State<M>)
    requires Sizes(s) && MutexOk(s) && SearchOk(s) && CanStep(s)
    ensures MutexOk(Stepped(s)) && SearchOk(Stepped(s))
  {
  }

  // ---------- the owners ----------

  /** Who owns what after a step. */
  ghost function Owners<M>(s: State<M>, a: Action<M>, o: seq<Owner>): (r: seq<Owner>)
    requires Sizes(s) && |o| == ITEMS && Enabled(s, a)
    ensures |r| == ITEMS
  {
    match a
    case Call(_, _) => o
    case Advance(p) =>
      var st := s.producers[p];
      if st.Searching? && st.at < ITEMS && !s.locks[st.at] then o[st.at := ByProducer(p)]
      else if st.Filled? && st.id < ITEMS then o[st.id := Queued]
      else o
    case TaskStep =>
      if s.task == Receiving && s.queue[0] < ITEMS then o[s.queue[0] := ByTask]
      else if s.task.Releasing? && s.task.id < ITEMS then o[s.task.id := Free]
      else o
  }

  /** A producer that keeps what it holds, or holds nothing before and after. */
  lemma SameHold<M>(producers: seq<Stage<M>>, o: seq<Owner>, p: nat, st: Stage<M>)
    requires |o| == ITEMS && p < |producers| && ProducersOwn(producers, o)
    requires Holding(producers[p]) <==> Holding(st)
    requires Holding(st) ==> producers[p].id == st.id
    ensures ProducersOwn(producers[p := st], o)
  {
  }

  /** A free buffer gets an owner. */
  lemma Found1<M>(producers: seq<Stage<M>>, o: seq<Owner>, p: nat, msg: M, id: nat)
    requires |o| == ITEMS && p < |producers| && ProducersOwn(producers, o) && id < ITEMS && o[id] == Free && !Holding(producers[p])
    ensures ProducersOwn(producers[p := Found(msg, id)], o[id := ByProducer(p)])
  {
  }

  lemma Sent1<M>(producers: seq<Stage<M>>, o: seq<Owner>, p: nat, w: Owner)
    requires |o| == ITEMS && p < |producers| && ProducersOwn(producers, o) && Holding(producers[p]) && !w.ByProducer?
    ensures producers[p].id < ITEMS && ProducersOwn(producers[p := Idle], o[producers[p].id := w])
  {
  }

  lemma OtherOwner<M>(producers: seq<Stage<M>>, o: seq<Owner>, id: nat, w: Owner)
    requires |o| == ITEMS && ProducersOwn(producers, o) && id < ITEMS && !o[id].ByProducer? && !w.ByProducer?
    ensures ProducersOwn(producers, o[id := w])
  {
  }

  lemma QueueSame(queue: seq<nat>, o: seq<Owner>, id: nat, w: Owner)
    requires |o| == ITEMS && QueueOwns(queue, o) && id < ITEMS && o[id] != Queued && w != Queued
    ensures QueueOwns(queue, o[id := w])
  {
  }

  lemma QueueGrows(queue: seq<nat>, o: seq<Owner>, id: nat)
    requires |o| == ITEMS && QueueOwns(queue, o) && id < ITEMS && o[id] != Queued
    ensures QueueOwns(queue + [id], o[id := Queued])
  {
    var q, r := queue + [id], o[id := Queued];
    forall k: nat | k < ITEMS && r[k] == Queued
      ensures k in q
    {
      assert k != id ==> k in queue;
    }
  }

  lemma QueueShrinks(queue: seq<nat>, o: seq<Owner>, w: Owner)
    requires |o| == ITEMS && QueueOwns(queue, o) && queue != [] && w != Queued
    ensures queue[0] < ITEMS && QueueOwns(queue[1..], o[queue[0] := w])
  {
    var q, r := queue[1..], o[queue[0] := w];
    assert forall i :: 0 <= i < |q| ==> q[i] == queue[i + 1];
    forall k: nat | k < ITEMS && r[k] == Queued
      ensures k in q
    {
      var i :| 0 <= i < |queue| && queue[i] == k;
      assert q[i - 1] == k;
    }
  }

  lemma TaskSame(t: Task, o: seq<Owner>, id: nat, w: Owner)
    requires |o| == ITEMS && TaskOwns(t, o) && id < ITEMS && o[id] != ByTask && w != ByTask
    ensures TaskOwns(t, o[id := w])
  {
  }

  lemma LocksSame(locks: seq<bool>, o: seq<Owner>, id: nat, w: Owner)
    requires |locks| == ITEMS && |o| == ITEMS && LocksOk(locks, o) && id < ITEMS && o[id] != Free && w != Free
    ensures LocksOk(locks, o[id := w])
  {
  }

  lemma AdvanceKeepsOwners<M>(s: State<M>, p: nat, o: seq<Owner>)
    requires Sizes(s) && |o| == ITEMS && OwnersOk(s, o) && p < |s.producers| && CanAdvance(s, p)
    requires s.producers[p].Searching? ==> s.producers[p].at < ITEMS
    ensures OwnersOk(Advanced(s, p), Owners(s, Advance(p), o))
  {
    hide ProducersOwn, QueueOwns, TaskOwns;
    var st := s.producers[p];
    if st.Searching? && !s.locks[st.at] {
      Found1(s.producers, o, p, st.msg, st.at);
      QueueSame(s.queue, o, st.at, ByProducer(p));
      TaskSame(s.task, o, st.at, ByProducer(p));
    } else if st.Filled? {
      HoldsItsOwn(s.producers, o, p);
      Sent1(s.producers, o, p, Queued);
      QueueGrows(s.queue, o, st.id);
      TaskSame(s.task, o, st.id, Queued);
      LocksSame(s.locks, o, st.id, Queued);
    } else {
      SameHold(s.producers, o, p, Advanced(s, p).producers[p]);
    }
  }

  lemma HoldsItsOwn<M>(producers: seq<Stage<M>>, o: seq<Owner>, p: nat)
    requires |o| == ITEMS && p < |producers| && ProducersOwn(producers, o) && Holding(producers[p])
    ensures producers[p].id < ITEMS && o[producers[p].id] == ByProducer(p)
  {
  }

  lemma TaskKeepsOwners<M>(s: State<M>, o: seq<Owner>)
    requires Sizes(s) && |o| == ITEMS && OwnersOk(s, o) && CanStep(s)
    ensures OwnersOk(Stepped(s), Owners(s, TaskStep, o))
  {
    hide ProducersOwn, QueueOwns;
    if s.task == Receiving {
      QueueHead(s.queue, o);
      OtherOwner(s.producers, o, s.queue[0], ByTask);
      QueueShrinks(s.queue, o, ByTask);
      LocksSame(s.locks, o, s.queue[0], ByTask);
    } else if s.task.Releasing? {
      OtherOwner(s.producers, o, s.task.id, Free);
      QueueSame(s.queue, o, s.task.id, Free);
    }
  }

  lemma QueueHead(queue: seq<nat>, o: seq<Owner>)
    requires |o| == ITEMS && QueueOwns(queue, o) && queue != []
    ensures queue[0] < ITEMS && o[queue[0]] == Queued
  {
  }

  // ---------- the texts ----------

  lemma FilledKept<M>(s: State<M>, p: nat, o: seq<Owner>)
    requires Sizes(s) && |o| == ITEMS && ProducersOwn(s.producers, o) && FilledOk(s.producers, s.buffers)
    requires p < |s.producers| && CanAdvance(s, p)
    ensures FilledOk(Advanced(s, p).producers, Advanced(s, p).buffers)
  {
    var t, st := Advanced(s, p), s.producers[p];
    forall q: nat | q < |t.producers| && t.producers[q].Filled? && t.producers[q].id < |t.buffers|
      ensures t.buffers[t.producers[q].id] == t.producers[q].msg
    {
      if q != p {
        assert t.producers[q] == s.producers[q];
      }
    }
  }

  /** Filling a buffer touches neither the queue nor the printing task. */
  lemma TextsKept<M>(s: State<M>, o: seq<Owner>, id: nat, msg: M)
    requires Sizes(s) && |o| == ITEMS && QueueOwns(s.queue, o) && TaskOwns(s.task, o) && id < ITEMS && o[id].ByProducer?
    ensures forall i :: 0 <= i < |s.queue| ==> s.queue[i] < |s.buffers|
    ensures Texts(s.buffers[id := msg], s.queue) == Texts(s.buffers, s.queue)
    ensures InHand(s.buffers[id := msg], s.task) == InHand(s.buffers, s.task)
  {
  }

  lemma AdvanceKeepsText<M>(s: State<M>, p: nat, o: seq<Owner>)
    requires Sizes(s) && |o| == ITEMS && OwnersOk(s, o) && FilledOk(s.producers, s.buffers) && TextOk(s)
    requires p < |s.producers| && CanAdvance(s, p)
    ensures TextOk(Advanced(s, p))
  {
    hide ProducersOwn, QueueOwns, TaskOwns, LocksOk;
    var st := s.producers[p];
    if st.Owning? {
      HoldsItsOwn(s.producers, o, p);
      TextsKept(s, o, st.id, st.msg);
    } else if st.Filled? {
      HoldsItsOwn(s.producers, o, p);
      assert Texts(s.buffers, s.queue + [st.id]) == Texts(s.buffers, s.queue) + [st.msg];
      assert s.out + InHand(s.buffers, s.task) + (Texts(s.buffers, s.queue) + [st.msg]) == s.posted + [st.msg];
    }
  }

  lemma TaskKeepsText<M>(s: State<M>, o: seq<Owner>)
    requires Sizes(s) && |o| == ITEMS && TaskOwns(s.task, o) && TextOk(s) && CanStep(s)
    ensures TextOk(Stepped(s))
  {
    var t := Stepped(s);
    if s.task == Receiving {
      assert forall i :: 0 <= i < |t.queue| ==> t.queue[i] == s.queue[i + 1];
      assert Texts(s.buffers, s.queue) == [s.buffers[s.queue[0]]] + Texts(s.buffers, s.queue[1..]);
      assert s.out + [] + Texts(s.buffers, s.queue) == s.out + [s.buffers[s.queue[0]]] + Texts(s.buffers, s.queue[1..]);
    } else if s.task.Printing? {
      assert s.out + [s.buffers[s.task.id]] + [] + Texts(s.buffers, s.queue) == s.out + [s.buffers[s.task.id]] + Texts(s.buffers, s.queue);
    }
  }

  // ---------- all of it ----------

  lemma CallKeeps<M>(s: State<M>, p: nat, msg: M, o: seq<Owner>)
    requires Inv(s, o) && Enabled(s, Call(p, msg))
    ensures Inv(Next(s, Call(p, msg)), o)
  {
    hide Conserved, MutexOk, SearchOk, ProducersOwn, QueueOwns, TaskOwns, LocksOk, TextOk, FilledOk;
    CallKeepsCounts(s, p, msg);
    CallKeepsMutex(s, p, msg);
    SameHold(s.producers, o, p, Wants(msg));
    CallKeepsText(s, p, msg);
  }

  lemma CallKeepsText<M>(s: State<M>, p: nat, msg: M)
    requires Sizes(s) && FilledOk(s.producers, s.buffers) && TextOk(s) && Enabled(s, Call(p, msg))
    ensures FilledOk(Next(s, Call(p, msg)).producers, s.buffers) && TextOk(Next(s, Call(p, msg)))
  {
  }

  lemma AdvanceKeeps<M>(s: State<M>, p: nat, o: seq<Owner>)
    requires Inv(s, o) && p < |s.producers| && CanAdvance(s, p)
    ensures Inv(Advanced(s, p), Owners(s, Advance(p), o))
  {
    hide Conserved, MutexOk, SearchOk, ProducersOwn, QueueOwns, TaskOwns, LocksOk, TextOk, FilledOk, Advanced, Owners, CanAdvance;
    NoneFailed(s, p);
    if s.producers[p].Searching? {
      SearchFinds(s, p);
    }
    AdvanceKeepsCounts(s, p);
    AdvanceKeepsMutex(s, p);
    AdvanceKeepsOwners(s, p, o);
    FilledKept(s, p, o);
    AdvanceKeepsText(s, p, o);
  }

  lemma TaskKeeps<M>(s: State<M>, o: seq<Owner>)
    requires Inv(s, o) && CanStep(s)
    ensures Inv(Stepped(s), Owners(s, TaskStep, o))
  {
    hide Conserved, MutexOk, SearchOk, ProducersOwn, QueueOwns, TaskOwns, LocksOk, TextOk, FilledOk, Owners;
    TaskHoldsItsOwn(s, o);
    TaskKeepsCounts(s);
    TaskKeepsMutex(s);
    TaskKeepsOwners(s, o);
    TaskKeepsText(s, o);
  }

  lemma TaskHoldsItsOwn<M>(s: State<M>, o: seq<Owner>)
    requires Sizes(s) && |o| == ITEMS && OwnersOk(s, o)
    ensures TaskHolding(s.task) ==> s.task.id < ITEMS && s.locks[s.task.id]
  {
  }

  lemma NoneFailed<M>(s: State<M>, p: nat)
    requires SearchOk(s) && p < |s.producers|
    ensures !s.producers[p].Failed?
  {
  }

  /** Any step of any run. */
  lemma StepKeeps<M>(s: State<M>, a: Action<M>, o: seq<Owner>)
    requires Inv(s, o) && Enabled(s, a)
    ensures Inv(Next(s, a), Owners(s, a, o))
  {
    hide Inv, Advanced, Stepped, Owners;
    InvSizes(s, o);
    match a
    case Call(p, msg) =>
      CallKeeps(s, p, msg, o);
      assert Owners(s, a, o) == o by {
        CallOwners(s, p, msg, o);
      }
    case Advance(p) =>
      AdvanceKeeps(s, p, o);
    case TaskStep =>
      TaskKeeps(s, o);
  }

  lemma CallOwners<M>(s: State<M>, p: nat, msg: M, o: seq<Owner>)
    requires Sizes(s) && |o| == ITEMS && Enabled(s, Call(p, msg))
    ensures Owners(s, Call(p, msg), o) == o
  {
  }

  lemma InvSizes<M>(s: State<M>, o: seq<Owner>)
    requires Inv(s, o)
    ensures Sizes(s) && |o| == ITEMS
  {
  }

  // ---------- runs ----------

  /** The actions of a run are each possible when their turn comes. */
  predicate Possible<M>(s: State<M>, run: seq<Action<M>>)
    requires Sizes(s)
    decreases |run|
  {
    run == [] || (Enabled(s, run[0]) && Sizes(Next(s, run[0])) && Possible(Next(s, run[0]), run[1..]))
  }

  function After<M>(s: State<M>, run: seq<Action<M>>): State<M>
    requires Sizes(s) && Possible(s, run)
    decreases |run|
  {
    if run == [] then s else After(Next(s, run[0]), run[1..])
  }

  lemma {:induction false} RunKeeps<M>(s: State<M>, run: seq<Action<M>>, o: seq<Owner>) returns (r: seq<Owner>)
    requires Inv(s, o) && Sizes(s) && Possible(s, run)
    ensures Inv(After(s, run), r)
    decreases |run|
  {
    hide Inv, Next, Enabled, Owners;
    if run == [] {
      r := o;
    } else {
      InvSizes(s, o);
      StepKeeps(s, run[0], o);
      r := RunKeeps(Next(s, run[0]), run[1..], Owners(s, run[0], o));
    }
  }

  lemma Reachable<M>(start: State<M>, run: seq<Action<M>>) returns (o: seq<Owner>)
    requires Initial(start) && Possible(start, run)
    ensures Inv(After(start, run), o)
  {
    hide Inv, Possible, After;
    o := InitialInv(start);
    o := RunKeeps(start, run, o);
  }

  // ---------- what that gives in every reachable state ----------

  lemma {:induction false} Pigeonhole(queue: seq<nat>, n: nat)
    requires forall i, j :: 0 <= i < j < |queue| ==> queue[i] != queue[j]
    requires forall i :: 0 <= i < |queue| ==> queue[i] < n
    ensures |queue| <= n
    decreases n
  {
    assert queue != [] ==> queue[0] < n;
    if n > 0 {
      if k :| 0 <= k < |queue| && queue[k] == n - 1 {
        Pigeonhole(queue[..k] + queue[k + 1..], n - 1);
      } else {
        Pigeonhole(queue, n - 1);
      }
    }
  }

  /** A producer that has filled a buffer finds room in the queue. */
  lemma QueueHasRoom<M>(s: State<M>, o: seq<Owner>, p: nat)
    requires Sizes(s) && |o| == ITEMS && OwnersOk(s, o) && p < |s.producers| && s.producers[p].Filled?
    ensures |s.queue| < ITEMS
  {
    hide ProducersOwn, TaskOwns, LocksOk;
    HoldsItsOwn(s.producers, o, p);
    Pigeonhole(s.queue + [s.producers[p].id], ITEMS);
  }

  /** Two producers never hold the same buffer, and neither the queue nor the printing task shares one with
      a producer or with the other; the queue holds none twice. */
  ghost predicate Disjoint<M>(s: State<M>) {
    && (forall p: nat, q: nat :: p < q < |s.producers| && Holding(s.producers[p]) && Holding(s.producers[q]) ==>
          s.producers[p].id != s.producers[q].id)
    && (forall p: nat, i :: p < |s.producers| && Holding(s.producers[p]) && 0 <= i < |s.queue| ==> s.queue[i] != s.producers[p].id)
    && (forall p: nat :: p < |s.producers| && Holding(s.producers[p]) && TaskHolding(s.task) ==> s.task.id != s.producers[p].id)
    && (forall i :: 0 <= i < |s.queue| && TaskHolding(s.task) ==> s.queue[i] != s.task.id)
    && (forall i, j :: 0 <= i < j < |s.queue| ==> s.queue[i] != s.queue[j])
  }

  lemma OwnersAreDisjoint<M>(s: State<M>, o: seq<Owner>)
    requires Sizes(s) && |o| == ITEMS && OwnersOk(s, o)
    ensures Disjoint(s)
  {
    hide LocksOk;
  }

  /** No search comes to -1, no buffer has two owners, and a producer that has a text to send always finds
      room for it. */
  lemma PoolIsSafe<M>(start: State<M>, run: seq<Action<M>>)
    requires Initial(start) && Possible(start, run)
    ensures var s := After(start, run);
      && Sizes(s) && s.sem + Takers(s.producers) + Locked(s.locks) + Pending(s.task) == ITEMS
      && Disjoint(s)
      && (forall p: nat :: p < |s.producers| ==> !s.producers[p].Failed?)
      && (forall p: nat :: p < |s.producers| && s.producers[p].Filled? ==> |s.queue| < ITEMS)
  {
    hide After, Possible, TextOk, FilledOk, MutexOk, OwnersOk, Takers, Locked, Disjoint;
    var o := Reachable(start, run);
    var s := After(start, run);
    OwnersAreDisjoint(s, o);
    forall p: nat | p < |s.producers| && s.producers[p].Filled?
      ensures |s.queue| < ITEMS
    {
      QueueHasRoom(s, o, p);
    }
  }

  /** Every producer has returned, the queue is empty and the printer waits for it. */
  ghost predicate Quiet<M>(s: State<M>) {
    s.queue == [] && s.task == Receiving && forall p: nat :: p < |s.producers| ==> s.producers[p] == Idle
  }

  lemma QuietIsFree<M>(s: State<M>, o: seq<Owner>)
    requires Sizes(s) && |o| == ITEMS && Conserved(s) && MutexOk(s) && OwnersOk(s, o) && Quiet(s)
    ensures s.sem == ITEMS && s.mutex == Nobody && forall i :: 0 <= i < ITEMS ==> !s.locks[i]
  {
    forall i: nat | i < ITEMS
      ensures !s.locks[i]
    {
      assert !o[i].ByProducer? && o[i] != Queued && o[i] != ByTask;
    }
    NoneLocked(s.locks);
    NoTakers(s.producers);
  }

  lemma OutIsPrefix<M>(s: State<M>)
    requires Sizes(s) && TextOk(s)
    ensures s.out <= s.posted && (Quiet(s) ==> s.out == s.posted)
  {
    assert s.queue == [] ==> Texts(s.buffers, s.queue) == [];
  }

  /** What comes out is a prefix of what was posted, in that order; when nothing is under way any more, it
      is all of it, each text once, the pool is free and the semaphore is full. */
  lemma OutputIsFifo<M>(start: State<M>, run: seq<Action<M>>)
    requires Initial(start) && Possible(start, run)
    ensures After(start, run).out <= After(start, run).posted
    ensures Quiet(After(start, run)) ==> var s := After(start, run);
      s.out == s.posted && s.sem == ITEMS && s.mutex == Nobody && forall i :: 0 <= i < |s.locks| ==> !s.locks[i]
  {
    hide After, Possible, SearchOk, TextOk, FilledOk, MutexOk, OwnersOk, Conserved, Quiet;
    var o := Reachable(start, run);
    var s := After(start, run);
    OutIsPrefix(s);
    if Quiet(s) {
      QuietIsFree(s, o);
    }
  }

  // ---------- no deadlock, and an end ----------

  /** Unless everything is quiet, somebody can go on. */
  lemma NoDeadlock<M>(s: State<M>, o: seq<Owner>)
    requires Inv(s, o) && !Quiet(s)
    ensures CanStep(s) || exists p: nat :: p < |s.producers| && CanAdvance(s, p)
  {
    hide Conserved, TextOk, SearchOk, OwnersOk, FilledOk, MutexOk;
    if s.mutex.Producer? {
      HolderAdvances(s);
    } else if s.mutex == Printer {
      PrinterSteps(s);
    } else if s.task == Receiving && s.queue == [] {
      var p: nat :| p < |s.producers| && s.producers[p] != Idle;
      if !CanAdvance(s, p) {
        if s.producers[p].Filled? {
          QueueHasRoom(s, o, p);
        } else {
          SomebodyHolds(s, o);
        }
      }
    }
  }

  lemma HolderAdvances<M>(s: State<M>)
    requires MutexOk(s) && s.mutex.Producer?
    ensures s.mutex.p < |s.producers| && CanAdvance(s, s.mutex.p)
  {
    assert InMutex(s.producers[s.mutex.p]);
  }

  lemma PrinterSteps<M>(s: State<M>)
    requires MutexOk(s) && s.mutex == Printer
    ensures CanStep(s)
  {
  }

  /** When the semaphore is empty and the printing task has nothing to do, a producer is on its way. */
  lemma SomebodyHolds<M>(s: State<M>, o: seq<Owner>)
    requires Inv(s, o) && s.sem == 0 && s.mutex == Nobody && s.queue == [] && s.task == Receiving
    ensures exists p: nat :: p < |s.producers| && CanAdvance(s, p)
  {
    hide TextOk, SearchOk, FilledOk, MutexOk;
    if i: nat :| i < ITEMS && s.locks[i] {
      assert o[i] != Free && o[i] != Queued && o[i] != ByTask;
      var p := o[i].p;
      assert CanAdvance(s, p);
    } else {
      NoneLocked(s.locks);
      var p := FirstTaker(s.producers);
      assert CanAdvance(s, p);
    }
  }

  lemma {:induction false} FirstTaker<M>(producers: seq<Stage<M>>) returns (p: nat)
    requires Takers(producers) > 0
    ensures p < |producers| && Taker(producers[p])
    decreases |producers|
  {
    var n := |producers| - 1;
    if Taker(producers[n]) {
      p := n;
    } else {
      p := FirstTaker(producers[..n]);
    }
  }

  /** How many steps are left at most, if nobody calls again. */
  function StageWork<M>(st: Stage<M>): nat {
    match st
    case Idle => 0
    case Wants(_) => 30
    case Taken(_) => 29
    case Searching(_, at) => if at < ITEMS then 27 - at else 12
    case Failed(_) => 1
    case Found(_, _) => 11
    case Owning(_, _) => 10
    case Filled(_, _) => 9
  }

  function StagesWork<M>(producers: seq<Stage<M>>): nat {
    if producers == [] then 0 else StagesWork(producers[..|producers| - 1]) + StageWork(producers[|producers| - 1])
  }

  function TaskWork(t: Task): nat {
    match t
    case Receiving => 0
    case Printing(_) => 5
    case Printed(_) => 4
    case Releasing(_) => 3
    case Released => 2
    case Giving => 1
  }

  function Work<M>(s: State<M>): nat {
    StagesWork(s.producers) + 6 * |s.queue| + TaskWork(s.task)
  }

  lemma {:induction false} StagesWorkAfter<M>(producers: seq<Stage<M>>, p: nat, st: Stage<M>)
    requires p < |producers|
    ensures StagesWork(producers[p := st]) + StageWork(producers[p]) == StagesWork(producers) + StageWork(st)
    decreases |producers|
  {
    var n := |producers| - 1;
    if p < n {
      StagesWorkAfter(producers[..n], p, st);
      assert producers[p := st][..n] == producers[..n][p := st];
    } else {
      assert producers[p := st][..n] == producers[..n];
    }
  }

  lemma AdvanceWorks<M>(s: State<M>, p: nat)
    requires Sizes(s) && p < |s.producers| && CanAdvance(s, p)
    requires s.producers[p].Owning? ==> s.producers[p].id < ITEMS
    ensures Work(Advanced(s, p)) < Work(s)
  {
    StagesWorkAfter(s.producers, p, Advanced(s, p).producers[p]);
  }

  lemma TaskWorks<M>(s: State<M>)
    requires Sizes(s) && CanStep(s)
    requires TaskHolding(s.task) ==> s.task.id < ITEMS
    ensures Work(Stepped(s)) < Work(s)
  {
  }

  lemma WorkGoesDown<M>(s: State<M>, a: Action<M>, o: seq<Owner>)
    requires Inv(s, o) && Enabled(s, a) && !a.Call?
    ensures Work(Next(s, a)) < Work(s)
  {
    hide Conserved, TextOk, MutexOk, FilledOk, ProducersOwn, QueueOwns, TaskOwns, LocksOk, Work;
    match a
    case Advance(p) =>
      if s.producers[p].Owning? {
        HoldsItsOwn(s.producers, o, p);
      }
      AdvanceWorks(s, p);
    case TaskStep =>
      TaskHoldsItsOwn(s, o);
      TaskWorks(s);
  }

  /** However the steps interleave, the calls made so far are worked off in a bounded number of them; and
      where no step is possible any more, everything posted is out. */
  lemma {:induction false} Drains<M>(s: State<M>, run: seq<Action<M>>, o: seq<Owner>)
    requires Inv(s, o) && Possible(s, run) && forall k :: 0 <= k < |run| ==> !run[k].Call?
    ensures |run| + Work(After(s, run)) <= Work(s)
    ensures Stuck(After(s, run)) ==> After(s, run).out == After(s, run).posted
    decreases |run|
  {
    hide Inv, Next, Enabled, Work, Stuck, Owners;
    if run != [] {
      InvSizes(s, o);
      StepKeeps(s, run[0], o);
      WorkGoesDown(s, run[0], o);
      Drains(Next(s, run[0]), run[1..], Owners(s, run[0], o));
    } else {
      StuckIsQuiet(s, o);
    }
  }

  /** No step is possible but a new call. */
  ghost predicate Stuck<M>(s: State<M>) {
    !CanStep(s) && forall p: nat :: p < |s.producers| ==> !CanAdvance(s, p)
  }

  lemma StuckIsQuiet<M>(s: State<M>, o: seq<Owner>)
    requires Inv(s, o)
    ensures Stuck(s) ==> Quiet(s) && s.out == s.posted
  {
    hide CanStep, CanAdvance, Conserved, MutexOk, SearchOk, OwnersOk, FilledOk, TextOk, Quiet;
    OutIsPrefix(s);
    if !Quiet(s) {
      NoDeadlock(s, o);
    }
  }
}
