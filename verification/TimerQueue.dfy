/** What the list of time_evt.c stands for: a queue of timers with their remaining times, kept in order,
    and behind it nothing more than one absolute deadline for each timer. */
module TimerQueue {

  /** A periodic timer with a period of 0 would never let the handler finish: see RearmLowersZeros. */
  type Period = n: nat | n > 0 witness 1

  datatype Entry<T> = Entry(timer: T, value: nat)

  predicate Sorted<T>(q: seq<Entry<T>>) {
    forall i, j :: 0 <= i < j < |q| ==> q[i].value <= q[j].value
  }

  predicate Distinct<T(==)>(q: seq<Entry<T>>) {
    forall i, j :: 0 <= i < j < |q| ==> q[i].timer != q[j].timer
  }

  ghost function Timers<T>(q: seq<Entry<T>>): set<T> {
    set i | 0 <= i < |q| :: q[i].timer
  }

  // ---------- insertion ----------

  /** Before the first entry with a greater value: after all those with an equal one. */
  function Position<T>(q: seq<Entry<T>>, value: nat): (k: nat)
    ensures k <= |q|
    ensures forall i :: 0 <= i < k ==> q[i].value <= value
    ensures k < |q| ==> value < q[k].value
  {
    if q == [] || value < q[0].value then 0 else 1 + Position(q[1..], value)
  }

  function Insert<T>(q: seq<Entry<T>>, e: Entry<T>): seq<Entry<T>> {
    var k := Position(q, e.value);
    q[..k] + [e] + q[k..]
  }

  lemma InsertConcat<T>(a: seq<Entry<T>>, b: seq<Entry<T>>, e: Entry<T>)
    requires Position(a + b, e.value) == |a|
    ensures Insert(a + b, e) == a + [e] + b
  {
  }

  /** Any place that has no greater value before it and a greater one just after it is that place. */
  lemma {:induction false} PositionUnique<T>(q: seq<Entry<T>>, value: nat, k: nat)
    requires k <= |q| && (forall i :: 0 <= i < k ==> q[i].value <= value) && (k < |q| ==> value < q[k].value)
    ensures Position(q, value) == k
  {
    if k > 0 {
      PositionUnique(q[1..], value, k - 1);
    }
  }

  lemma InsertTimers<T>(q: seq<Entry<T>>, e: Entry<T>)
    ensures Timers(Insert(q, e)) == Timers(q) + {e.timer}
  {
    var k, r := Position(q, e.value), Insert(q, e);
    assert r[k] == e;
    forall i | 0 <= i < |q|
      ensures q[i].timer in Timers(r)
    {
      assert r[if i < k then i else i + 1] == q[i];
    }
    forall i | 0 <= i < |r|
      ensures r[i].timer in Timers(q) + {e.timer}
    {
      assert i != k ==> r[i] == q[if i < k then i else i - 1];
    }
  }

  lemma InsertSorted<T>(q: seq<Entry<T>>, e: Entry<T>)
    requires Sorted(q)
    ensures Sorted(Insert(q, e))
  {
    var k, r := Position(q, e.value), Insert(q, e);
    hide Position, Insert;
    InsertedAt(q, e, 0);
    assert forall i :: k < i < |q| ==> q[k].value <= q[i].value;
    forall i, j | 0 <= i < j < |r|
      ensures r[i].value <= r[j].value
    {
      InsertedAt(q, e, i);
      InsertedAt(q, e, j);
    }
  }

  lemma InsertKeeps<T>(q: seq<Entry<T>>, e: Entry<T>)
    requires Sorted(q)
    ensures Sorted(Insert(q, e))
    ensures Timers(Insert(q, e)) == Timers(q) + {e.timer}
    ensures Distinct(q) && e.timer !in Timers(q) ==> Distinct(Insert(q, e))
  {
    hide Insert, Sorted, Distinct, Timers;
    InsertTimers(q, e);
    InsertSorted(q, e);
    if Distinct(q) && e.timer !in Timers(q) {
      InsertDistinct(q, e);
    }
  }

  lemma InsertDistinct<T>(q: seq<Entry<T>>, e: Entry<T>)
    requires Distinct(q) && e.timer !in Timers(q)
    ensures Distinct(Insert(q, e))
  {
    hide Position;
    assert forall i :: 0 <= i < |q| ==> q[i].timer in Timers(q);
  }

  // ---------- removal ----------

  function Remove<T>(q: seq<Entry<T>>, k: nat): seq<Entry<T>>
    requires k < |q|
  {
    q[..k] + q[k + 1..]
  }

  lemma RemoveKeeps<T>(q: seq<Entry<T>>, k: nat)
    requires k < |q| && Sorted(q) && Distinct(q)
    ensures Sorted(Remove(q, k)) && Distinct(Remove(q, k))
    ensures Timers(Remove(q, k)) == Timers(q) - {q[k].timer}
  {
    var r := Remove(q, k);
    forall t | t in Timers(q) && t != q[k].timer
      ensures t in Timers(r)
    {
      var i :| 0 <= i < |q| && q[i].timer == t;
      assert r[if i < k then i else i - 1] == q[i];
    }
  }

  // ---------- the passing of time ----------

  function Left(value: nat, delta: nat): nat {
    if value >= delta then value - delta else 0
  }

  function Elapse<T>(q: seq<Entry<T>>, delta: nat): (r: seq<Entry<T>>)
    ensures |r| == |q|
    ensures forall i :: 0 <= i < |q| ==> r[i] == Entry(q[i].timer, Left(q[i].value, delta))
  {
    seq(|q|, i requires 0 <= i < |q| => Entry(q[i].timer, Left(q[i].value, delta)))
  }

  /** Time passes for a last entry that has been changed, too. */
  lemma ElapseLast<T>(q: seq<Entry<T>>, e: Entry<T>, delta: nat)
    requires q != []
    ensures Elapse(q[|q| - 1 := e], delta) == Elapse(q, delta)[|q| - 1 := Entry(e.timer, Left(e.value, delta))]
  {
    hide Left;
  }

  lemma ElapseKeeps<T>(q: seq<Entry<T>>, delta: nat)
    requires Sorted(q)
    ensures Sorted(Elapse(q, delta)) && Timers(Elapse(q, delta)) == Timers(q)
    ensures Distinct(q) ==> Distinct(Elapse(q, delta))
  {
    assert forall i :: 0 <= i < |q| ==> Elapse(q, delta)[i].timer == q[i].timer;
  }

  // ---------- deadlines ----------

  function Max(a: nat, b: nat): nat {
    if a < b then b else a
  }

  /** At time last, the queue says of every timer how far its deadline is, and 0 once it has passed. */
  ghost predicate Agrees<T>(q: seq<Entry<T>>, due: map<T, nat>, last: nat) {
    && due.Keys == Timers(q)
    && forall i :: 0 <= i < |q| ==> q[i].timer in due && last + q[i].value == Max(due[q[i].timer], last)
  }

  /** With a clock that does not run backwards. */
  lemma ElapseAgrees<T>(q: seq<Entry<T>>, due: map<T, nat>, last: nat, now: nat)
    requires Agrees(q, due, last) && last <= now && Sorted(q)
    ensures Agrees(Elapse(q, now - last), due, now)
  {
    ElapseKeeps(q, now - last);
    forall i | 0 <= i < |q|
      ensures q[i].timer in due && now + Elapse(q, now - last)[i].value == Max(due[q[i].timer], now)
    {
      assert q[i].timer in due && last + q[i].value == Max(due[q[i].timer], last);
    }
  }

  /** The same when nothing is listed, whatever the clock does. */
  lemma GoneAgrees<T>(q: seq<Entry<T>>, due: map<T, nat>, last: nat, now: nat)
    requires Agrees(q, due, last) && (q == [] || last <= now) && Sorted(q)
    ensures Agrees(Elapse(q, if q == [] then 0 else now - last), due, now)
  {
    if q == [] {
    } else {
      ElapseAgrees(q, due, last, now);
    }
  }

  lemma NotDue<T>(q: seq<Entry<T>>, due: map<T, nat>, last: nat, t: T)
    requires Agrees(q, due, last) && t !in Timers(q)
    ensures t !in due
  {
  }

  lemma InsertedAt<T>(q: seq<Entry<T>>, e: Entry<T>, j: nat)
    requires j <= |q|
    ensures |Insert(q, e)| == |q| + 1
    ensures var k := Position(q, e.value); Insert(q, e)[j] == if j < k then q[j] else if j == k then e else q[j - 1]
  {
  }

  lemma InsertAgrees<T>(q: seq<Entry<T>>, due: map<T, nat>, last: nat, e: Entry<T>)
    requires Agrees(q, due, last) && Sorted(q) && e.timer !in due
    ensures Agrees(Insert(q, e), due[e.timer := last + e.value], last)
  {
    hide Sorted, Timers, Max, Insert, Position;
    InsertKeeps(q, e);
    InsertedAt(q, e, 0);
    MaxOfSum(last, e.value);
    var k, r := Position(q, e.value), Insert(q, e);
    forall i | 0 <= i < |r|
      ensures r[i].timer in due[e.timer := last + e.value]
      ensures last + r[i].value == Max(due[e.timer := last + e.value][r[i].timer], last)
    {
      InsertedAt(q, e, i);
      if i != k {
        var j := if i < k then i else i - 1;
        assert r[i] == q[j] && q[j].timer in due && last + q[j].value == Max(due[q[j].timer], last);
      }
    }
  }

  lemma MaxOfSum(last: nat, value: nat)
    ensures Max(last + value, last) == last + value
  {
  }

  lemma RemoveAgrees<T>(q: seq<Entry<T>>, due: map<T, nat>, last: nat, k: nat)
    requires Agrees(q, due, last) && Sorted(q) && Distinct(q) && k < |q|
    ensures Agrees(Remove(q, k), due - {q[k].timer}, last)
  {
    RemoveKeeps(q, k);
    var r := Remove(q, k);
    forall i | 0 <= i < |r|
      ensures r[i].timer in due - {q[k].timer} && last + r[i].value == Max(due[r[i].timer], last)
    {
      var j := if i < k then i else i + 1;
      assert r[i] == q[j] && q[j].timer in due && last + q[j].value == Max(due[q[j].timer], last);
      assert r[i].timer in Timers(r);
    }
  }

  lemma LastTimers<T>(q: seq<Entry<T>>, e: Entry<T>)
    requires q != [] && e.timer == q[|q| - 1].timer
    ensures Timers(q[|q| - 1 := e]) == Timers(q) && e.timer in Timers(q)
    ensures forall i :: 0 <= i < |q| ==> q[|q| - 1 := e][i].timer == q[i].timer
  {
    var r := q[|q| - 1 := e];
    assert forall i :: 0 <= i < |q| ==> r[i].timer == q[i].timer;
  }

  lemma LastSorted<T>(q: seq<Entry<T>>, e: Entry<T>)
    requires q != [] && Sorted(q)
    ensures Sorted(q[|q| - 1 := e]) <==> |q| == 1 || q[|q| - 2].value <= e.value
  {
    var n := |q| - 1;
    if |q| > 1 {
      var r := q[n := e];
      assert r[n - 1].value == q[n - 1].value && r[n].value == e.value;
      assert forall i :: 0 <= i < n ==> q[i].value <= q[n - 1].value;
    }
  }

  /** The last entry gets another value: another deadline, and it stays the last if the value is not less
      than the others. */
  lemma LastAgrees<T>(q: seq<Entry<T>>, due: map<T, nat>, last: nat, e: Entry<T>)
    requires Agrees(q, due, last) && Distinct(q) && q != [] && e.timer == q[|q| - 1].timer
    ensures Agrees(q[|q| - 1 := e], due[e.timer := last + e.value], last)
  {
    LastTimers(q, e);
    var n := |q| - 1;
    var r := q[n := e];
    forall i | 0 <= i < |r|
      ensures r[i].timer in due[e.timer := last + e.value]
      ensures last + r[i].value == Max(due[e.timer := last + e.value][r[i].timer], last)
    {
      if i < n {
        assert q[i].timer in due && last + q[i].value == Max(due[q[i].timer], last);
        assert q[i].timer != q[n].timer;
      }
    }
  }

  /** The head of the queue is a timer with the earliest deadline. */
  lemma HeadIsEarliest<T>(q: seq<Entry<T>>, due: map<T, nat>, last: nat, t: T)
    requires Agrees(q, due, last) && Sorted(q) && t in due
    ensures q != [] && last + q[0].value <= Max(due[t], last)
  {
    var i :| 0 <= i < |q| && q[i].timer == t;
    assert last + q[i].value == Max(due[q[i].timer], last);
    assert i > 0 ==> q[0].value <= q[i].value;
  }

  // ---------- expiry ----------

  /** The number of entries that have reached 0; the measure of the handler's loop. */
  function Zeros<T>(q: seq<Entry<T>>): nat {
    if q == [] then 0 else (if q[0].value == 0 then 1 else 0) + Zeros(q[1..])
  }

  lemma {:induction false} ZerosConcat<T>(p: seq<Entry<T>>, q: seq<Entry<T>>)
    ensures Zeros(p + q) == Zeros(p) + Zeros(q)
  {
    if p == [] {
      assert p + q == q;
    } else {
      ZerosConcat(p[1..], q);
      assert (p + q)[1..] == p[1..] + q;
    }
  }

  /** A timer that is armed again brings the count down exactly when its period is not 0. */
  lemma RearmLowersZeros<T>(q: seq<Entry<T>>, t: T, period: nat)
    requires q != [] && q[0].value == 0
    ensures Zeros(Insert(q[1..], Entry(t, period))) < Zeros(q) <==> period > 0
  {
    hide Position;
    var rest := q[1..];
    var k := Position(rest, period);
    var e := Entry(t, period);
    ZerosConcat(rest[..k], [e] + rest[k..]);
    ZerosConcat([e], rest[k..]);
    ZerosConcat(rest[..k], rest[k..]);
    assert rest[..k] + rest[k..] == rest && rest[..k] + ([e] + rest[k..]) == Insert(rest, e);
    assert [e][1..] == [];
    assert Zeros([e]) == if period == 0 then 1 else 0;
  }

  /** The handler's loop: the head goes while it is at 0, and comes back with its period if it has one. */
  function Expire<T(==)>(q: seq<Entry<T>>, periods: map<T, Period>): seq<Entry<T>>
    decreases Zeros(q), |q|
  {
    if q == [] || q[0].value > 0 then q
    else if q[0].timer in periods then
      RearmLowersZeros(q, q[0].timer, periods[q[0].timer]);
      Expire(Insert(q[1..], Entry(q[0].timer, periods[q[0].timer])), periods)
    else Expire(q[1..], periods)
  }

  /** One turn of that loop, on the queue and on the deadlines. */
  function NextQueue<T(==)>(q: seq<Entry<T>>, periods: map<T, Period>): seq<Entry<T>>
    requires q != []
  {
    var t := q[0].timer;
    if t in periods then Insert(q[1..], Entry(t, periods[t])) else q[1..]
  }

  function NextDue<T>(due: map<T, nat>, periods: map<T, Period>, now: nat, t: T): map<T, nat> {
    if t in periods then due[t := now + periods[t]] else due - {t}
  }

  lemma ExpireStep<T>(q: seq<Entry<T>>, periods: map<T, Period>)
    requires q != [] && q[0].value == 0
    ensures Expire(q, periods) == Expire(NextQueue(q, periods), periods)
    ensures Zeros(NextQueue(q, periods)) < Zeros(q)
  {
    if q[0].timer in periods {
      RearmLowersZeros(q, q[0].timer, periods[q[0].timer]);
    }
  }

  /** The timers that are notified, in order. */
  function Notified<T>(q: seq<Entry<T>>): seq<T> {
    if q == [] || q[0].value > 0 then [] else [q[0].timer] + Notified(q[1..])
  }

  lemma {:induction false} NotifiedAfterInsert<T>(q: seq<Entry<T>>, e: Entry<T>)
    requires e.value > 0
    ensures Notified(Insert(q, e)) == Notified(q)
  {
    if q != [] && q[0].value == 0 {
      NotifiedAfterInsert(q[1..], e);
      assert Insert(q, e)[1..] == Insert(q[1..], e);
    }
  }

  /** What one turn of the handler's loop does to all that the loop is about. */
  lemma TurnKeeps<T>(q: seq<Entry<T>>, periods: map<T, Period>)
    requires q != [] && q[0].value == 0 && Sorted(q)
    ensures Sorted(NextQueue(q, periods))
    ensures Expire(NextQueue(q, periods), periods) == Expire(q, periods)
    ensures Zeros(NextQueue(q, periods)) < Zeros(q)
    ensures Notified(q) == [q[0].timer] + Notified(NextQueue(q, periods))
  {
    var t, rest := q[0].timer, q[1..];
    ExpireStep(q, periods);
    if t in periods {
      hide Expire, Insert, Zeros;
      InsertSorted(rest, Entry(t, periods[t]));
      NotifiedAfterInsert(rest, Entry(t, periods[t]));
    }
  }

  /** When the walk is over, nothing is left to expire. */
  lemma SweptIsExpired<T>(q: seq<Entry<T>>, periods: map<T, Period>)
    requires (q == [] || q[0].value > 0)
    ensures Expire(q, periods) == q && Notified(q) == []
  {
  }

  /** In order of deadline, the expired timers are exactly those notified, each of them once. */
  lemma {:induction false} NotifiedExactly<T>(q: seq<Entry<T>>, due: map<T, nat>, now: nat)
    requires Agrees(q, due, now) && Sorted(q) && Distinct(q)
    ensures forall t :: t in Notified(q) <==> t in due && due[t] <= now
    ensures forall i, j :: 0 <= i < j < |Notified(q)| ==> Notified(q)[i] != Notified(q)[j]
  {
    NotifiedPrefix(q);
    var n := |Notified(q)|;
    forall t | t in due && due[t] <= now
      ensures t in Notified(q)
    {
      var i :| 0 <= i < |q| && q[i].timer == t;
      assert now + q[i].value == Max(due[t], now);
      assert i < n;
      assert Notified(q)[i] == t;
    }
    forall i | 0 <= i < n
      ensures Notified(q)[i] in due && due[Notified(q)[i]] <= now
    {
      assert now + q[i].value == Max(due[q[i].timer], now);
    }
  }

  lemma {:induction false} NotifiedPrefix<T>(q: seq<Entry<T>>)
    requires Sorted(q)
    ensures |Notified(q)| <= |q|
    ensures forall i :: 0 <= i < |Notified(q)| ==> Notified(q)[i] == q[i].timer && q[i].value == 0
    ensures forall i :: |Notified(q)| <= i < |q| ==> q[i].value > 0
  {
    if q != [] && q[0].value == 0 {
      NotifiedPrefix(q[1..]);
    } else if q != [] {
      assert forall i :: 0 < i < |q| ==> q[0].value <= q[i].value;
    }
  }

  /** The deadlines after the handler has run at time now: what has not expired stays, and a periodic
      timer starts over. */
  ghost function DueAfter<T>(due: map<T, nat>, periods: map<T, Period>, now: nat): map<T, nat> {
    map t | t in due && (due[t] > now || t in periods) :: if due[t] > now then due[t] else now + periods[t]
  }

  /** A queue that says what the deadlines say, none of which has passed. */
  ghost predicate Settled<T>(q: seq<Entry<T>>, due: map<T, nat>, now: nat) {
    Sorted(q) && Distinct(q) && Agrees(q, due, now) && forall i :: 0 <= i < |q| ==> q[i].value > 0
  }

  /** The handler's loop refines that one step on deadlines, and leaves nothing expired. */
  lemma {:induction false} ExpireAgrees<T>(q: seq<Entry<T>>, due: map<T, nat>, periods: map<T, Period>, now: nat)
    requires Agrees(q, due, now) && Sorted(q) && Distinct(q)
    ensures Settled(Expire(q, periods), DueAfter(due, periods, now), now)
    decreases Zeros(q)
  {
    if q == [] || q[0].value > 0 {
      NoneExpired(q, due, periods, now);
    } else {
      ExpireStep(q, periods);
      NextAgrees(q, due, periods, now);
      SameDueAfter(due, periods, now, q[0].timer);
      hide *;
      ExpireAgrees(NextQueue(q, periods), NextDue(due, periods, now, q[0].timer), periods, now);
    }
  }

  lemma NextAgrees<T>(q: seq<Entry<T>>, due: map<T, nat>, periods: map<T, Period>, now: nat)
    requires Agrees(q, due, now) && Sorted(q) && Distinct(q) && q != [] && q[0].value == 0
    ensures Sorted(NextQueue(q, periods)) && Distinct(NextQueue(q, periods))
    ensures Agrees(NextQueue(q, periods), NextDue(due, periods, now, q[0].timer), now)
    ensures q[0].timer in due && due[q[0].timer] <= now
  {
    hide Agrees, Distinct, Sorted, Insert, NextDue;
    var t := q[0].timer;
    HeadExpires(q, due, now);
    NextDueIs(due, periods, now, t);
    if t in periods {
      var e := Entry(t, periods[t]);
      HeadRearmed(q[1..], due - {t}, now, e);
    }
  }

  lemma NextDueIs<T>(due: map<T, nat>, periods: map<T, Period>, now: nat, t: T)
    ensures NextDue(due, periods, now, t) == if t in periods then (due - {t})[t := now + periods[t]] else due - {t}
  {
  }

  lemma HeadExpires<T>(q: seq<Entry<T>>, due: map<T, nat>, now: nat)
    requires Agrees(q, due, now) && Sorted(q) && Distinct(q) && q != [] && q[0].value == 0
    ensures var t, rest := q[0].timer, q[1..];
      Sorted(rest) && Distinct(rest) && t in due && due[t] <= now && Agrees(rest, due - {t}, now)
  {
    var t := q[0].timer;
    assert now + q[0].value == Max(due[t], now);
    assert Remove(q, 0) == q[1..];
    RemoveKeeps(q, 0);
    RemoveAgrees(q, due, now, 0);
  }

  lemma HeadRearmed<T>(rest: seq<Entry<T>>, left: map<T, nat>, now: nat, e: Entry<T>)
    requires Sorted(rest) && Distinct(rest) && e.timer !in left && Agrees(rest, left, now)
    ensures var q := Insert(rest, e);
      Sorted(q) && Distinct(q) && Agrees(q, left[e.timer := now + e.value], now)
  {
    InsertKeeps(rest, e);
    InsertAgrees(rest, left, now, e);
  }

  lemma SameDueAfter<T>(due: map<T, nat>, periods: map<T, Period>, now: nat, t: T)
    requires t in due && due[t] <= now
    ensures DueAfter(NextDue(due, periods, now, t), periods, now) == DueAfter(due, periods, now)
  {
  }

  lemma NoneExpired<T>(q: seq<Entry<T>>, due: map<T, nat>, periods: map<T, Period>, now: nat)
    requires Agrees(q, due, now) && Sorted(q) && (q == [] || q[0].value > 0)
    ensures DueAfter(due, periods, now) == due
    ensures forall i :: 0 <= i < |q| ==> q[i].value > 0
  {
    forall t | t in due
      ensures due[t] > now
    {
      HeadIsEarliest(q, due, now, t);
    }
    assert forall i :: 0 < i < |q| ==> q[0].value <= q[i].value;
  }
}
