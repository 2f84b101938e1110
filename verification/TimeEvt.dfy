/** The software timers of time_evt.c: a linked list of timers, relinked in place, behind one alarm. The
    clock is the parameter now of the methods that read it; the alarm is the field alarm. */
module TimeEvt {
  import opened TimerQueue

  datatype Config = OneShot | Periodic | Absolute

  datatype Alarm = Stopped | At(time: nat)

  const U64 := 0x1_0000_0000_0000_0000

  class Timer {
    var next: Timer?
    var initVal: nat
    var value: nat
    var event: nat
    var config: Config

    constructor (config: Config)
      ensures next == null && this.config == config
    {
      next, initVal, value, event := null, 0, 0, 0;
      this.config := config;
    }
  }

  class Context {
    var current: Timer?
    var lastUpdate: nat
    var alarm: Alarm
    var flags: seq<Timer>    // whose task has been sent its event, in order
    ghost var list: seq<Timer>
    ghost var due: map<Timer, nat>

    constructor ()
      ensures Valid() && list == [] && flags == [] && lastUpdate == 0
    {
      current, lastUpdate, alarm, flags := null, 0, Stopped, [];
      list, due := [], map[];
    }

    ghost function Queue(): seq<Entry<Timer>>
      reads this`list, list`value
    {
      QueueOf(list)
    }

    /** The list is linked through next from current to null, without a cycle. */
    ghost predicate Linked()
      reads this`list, this`current, list`next
    {
      && NoRepeat(list)
      && current == Nth(list, 0)
      && (forall i :: 0 <= i < |list| ==> list[i].next == Nth(list, i + 1))
    }

    /** The list stays sorted and says what the deadlines say, and the alarm is set from its minimum. */
    ghost predicate Valid()
      reads this, list
    {
      Linked() && Tells() && Armed()
    }

    ghost predicate Tells()
      reads this`list, this`due, this`lastUpdate, list`value
    {
      Sorted(Queue()) && Agrees(Queue(), due, lastUpdate)
    }

    ghost predicate Armed()
      reads this`list, this`lastUpdate, this`alarm, list`value
    {
      alarm == (if list == [] then Stopped else At(lastUpdate + list[0].value))
    }

    /** The clock has not gone backwards, or no timer is listed and it may. */
    ghost predicate Forward(now: nat)
      reads this`list, this`lastUpdate
    {
      list == [] || lastUpdate <= now
    }

    /** What has gone by since the last update. */
    ghost function Gone(now: nat): nat
      requires Forward(now)
      reads this`list, this`lastUpdate
    {
      if list == [] then 0 else now - lastUpdate
    }

    /** The walk of _update. */
    method Walk(delta: nat)
      requires Linked()
      modifies list`value
      ensures forall j :: 0 <= j < |list| ==> list[j].value == Left(old(list[j].value), delta)
    {
      var p := current;
      ghost var i := 0;
      while p != null
        invariant 0 <= i <= |list| && p == Nth(list, i)
        invariant forall j :: 0 <= j < i ==> list[j].value == Left(old(list[j].value), delta)
        invariant forall j :: i <= j < |list| ==> list[j].value == old(list[j].value)
        decreases |list| - i
      {
        if p.value >= delta {
          p.value := p.value - delta;
        } else {
          p.value := 0;
        }
        p := p.next;
        i := i + 1;
      }
    }

    /** _update: what has elapsed since the last update is taken off every timer. */
    method Update(now: nat)
      requires Linked() && Forward(now)
      modifies this`lastUpdate, list`value
      ensures lastUpdate == now
      ensures Queue() == Elapse(old(Queue()), old(Gone(now)))
    {
      hide Linked, NoRepeat;
      NullIsEmpty();
      if current == null {
        lastUpdate := now;
      }
      var delta := now - lastUpdate;
      if delta > 0 {
        Walk(delta);
      }
      lastUpdate := now;
    }

    /** A timer whose link is null is not in the list, or the last one. */
    ghost predicate LastOnly(t: Timer)
      reads this`list
    {
      t in list ==> t == list[|list| - 1]
    }

    /** The last timer has been linked in again before the one at place k: the links run in a circle. */
    ghost predicate Tangled(k: nat)
      reads this`list, this`current, list`next
    {
      && NoRepeat(list) && k + 1 < |list| && list[|list| - 1].next == list[k]
      && (forall j :: 0 <= j < |list| - 1 && j != k - 1 ==> list[j].next == list[j + 1])
      && (if k == 0 then current == list[|list| - 1] else current == list[0] && list[k - 1].next == list[|list| - 1])
    }

    /** The links once t has been put before the timer at place i of a linked list. */
    ghost predicate Before(was: seq<Timer>, i: nat, t: Timer)
      reads this`current, was`next, t`next
    {
      && i < |was| && t.next == was[i]
      && (if i == 0 then current == t else current == was[0] && was[i - 1].next == t)
      && (forall j :: 0 <= j < |was| && j != i - 1 && was[j] != t ==> was[j].next == Nth(was, j + 1))
    }

    lemma BeforeFresh(was: seq<Timer>, i: nat, t: Timer)
      requires NoRepeat(was) && t !in was && Before(was, i, t) && list == Spliced(was, i, t)
      ensures Linked()
    {
      SplicedNoRepeat(was, i, t);
      SplicedAt(was, i, t);
      hide Spliced;
    }

    lemma BeforeAgain(i: nat, t: Timer)
      requires NoRepeat(list) && list != [] && t == list[|list| - 1] && i + 1 < |list| && Before(list, i, t)
      ensures Tangled(i)
    {
    }

    /** "insert before": p is the predecessor of cur, or cur itself at the head. */
    method Relink(t: Timer, p: Timer, cur: Timer, ghost i: nat)
      requires Linked() && i < |list| && cur == list[i] != t && p == list[if i == 0 then 0 else i - 1] && LastOnly(t)
      modifies this`current, list`next, t`next
      ensures Before(list, i, t)
    {
      assert cur == p <==> i == 0;
      if cur == p {
        t.next := cur;
        current := t;
      } else {
        t.next := p.next;
        p.next := t;
      }
    }

    method LinkBefore(t: Timer, p: Timer, cur: Timer, ghost i: nat)
      requires Linked() && i < |list| && cur == list[i] != t && p == list[if i == 0 then 0 else i - 1] && LastOnly(t)
      modifies this`current, this`list, list`next, t`next
      ensures t !in old(list) ==> Linked() && list == Spliced(old(list), i, t)
      ensures t in old(list) ==> Tangled(i) && list == old(list)
    {
      hide Before, Spliced, Tangled;
      Relink(t, p, cur, i);
      if t in list {
        BeforeAgain(i, t);
      } else {
        list := Spliced(list, i, t);
        BeforeFresh(old(list), i, t);
      }
    }

    /** "insert after" the last one, cur. */
    method LinkLast(t: Timer, cur: Timer)
      requires Linked() && LastOnly(t) && list != [] && cur == list[|list| - 1]
      modifies this`list, list`next, t`next
      ensures Linked() && list == if t in old(list) then old(list) else Spliced(old(list), |old(list)|, t)
    {
      cur.next := t;
      t.next := null;
      list := if t in list then list else Spliced(list, |list|, t);
    }

    /** The walk of _insert. */
    method Place(t: Timer) returns (ghost k: nat)
      requires Linked() && LastOnly(t)
      modifies this`current, this`list, list`next, t`next
      ensures k <= |old(list)|
      ensures forall j :: 0 <= j < k ==> old(list)[j].value <= t.value
      ensures k < |old(list)| ==> t.value < old(list)[k].value
      ensures t !in old(list) ==> Linked() && list == Spliced(old(list), k, t)
      ensures t in old(list) ==> list == old(list) && if k == |list| then Linked() else Tangled(k)
    {
      var cur := current;
      k := 0;
      if cur != null {
        var p := cur;
        while cur != null
          invariant 0 <= k < |list| && cur == list[k] && p == list[if k == 0 then 0 else k - 1]
          invariant forall j :: 0 <= j < k ==> list[j].value <= t.value
          invariant unchanged(`current, `list) && unchanged(list`next, t`next)
          decreases |list| - k
        {
          if t.value < cur.value {
            LinkBefore(t, p, cur, k);
            break;
          } else {
            if cur.next == null {
              LinkLast(t, cur);
              k := k + 1;
              break;
            } else {
              p := cur;
              cur := cur.next;
              k := k + 1;
            }
          }
        }
      } else {
        t.next := null;
        current := t;
        list := Spliced([], 0, t);
      }
    }

    /** _insert: before the first timer with a greater value, after those with an equal one. A timer that is
        the last one already stays there exactly when no other has more left; otherwise the links tangle. */
    method Insert(t: Timer) returns (ghost k: nat)
      requires Linked() && LastOnly(t)
      modifies this`current, this`list, list`next, t`next
      ensures t !in old(list) ==>
        Linked() && Queue() == TimerQueue.Insert(old(Queue()), Entry(t, t.value)) && Within(list, [t] + old(list))
      ensures t in old(list) ==> list == old(list) && (if AtMost(list, t.value) then Linked() else Tangled(k))
    {
      hide Linked, NoRepeat, Position, TimerQueue.Insert, QueueOf, Tangled;
      k := Place(t);
      if t !in old(list) {
        SplicedWithin(old(list), k, t);
        assert old(list) == old(list)[..k] + old(list)[k..];
        PositionUnique(QueueOf(old(list)), t.value, k);
        SplicedQueue(old(list)[..k], old(list)[k..], t);
      }
    }

    /** "p->pNext = p->pNext->pNext": t, at place i, is skipped. */
    method Unlink(p: Timer, t: Timer, ghost i: nat)
      requires Linked() && 0 < i < |list| && p == list[i - 1] && t == list[i]
      modifies this`list, p`next, t`next
      ensures Linked() && list == Cut(old(list), i) && t.next == null
    {
      CutNoRepeat(list, i);
      CutAt(list, i);
      p.next := t.next;
      t.next := null;
      list := Cut(list, i);
    }

    /** _remove: the timer leaves the list, if it is there. */
    method Remove(t: Timer)
      requires Linked()
      modifies this`current, this`list, list`next
      ensures Linked() && list == Without(old(list), t)
      ensures t in old(list) ==> t.next == null
    {
      var p := current;
      if p != null {
        if p == t {
          CutNoRepeat(list, 0);
          CutAt(list, 0);
          current := current.next;
          t.next := null;
          list := Cut(list, 0);
        } else {
          ghost var i := 0;
          while p.next != null
            invariant 0 <= i < |list| && p != null && p == list[i] && t !in list[..i + 1]
            invariant unchanged(`current, `list) && unchanged(list`next)
            decreases |list| - i
          {
            i := i + 1;
            if t == p.next {
              FirstIs(list, t, i);
              Unlink(p, t, i);
              break;
            }
            p := p.next;
          }
        }
      }
    }

    /** _update keeps the deadlines. */
    method Refresh(now: nat)
      requires Linked() && Tells() && Forward(now)
      modifies this`lastUpdate, list`value
      ensures Tells() && lastUpdate == now
      ensures Queue() == Elapse(old(Queue()), old(Gone(now)))
    {
      hide Linked, NoRepeat, Sorted, Agrees, Elapse, QueueOf;
      GoneAgrees(Queue(), due, lastUpdate, now);
      ElapseKeeps(Queue(), Gone(now));
      Update(now);
    }

    /** The alarm is started again from the head of the list; it has been stopped before. */
    method StartAlarm(now: nat)
      requires lastUpdate == now && (list == [] ==> alarm == Stopped)
      modifies this`alarm
      ensures Linked() ==> Armed()
    {
      if current != null {
        alarm := At(now + current.value);
      }
    }

    lemma NullIsEmpty()
      requires Linked()
      ensures current == Nth(list, 0) && NoRepeat(list)
    {
    }

    /** The walk that gives absolute timers what is left of their value at the new time. */
    method Revalue(ms: nat)
      requires Linked()
      modifies list`value
      ensures forall j :: 0 <= j < |list| ==> list[j].value == Revalued(list[j], old(list[j].value), ms)
    {
      var p := current;
      ghost var i := 0;
      while p != null
        invariant 0 <= i <= |list| && p == Nth(list, i)
        invariant forall j :: 0 <= j < i ==> list[j].value == Revalued(list[j], old(list[j].value), ms)
        invariant forall j :: i <= j < |list| ==> list[j].value == old(list[j].value)
        decreases |list| - i
      {
        if p.config == Absolute {
          if p.initVal > ms {
            p.value := p.initVal - ms;
          } else {
            p.value := 0;
          }
        }
        p := p.next;
        i := i + 1;
      }
    }

    /** The new time: the deadlines are then what the values say. */
    method SetTime(ms: nat)
      requires Linked()
      modifies this`lastUpdate, this`due, list`value
      ensures lastUpdate == ms && due == DueOf(list, ms) && Agrees(Queue(), due, lastUpdate)
      ensures forall j :: 0 <= j < |list| ==> list[j].value == Revalued(list[j], old(list[j].value), ms)
    {
      hide Linked, Agrees;
      Revalue(ms);
      due := DueOf(list, ms);
      lastUpdate := ms;
      DueOfAgrees(list, ms);
    }

    lemma QueueValues()
      ensures |Queue()| == |list| && forall j :: 0 <= j < |list| ==> list[j].value == Queue()[j].value
    {
    }

    /** The timers have been updated: the new time, if there is one, and the alarm. */
    method Restart(time: nat, ghost q: seq<Entry<Timer>>)
      requires Linked() && Tells() && q == Queue() && list != []
      modifies this`lastUpdate, this`due, this`alarm, list`value
      ensures Linked() && Armed() && |q| == |list|
      ensures lastUpdate == if time != 0 then 1000 * time else old(lastUpdate)
      ensures time == 0 ==> Tells() && due == old(due) && Queue() == q
      ensures time != 0 ==> due == DueOf(list, lastUpdate) && (Tells() <==> Sorted(Queue()))
      ensures time != 0 ==> Queue() == RevaluedAll(list, q, 1000 * time)
    {
      hide Linked, NoRepeat, Sorted, Agrees, QueueOf, Revalued, RevaluedAll, Armed;
      QueueValues();
      if time != 0 {
        SetTime(1000 * time);
        RevaluedIs(list, q, 1000 * time);
      }
      StartAlarm(lastUpdate);
    }

    /** The queue at time now, when the clock is then set to ms. */
    ghost function Reset(now: nat, ms: nat): seq<Entry<Timer>>
      requires Forward(now)
      reads this`list, this`lastUpdate, list
    {
      RevaluedAll(list, Elapsed(now), ms)
    }

    /** TimeEvt_UpdateTime: the time that has passed is taken into account, and a new time, if there is one.
        Absolute timers keep their deadlines on the new clock and the others what is left to them, but none
        is moved: all is well afterwards exactly if the new values happen to be in the old order. */
    method UpdateTime(time: nat, now: nat)
      requires Valid() && Forward(now)
      modifies this`lastUpdate, this`due, this`alarm, list`value
      ensures list == old(list) && Linked() && Armed()
      ensures lastUpdate == if list == [] then old(lastUpdate) else if time != 0 then 1000 * time else now
      ensures time == 0 || list == [] ==> Valid() && due == old(due)
      ensures time == 0 && list != [] ==> Queue() == old(Elapsed(now))
      ensures time != 0 && list != [] ==> due == DueOf(list, lastUpdate) && Queue() == old(Reset(now, 1000 * time))
      ensures time != 0 && list != [] ==> (Valid() <==> old(Sorted(Reset(now, 1000 * time))))
    {
      hide Linked, NoRepeat, Sorted, Agrees, QueueOf, Revalued, RevaluedAll, Elapse, Left, Tells, Armed;
      ghost var q := Elapsed(now);
      NullIsEmpty();
      if current != null {
        alarm := Stopped;
        Refresh(now);
        Restart(time, q);
      }
    }

    /** The head leaves the list. */
    method PopHead(t: Timer)
      requires Linked() && Tells() && current == t
      modifies this`current, this`list, this`due, list`next
      ensures Linked() && Tells() && list == Without(old(list), t) && due == old(due) - {t} && t.next == null
      ensures |list| == |old(list)| - 1 && forall i :: 0 <= i < |list| ==> list[i] == old(list)[i + 1]
    {
      CutNoRepeat(list, 0);
      CutAt(list, 0);
      WithoutTells(list, due, lastUpdate, t);
      hide Sorted, Agrees, QueueOf;
      current := current.next;
      t.next := null;
      list, due := Cut(list, 0), due - {t};
    }

    /** Another timer does, if it is there. */
    method RemoveOther(t: Timer)
      requires Linked() && Tells() && current != t
      modifies this`current, this`list, this`due, list`next
      ensures Linked() && Tells() && list == Without(old(list), t) && due == old(due) - {t}
      ensures Nth(list, 0) == Nth(old(list), 0)
    {
      hide Linked, NoRepeat, Sorted, Agrees, QueueOf;
      NullIsEmpty();
      WithoutTells(list, due, lastUpdate, t);
      Remove(t);
      due := due - {t};
    }

    /** TimeEvt_TimerStop: the deadline of the timer is forgotten, and nothing else. */
    method TimerStop(t: Timer?, now: nat)
      requires Valid() && Forward(now)
      modifies this`current, this`list, this`due, this`lastUpdate, this`alarm, list`next, list`value
      ensures Valid()
      ensures t == null ==> due == old(due) && list == old(list)
      ensures t != null ==> due == old(due) - {t} && list == Without(old(list), t)
      ensures lastUpdate == if t != null && t == old(current) then now else old(lastUpdate)
    {
      hide Linked, NoRepeat, Tells, Without;
      if t != null {
        if current == t {
          alarm := Stopped;
          PopHead(t);
          Refresh(now);
          StartAlarm(now);
        } else {
          RemoveOther(t);
        }
      }
    }

    /** The two parts of a value, in 64 bits. */
    static function Ms(value: nat, delta: int): nat {
      (1000 * value + delta) % U64
    }

    /** The deadline that TimerStart gives a timer. */
    ghost function Deadline(config: Config, value: nat, now: nat): nat {
      if config == Absolute then value else now + value
    }

    /** What is left to a timer that TimerStart has given the value ms, at time now, d after the last update:
        a timer that is listed already has lost d by then. With it the return code, 1 for an absolute value
        that has passed. */
    static function Remaining(config: Config, ms: nat, now: nat, listed: bool, d: nat): (nat, nat) {
      var x := if listed then Left(ms, d) else ms;
      if config == Absolute then if x > now then (0, x - now) else (1, x) else (0, x)
    }

    /** q, but for the value of t, which may have been changed if it is the last one. */
    ghost predicate LastChanged(q: seq<Entry<Timer>>, t: Timer)
      reads this`list, list`value
    {
      && |q| == |list| && (t in list ==> t == list[|list| - 1] && q[|q| - 1].timer == t)
      && Queue() == if t in list then q[|q| - 1 := Entry(t, t.value)] else q
    }

    /** _update, when the last timer may have been given another value. */
    method UpdateLast(now: nat, t: Timer, ghost q: seq<Entry<Timer>>)
      requires Linked() && Forward(now) && LastChanged(q, t) && Sorted(q) && Agrees(q, due, lastUpdate)
      modifies this`lastUpdate, list`value
      ensures lastUpdate == now && LastChanged(Elapse(q, old(Gone(now))), t)
      ensures Sorted(Elapse(q, old(Gone(now)))) && Agrees(Elapse(q, old(Gone(now))), due, now)
      ensures t.value == if t in list then Left(old(t.value), old(Gone(now))) else old(t.value)
    {
      hide Linked, NoRepeat, Sorted, Agrees, Elapse, Left, QueueOf;
      GoneAgrees(q, due, lastUpdate, now);
      ElapseKeeps(q, Gone(now));
      if t in list {
        ElapseLast(q, Entry(t, t.value), Gone(now));
      }
      ElapseLength(q, Gone(now));
      Update(now);
      if t in list {
        LastValue();
      }
    }

    lemma LastValue()
      requires list != []
      ensures |Queue()| == |list| && Queue()[|list| - 1] == Entry(list[|list| - 1], list[|list| - 1].value)
    {
    }

    lemma ElapseLength(q: seq<Entry<Timer>>, d: nat)
      ensures |Elapse(q, d)| == |q| && forall i :: 0 <= i < |q| ==> Elapse(q, d)[i].timer == q[i].timer
    {
    }

    /** The insertion, with the deadline that it gives the timer. */
    method Join(t: Timer, ghost q: seq<Entry<Timer>>) returns (ghost k: nat)
      requires Linked() && LastChanged(q, t) && Sorted(q) && Agrees(q, due, lastUpdate)
      modifies this`current, this`list, this`due, list`next, t`next
      ensures t !in old(list) ==> Linked() && Tells() && due == old(due)[t := lastUpdate + t.value]
      ensures t !in old(list) ==> Queue() == TimerQueue.Insert(q, Entry(t, t.value))
      ensures t in old(list) ==> list == old(list)
      ensures t in old(list) && Follows(q, t.value) ==> Linked() && Tells() && due == old(due)[t := lastUpdate + t.value]
      ensures t in old(list) && !Follows(q, t.value) ==> Tangled(k) && due == old(due)
    {
      hide Linked, NoRepeat, Sorted, Agrees, TimerQueue.Insert, Tangled, Follows, AtMost, Distinct;
      NullIsEmpty();
      if t in list {
        AgainFacts(q, t);
        LastAgrees(q, due, lastUpdate, Entry(t, t.value));
        LastSorted(q, Entry(t, t.value));
      } else {
        InsertTells(list, due, lastUpdate, t);
      }
      k := Insert(t);
      if t !in old(list) || Follows(q, t.value) {
        due := due[t := lastUpdate + t.value];
      }
    }

    lemma AgainFacts(q: seq<Entry<Timer>>, t: Timer)
      requires NoRepeat(list) && LastChanged(q, t) && t in list && Sorted(q)
      ensures q != [] && Distinct(q) && (Follows(q, t.value) <==> AtMost(list, t.value))
      ensures Follows(q, t.value) <==> |q| == 1 || q[|q| - 2].value <= t.value
    {
      hide LastChanged, QueueOf;
      Parts(q, t);
      var n := |list| - 1;
      forall j | 0 <= j <= n
        ensures q[j].timer == list[j] && (j < n ==> q[j].value == list[j].value)
      {
        assert list[j] != t || j == n;
      }
      if |q| > 1 && q[n - 1].value <= t.value {
        forall j | 0 <= j <= n
          ensures list[j].value <= t.value
        {
          assert j < n ==> q[j].value <= q[n - 1].value;
        }
      }
      assert |q| > 1 ==> list[n - 1].value == q[n - 1].value;
    }

    /** The value of an absolute timer becomes relative, if it has not passed. */
    method Adjust(t: Timer, now: nat, ghost q: seq<Entry<Timer>>) returns (ret: nat)
      requires LastChanged(q, t) && NoRepeat(list)
      modifies t`value
      ensures LastChanged(q, t)
      ensures (ret, t.value) == Remaining(t.config, old(t.value), now, false, 0)
    {
      hide NoRepeat, LastChanged, QueueOf;
      ret := 0;
      Parts(q, t);
      if t.config == Absolute {
        if t.value > now {
          t.value := t.value - now;
        } else {
          ret := 1;
        }
      }
      Rebuilt(q, t);
    }

    lemma Parts(q: seq<Entry<Timer>>, t: Timer)
      requires LastChanged(q, t)
      ensures |q| == |list| && (t in list ==> t == list[|list| - 1] && q[|q| - 1].timer == t)
      ensures forall j {:trigger list[j]} :: 0 <= j < |list| && list[j] != t ==> q[j] == Entry(list[j], list[j].value)
    {
      assert forall j :: 0 <= j < |list| ==> Queue()[j] == Entry(list[j], list[j].value);
    }

    lemma Rebuilt(q: seq<Entry<Timer>>, t: Timer)
      requires NoRepeat(list) && |q| == |list| && (t in list ==> t == list[|list| - 1] && q[|q| - 1].timer == t)
      requires forall j {:trigger list[j]} :: 0 <= j < |list| && list[j] != t ==> q[j] == Entry(list[j], list[j].value)
      ensures LastChanged(q, t)
    {
      var r := if t in list then q[|q| - 1 := Entry(t, t.value)] else q;
      assert |Queue()| == |r|;
      forall j | 0 <= j < |list|
        ensures Queue()[j] == r[j]
      {
        assert Queue()[j] == Entry(list[j], list[j].value);
      }
    }

    /** An absolute value that has passed: a listed timer keeps its place all the same, with the new value. */
    ghost method Stay(t: Timer, q: seq<Entry<Timer>>)
      requires Linked() && LastChanged(q, t) && Sorted(q) && Agrees(q, due, lastUpdate)
      modifies this`due
      ensures t !in list ==> Tells() && due == old(due)
      ensures t in list && Follows(q, t.value) ==> Tells() && due == old(due)[t := lastUpdate + t.value]
      ensures t in list && !Follows(q, t.value) ==> !Sorted(Queue()) && !Tells() && due == old(due)
    {
      hide Linked, NoRepeat, Sorted, Agrees, Follows, AtMost, Distinct;
      NullIsEmpty();
      if t in list {
        AgainFacts(q, t);
        LastAgrees(q, due, lastUpdate, Entry(t, t.value));
        LastSorted(q, Entry(t, t.value));
        if Follows(q, t.value) {
          due := due[t := lastUpdate + t.value];
        }
      }
    }

    /** The timers have been updated: t joins them, unless its value has passed. */
    method Enlist(t: Timer, now: nat, ghost q: seq<Entry<Timer>>) returns (ret: nat, ghost k: nat)
      requires Linked() && lastUpdate == now && LastChanged(q, t) && Sorted(q) && Agrees(q, due, lastUpdate)
      modifies this`current, this`list, this`due, list`next, t`next, t`value
      ensures (ret, t.value) == Remaining(t.config, old(t.value), now, false, 0)
      ensures t !in old(list) ==> Linked() && Tells() && (ret == 1 ==> due == old(due) && list == old(list))
      ensures t !in old(list) && ret == 0 ==> due == old(due)[t := now + t.value] && Queue() == TimerQueue.Insert(q, Entry(t, t.value))
      ensures t in old(list) ==> list == old(list)
      ensures t in old(list) && Follows(q, t.value) ==> Linked() && Tells() && due == old(due)[t := now + t.value]
      ensures t in old(list) && !Follows(q, t.value) ==> due == old(due) && !(Linked() && Tells())
      ensures t in old(list) && !Follows(q, t.value) ==> if ret == 0 then Tangled(k) else Linked() && !Sorted(Queue())
    {
      hide Linked, NoRepeat, TimerQueue.Insert, Sorted, Agrees, Tangled, Follows, LastChanged, Tells;
      NullIsEmpty();
      ret := Adjust(t, now, q);
      k := 0;
      if ret == 0 {
        k := Join(t, q);
        TangledNotLinked(k);
      } else {
        Stay(t, q);
      }
    }

    /** The part of TimerStart that holds the mutex: the value of an absolute timer becomes relative. */
    method Add(t: Timer, now: nat, ghost q: seq<Entry<Timer>>) returns (ret: nat, ghost k: nat)
      requires Linked() && Forward(now) && LastChanged(q, t) && Sorted(q) && Agrees(q, due, lastUpdate)
      modifies this`current, this`list, this`due, this`lastUpdate, this`alarm, list`next, list`value, t`next, t`value
      ensures lastUpdate == now
      ensures (ret, t.value) == Remaining(t.config, old(t.value), now, t in old(list), old(Gone(now)))
      ensures t !in old(list) ==> Valid() && (ret == 1 ==> due == old(due) && list == old(list))
      ensures t !in old(list) && ret == 0 ==>
        due == old(due)[t := now + t.value] && Queue() == TimerQueue.Insert(Elapse(q, old(Gone(now))), Entry(t, t.value))
      ensures t in old(list) ==> list == old(list) && (Valid() <==> Follows(Elapse(q, old(Gone(now))), t.value))
      ensures t in old(list) && Valid() ==> due == old(due)[t := now + t.value]
      ensures t in old(list) && !Valid() ==> if ret == 0 then Tangled(k) else Linked() && !Sorted(Queue())
    {
      hide Linked, NoRepeat, TimerQueue.Insert, Elapse, Sorted, Agrees, Tangled, Follows, LastChanged, Tells, Armed;
      alarm := Stopped;
      UpdateLast(now, t, q);
      ret, k := Enlist(t, now, Elapse(q, old(Gone(now))));
      StartAlarm(now);
    }

    /** The timer after n links. */
    ghost function Hop(n: nat): Timer?
      reads this`current, this`list, list`next
    {
      if n == 0 then current else
        var p := Hop(n - 1);
        if p != null && p in list then p.next else null
    }

    /** In a circle no walk comes to an end. */
    lemma {:induction false} Endless(k: nat, n: nat)
      requires Tangled(k)
      ensures Hop(n) != null && Hop(n) in list
    {
      if n > 0 {
        Endless(k, n - 1);
        var i :| 0 <= i < |list| && list[i] == Hop(n - 1);
        if i < |list| - 1 && i != k - 1 {
          assert Hop(n) == list[i + 1];
        }
      } else if k > 0 {
        assert current == list[0];
      }
    }

    lemma LastIsNull()
      requires Linked() && list != []
      ensures list[|list| - 1].next == null
    {
    }

    lemma TangledNotLinked(k: nat)
      ensures Tangled(k) ==> !Linked()
    {
    }

    /** The new value is written, whether the timer is listed or not; with a null link it can only be the last. */
    method Overwrite(t: Timer, ms: nat, event: nat)
      requires Linked() && t.next == null
      modifies t`event, t`initVal, t`value
      ensures LastChanged(old(Queue()), t) && t.event == event && t.initVal == ms && t.value == ms
    {
      hide Linked, NoRepeat, LastChanged, QueueOf;
      ghost var was := Queue();
      NullIsLast(t);
      Itself(t);
      Parts(was, t);
      t.event, t.initVal, t.value := event, ms, ms;
      Rebuilt(was, t);
    }

    lemma Itself(t: Timer)
      requires t in list ==> t == list[|list| - 1]
      ensures LastChanged(Queue(), t)
    {
    }

    lemma NullIsLast(t: Timer)
      requires Linked() && t.next == null
      ensures NoRepeat(list) && (t in list ==> t == list[|list| - 1])
    {
    }

    /** TimeEvt_TimerStart. A timer whose link is not null is left alone. One that is not listed gains a
        deadline. The last of the list has a null link too: its value is overwritten before _update takes
        from it what has elapsed, and it is inserted a second time. That ends well exactly when what is then
        left to it is no less than what is left to the one before; otherwise the links run in a circle, or,
        for an absolute value that has passed, the list is out of order. The sum of the two parts of the
        value wraps around at 64 bits. */
    method TimerStart(t: Timer?, value: nat, delta: int, event: nat, now: nat) returns (ret: nat, ghost k: nat)
      requires Valid() && Forward(now) && value < 0x1_0000_0000 && -0x8000 <= delta < 0x8000
      modifies this`current, this`list, this`due, this`lastUpdate, this`alarm, list`next, list`value, t
      ensures t != null ==> t.config == old(t.config)
      ensures value == 0 && delta < 0 ==> ret == 1 && Valid() && due == old(due) && list == old(list)
      ensures (t == null || old(t.next) != null) && !(value == 0 && delta < 0) ==>
        ret == 0 && Valid() && due == old(due) && list == old(list)
      ensures t != null && old(t.next) == null && !(value == 0 && delta < 0) ==>
        && lastUpdate == now && t.initVal == Ms(value, delta) && t.event == event
        && (ret, t.value) == Remaining(t.config, Ms(value, delta), now, t in old(list), old(Gone(now)))
        && (t !in old(list) && ret == 1 ==> Valid() && due == old(due) && list == old(list))
        && (t !in old(list) && ret == 0 ==>
              && Valid() && due == old(due)[t := Deadline(t.config, Ms(value, delta), now)]
              && Queue() == TimerQueue.Insert(old(Elapsed(now)), Entry(t, t.value)))
        && (t in old(list) ==> list == old(list) && (Valid() <==> Follows(old(Elapsed(now)), t.value)))
        && (t in old(list) && Valid() ==> due == old(due)[t := now + t.value])
        && (t in old(list) && !Valid() ==> if ret == 0 then Tangled(k) else Linked() && !Sorted(Queue()))
      ensures t != null && old(t.next) == null && 1000 * value + delta < 0 && value > 0 ==>
        t.initVal == 0x1_0000_0000_0000_0000 + 1000 * value + delta
      ensures t != null && old(t.next) == null && 1000 * value + delta >= 0 ==>
        && t.initVal == 1000 * value + delta
        && (t !in old(list) && t.config != Absolute ==> ret == 0 && t in due && due[t] == now + 1000 * value + delta)
        && (t !in old(list) && t.config == Absolute && 1000 * value + delta > now ==> ret == 0 && t in due && due[t] == 1000 * value + delta)
        && (t !in old(list) && t.config == Absolute && 1000 * value + delta <= now ==> ret == 1)
        && (t in old(list) && t.config != Absolute ==>
              ret == 0 && t.value == if 1000 * value + delta + old(lastUpdate) > now then 1000 * value + delta + old(lastUpdate) - now else 0)
        && (t in old(list) && t.config == Absolute ==>
              var x := if 1000 * value + delta + old(lastUpdate) > now then 1000 * value + delta + old(lastUpdate) - now else 0;
              if x > now then ret == 0 && t.value == x - now else ret == 1 && t.value == x)
    {
      hide Linked, NoRepeat, Sorted, Agrees, TimerQueue.Insert, Elapse, Tangled, Follows, LastChanged, Armed;
      var ms := 1000 * value;
      var p := t;
      ret, k := 0, 0;
      if ms == 0 && delta < 0 {
        ret := 1;
        p := null;
      }
      ms := (ms + delta) % U64;
      if p != null {
        if p.next == null {
          ghost var q := Queue();
          Overwrite(p, ms, event);
          ret, k := Add(p, now, q);
        }
      }
    }

    lemma HeadOf(p: Timer)
      requires Linked() && current == p
      ensures list != [] && list[0] == p && Without(list, p) == list[1..] && p !in list[1..]
      ensures QueueOf(list[1..]) == QueueOf(list)[1..] && QueueOf(list)[0] == Entry(p, p.value)
    {
      FirstIs(list, p, 0);
    }

    /** An expired timer is notified and removed: it is at the head of the list. */
    method Notify(p: Timer)
      requires Linked() && current == p
      modifies this`current, this`list, this`flags, list`next
      ensures Linked() && list == old(list)[1..] && p !in list
      ensures Queue() == old(Queue())[1..] && old(Queue())[0] == Entry(p, p.value)
      ensures flags == old(flags) + [p]
    {
      hide Linked, NoRepeat, QueueOf, Without, First, Cut, Nth;
      HeadOf(p);
      flags := flags + [p];
      Remove(p);
    }

    method Rearm(p: Timer)
      requires Linked() && p !in list
      modifies this`current, this`list, list`next, p`next, p`value
      ensures Linked() && Queue() == Rearmed(old(Queue()), p)
      ensures if p.config == Periodic then Within(list, [p] + old(list)) else list == old(list)
    {
      hide Linked, NoRepeat, QueueOf, TimerQueue.Insert, Within;
      if p.config == Periodic {
        p.value := p.initVal;
        var k := Insert(p);
      }
    }

    /** ... and goes back into the list with its period, if it has one. */
    method Fire(p: Timer)
      requires Linked() && current == p
      modifies this`current, this`list, this`flags, list`next, list`value
      ensures Linked() && Within(list, old(list))
      ensures Queue() == Rearmed(old(Queue()[1..]), p)
      ensures flags == old(flags) + [p]
      ensures p.config != Periodic ==> list == old(list)[1..]
    {
      TailWithin(list, p);
      hide Linked, NoRepeat, QueueOf, TimerQueue.Insert, Within;
      Notify(p);
      Rearm(p);
    }

    lemma TurnFacts(p: Timer, periods: map<Timer, Period>, all: seq<Timer>)
      requires Linked() && current == p && p.value == 0 && Within(list, all) && PeriodsAre(all, periods)
      ensures Queue() != [] && Queue()[0] == Entry(p, 0) && p.next == Nth(list[1..], 0)
      ensures NextQueue(Queue(), periods) == Rearmed(Queue()[1..], p)
    {
      PeriodOf(all, periods, p);
    }

    /** One turn of the handler's loop, for a timer that has expired; the walk goes on at the new head. */
    method Turn(p: Timer, ghost periods: map<Timer, Period>, ghost all: seq<Timer>) returns (cur: Timer?)
      requires Linked() && current == p && p.value == 0 && Sorted(Queue()) && Within(list, all)
      requires PeriodsAre(all, periods)
      modifies this`current, this`list, this`flags, list`next, list`value
      ensures Linked() && Sorted(Queue()) && Within(list, all) && cur == Nth(list, 0)
      ensures Zeros(Queue()) < Zeros(old(Queue())) && Expire(Queue(), periods) == Expire(old(Queue()), periods)
      ensures Notified(old(Queue())) == [p] + Notified(Queue()) && flags == old(flags) + [p]
    {
      hide Linked, Sorted, QueueOf, Within, PeriodsAre, NextQueue, Rearmed, Zeros, Expire, Notified, NoRepeat;
      TurnFacts(p, periods, all);
      TurnKeeps(Queue(), periods);
      cur := p.next;
      ghost var before := list;
      Fire(p);
      if p.config == Periodic {
        NullIsEmpty();
        cur := current;
      }
      WithinTrans(list, before, all);
    }

    /** The walk so far: what has been and what is to be notified, and what is to come of the queue. */
    ghost predicate Underway(q: seq<Entry<Timer>>, periods: map<Timer, Period>, before: seq<Timer>)
      reads this`current, this`list, this`flags, list`next, list`value
    {
      && Linked() && Sorted(Queue())
      && Expire(Queue(), periods) == Expire(q, periods)
      && flags + Notified(Queue()) == before + Notified(q)
    }

    method TurnOn(p: Timer, ghost q: seq<Entry<Timer>>, ghost periods: map<Timer, Period>, ghost all: seq<Timer>, ghost before: seq<Timer>)
      returns (cur: Timer?)
      requires current == p && p.value == 0 && Within(list, all) && PeriodsAre(all, periods) && Underway(q, periods, before)
      modifies this`current, this`list, this`flags, all`next, all`value
      ensures Underway(q, periods, before)
      ensures Within(list, all) && cur == Nth(list, 0) && Zeros(Queue()) < Zeros(old(Queue()))
    {
      hide Linked, NoRepeat, Sorted, QueueOf, PeriodsAre, Zeros, Expire, Notified;
      cur := Turn(p, periods, all);
      assert old(flags) + old(Notified(Queue())) == flags + Notified(Queue());
    }

    /** The handler's walk. It starts over from the head each time a timer has been armed again, and ends
        because no periodic timer has a period of 0. */
    method Sweep(ghost periods: map<Timer, Period>)
      requires Linked() && Sorted(Queue()) && PeriodsAre(list, periods)
      modifies this`current, this`list, this`flags, list`next, list`value
      ensures Linked()
      ensures Queue() == Expire(old(Queue()), periods) && flags == old(flags) + Notified(old(Queue()))
    {
      hide Underway, Linked, Tells, Sorted, QueueOf, PeriodsAre, Zeros, Expire, Unexpired, Within, NoRepeat, Notified;
      ghost var all, q, i: nat := list, Queue(), 0;
      Begin(periods);
      var cur := current;
      while cur != null
        invariant Underway(q, periods, old(flags)) && Within(list, all)
        invariant 0 <= i <= |list| && cur == Nth(list, i) && Unexpired(list, i)
        decreases Zeros(Queue()), |list| - i
      {
        var p: Timer := cur;
        NextOf(p, i, q, periods, old(flags));
        if p.value == 0 {
          cur := TurnOn(p, q, periods, all, old(flags));
          i := 0;
        } else {
          cur := p.next;
          i := i + 1;
        }
        NoneYet(list);
      }
      Done(q, periods, old(flags));
    }

    lemma Begin(periods: map<Timer, Period>)
      requires Linked() && Sorted(Queue())
      ensures Underway(Queue(), periods, flags) && Within(list, list) && Unexpired(list, 0) && current == Nth(list, 0)
    {
    }

    lemma Done(q: seq<Entry<Timer>>, periods: map<Timer, Period>, before: seq<Timer>)
      requires Underway(q, periods, before) && Unexpired(list, |list|)
      ensures Linked() && Queue() == Expire(q, periods) && flags == before + Notified(q)
    {
      hide Sorted, NoRepeat, QueueOf, Expire, Notified, Unexpired;
      AllUnexpired(list);
      SweptIsExpired(Queue(), periods);
      assert flags + [] == flags;
    }

    lemma NextOf(p: Timer, i: nat, q: seq<Entry<Timer>>, periods: map<Timer, Period>, before: seq<Timer>)
      requires Underway(q, periods, before) && i < |list| && p == Nth(list, i) && Unexpired(list, i)
      ensures p.next == Nth(list, i + 1)
      ensures p.value == 0 ==> i == 0 && current == p
      ensures p.value > 0 ==> Unexpired(list, i + 1)
    {
      if p.value == 0 {
        ExpiredIsHead(list, i);
      }
    }

    /** The queue as _update leaves it at time now. */
    ghost function Elapsed(now: nat): seq<Entry<Timer>>
      requires Forward(now)
      reads this`list, this`lastUpdate, list`value
    {
      Elapse(Queue(), Gone(now))
    }

    method ExpireAll(now: nat, ghost periods: map<Timer, Period>)
      requires Linked() && Tells() && Forward(now)
      requires PeriodsAre(list, periods)
      modifies this`current, this`list, this`flags, this`due, this`lastUpdate, list`next, list`value
      ensures Linked() && Tells() && lastUpdate == now && Unexpired(list, |list|)
      ensures due == DueAfter(old(due), periods, now)
      ensures Queue() == Expire(old(Elapsed(now)), periods)
      ensures flags == old(flags) + Notified(old(Elapsed(now)))
    {
      hide Linked, NoRepeat, PeriodsAre, QueueOf, Expire, Elapse, Notified, DueAfter, Sorted, Agrees, Distinct, Settled, Unexpired;
      ghost var q := Elapsed(now);
      Refresh(now);
      NullIsEmpty();
      NoRepeatDistinct(list);
      ExpireAgrees(q, due, periods, now);
      Sweep(periods);
      due := DueAfter(due, periods, now);
      SettledTells(list, due, now);
    }

    /** TimeEvt_EventHandler: whatever has expired is notified, once and in order, and armed again if it is
        periodic. */
    method EventHandler(now: nat)
      requires Valid() && Forward(now)
      requires forall t :: t in list && t.config == Periodic ==> t.initVal > 0
      modifies this, list`next, list`value
      ensures Valid() && lastUpdate == (if old(list) == [] then old(lastUpdate) else now)
      ensures due == DueAfter(old(due), Periods(old(list)), now) && Unexpired(list, |list|)
      ensures Queue() == Expire(old(Elapsed(now)), Periods(old(list)))
      ensures flags == old(flags) + Notified(old(Elapsed(now)))
    {
      hide Linked, NoRepeat, Periods, PeriodsAre, Tells, Expire, Elapsed, Notified, DueAfter, Unexpired, QueueOf;
      ghost var periods := Periods(list);
      PeriodsAreThose(list);
      NullIsEmpty();
      if current != null {
        ExpireAll(now, periods);
      } else {
        NothingListed(now);
      }
      NullIsEmpty();
      if current != null {
        alarm := At(now + current.value);
      } else {
        alarm := Stopped;
      }
    }

    /** What EventHandler leaves, timer by timer: a deadline that is still to come stays, a timer that is due is forgotten,
        and if it is periodic it is due again one period from now. */
    lemma DeadlinesAfter(now: nat)
      requires Tells() && forall t :: t in list && t.config == Periodic ==> t.initVal > 0
      ensures var after := DueAfter(due, Periods(list), now);
        && (forall t :: t in after ==> t in due)
        && (forall t :: t in due && due[t] > now ==> t in after && after[t] == due[t])
        && (forall t :: t in due && due[t] <= now && t.config == Periodic ==> t in after && after[t] == now + t.initVal)
        && (forall t :: t in due && due[t] <= now && t.config != Periodic ==> t !in after)
    {
      hide Sorted;
      forall t | t in due
        ensures t in list
      {
        var i :| 0 <= i < |Queue()| && Queue()[i].timer == t;
        assert Queue()[i] == Entry(list[i], list[i].value);
      }
    }

    lemma NothingListed(now: nat)
      requires list == [] && Tells() && Forward(now)
      ensures DueAfter(due, map[], now) == due && Periods(list) == map[] && Expire(Elapsed(now), map[]) == []
      ensures Notified(Elapsed(now)) == [] && Unexpired(list, 0) && Queue() == []
    {
    }
  }

  ghost function Rearmed(rest: seq<Entry<Timer>>, p: Timer): seq<Entry<Timer>>
    reads p`config, p`initVal
  {
    if p.config == Periodic then TimerQueue.Insert(rest, Entry(p, p.initVal)) else rest
  }

  /** What is left to a timer at the new time ms, if there was v before. */
  ghost function Revalued(t: Timer, v: nat, ms: nat): nat
    reads t`config, t`initVal
  {
    if t.config == Absolute then Left(t.initVal, ms) else v
  }

  /** The same for all of them. */
  ghost function RevaluedAll(list: seq<Timer>, q: seq<Entry<Timer>>, ms: nat): (r: seq<Entry<Timer>>)
    reads list`config, list`initVal
    ensures |list| == |q| ==> |r| == |list| && forall i {:trigger r[i]} :: 0 <= i < |r| ==> r[i] == Entry(list[i], Revalued(list[i], q[i].value, ms))
  {
    if list == [] || q == [] then [] else [Entry(list[0], Revalued(list[0], q[0].value, ms))] + RevaluedAll(list[1..], q[1..], ms)
  }

  /** On the new clock an absolute timer is due at its own value, or at once if that has passed; what is left to the
      others does not change. */
  lemma ResetDeadlines(list: seq<Timer>, q: seq<Entry<Timer>>, ms: nat, j: nat)
    requires j < |list| == |q|
    ensures RevaluedAll(list, q, ms)[j].timer == list[j]
    ensures list[j].config == Absolute ==> ms + RevaluedAll(list, q, ms)[j].value == if list[j].initVal > ms then list[j].initVal else ms
    ensures list[j].config != Absolute ==> RevaluedAll(list, q, ms)[j].value == q[j].value
  {
  }

  lemma RevaluedIs(list: seq<Timer>, q: seq<Entry<Timer>>, ms: nat)
    requires |q| == |list| && forall j :: 0 <= j < |list| ==> list[j].value == Revalued(list[j], q[j].value, ms)
    ensures QueueOf(list) == RevaluedAll(list, q, ms)
  {
    hide Revalued, QueueOf, RevaluedAll;
  }

  /** The deadlines that the values say at time last. */
  ghost function DueOf(list: seq<Timer>, last: nat): map<Timer, nat>
    reads list`value
  {
    map t | t in list :: last + t.value
  }

  lemma DueOfAgrees(list: seq<Timer>, last: nat)
    ensures Agrees(QueueOf(list), DueOf(list, last), last)
  {
    var q := QueueOf(list);
    forall t | t in list
      ensures t in Timers(q)
    {
      var i :| 0 <= i < |list| && list[i] == t;
      assert q[i].timer == t;
    }
    assert forall i :: 0 <= i < |q| ==> q[i].timer in list;
  }

  /** The last but one of a queue has no more left than v. */
  ghost predicate Follows(q: seq<Entry<Timer>>, v: nat) {
    |q| <= 1 || q[|q| - 2].value <= v
  }

  /** No timer of the list has more left than v. */
  ghost predicate AtMost(list: seq<Timer>, v: nat)
    reads list`value
  {
    forall j :: 0 <= j < |list| ==> list[j].value <= v
  }

  /** The list as a value. */
  ghost function QueueOf(list: seq<Timer>): (q: seq<Entry<Timer>>)
    reads list`value
    ensures |q| == |list|
    ensures forall i {:trigger q[i]} :: 0 <= i < |q| ==> q[i] == Entry(list[i], list[i].value)
  {
    if list == [] then [] else [Entry(list[0], list[0].value)] + QueueOf(list[1..])
  }

  /** The timer at place i, or null after the last one. */
  function Nth(list: seq<Timer>, i: nat): Timer? {
    if i < |list| then list[i] else null
  }

  ghost predicate NoRepeat(list: seq<Timer>) {
    forall i, j :: 0 <= i < j < |list| ==> list[i] != list[j]
  }

  ghost function Spliced(list: seq<Timer>, k: nat, t: Timer): seq<Timer>
    requires k <= |list|
  {
    list[..k] + [t] + list[k..]
  }

  lemma SplicedAt(list: seq<Timer>, k: nat, t: Timer)
    requires k <= |list|
    ensures var r := Spliced(list, k, t);
      && |r| == |list| + 1 && r[k] == t
      && (forall j :: 0 <= j < k ==> r[j] == list[j])
      && (forall j :: k < j < |r| ==> r[j] == list[j - 1])
  {
  }

  lemma SplicedNoRepeat(list: seq<Timer>, k: nat, t: Timer)
    requires k <= |list| && NoRepeat(list) && t !in list
    ensures NoRepeat(Spliced(list, k, t))
  {
  }

  lemma QueueConcat(a: seq<Timer>, b: seq<Timer>)
    ensures QueueOf(a + b) == QueueOf(a) + QueueOf(b)
  {
    hide QueueOf;
    var x, y := QueueOf(a + b), QueueOf(a) + QueueOf(b);
    assert |x| == |y| && forall i :: 0 <= i < |x| ==> x[i] == y[i];
  }

  lemma SplicedQueue(a: seq<Timer>, b: seq<Timer>, t: Timer)
    requires Position(QueueOf(a + b), t.value) == |a|
    ensures QueueOf(a + [t] + b) == TimerQueue.Insert(QueueOf(a + b), Entry(t, t.value))
  {
    var e := Entry(t, t.value);
    assert QueueOf([t]) == [e];
    hide *;
    QueueConcat(a + [t], b);
    QueueConcat(a, [t]);
    QueueConcat(a, b);
    InsertConcat(QueueOf(a), QueueOf(b), e);
  }

  /** The list without its element i. */
  ghost function Cut(list: seq<Timer>, i: nat): seq<Timer>
    requires i < |list|
  {
    list[..i] + list[i + 1..]
  }

  lemma CutAt(list: seq<Timer>, i: nat)
    requires i < |list|
    ensures var r := Cut(list, i);
      && |r| == |list| - 1
      && (forall j :: 0 <= j < i ==> r[j] == list[j])
      && (forall j :: i <= j < |r| ==> r[j] == list[j + 1])
  {
  }

  lemma CutNoRepeat(list: seq<Timer>, i: nat)
    requires i < |list| && NoRepeat(list)
    ensures NoRepeat(Cut(list, i))
  {
  }

  /** The place of a timer, or the length of the list. */
  ghost function First(list: seq<Timer>, t: Timer): (k: nat)
    ensures k <= |list| && t !in list[..k]
    ensures k < |list| ==> list[k] == t
  {
    if list == [] || list[0] == t then 0 else 1 + First(list[1..], t)
  }

  lemma {:induction false} FirstIs(list: seq<Timer>, t: Timer, k: nat)
    requires k < |list| && list[k] == t && t !in list[..k]
    ensures First(list, t) == k
  {
    if k > 0 {
      assert list[0] == list[..k][0] && list[1..][..k - 1] == list[..k][1..];
      FirstIs(list[1..], t, k - 1);
    }
  }

  ghost function Without(list: seq<Timer>, t: Timer): seq<Timer> {
    var k := First(list, t);
    if k < |list| then Cut(list, k) else list
  }

  lemma NoRepeatDistinct(list: seq<Timer>)
    requires NoRepeat(list)
    ensures Distinct(QueueOf(list))
  {
    assert forall i :: 0 <= i < |list| ==> QueueOf(list)[i].timer == list[i];
  }

  lemma CutQueue(a: seq<Timer>, b: seq<Timer>, t: Timer)
    ensures QueueOf(a + b) == TimerQueue.Remove(QueueOf(a + [t] + b), |a|)
    ensures QueueOf(a + [t] + b)[|a|].timer == t
  {
    var e := Entry(t, t.value);
    assert QueueOf([t]) == [e];
    hide QueueOf;
    QueueConcat(a + [t], b);
    QueueConcat(a, [t]);
    QueueConcat(a, b);
  }

  /** A timer that leaves the list takes its deadline with it. */
  lemma WithoutTells(list: seq<Timer>, due: map<Timer, nat>, last: nat, t: Timer)
    requires NoRepeat(list) && Sorted(QueueOf(list)) && Agrees(QueueOf(list), due, last)
    ensures Sorted(QueueOf(Without(list, t))) && Agrees(QueueOf(Without(list, t)), due - {t}, last)
  {
    var k := First(list, t);
    if k < |list| {
      NoRepeatDistinct(list);
      var a, b := list[..k], list[k + 1..];
      assert list == a + [t] + b;
      hide QueueOf, Sorted, Agrees, Distinct;
      CutQueue(a, b, t);
      RemoveKeeps(QueueOf(list), k);
      RemoveAgrees(QueueOf(list), due, last, k);
    } else {
      assert t !in list;
      assert forall i :: 0 <= i < |list| ==> QueueOf(list)[i].timer == list[i];
      assert due - {t} == due;
    }
  }

  lemma NotListed(list: seq<Timer>, t: Timer)
    requires t !in list
    ensures t !in Timers(QueueOf(list))
  {
    assert forall i :: 0 <= i < |list| ==> QueueOf(list)[i].timer == list[i];
  }

  lemma InsertTells(list: seq<Timer>, due: map<Timer, nat>, last: nat, t: Timer)
    requires Sorted(QueueOf(list)) && Agrees(QueueOf(list), due, last) && t !in list
    ensures Sorted(TimerQueue.Insert(QueueOf(list), Entry(t, t.value)))
    ensures Agrees(TimerQueue.Insert(QueueOf(list), Entry(t, t.value)), due[t := last + t.value], last)
  {
    hide Sorted, Agrees, QueueOf, TimerQueue.Insert, Timers;
    NotListed(list, t);
    NotDue(QueueOf(list), due, last, t);
    InsertKeeps(QueueOf(list), Entry(t, t.value));
    InsertAgrees(QueueOf(list), due, last, Entry(t, t.value));
  }

  ghost predicate Within(list: seq<Timer>, all: seq<Timer>) {
    forall i :: 0 <= i < |list| ==> list[i] in all
  }

  /** The periodic timers of a list and their periods. */
  ghost predicate PeriodsAre(list: seq<Timer>, periods: map<Timer, Period>)
    reads list`config, list`initVal
  {
    && (forall i :: 0 <= i < |list| ==> (list[i] in periods <==> list[i].config == Periodic))
    && (forall i :: 0 <= i < |list| && list[i] in periods ==> periods[list[i]] == list[i].initVal)
  }

  lemma PeriodOf(all: seq<Timer>, periods: map<Timer, Period>, p: Timer)
    requires PeriodsAre(all, periods) && p in all
    ensures p in periods <==> p.config == Periodic
    ensures p in periods ==> periods[p] == p.initVal
  {
  }

  lemma SplicedWithin(list: seq<Timer>, k: nat, t: Timer)
    requires k <= |list|
    ensures Within(Spliced(list, k, t), [t] + list)
  {
    SplicedAt(list, k, t);
    hide Spliced;
    assert forall j :: 0 <= j < |list| ==> ([t] + list)[j + 1] == list[j];
    assert ([t] + list)[0] == t;
  }

  lemma TailWithin(list: seq<Timer>, p: Timer)
    requires list != [] && list[0] == p
    ensures Within(list[1..], list) && [p] + list[1..] == list
  {
  }

  lemma WithinTrans(a: seq<Timer>, b: seq<Timer>, c: seq<Timer>)
    requires Within(a, b) && Within(b, c)
    ensures Within(a, c)
  {
  }

  /** The periodic timers of a list, with their periods. */
  ghost function Periods(list: seq<Timer>): map<Timer, Period>
    reads list`config, list`initVal
  {
    map t | t in list && t.config == Periodic && t.initVal > 0 :: t.initVal
  }

  lemma PeriodsAreThose(list: seq<Timer>)
    requires forall t :: t in list && t.config == Periodic ==> t.initVal > 0
    ensures PeriodsAre(list, Periods(list))
  {
  }

  /** The first i timers have not expired. */
  ghost predicate Unexpired(list: seq<Timer>, i: nat)
    requires i <= |list|
    reads list`value
  {
    forall j :: 0 <= j < i ==> list[j].value > 0
  }

  lemma ExpiredIsHead(list: seq<Timer>, i: nat)
    requires i < |list| && Sorted(QueueOf(list)) && Unexpired(list, i) && list[i].value == 0
    ensures i == 0
  {
    var q := QueueOf(list);
    assert q[0].value <= q[i].value;
  }

  lemma AllUnexpired(list: seq<Timer>)
    requires Unexpired(list, |list|)
    ensures QueueOf(list) == [] || QueueOf(list)[0].value > 0
  {
  }

  lemma NoneYet(list: seq<Timer>)
    ensures Unexpired(list, 0)
  {
  }

  lemma SettledTells(list: seq<Timer>, due: map<Timer, nat>, now: nat)
    requires Settled(QueueOf(list), due, now)
    ensures Sorted(QueueOf(list)) && Agrees(QueueOf(list), due, now) && Unexpired(list, |list|)
  {
    hide Sorted, Agrees, Distinct, QueueOf;
    var q := QueueOf(list);
    assert forall i :: 0 <= i < |list| ==> q[i] == Entry(list[i], list[i].value);
  }

  // ---------- an input that closes the list ----------

  lemma OneListed(list: seq<Timer>, e: Entry<Timer>)
    requires QueueOf(list) == TimerQueue.Insert([], e)
    ensures list == [e.timer] && QueueOf(list) == [e]
  {
    assert QueueOf(list) == [e];
    assert QueueOf(list)[0] == Entry(list[0], list[0].value);
  }

  lemma TwoListed(list: seq<Timer>, e: Entry<Timer>, f: Entry<Timer>)
    requires e.value <= f.value && QueueOf(list) == TimerQueue.Insert([e], f)
    ensures list == [e.timer, f.timer] && QueueOf(list) == [e, f]
  {
    PositionUnique([e], f.value, 1);
    assert QueueOf(list) == [e, f];
    assert QueueOf(list)[0] == Entry(list[0], list[0].value) && QueueOf(list)[1] == Entry(list[1], list[1].value);
  }

  lemma EmptyQueue()
    ensures QueueOf([]) == []
  {
  }

  lemma ElapseNothing(q: seq<Entry<Timer>>)
    ensures Elapse(q, 0) == q
  {
  }

  /** A timer of 5 s and one of 10 s, started at time 0. */
  method StartTwo(config: Config) returns (c: Context, a: Timer, b: Timer)
    ensures c.Valid() && c.list == [a, b] && c.lastUpdate == 0 && b.next == null && a.config == OneShot && b.config == config
    ensures b.initVal == 10000
    ensures c.Queue() == [Entry(a, 5000), Entry(b, 10000)] && fresh(c) && fresh(a) && fresh(b)
  {
    hide TimerQueue.Insert, QueueOf, Sorted, Agrees, Elapse, Context.Armed, Context.Linked, Context.Tells, Context.Tangled;
    c := new Context();
    a := new Timer(OneShot);
    b := new Timer(config);
    EmptyQueue();
    ElapseNothing(c.Queue());
    var ret, k := c.TimerStart(a, 5, 0, 0, 0);
    OneListed(c.list, Entry(a, 5000));
    ElapseNothing(c.Queue());
    ret, k := c.TimerStart(b, 10, 0, 0, 0);
    TwoListed(c.list, Entry(a, 5000), Entry(b, 10000));
    c.LastIsNull();
  }

  /** The second is started again with 1 s: the links run in a circle. */
  method StartAgain() returns (c: Context, a: Timer, b: Timer)
    ensures c.list == [a, b] && c.Tangled(0)
  {
    hide TimerQueue.Insert, QueueOf, Sorted, Agrees, Elapse, Context.Armed, Context.Linked, Context.Tells;
    c, a, b := StartTwo(OneShot);
    ElapseNothing(c.Queue());
    var ret, k := c.TimerStart(b, 1, 0, 0, 0);
  }

  // ---------- a new time that puts the list out of order ----------

  /** The first is left its 5 s, the second ends at 10 s on the clock: when that is set to 8 s the second has only
      2 s left and stays behind the first, for which the alarm is set. */
  method SetForward() returns (c: Context, a: Timer, b: Timer)
    ensures c.list == [a, b] && c.Queue() == [Entry(a, 5000), Entry(b, 2000)] && c.alarm == At(8000 + 5000) && !c.Valid()
  {
    hide TimerQueue.Insert, QueueOf, Elapse, Agrees, Context.Linked;
    c, a, b := StartTwo(Absolute);
    ElapseNothing(c.Queue());
    c.UpdateTime(8, 0);
    assert c.Queue()[0].value > c.Queue()[1].value;
  }
}
