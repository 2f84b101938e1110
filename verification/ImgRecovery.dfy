/** How many loss-free passes over the blocks, in increasing order, complete the image, from any
    state that a run with losses, repetitions and dropped blocks may leave behind. */
module ImgRecovery {
  import opened ImgLayout

  /** The blocks 0..n-1 are sent in order. */
  ghost function Ascending(stored: set<nat>, n: nat): set<nat> {
    if n == 0 then stored else Store(Ascending(stored, n - 1), n - 1)
  }

  /** Some other line holds the slot of line n. */
  ghost predicate Blocked(stored: set<nat>, n: nat) {
    exists m: nat :: Occupies(stored, m) && SameSlot(m, n) && m != n
  }

  /** Some later line holds the slot of line n. */
  ghost predicate HeldLater(stored: set<nat>, n: nat) {
    exists m: nat :: Occupies(stored, m) && SameSlot(m, n) && m > n
  }

  lemma StoreInLine(stored: set<nat>, id: nat)
    ensures Store(stored, id) == if Blocked(stored, id / 4) then stored else stored + {id}
    ensures Blocked(Store(stored, id), id / 4) == Blocked(stored, id / 4)
  {
    var n, after := id / 4, Store(stored, id);
    assert Accepts(stored, id) <==> id !in stored && !Blocked(stored, n);
    if !Blocked(stored, n) && Blocked(after, n) {
      var m: nat :| Occupies(after, m) && SameSlot(m, n) && m != n;
      OtherLines(stored, id, m);
    }
    assert id in stored ==> stored + {id} == stored;
  }

  function Below(id: nat, limit: nat): set<nat> {
    if id < limit then {id} else {}
  }

  /** The blocks of line n that are below limit. */
  function LineIds(n: nat, limit: nat): set<nat> {
    Below(4 * n, limit) + Below(4 * n + 1, limit) + Below(4 * n + 2, limit) + Below(4 * n + 3, limit)
  }

  /** Sending the blocks of one line, up to limit, adds them all or none. */
  lemma {:induction false} AfterLine(stored: set<nat>, n: nat, limit: nat)
    requires 4 * n <= limit <= 4 * n + 4
    ensures var before := Ascending(stored, 4 * n);
      Ascending(stored, limit) == if Blocked(before, n) then before else before + LineIds(n, limit)
    ensures Blocked(Ascending(stored, limit), n) == Blocked(Ascending(stored, 4 * n), n)
    decreases limit
  {
    if limit == 4 * n {
      assert LineIds(n, limit) == {};
    } else {
      AfterLine(stored, n, limit - 1);
      assert (limit - 1) / 4 == n;
      StoreInLine(Ascending(stored, limit - 1), limit - 1);
      assert LineIds(n, limit) == LineIds(n, limit - 1) + {limit - 1};
    }
  }

  /** The state t agrees with s on the blocks from from on. */
  ghost predicate SameFrom(s: set<nat>, t: set<nat>, from: nat) {
    forall id :: id >= from ==> (id in s <==> id in t)
  }

  /** What is known when the lines before n have been sent: none of them holds a slot, each is full
      unless a later line was holding its slot, and the others are untouched. */
  ghost predicate SentBefore(s: set<nat>, t: set<nat>, n: nat) {
    && SameFrom(s, t, 4 * n)
    && (forall m :: 0 <= m < n ==> !Occupies(t, m))
    && (forall m :: 0 <= m < n ==> (LineFull(t, m) <==> LineFull(s, m) || !HeldLater(s, m)))
  }

  lemma SameFromLine(s: set<nat>, t: set<nat>, n: nat, m: nat)
    requires SameFrom(s, t, 4 * n) && m >= n
    ensures Occupies(t, m) == Occupies(s, m) && LineFull(t, m) == LineFull(s, m)
  {
  }

  /** Before line n is sent, its slot can only be held by a later line. */
  lemma BlockedIsHeldLater(s: set<nat>, t: set<nat>, n: nat)
    requires SentBefore(s, t, n)
    ensures Blocked(t, n) <==> HeldLater(s, n)
  {
    if Blocked(t, n) {
      var m: nat :| Occupies(t, m) && SameSlot(m, n) && m != n;
      SameFromLine(s, t, n, if m > n then m else n);
    }
    if HeldLater(s, n) {
      var m: nat :| Occupies(s, m) && SameSlot(m, n) && m > n;
      SameFromLine(s, t, n, m);
    }
  }

  lemma {:induction false} PassOverLines(s: set<nat>, expected: nat, n: nat)
    requires Consistent(s, expected) && 4 * n <= expected
    ensures SentBefore(s, Ascending(s, 4 * n), n)
  {
    if n > 0 {
      var k := n - 1;
      var t, t' := Ascending(s, 4 * k), Ascending(s, 4 * n);
      PassOverLines(s, expected, k);
      AfterLine(s, k, 4 * n);
      BlockedIsHeldLater(s, t, k);
      SameFromLine(s, t, k, k);
      SentLine(s, t, t', k);
    }
  }

  /** Adding blocks of line k leaves the lines before it alone. */
  lemma EarlierLine(t: set<nat>, k: nat, limit: nat, m: nat)
    requires m < k
    ensures LineFull(t + LineIds(k, limit), m) == LineFull(t, m)
    ensures LineTouched(t + LineIds(k, limit), m) == LineTouched(t, m)
  {
  }

  lemma LaterBlocks(t: set<nat>, k: nat, id: nat)
    requires id >= 4 * k + 4
    ensures id in t + LineIds(k, 4 * k + 4) <==> id in t
  {
  }

  /** One more line sent. */
  lemma SentLine(s: set<nat>, t: set<nat>, t': set<nat>, k: nat)
    requires SentBefore(s, t, k)
    requires forall m, n :: Occupies(s, m) && Occupies(s, n) && SameSlot(m, n) ==> m == n
    requires t' == if HeldLater(s, k) then t else t + LineIds(k, 4 * k + 4)
    ensures SentBefore(s, t', k + 1)
  {
    SameFromLine(s, t, k, k);
    if HeldLater(s, k) {
      var p: nat :| Occupies(s, p) && SameSlot(p, k) && p > k;
      assert Occupies(s, k) ==> SameSlot(k, p) && k == p;
    } else {
      assert 4 * k in t' && 4 * k + 1 in t' && 4 * k + 2 in t' && 4 * k + 3 in t';
      hide LineIds;
      forall m | 0 <= m < k
        ensures LineFull(t', m) == LineFull(t, m) && LineTouched(t', m) == LineTouched(t, m)
      {
        EarlierLine(t, k, 4 * k + 4, m);
      }
      forall id: nat | id >= 4 * (k + 1)
        ensures id in s <==> id in t'
      {
        LaterBlocks(t, k, id);
      }
      forall m | 0 <= m < k + 1
        ensures !Occupies(t', m)
        ensures LineFull(t', m) <==> LineFull(s, m) || !HeldLater(s, m)
      {
        assert m < k ==> !Occupies(t, m) && LineFull(t', m) == LineFull(t, m);
      }
    }
  }

  /** The last line when it is not a whole one. */
  function LastLine(expected: nat): nat {
    expected / 4
  }

  /** After a pass every whole line is as SentBefore says, and a partial last line is done. */
  lemma AfterPass(s: set<nat>, expected: nat)
    requires Consistent(s, expected)
    ensures var r, z := Ascending(s, expected), LastLine(expected);
      && Consistent(r, expected)
      && (forall m :: 0 <= m < z ==> !Occupies(r, m))
      && (forall m :: 0 <= m < z ==> (LineFull(r, m) <==> LineFull(s, m) || !HeldLater(s, m)))
      && (forall id :: 4 * z <= id < expected ==> id in r)
  {
    var z := LastLine(expected);
    var t, r := Ascending(s, 4 * z), Ascending(s, expected);
    PassOverLines(s, expected, z);
    AfterLine(s, z, expected);
    BlockedIsHeldLater(s, t, z);
    AscendingConsistent(s, expected, expected);
    forall m: nat | m > z
      ensures !Occupies(s, m)
    {
      assert 4 * m >= expected;
    }
    assert !HeldLater(s, z) && !Blocked(t, z);
    assert r == t + LineIds(z, expected);
    forall m | 0 <= m < z
      ensures LineFull(r, m) == LineFull(t, m) && LineTouched(r, m) == LineTouched(t, m)
      ensures !Occupies(r, m)
    {
      EarlierLine(t, z, expected, m);
      assert !Occupies(t, m);
    }
  }

  lemma {:induction false} AscendingConsistent(s: set<nat>, expected: nat, n: nat)
    requires Consistent(s, expected) && n <= expected
    ensures Consistent(Ascending(s, n), expected)
  {
    if n > 0 {
      AscendingConsistent(s, expected, n - 1);
      StoreKeepsConsistent(Ascending(s, n - 1), expected, n - 1);
    }
  }

  /** Completeness, line by line. */
  lemma CompleteByLines(r: set<nat>, expected: nat)
    requires forall id :: 4 * LastLine(expected) <= id < expected ==> id in r
    ensures Complete(r, expected) <==> forall m :: 0 <= m < LastLine(expected) ==> LineFull(r, m)
  {
    if forall m :: 0 <= m < LastLine(expected) ==> LineFull(r, m) {
      forall id | 0 <= id < expected
        ensures id in r
      {
        if id < 4 * LastLine(expected) {
          var m, k := id / 4, id % 4;
          assert LineFull(r, m);
          assert id == 4 * m + k && (k == 0 || k == 1 || k == 2 || k == 3);
        }
      }
    }
  }

  /** One pass completes the image unless a line that is not full is held out of its slot by a later one. */
  lemma OnePass(s: set<nat>, expected: nat)
    requires Consistent(s, expected)
    ensures Complete(Ascending(s, expected), expected)
      <==> forall m :: 0 <= m < LastLine(expected) ==> LineFull(s, m) || !HeldLater(s, m)
  {
    AfterPass(s, expected);
    CompleteByLines(Ascending(s, expected), expected);
  }

  /** With at most 24 lines no two share a slot, and one pass always suffices. */
  lemma OnePassSuffices(s: set<nat>, expected: nat)
    requires Consistent(s, expected) && expected <= 4 * SLOTS
    ensures Complete(Ascending(s, expected), expected)
  {
    OnePass(s, expected);
    forall m | 0 <= m < LastLine(expected)
      ensures !HeldLater(s, m)
    {
      forall p: nat | Occupies(s, p) && SameSlot(p, m)
        ensures p == m
      {
        assert p < SLOTS && m < SLOTS;
      }
    }
  }

  /** A partial last line never frees its slot: it shuts out an earlier line of the same slot that is
      still held up when the passes begin. */
  ghost predicate ShutOut(s: set<nat>, expected: nat) {
    && expected % 4 != 0
    && exists m :: 0 <= m < LastLine(expected) && SameSlot(m, LastLine(expected)) && !LineFull(s, m) && HeldLater(s, m)
  }

  /** The recovery law: from any reachable state two passes complete the image, but for a line shut out. */
  lemma TwoPasses(s: set<nat>, expected: nat)
    requires Consistent(s, expected)
    ensures Complete(Ascending(Ascending(s, expected), expected), expected) <==> !ShutOut(s, expected)
  {
    var r, z := Ascending(s, expected), LastLine(expected);
    AfterPass(s, expected);
    OnePass(r, expected);
    forall m | 0 <= m < z
      ensures HeldLater(r, m) <==> expected % 4 != 0 && SameSlot(m, z)
    {
      if HeldLater(r, m) {
        var p: nat :| Occupies(r, p) && SameSlot(p, m) && p > m;
        assert p == z;
      }
      if expected % 4 != 0 && SameSlot(m, z) {
        assert 4 * z in r && 4 * z + 3 !in r;
        assert Occupies(r, z);
      }
    }
  }

  /** With a multiple of four blocks two passes always suffice. */
  lemma TwoPassesSuffice(s: set<nat>, expected: nat)
    requires Consistent(s, expected) && expected % 4 == 0
    ensures Complete(Ascending(Ascending(s, expected), expected), expected)
  {
    TwoPasses(s, expected);
  }
}
