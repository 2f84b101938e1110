/** The abstract view of img_storage.c: which blocks are stored, which pending slot a line of four
    blocks occupies, what the completion counter counts and which flash words are due. */
module ImgLayout {

  const BLOCK_SZ := 210
  const SLOTS := 24
  const BLOCK_MAX := 808    // ids the 101 bytes of the bitmap can hold
  const LINES := 202

  /** Line n is made of the blocks 4n..4n+3. */
  predicate LineFull(stored: set<nat>, n: nat) {
    4 * n in stored && 4 * n + 1 in stored && 4 * n + 2 in stored && 4 * n + 3 in stored
  }

  predicate LineTouched(stored: set<nat>, n: nat) {
    4 * n in stored || 4 * n + 1 in stored || 4 * n + 2 in stored || 4 * n + 3 in stored
  }

  /** A begun line keeps its pending slot until its four blocks are there. */
  predicate Occupies(stored: set<nat>, n: nat) {
    LineTouched(stored, n) && !LineFull(stored, n)
  }

  predicate SameSlot(m: nat, n: nat) {
    m % SLOTS == n % SLOTS
  }

  /** No two lines share a pending slot, and only expected blocks are stored. */
  ghost predicate Consistent(stored: set<nat>, expected: nat) {
    && (forall id :: id in stored ==> id < expected)
    && (forall m, n :: Occupies(stored, m) && Occupies(stored, n) && SameSlot(m, n) ==> m == n)
  }

  /** A block is taken when it is new and no other line occupies its slot. */
  ghost predicate Accepts(stored: set<nat>, id: nat) {
    id !in stored && forall n :: Occupies(stored, n) && SameSlot(n, id / 4) ==> n == id / 4
  }

  ghost function Store(stored: set<nat>, id: nat): set<nat> {
    if Accepts(stored, id) then stored + {id} else stored
  }

  ghost predicate Complete(stored: set<nat>, expected: nat) {
    forall id :: 0 <= id < expected ==> id in stored
  }

  /** Storing a block leaves the other lines as they are. */
  lemma OtherLines(stored: set<nat>, id: nat, n: nat)
    requires n != id / 4
    ensures Occupies(stored + {id}, n) == Occupies(stored, n)
    ensures LineFull(stored + {id}, n) == LineFull(stored, n)
    ensures LineTouched(stored + {id}, n) == LineTouched(stored, n)
  {
  }

  /** Any block, in any state: no two lines ever share a slot. */
  lemma StoreKeepsConsistent(stored: set<nat>, expected: nat, id: nat)
    requires Consistent(stored, expected) && id < expected
    ensures Consistent(Store(stored, id), expected)
  {
    var after := Store(stored, id);
    forall m, n | Occupies(after, m) && Occupies(after, n) && SameSlot(m, n)
      ensures m == n
    {
      if after != stored {
        if m != id / 4 {
          OtherLines(stored, id, m);
        }
        if n != id / 4 {
          OtherLines(stored, id, n);
        }
      }
    }
  }

  /** A whole run of blocks, in any order and with any repetitions. */
  ghost function StoreAll(stored: set<nat>, ids: seq<nat>): set<nat>
    decreases |ids|
  {
    if ids == [] then stored else StoreAll(Store(stored, ids[0]), ids[1..])
  }

  lemma {:induction false} RunKeepsConsistent(stored: set<nat>, expected: nat, ids: seq<nat>)
    requires Consistent(stored, expected) && forall k :: 0 <= k < |ids| ==> ids[k] < expected
    ensures Consistent(StoreAll(stored, ids), expected)
    decreases |ids|
  {
    if ids != [] {
      StoreKeepsConsistent(stored, expected, ids[0]);
      RunKeepsConsistent(Store(stored, ids[0]), expected, ids[1..]);
    }
  }

  // ---------- the completion counter ----------

  function One(b: bool): nat {
    if b then 1 else 0
  }

  /** What a line has added to u32NbBlk: adjacent pairs, the line itself when it is full, and the very
      last block when the last line is not a full one. */
  function LineScore(stored: set<nat>, expected: nat, n: nat): nat {
    One(4 * n in stored && 4 * n + 1 in stored)
    + One(4 * n + 1 in stored && 4 * n + 2 in stored)
    + One(4 * n + 2 in stored && 4 * n + 3 in stored)
    + One(LineFull(stored, n))
    + One(expected % 4 != 0 && (expected - 1) / 4 == n && expected - 1 in stored)
  }

  function Score(stored: set<nat>, expected: nat, lines: nat): nat {
    if lines == 0 then 0 else Score(stored, expected, lines - 1) + LineScore(stored, expected, lines - 1)
  }

  /** The number of blocks of line n that are expected. */
  function Width(expected: nat, n: nat): nat {
    if 4 * n + 4 <= expected then 4 else if 4 * n < expected then expected - 4 * n else 0
  }

  predicate LineDone(stored: set<nat>, expected: nat, n: nat) {
    && (4 * n < expected ==> 4 * n in stored)
    && (4 * n + 1 < expected ==> 4 * n + 1 in stored)
    && (4 * n + 2 < expected ==> 4 * n + 2 in stored)
    && (4 * n + 3 < expected ==> 4 * n + 3 in stored)
  }

  /** A line never scores more than its expected blocks, and scores them all when they are all stored. */
  predicate LineOk(stored: set<nat>, expected: nat, n: nat) {
    && LineScore(stored, expected, n) <= Width(expected, n)
    && (LineScore(stored, expected, n) == Width(expected, n) <==> LineDone(stored, expected, n))
  }

  lemma LineScoreBound(stored: set<nat>, expected: nat, n: nat)
    requires forall id :: id in stored ==> id < expected
    ensures LineOk(stored, expected, n)
  {
    var a, b, c, d := 4 * n, 4 * n + 1, 4 * n + 2, 4 * n + 3;
    assert d >= expected ==> d !in stored;
    assert c >= expected ==> c !in stored;
    assert b >= expected ==> b !in stored;
    assert a >= expected ==> a !in stored;
    LastLine(expected, n);
  }

  lemma LastLine(expected: nat, n: nat)
    ensures expected % 4 != 0 && (expected - 1) / 4 == n <==> 1 <= Width(expected, n) <= 3
    ensures 1 <= Width(expected, n) <= 3 ==> expected - 1 == 4 * n + Width(expected, n) - 1
  {
  }

  lemma {:induction false} ScoreBound(stored: set<nat>, expected: nat, lines: nat)
    requires forall n {:trigger LineOk(stored, expected, n)} :: 0 <= n < lines ==> LineOk(stored, expected, n)
    ensures Score(stored, expected, lines) <= (if 4 * lines <= expected then 4 * lines else expected)
    ensures Score(stored, expected, lines) == (if 4 * lines <= expected then 4 * lines else expected)
      <==> forall n :: 0 <= n < lines ==> LineDone(stored, expected, n)
  {
    hide LineScore, LineDone;
    if lines > 0 {
      ScoreBound(stored, expected, lines - 1);
      assert LineOk(stored, expected, lines - 1);
    }
  }

  lemma DoneLinesComplete(stored: set<nat>, expected: nat)
    requires expected <= BLOCK_MAX
    ensures (forall n :: 0 <= n < LINES ==> LineDone(stored, expected, n)) <==> Complete(stored, expected)
  {
    if forall n :: 0 <= n < LINES ==> LineDone(stored, expected, n) {
      forall id | 0 <= id < expected
        ensures id in stored
      {
        var n, k := id / 4, id % 4;
        assert LineDone(stored, expected, n);
        assert id == 4 * n + k && (k == 0 || k == 1 || k == 2 || k == 3);
      }
    }
  }

  /** The counter never exceeds the expected number of blocks, and reaches it exactly on completion. */
  lemma CounterIsExact(stored: set<nat>, expected: nat)
    requires expected <= BLOCK_MAX && forall id :: id in stored ==> id < expected
    ensures Score(stored, expected, LINES) <= expected
    ensures Score(stored, expected, LINES) == expected <==> Complete(stored, expected)
  {
    forall n {:trigger LineOk(stored, expected, n)} | 0 <= n < LINES
      ensures LineOk(stored, expected, n)
    {
      LineScoreBound(stored, expected, n);
    }
    ScoreBound(stored, expected, LINES);
    DoneLinesComplete(stored, expected);
  }

  /** A new block changes the score of its own line only. */
  lemma {:induction false} ScoreAfter(stored: set<nat>, expected: nat, lines: nat, id: nat)
    requires id !in stored
    ensures Score(stored + {id}, expected, lines) == Score(stored, expected, lines)
      + (if id / 4 < lines then LineScore(stored + {id}, expected, id / 4) - LineScore(stored, expected, id / 4) else 0)
  {
    if lines > 0 {
      ScoreAfter(stored, expected, lines - 1, id);
      if lines - 1 != id / 4 {
        OtherLines(stored, id, lines - 1);
      }
    }
  }

  // ---------- blocks that are not expected ----------

  /** The last block of a partial line and the one behind it are not both stored: they would share the padded
      word. */
  predicate Apart(stored: set<nat>, expected: nat) {
    expected % 4 != 0 ==> !(expected - 1 in stored && expected in stored)
  }

  /** With 806 blocks or more, what is not expected cannot count. */
  lemma LastBlocksOk(stored: set<nat>, expected: nat, n: nat)
    requires 806 <= expected <= BLOCK_MAX && Consistent(stored, BLOCK_MAX) && Apart(stored, expected) && n < LINES
    ensures LineOk(stored, expected, n)
  {
    hide Consistent;
    if n < LINES - 1 {
      assert 4 * n + 4 <= expected;
    } else {
      assert 4 * n == 804;
    }
  }

  /** A line without expected blocks, or a partial one, that no line before it shares its slot with. */
  function Foreign(expected: nat): nat
    requires 0 < expected
  {
    if (expected - 1) / 4 % SLOTS == 9 && (expected - 1) / 4 < 201 then 200 else 201
  }

  ghost function Below(n: nat): (s: set<nat>)
    ensures forall id: nat :: id in s <==> id < n
  {
    if n == 0 then {} else Below(n - 1) + {n - 1}
  }

  /** All expected blocks but the last, and two or three others that make up for it. */
  ghost function Fooling(expected: nat): set<nat>
    requires 0 < expected
  {
    var f := 4 * Foreign(expected);
    Below(expected - 1) + {f + 2, f + 3} + if expected % 4 == 1 then {} else {f + 1}
  }

  /** What they score, line by line. */
  lemma FoolingLine(expected: nat, n: nat)
    requires 0 < expected < 806
    ensures var last, f := (expected - 1) / 4, Foreign(expected);
      LineScore(Fooling(expected), expected, n) == (if n < last then 4 else 0)
        + (if n == last && expected - 4 * last > 2 then expected - 4 * last - 2 else 0)
        + (if n != f then 0 else if expected % 4 == 1 then 1 else 2)
  {
    var s := Fooling(expected);
    var f := Foreign(expected);
    assert (expected - 1) / 4 <= f;
    forall id: nat
      ensures id in s <==> id < expected - 1 || id == 4 * f + 2 || id == 4 * f + 3 || (expected % 4 != 1 && id == 4 * f + 1)
    {
    }
  }

  lemma FoolingFits(expected: nat)
    requires 0 < expected < 806
    ensures Consistent(Fooling(expected), BLOCK_MAX) && Apart(Fooling(expected), expected) && !Complete(Fooling(expected), expected)
  {
    var s := Fooling(expected);
    var last, f := (expected - 1) / 4, Foreign(expected);
    assert last <= f && expected - 1 !in s;
    forall n: nat | Occupies(s, n)
      ensures n == last || n == f
    {
      if n < last {
        assert LineFull(s, n);
      }
    }
  }

  lemma {:induction false} FoolingScore(expected: nat, lines: nat)
    requires 0 < expected < 806
    ensures var last, f := (expected - 1) / 4, Foreign(expected);
      Score(Fooling(expected), expected, lines) == (if lines <= last then 4 * lines else 4 * last)
        + (if lines > last && expected - 4 * last > 2 then expected - 4 * last - 2 else 0)
        + (if lines <= f then 0 else if expected % 4 == 1 then 1 else 2)
  {
    hide Fooling, LineScore, Foreign;
    if lines > 0 {
      FoolingScore(expected, lines - 1);
      FoolingLine(expected, lines - 1);
    }
  }

  /** For fewer than 806 expected blocks, but for none: a set that can be stored, is not complete and passes for
      complete. */
  lemma Fools(expected: nat)
    requires 0 < expected < 806
    ensures var s := Fooling(expected);
      Consistent(s, BLOCK_MAX) && Apart(s, expected) && !Complete(s, expected) && Score(s, expected, LINES) == expected
  {
    hide Fooling, Score, Consistent, Apart, Complete;
    FoolingFits(expected);
    FoolingScore(expected, LINES);
  }

  lemma {:induction false} PairScore(lines: nat)
    ensures Score({806, 807}, 0, lines) == if lines > 201 then 1 else 0
  {
    var s := {806, 807};
    if lines > 0 {
      PairScore(lines - 1);
      assert LineScore(s, 0, lines - 1) == if lines == LINES then 1 else 0;
    }
  }

  /** The counter tells completion for every set of blocks that can have been stored, if and only if at least
      806 blocks are expected; and that it never does so too early holds besides when none is. */
  lemma CountsRight(expected: nat)
    requires expected <= BLOCK_MAX
    ensures (forall s: set<nat> :: Consistent(s, BLOCK_MAX) && Apart(s, expected) ==>
        (Score(s, expected, LINES) == expected <==> Complete(s, expected))) <==> expected >= 806
    ensures (forall s: set<nat> :: Consistent(s, BLOCK_MAX) && Apart(s, expected) ==>
        (Score(s, expected, LINES) == expected ==> Complete(s, expected))) <==> expected == 0 || expected >= 806
  {
    hide Consistent, Apart, Score;
    if expected >= 806 {
      forall s: set<nat> | Consistent(s, BLOCK_MAX) && Apart(s, expected)
        ensures Score(s, expected, LINES) == expected <==> Complete(s, expected)
      {
        LastBlocksCount(s, expected);
      }
    } else if expected > 0 {
      var s := Fooling(expected);
      Fools(expected);
    } else {
      PairOnly();
      assert Complete({806, 807}, 0);
    }
  }

  lemma PairOnly()
    ensures Consistent({806, 807}, BLOCK_MAX) && Apart({806, 807}, 0) && Score({806, 807}, 0, LINES) == 1
  {
    hide Score;
    PairScore(LINES);
  }

  lemma LastBlocksCount(stored: set<nat>, expected: nat)
    requires 806 <= expected <= BLOCK_MAX && Consistent(stored, BLOCK_MAX) && Apart(stored, expected)
    ensures Score(stored, expected, LINES) == expected <==> Complete(stored, expected)
  {
    forall n {:trigger LineOk(stored, expected, n)} | 0 <= n < LINES
      ensures LineOk(stored, expected, n)
    {
      LastBlocksOk(stored, expected, n);
    }
    ScoreBound(stored, expected, LINES);
    DoneLinesComplete(stored, expected);
  }
}
