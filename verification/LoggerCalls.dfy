/** What becomes of the texts that the logger is called with: each call's text comes out once, those of one producer
    in the order of its calls. */
module LoggerCalls {
  import opened Logger

  /** The text that a producer has been called with and has not sent yet. */
  function InStage<M>(st: Stage<M>): seq<M> {
    if st.Idle? then [] else [st.msg]
  }

  ghost function StageTexts<M>(producers: seq<Stage<M>>): multiset<M> {
    if producers == [] then multiset{} else StageTexts(producers[..|producers| - 1]) + multiset(InStage(producers[|producers| - 1]))
  }

  /** The texts among t that producer p has sent. */
  function By<M>(t: seq<M>, senders: seq<nat>, p: nat): seq<M>
    requires |t| == |senders|
  {
    if t == [] then [] else
      var n := |t| - 1;
      By(t[..n], senders[..n], p) + if senders[n] == p then [t[n]] else []
  }

  /** The texts of the calls of a run, those of producer p, and all of them. */
  function CallsOf<M>(run: seq<Action<M>>, p: nat): seq<M> {
    if run == [] then [] else (if run[0].Call? && run[0].p == p then [run[0].msg] else []) + CallsOf(run[1..], p)
  }

  ghost function AllCalls<M>(run: seq<Action<M>>): multiset<M> {
    if run == [] then multiset{} else (if run[0].Call? then multiset{run[0].msg} else multiset{}) + AllCalls(run[1..])
  }

  /** What producer p has been heard to say: what it has posted, and what it is about to post. */
  function Voice<M>(s: State<M>, p: nat): seq<M>
    requires |s.posted| == |s.senders| && p < |s.producers|
  {
    By(s.posted, s.senders, p) + InStage(s.producers[p])
  }

  lemma ByMore<M>(t: seq<M>, senders: seq<nat>, msg: M, q: nat, p: nat)
    requires |t| == |senders|
    ensures By(t + [msg], senders + [q], p) == By(t, senders, p) + if q == p then [msg] else []
  {
    assert (t + [msg])[..|t|] == t && (senders + [q])[..|t|] == senders;
  }

  /** What a producer's own step makes of what it says. */
  lemma AdvancedSays<M>(s: State<M>, p: nat)
    requires Sizes(s) && p < |s.producers| && CanAdvance(s, p) && !s.producers[p].Failed?
    requires s.producers[p].Owning? ==> s.producers[p].id < ITEMS
    ensures var t, st := Advanced(s, p), s.producers[p];
      && |t.producers| == |s.producers| && t.producers == s.producers[p := t.producers[p]]
      && InStage(t.producers[p]) == (if st.Filled? then [] else InStage(st))
      && t.posted == (if st.Filled? then s.posted + [st.msg] else s.posted)
      && t.senders == if st.Filled? then s.senders + [p] else s.senders
  {
  }

  lemma SteppedSays<M>(s: State<M>)
    requires Sizes(s) && CanStep(s)
    ensures Stepped(s).producers == s.producers && Stepped(s).posted == s.posted && Stepped(s).senders == s.senders
  {
  }

  /** A call is added to what its producer says; no other step changes what anybody says. */
  lemma StepSays<M>(s: State<M>, a: Action<M>, p: nat)
    requires Sizes(s) && Enabled(s, a) && |s.posted| == |s.senders| && p < |s.producers| && NoneLost(s)
    ensures var t := Next(s, a);
      && |t.posted| == |t.senders| && |t.producers| == |s.producers|
      && Voice(t, p) == Voice(s, p) + if a.Call? && a.p == p then [a.msg] else []
  {
    hide Advanced, Stepped, By, CanAdvance, CanStep;
    match a
    case Call(q, msg) =>
      assert Voice(s, p) == By(s.posted, s.senders, p) + InStage(s.producers[p]);
      assert p == q ==> By(s.posted, s.senders, p) + [] + [msg] == By(s.posted, s.senders, p) + [msg];
    case Advance(q) =>
      AdvancedSays(s, q);
      var st := s.producers[q];
      if st.Filled? {
        ByMore(s.posted, s.senders, st.msg, q, p);
        assert By(s.posted, s.senders, p) + [st.msg] + [] == By(s.posted, s.senders, p) + [st.msg];
      }
    case TaskStep =>
      SteppedSays(s);
  }

  /** No search fails, and every buffer owned is one of the pool. */
  ghost predicate NoneLost<M>(s: State<M>) {
    forall q :: 0 <= q < |s.producers| ==> !s.producers[q].Failed? && (s.producers[q].Owning? ==> s.producers[q].id < ITEMS)
  }

  lemma {:induction false} StageTextsAfter<M>(producers: seq<Stage<M>>, p: nat, st: Stage<M>)
    requires p < |producers|
    ensures StageTexts(producers[p := st]) + multiset(InStage(producers[p])) == StageTexts(producers) + multiset(InStage(st))
    decreases |producers|
  {
    hide InStage;
    var n, after := |producers| - 1, producers[p := st];
    var a, b, c := StageTexts(producers[..n]), multiset(InStage(producers[p])), multiset(InStage(st));
    if p < n {
      StageTextsAfter(producers[..n], p, st);
      assert after[..n] == producers[..n][p := st] && after[n] == producers[n];
      var d := multiset(InStage(producers[n]));
      assert StageTexts(after) == StageTexts(after[..n]) + d;
      assert (StageTexts(after[..n]) + d) + b == (StageTexts(after[..n]) + b) + d;
      assert (a + c) + d == (a + d) + c;
    } else {
      assert after[..n] == producers[..n] && after[n] == st;
      assert StageTexts(after) == a + c;
      assert (a + c) + b == (a + b) + c;
    }
  }

  lemma Cancel<T>(a: multiset<T>, b: multiset<T>, c: multiset<T>)
    requires a + c == b + c
    ensures a == b
  {
    forall x: T
      ensures a[x] == b[x]
    {
      assert (a + c)[x] == (b + c)[x];
    }
  }

  /** The same of all producers together. */
  lemma StepSaysAll<M>(s: State<M>, a: Action<M>)
    requires Sizes(s) && Enabled(s, a) && NoneLost(s) && |s.posted| == |s.senders|
    ensures var t := Next(s, a);
      |t.posted| == |t.senders| && multiset(t.posted) + StageTexts(t.producers)
        == multiset(s.posted) + StageTexts(s.producers) + if a.Call? then multiset{a.msg} else multiset{}
  {
    hide Advanced, Stepped, CanAdvance, CanStep, StageTexts;
    match a
    case Call(q, msg) =>
      StageTextsAfter(s.producers, q, Wants(msg));
      assert multiset([msg]) == multiset{msg};
      assert InStage(s.producers[q]) == [] && StageTexts(Next(s, a).producers) == StageTexts(s.producers) + multiset{msg};
    case Advance(q) =>
      AdvancedSays(s, q);
      var st, t := s.producers[q], Advanced(s, q);
      StageTextsAfter(s.producers, q, t.producers[q]);
      if st.Filled? {
        assert InStage(st) == [st.msg] && multiset(s.posted + [st.msg]) == multiset(s.posted) + multiset([st.msg]);
        assert StageTexts(t.producers) + multiset([st.msg]) == StageTexts(s.producers);
        assert (multiset(s.posted) + multiset([st.msg])) + StageTexts(t.producers) == multiset(s.posted) + StageTexts(s.producers);
      } else {
        Cancel(StageTexts(t.producers), StageTexts(s.producers), multiset(InStage(st)));
      }
    case TaskStep =>
      SteppedSays(s);
  }

  lemma {:induction false} RunSays<M>(s: State<M>, run: seq<Action<M>>, o: seq<Owner>, p: nat)
    requires Inv(s, o) && Sizes(s) && Possible(s, run) && |s.posted| == |s.senders| && p < |s.producers|
    ensures var t := After(s, run);
      |t.posted| == |t.senders| && |t.producers| == |s.producers| && Voice(t, p) == Voice(s, p) + CallsOf(run, p)
    decreases |run|
  {
    hide Inv, Next, Enabled, Voice, Owners, NoneLost;
    if run == [] {
      assert Voice(s, p) + [] == Voice(s, p);
    } else {
      InvSizes(s, o);
      StepKeeps(s, run[0], o);
      StepFacts(s, o);
      StepSays(s, run[0], p);
      RunSays(Next(s, run[0]), run[1..], Owners(s, run[0], o), p);
      var first := if run[0].Call? && run[0].p == p then [run[0].msg] else [];
      assert Voice(s, p) + first + CallsOf(run[1..], p) == Voice(s, p) + (first + CallsOf(run[1..], p));
    }
  }

  lemma {:induction false} RunSaysAll<M>(s: State<M>, run: seq<Action<M>>, o: seq<Owner>)
    requires Inv(s, o) && Sizes(s) && Possible(s, run) && |s.posted| == |s.senders|
    ensures var t := After(s, run);
      |t.posted| == |t.senders| && multiset(t.posted) + StageTexts(t.producers) == multiset(s.posted) + StageTexts(s.producers) + AllCalls(run)
    decreases |run|
  {
    hide Inv, Next, Enabled, StageTexts, Owners, NoneLost;
    if run != [] {
      InvSizes(s, o);
      StepKeeps(s, run[0], o);
      StepFacts(s, o);
      StepSaysAll(s, run[0]);
      RunSaysAll(Next(s, run[0]), run[1..], Owners(s, run[0], o));
    }
  }

  lemma StepFacts<M>(s: State<M>, o: seq<Owner>)
    requires Inv(s, o)
    ensures NoneLost(s)
  {
  }

  lemma {:induction false} NothingStaged<M>(producers: seq<Stage<M>>)
    requires forall p: nat :: p < |producers| ==> producers[p] == Idle
    ensures StageTexts(producers) == multiset{}
    decreases |producers|
  {
    if producers != [] {
      NothingStaged(producers[..|producers| - 1]);
    }
  }

  /** Over every run: a producer's calls are, in order, what it has posted and then the text that it has in hand. */
  lemma CallsArePosted<M>(start: State<M>, run: seq<Action<M>>, p: nat)
    requires Initial(start) && Possible(start, run) && p < |start.producers|
    ensures var s := After(start, run);
      && |s.posted| == |s.senders| && |s.producers| == |start.producers|
      && By(s.posted, s.senders, p) + InStage(s.producers[p]) == CallsOf(run, p)
  {
    hide Inv, After, Possible, Initial, By, InStage;
    var o := InitialInv(start);
    InitialSays(start, p);
    RunSays(start, run, o, p);
  }

  /** When no step is possible any more but a new call, what is out are the texts of all calls, each as often as it was
      called with, and those of one producer in the order of its calls. */
  lemma EveryCallComesOut<M>(start: State<M>, run: seq<Action<M>>)
    requires Initial(start) && Possible(start, run) && Stuck(After(start, run))
    ensures var s := After(start, run);
      && multiset(s.out) == AllCalls(run) && |s.out| == |s.senders|
      && forall p: nat :: p < |start.producers| ==> By(s.out, s.senders, p) == CallsOf(run, p)
  {
    hide Inv, After, Possible, Stuck, Initial, By, CallsOf;
    var o := InitialInv(start);
    var s := After(start, run);
    InitialSaysAll(start);
    RunSaysAll(start, run, o);
    var r := RunKeeps(start, run, o);
    StuckIsQuiet(s, r);
    NothingStaged(s.producers);
    Cancel(multiset(s.posted), AllCalls(run), multiset{});
    forall p: nat | p < |start.producers|
      ensures |s.out| == |s.senders| && By(s.out, s.senders, p) == CallsOf(run, p)
    {
      CallsArePosted(start, run, p);
      assert s.producers[p] == Idle;
      assert By(s.posted, s.senders, p) + [] == By(s.posted, s.senders, p);
    }
  }

  lemma InitialSays<M>(s: State<M>, p: nat)
    requires Initial(s) && p < |s.producers|
    ensures Sizes(s) && s.posted == [] && s.senders == [] && Voice(s, p) == []
  {
  }

  lemma InitialSaysAll<M>(s: State<M>)
    requires Initial(s)
    ensures Sizes(s) && s.posted == [] && s.senders == [] && StageTexts(s.producers) == multiset{}
  {
    NothingStaged(s.producers);
  }
}
