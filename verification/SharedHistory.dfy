/**
 What becomes of the operations that are begun on the C++ sorted set that threads share, and which of
 them can make a query miss a value.
 */
module SharedHistory {
  import opened Values
  import opened FlatMap
  import opened ZsetSpec
  import opened SingleThreadZset
  import opened SharedZset
  import opened SharedOverlap

  /** The threads with this operation under way. */
  function UnderWay(s: State, op: ZOp): set<Thread> {
    set t | t in s.threads && OpOf(s.threads[t]) == op
  }

  lemma UnderWayIs(s: State, op: ZOp)
    ensures forall t :: t in UnderWay(s, op) <==> t in s.threads && OpOf(s.threads[t]) == op
  {
    hide OpOf;
  }

  lemma OneMore(a: set<Thread>, b: set<Thread>, t: Thread)
    requires t in a ==> t in b
    requires forall u :: u != t ==> (u in a <==> u in b)
    ensures |b| == |a| + if t in b && t !in a then 1 else 0
  {
    if t in b && t !in a { assert b == a + {t}; } else { assert b == a; }
  }

  lemma AdvanceConserves(s: State, t: Thread, op: ZOp)
    requires t in s.threads && Act(s, t).To?
    ensures var s' := Act(s, t).state;
            multiset(s'.log)[op] + |UnderWay(s', op)| == multiset(s.log)[op] + |UnderWay(s, op)|
  {
    AdvanceEnds(s, t);
    hide Act, OpOf, UnderWay;
    ThreadsAfter(s, t);
    ActKeepsOp(s, t);
    UnderWayIs(s, op);
    UnderWayIs(Act(s, t).state, op);
    OneMore(UnderWay(Act(s, t).state, op), UnderWay(s, op), t);
  }

  lemma AdvanceEnds(s: State, t: Thread)
    requires t in s.threads && Act(s, t).To?
    ensures var s' := Act(s, t).state;
            s'.log == if t in s'.threads then s.log else s.log + [OpOf(s.threads[t])]
  {
    hide Open, SetValues, Erase, EraseValue, Prune, ValuesAt;
  }

  lemma BeginConserves(s: State, t: Thread, begun: ZOp, op: ZOp)
    requires t !in s.threads
    ensures var s' := Step(s, Begin(t, begun)).state;
            && s'.log == s.log
            && |UnderWay(s', op)| == |UnderWay(s, op)| + if begun == op then 1 else 0
  {
    FirstIs(begun);
    hide OpOf, Act, UnderWay;
    var s' := Step(s, Begin(t, begun)).state;
    assert s'.threads == s.threads[t := First(begun)];
    UnderWayIs(s, op);
    UnderWayIs(s', op);
    OneMore(UnderWay(s, op), UnderWay(s', op), t);
  }

  /** Even with writers racing, every operation begun has ended once or is still under way. */
  lemma {:induction false} OperationsAreConserved(schedule: seq<Choice>, op: ZOp)
    ensures multiset(Run(START, schedule).log)[op] + |UnderWay(Run(START, schedule), op)| == Begun(schedule)[op]
    decreases |schedule|
  {
    if schedule != [] {
      hide Act, UnderWay;
      var init, last := schedule[..|schedule| - 1], schedule[|schedule| - 1];
      OperationsAreConserved(init, op);
      var s := Run(START, init);
      match last
      case Begin(t, begun) => if t !in s.threads { BeginConserves(s, t, begun, op); }
      case Advance(t) => if Step(s, last).To? { AdvanceConserves(s, t, op); }
    } else {
      assert UnderWay(START, op) == {};
    }
  }

  // Operations that can hide a value ---------------------------------------------------------------------

  /** A query over all scores would not show a value that the finished operations leave in the set. */
  ghost predicate Misses(s: State, v: Text) {
    && s.mutex == Free && v in Contents(s.log)
    && forall b <- Snapshot(s, 0, 0xFFFF_FFFF) :: v !in b.values
  }

  ghost predicate CanMiss(ops: multiset<ZOp>, v: Text, schedule: seq<Choice>) {
    Disciplined(schedule) && Begun(schedule) <= ops && Misses(Run(START, schedule), v)
  }

  ghost predicate PutTwice(ops: multiset<ZOp>, v: Text) {
    exists j: u32, k: u32 :: multiset{Put(v, j), Put(v, k)} <= ops
  }

  lemma {:induction false} ContentsWerePut(log: seq<ZOp>, v: Text) returns (op: ZOp)
    requires v in Contents(log)
    ensures op in log && op.Put? && op.value == v
    decreases |log|
  {
    var init, last := log[..|log| - 1], log[|log| - 1];
    if last.value == v {
      op := last;
    } else {
      op := ContentsWerePut(init, v);
    }
  }

  lemma MissedWasPutTwice(schedule: seq<Choice>, v: Text)
    requires Disciplined(schedule) && Misses(Run(START, schedule), v)
    ensures PutTwice(Begun(schedule), v)
  {
    hide Disciplined, Run, Begun, Contents, Act, Snapshot;
    var s := Run(START, schedule);
    MissedExactly(schedule, v);
    var t :| t in s.threads && s.threads[t].AddLockNew? && s.threads[t].value == v;
    var earlier := ContentsWerePut(s.log, v);
    var later := OpOf(s.threads[t]);
    assert later == Put(v, s.threads[t].score) && t in UnderWay(s, later);
    OperationsAreConserved(schedule, earlier);
    OperationsAreConserved(schedule, later);
    assert earlier in multiset(s.log);
    assert |UnderWay(s, later)| >= 1;
    assert multiset{earlier, later} <= Begun(schedule);
    assert multiset{Put(v, earlier.score), Put(v, later.score)} <= Begun(schedule);
  }

  /**
   Of a collection of operations, those that can hide a value from a query, though writers of one value
   never overlap: some schedule of them has such a query if and only if the value is put twice.
   */
  lemma MissableExactly(ops: multiset<ZOp>, v: Text)
    ensures (exists schedule :: CanMiss(ops, v, schedule)) <==> PutTwice(ops, v)
  {
    hide Disciplined, Run, Begun, Contents;
    if j: u32, k: u32 :| multiset{Put(v, j), Put(v, k)} <= ops {
      var schedule := MoveCanBeMissed(v, j, k);
      assert Snapshot(Run(START, schedule), 0, 0xFFFF_FFFF) == [];
      assert CanMiss(ops, v, schedule);
    } else {
      forall schedule ensures !CanMiss(ops, v, schedule) {
        if CanMiss(ops, v, schedule) { MissedIsPutTwice(ops, v, schedule); }
      }
    }
  }

  lemma MissedIsPutTwice(ops: multiset<ZOp>, v: Text, schedule: seq<Choice>)
    requires CanMiss(ops, v, schedule)
    ensures PutTwice(ops, v)
  {
    hide Disciplined, Run, Begun, Misses;
    MissedWasPutTwice(schedule, v);
    var j: u32, k: u32 :| multiset{Put(v, j), Put(v, k)} <= Begun(schedule);
    assert multiset{Put(v, j), Put(v, k)} <= ops;
  }
}
