/**
 Writers of one value that overlap, in the Rust sorted set. Overlapping requests for the same operation
 do no harm; any two different operations on one value can leave the index and the buckets at odds.
 */
module ConcurrentOverlap {
  import opened Values
  import opened ZsetSpec
  import opened RustZset
  import opened ConcurrentZset

  predicate Compatible(a: ZOp, b: ZOp) {
    a.value == b.value ==> a == b
  }

  /** Every operation is compatible with those under way when it begins. */
  ghost predicate Tolerant(schedule: seq<Choice>) {
    schedule == [] ||
    var init, last := schedule[..|schedule| - 1], schedule[|schedule| - 1];
    Tolerant(init) && (Begins(Run(START, init), last) ==> Welcome(Run(START, init), last.op))
  }

  ghost predicate Welcome(s: State, op: ZOp) {
    forall t <- s.threads :: Compatible(OpOf(s.threads[t]), op)
  }

  // One value -----------------------------------------------------------------------------------------

  /** What there is of a value: its score in the index, that of the effects so far, the buckets it is in. */
  datatype Trace = Trace(index: Option<u32>, effect: Option<u32>, places: set<u32>)

  function Places(m: Buckets, v: Text): set<u32> {
    set k | k in m && v in m[k]
  }

  function TraceOf(s: State, v: Text): Trace {
    Trace(Lookup(s.index, v), Lookup(Contents(s.done), v), Places(s.buckets, v))
  }

  /** Where the writers of a value are. */
  function Pcs(s: State, v: Text): set<Pc> {
    set t | t in s.threads && s.threads[t].value == v :: s.threads[t]
  }

  predicate Consistent(x: Trace) {
    x.effect == x.index && x.places == if x.index.Some? then {x.index.value} else {}
  }

  /** What a value can look like while all its writers, at `pcs`, are at the operation `op`. */
  ghost predicate Slot(op: ZOp, x: Trace, pcs: set<Pc>) {
    match op
    case Put(v, k) =>
      || (x == Trace(None, None, {}) && forall pc <- pcs :: pc.AddFind? || pc.AddIndexNew?)
      || (&& x.index == Some(k) && x.places == {} && (x.effect == None || x.effect == Some(k)) && AddInsert(v, k) in pcs
          && forall pc <- pcs :: pc.AddFind? || pc.AddIndexNew? || pc.AddInsert?)
      || x == Trace(Some(k), Some(k), {k})
      || (&& Consistent(x) && x.index.Some? && x.index.value != k
          && forall pc <- pcs :: pc.AddFind? || pc == AddMove(v, k, x.index.value))
      || (&& x.index.Some? && x.index.value != k && x.effect == Some(k) && x.places == {k} && AddReindex(v, k) in pcs
          && forall pc <- pcs :: pc.AddFind? || pc.AddMove? || pc.AddReindex?)
    case Drop(v) =>
      || (Consistent(x) && x.index.Some? && forall pc <- pcs :: pc.RmvTake?)
      || x == Trace(None, None, {})
      || (&& x.index == None && exists pc <- pcs ::
          pc.RmvErase? && x.places == {pc.from} && (x.effect == None || x.effect == Some(pc.from)))
  }

  /** What one step of a writer does to the trace of its value, and where it leaves the writer. */
  function LocalStep(pc: Pc, x: Trace): (Trace, Option<Pc>) {
    match pc
    case AddFind(v, k) =>
      if x.index.None? then (x, Some(AddIndexNew(v, k)))
      else if x.index.value != k then (x, Some(AddMove(v, k, x.index.value)))
      else (x.(effect := Some(k)), None)
    case AddMove(v, k, from) => (x.(effect := Some(k), places := x.places - {from} + {k}), Some(AddReindex(v, k)))
    case AddReindex(v, k) => (x.(index := Some(k)), None)
    case AddIndexNew(v, k) => (x.(index := Some(k)), Some(AddInsert(v, k)))
    case AddInsert(v, k) => (x.(effect := Some(k), places := x.places + {k}), None)
    case RmvTake(v) =>
      if x.index.Some? then (x.(index := None), Some(RmvErase(v, x.index.value))) else (x.(effect := None), None)
    case RmvErase(v, from) => (x.(effect := None, places := x.places - {from}), None)
  }

  lemma SlotStep(op: ZOp, x: Trace, pcs: set<Pc>, pc: Pc, pcs': set<Pc>)
    requires pc in pcs && Slot(op, x, pcs) && OpOf(pc) == op
    requires var next := LocalStep(pc, x).1;
             && (next.Some? ==> next.value in pcs')
             && (forall p <- pcs' :: p in pcs || next == Some(p))
             && (forall p <- pcs :: p in pcs' || p == pc)
    ensures Slot(op, LocalStep(pc, x).0, pcs')
    ensures LocalStep(pc, x).1.Some? ==> OpOf(LocalStep(pc, x).1.value) == op
  {}

  /** A value without writers is consistent, and ready for any operation. */
  lemma SlotIdle(op: ZOp, x: Trace)
    ensures Slot(op, x, {}) <==> Consistent(x)
    ensures Consistent(x) ==> Slot(op, x, {First(op)})
  {}

  lemma SlotJoin(op: ZOp, x: Trace, pcs: set<Pc>)
    requires Slot(op, x, pcs)
    ensures Slot(op, x, pcs + {First(op)})
  {}

  // All values ------------------------------------------------------------------------------------------

  lemma PlacesAfter(m: Buckets, k: u32, v: Text, w: Text)
    ensures Places(InsertAt(m, k, v), w) == if w == v then Places(m, v) + {k} else Places(m, w)
    ensures Places(RemoveAt(m, k, v), w) == if w == v then Places(m, v) - {k} else Places(m, w)
  {
    var r := InsertAt(m, k, v);
    forall j ensures j in Places(r, w) <==> j in Places(m, w) || (w == v && j == k) {}
  }

  lemma ActTrace(s: State, t: Thread, w: Text)
    requires t in s.threads
    ensures var pc := s.threads[t];
            TraceOf(Act(s, t), w) ==
            if w == pc.value then LocalStep(pc, TraceOf(s, w)).0 else TraceOf(s, w)
  {
    hide Contents, Places, InsertAt, RemoveAt;
    var pc := s.threads[t];
    ContentsAppend(s.done, OpOf(pc));
    match pc
    case AddMove(v, k, from) => PlacesAfter(s.buckets, from, v, w); PlacesAfter(RemoveAt(s.buckets, from, v), k, v, w);
    case AddInsert(v, k) => PlacesAfter(s.buckets, k, v, w);
    case RmvErase(v, from) => PlacesAfter(s.buckets, from, v, w);
    case _ =>
  }

  lemma ActPc(s: State, t: Thread)
    requires t in s.threads
    ensures var next := LocalStep(s.threads[t], TraceOf(s, s.threads[t].value)).1;
            if t in Act(s, t).threads then next == Some(Act(s, t).threads[t]) else next == None
  {
    hide Contents, Places, InsertAt, RemoveAt;
  }

  lemma PcsAre(s: State, v: Text)
    ensures forall t <- s.threads :: s.threads[t].value == v ==> s.threads[t] in Pcs(s, v)
    ensures forall pc <- Pcs(s, v) :: pc.value == v && exists t <- s.threads :: s.threads[t] == pc
  {}

  lemma ActPcs(s: State, t: Thread, w: Text)
    requires t in s.threads
    ensures var pc, pcs, pcs' := s.threads[t], Pcs(s, w), Pcs(Act(s, t), w);
            if w != pc.value then pcs' == pcs
            else
              var next := LocalStep(pc, TraceOf(s, w)).1;
              && pc in pcs
              && (next.Some? ==> next.value in pcs')
              && (forall p <- pcs' :: p in pcs || next == Some(p))
              && (forall p <- pcs :: p in pcs' || p == pc)
  {
    hide Act, LocalStep, TraceOf, Pcs;
    var s' := Act(s, t);
    ThreadsAfter(s, t);
    ActPc(s, t);
    PcsAre(s, w);
    PcsAre(s', w);
    forall p | p in Pcs(s', w) ensures p in Pcs(s, w) || (t in s'.threads && p == s'.threads[t] && w == s.threads[t].value) {
      var u :| u in s'.threads && s'.threads[u] == p;
      if u != t { assert s.threads[u] == p; }
    }
    forall p | p in Pcs(s, w) ensures p in Pcs(s', w) || (p == s.threads[t] && w == s.threads[t].value) {
      var u :| u in s.threads && s.threads[u] == p;
      if u != t { assert s'.threads[u] == p; }
    }
  }

  ghost predicate Busy(s: State, op: ZOp) {
    && (forall pc <- Pcs(s, op.value) :: OpOf(pc) == op)
    && Slot(op, TraceOf(s, op.value), Pcs(s, op.value))
  }

  ghost predicate ValueInv(s: State, v: Text) {
    exists op: ZOp :: op.value == v && Busy(s, op)
  }

  lemma AdvanceKeepsValue(s: State, t: Thread, v: Text)
    requires t in s.threads && ValueInv(s, v)
    ensures ValueInv(Act(s, t), v)
  {
    hide Act, Slot, Pcs, TraceOf, LocalStep, OpOf;
    var op: ZOp :| op.value == v && Busy(s, op);
    ActPcs(s, t, v);
    ActTrace(s, t, v);
    if v == s.threads[t].value {
      SlotStep(op, TraceOf(s, v), Pcs(s, v), s.threads[t], Pcs(Act(s, t), v));
    }
    assert Busy(Act(s, t), op);
  }

  lemma BeginKeepsValue(s: State, t: Thread, begun: ZOp, v: Text)
    requires t !in s.threads && Welcome(s, begun) && ValueInv(s, v)
    ensures ValueInv(Step(s, Begin(t, begun)), v)
  {
    hide Slot, OpOf, First, Act;
    var s' := Step(s, Begin(t, begun));
    var op: ZOp :| op.value == v && Busy(s, op);
    FirstIs(begun);
    assert TraceOf(s', v) == TraceOf(s, v);
    PcsWith(s, t, First(begun), v);
    if begun.value == v {
      if Pcs(s, v) == {} {
        SlotIdle(op, TraceOf(s, v));
        SlotIdle(begun, TraceOf(s, v));
        assert {} + {First(begun)} == {First(begun)};
      } else {
        var pc :| pc in Pcs(s, v);
        FirstIs(op);
        SlotJoin(op, TraceOf(s, v), Pcs(s, v));
      }
      assert Busy(s', begun);
    } else {
      assert Pcs(s', v) == Pcs(s, v);
      assert Busy(s', op);
    }
  }

  lemma FirstIs(op: ZOp)
    ensures OpOf(First(op)) == op && First(op).value == op.value
  {}

  lemma PcsWith(s: State, t: Thread, pc: Pc, v: Text)
    requires t !in s.threads
    ensures Pcs(At(s, t, pc), v) == Pcs(s, v) + if pc.value == v then {pc} else {}
  {
    var s' := At(s, t, pc);
    forall p ensures p in Pcs(s', v) <==> p in Pcs(s, v) || (pc.value == v && p == pc) {
      if p in Pcs(s, v) {
        var u :| u in s.threads && s.threads[u] == p;
        assert s'.threads[u] == p;
      }
      if p == pc { assert s'.threads[t] == p; }
    }
  }

  lemma {:induction false} TolerantKeepsValues(schedule: seq<Choice>, v: Text)
    requires Tolerant(schedule)
    ensures ValueInv(Run(START, schedule), v)
    decreases |schedule|
  {
    if schedule == [] {
      SlotIdle(Drop(v), TraceOf(START, v));
      assert Pcs(START, v) == {};
      assert Busy(START, Drop(v));
    } else {
      hide ValueInv, Act, Welcome;
      var init, last := schedule[..|schedule| - 1], schedule[|schedule| - 1];
      var s := Run(START, init);
      TolerantKeepsValues(init, v);
      match last
      case Begin(t, op) => if t !in s.threads { BeginKeepsValue(s, t, op, v); }
      case Advance(t) => if t in s.threads { AdvanceKeepsValue(s, t, v); }
    }
  }

  /** Index and buckets are inverse to each other. */
  ghost predicate Inverse(s: State) {
    forall v, k: u32 :: Has(s.index, v, k) <==> v in BucketAt(s.buckets, k)
  }

  /**
   If overlapping operations on one value are the same operation, then with no operation under way the
   index and the buckets are inverse to each other, and both are what the effects leave.
   */
  lemma QuiescentMeansInverse(schedule: seq<Choice>)
    requires Tolerant(schedule) && Run(START, schedule).threads == map[]
    ensures var s := Run(START, schedule);
            Inverse(s) && s.index == Contents(s.done) && Represents(s.buckets, Contents(s.done))
  {
    hide Tolerant, Slot;
    var s := Run(START, schedule);
    forall v
      ensures Lookup(s.index, v) == Lookup(Contents(s.done), v)
      ensures forall k: u32 :: v in BucketAt(s.buckets, k) <==> Lookup(s.index, v) == Some(k)
    {
      TolerantKeepsValues(schedule, v);
      var op: ZOp :| op.value == v && Busy(s, op);
      assert Pcs(s, v) == {};
      SlotIdle(op, TraceOf(s, v));
      PlacesOf(s.buckets, v);
    }
    SameScores(s.index, Contents(s.done));
    forall v, k: u32
      ensures Has(s.index, v, k) <==> v in BucketAt(s.buckets, k)
    {
      assert Has(s.index, v, k) <==> Lookup(s.index, v) == Some(k);
    }
    forall v ensures Shows(s.buckets, Contents(s.done), v) {
      assert Lookup(s.index, v) == Lookup(Contents(s.done), v);
    }
  }

  lemma PlacesOf(m: Buckets, v: Text)
    ensures forall k: u32 :: k in Places(m, v) <==> v in BucketAt(m, k)
  {}

  // Exactly the compatible operations ---------------------------------------------------------------------

  ghost predicate OnlyBegins(schedule: seq<Choice>, ops: set<ZOp>) {
    forall op <- Begun(schedule) :: op in ops
  }

  lemma {:induction false} UnderWayWereBegun(schedule: seq<Choice>, t: Thread)
    requires t in Run(START, schedule).threads
    ensures OpOf(Run(START, schedule).threads[t]) in Begun(schedule)
    decreases |schedule|
  {
    if schedule != [] {
      hide Act, OpOf, First;
      var init, last := schedule[..|schedule| - 1], schedule[|schedule| - 1];
      var s := Run(START, init);
      if Begins(s, last) { FirstIs(last.op); }
      if last.Advance? && last.thread in s.threads {
        ThreadsAfter(s, last.thread);
        ActKeepsOp(s, last.thread);
      }
      if t in s.threads { UnderWayWereBegun(init, t); }
    }
  }

  lemma ActKeepsOp(s: State, t: Thread)
    requires t in s.threads
    ensures t in Act(s, t).threads ==> OpOf(Act(s, t).threads[t]) == OpOf(s.threads[t])
  {}

  lemma {:induction false} CompatibleIsTolerant(schedule: seq<Choice>, ops: set<ZOp>)
    requires OnlyBegins(schedule, ops)
    requires forall a, b :: a in ops && b in ops ==> Compatible(a, b)
    ensures Tolerant(schedule)
    decreases |schedule|
  {
    if schedule != [] {
      hide Run, OpOf, Compatible;
      var init, last := schedule[..|schedule| - 1], schedule[|schedule| - 1];
      assert forall op <- Begun(init) :: op in Begun(schedule);
      CompatibleIsTolerant(init, ops);
      var s := Run(START, init);
      if Begins(s, last) {
        assert last.op in Begun(schedule);
        forall t | t in s.threads ensures Compatible(OpOf(s.threads[t]), last.op) { UnderWayWereBegun(init, t); }
      }
    }
  }

  lemma Then(schedule: seq<Choice>, c: Choice) returns (longer: seq<Choice>)
    ensures Run(START, longer) == Step(Run(START, schedule), c)
    ensures Begun(longer) == Begun(schedule) + if Begins(Run(START, schedule), c) then multiset{c.op} else multiset{}
  {
    longer := schedule + [c];
    assert longer[..|longer| - 1] == schedule;
  }

  lemma Nothing()
    ensures Run(START, []) == START && Begun([]) == multiset{}
  {}

  /** Two overlapping additions of a new value both finish and leave it in both buckets, the index naming one. */
  lemma RacingAddsLeaveTwo(v: Text, j: u32, k: u32) returns (schedule: seq<Choice>)
    requires j != k
    ensures Begun(schedule) == multiset{Put(v, j), Put(v, k)}
    ensures Run(START, schedule) == State(map[v := k], map[j := {v}, k := {v}], map[], [Put(v, j), Put(v, k)])
  {
    hide Run, Begun;
    Nothing();
    schedule := Then([], Begin(0, Put(v, j)));
    schedule := Then(schedule, Begin(1, Put(v, k)));
    assert Begun(schedule) == multiset{Put(v, j), Put(v, k)};
    schedule := Then(schedule, Advance(0));
    schedule := Then(schedule, Advance(1));
    assert Run(START, schedule) == State(map[], map[], map[0 := AddIndexNew(v, j), 1 := AddIndexNew(v, k)], []);
    schedule := RacingAddsEnd(v, j, k, schedule);
  }

  lemma RacingAddsEnd(v: Text, j: u32, k: u32, schedule: seq<Choice>) returns (longer: seq<Choice>)
    requires j != k
    requires Run(START, schedule) == State(map[], map[], map[0 := AddIndexNew(v, j), 1 := AddIndexNew(v, k)], [])
    ensures Begun(longer) == Begun(schedule)
    ensures Run(START, longer) == State(map[v := k], map[j := {v}, k := {v}], map[], [Put(v, j), Put(v, k)])
  {
    hide Run, Begun;
    longer := Then(schedule, Advance(0));
    longer := Then(longer, Advance(1));
    assert Run(START, longer) == State(map[v := k], map[], map[0 := AddInsert(v, j), 1 := AddInsert(v, k)], []);
    longer := Then(longer, Advance(0));
    assert {} + {v} == {v};
    assert Run(START, longer) == State(map[v := k], map[j := {v}], map[1 := AddInsert(v, k)], [Put(v, j)]);
    longer := Then(longer, Advance(1));
  }

  /** A removal between the two steps of an addition leaves the value in its bucket and out of the index. */
  lemma RacingRemovalLeavesOrphan(v: Text, k: u32) returns (schedule: seq<Choice>)
    ensures Begun(schedule) == multiset{Put(v, k), Drop(v)}
    ensures Run(START, schedule) == State(map[], map[k := {v}], map[], [Drop(v), Put(v, k)])
  {
    hide Run, Begun;
    Nothing();
    schedule := Then([], Begin(0, Put(v, k)));
    schedule := Then(schedule, Begin(1, Drop(v)));
    assert Begun(schedule) == multiset{Put(v, k), Drop(v)};
    schedule := Then(schedule, Advance(0));
    schedule := Then(schedule, Advance(0));
    assert Run(START, schedule) == State(map[v := k], map[], map[0 := AddInsert(v, k), 1 := RmvTake(v)], []);
    schedule := RacingRemovalEnds(v, k, schedule);
  }

  lemma RacingRemovalEnds(v: Text, k: u32, schedule: seq<Choice>) returns (longer: seq<Choice>)
    requires Run(START, schedule) == State(map[v := k], map[], map[0 := AddInsert(v, k), 1 := RmvTake(v)], [])
    ensures Begun(longer) == Begun(schedule)
    ensures Run(START, longer) == State(map[], map[k := {v}], map[], [Drop(v), Put(v, k)])
  {
    hide Run, Begun;
    longer := Then(schedule, Advance(1));
    assert Run(START, longer) == State(map[], map[], map[0 := AddInsert(v, k), 1 := RmvErase(v, k)], []);
    longer := Then(longer, Advance(1));
    assert Run(START, longer) == State(map[], map[], map[0 := AddInsert(v, k)], [Drop(v)]);
    assert {} + {v} == {v};
    longer := Then(longer, Advance(0));
  }

  /** Any two different operations on one value can leave the index and the buckets at odds. */
  lemma IncompatiblePairFails(a: ZOp, b: ZOp) returns (schedule: seq<Choice>)
    requires !Compatible(a, b)
    ensures Begun(schedule) == multiset{a, b}
    ensures Run(START, schedule).threads == map[] && !Inverse(Run(START, schedule))
  {
    hide Run, Begun;
    var v := a.value;
    if a.Put? && b.Put? {
      schedule := RacingAddsLeaveTwo(v, a.score, b.score);
      OutOfPlace(Run(START, schedule), v, a.score);
    } else {
      var k := if a.Put? then a.score else b.score;
      schedule := RacingRemovalLeavesOrphan(v, k);
      assert multiset{a, b} == multiset{Put(v, k), Drop(v)};
      OutOfPlace(Run(START, schedule), v, k);
    }
  }

  lemma OutOfPlace(s: State, v: Text, k: u32)
    requires v in BucketAt(s.buckets, k) && !Has(s.index, v, k)
    ensures !Inverse(s)
  {}

  /**
   The exact condition. Whatever is scheduled of a set of operations ends with index and buckets inverse
   to each other if, and only if, the set has no two different operations on one value.
   */
  lemma SafeExactly(ops: set<ZOp>)
    ensures (forall schedule :: OnlyBegins(schedule, ops) && Run(START, schedule).threads == map[] ==> Inverse(Run(START, schedule)))
            <==> forall a, b :: a in ops && b in ops ==> Compatible(a, b)
  {
    hide Compatible, Inverse, Run, Begun;
    if a, b :| a in ops && b in ops && !Compatible(a, b) {
      var schedule := IncompatiblePairFails(a, b);
      assert OnlyBegins(schedule, ops);
    } else {
      forall schedule | OnlyBegins(schedule, ops) && Run(START, schedule).threads == map[]
        ensures Inverse(Run(START, schedule))
      {
        CompatibleIsTolerant(schedule, ops);
        QuiescentMeansInverse(schedule);
      }
    }
  }
}
