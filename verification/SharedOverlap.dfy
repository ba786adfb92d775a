/**
 Writers of one value that overlap, in the C++ sorted set that threads share. Exactly two additions with
 different scores can leave a value in two buckets; exactly two different operations can leave what the
 operations would not, one after the other in the order in which they finished.
 */
module SharedOverlap {
  import opened Values
  import opened FlatMap
  import opened ZsetSpec
  import opened SingleThreadZset
  import opened SharedZset

  /** What overlapping operations on one value must have in common. */
  datatype Rule = SameScore | SameOperation

  predicate Compatible(rule: Rule, a: ZOp, b: ZOp) {
    a.value == b.value ==>
      match rule
      case SameScore => a.Put? && b.Put? ==> a.score == b.score
      case SameOperation => a == b
  }

  predicate IsAdd(pc: Pc) {
    !pc.RmvFind? && !pc.RmvLock? && !pc.RmvErase? && !pc.RmvPrune?
  }

  function OpOf(pc: Pc): ZOp {
    if IsAdd(pc) then Put(pc.value, pc.score) else Drop(pc.value)
  }

  ghost predicate Welcome(rule: Rule, s: State, op: ZOp) {
    forall t <- s.threads :: Compatible(rule, OpOf(s.threads[t]), op)
  }

  /** Every operation is compatible with those under way when it begins. */
  ghost predicate Tolerant(rule: Rule, schedule: seq<Choice>) {
    schedule == [] ||
    var init, last := schedule[..|schedule| - 1], schedule[|schedule| - 1];
    Tolerant(rule, init) && (Begins(Run(START, init), last) ==> Welcome(rule, Run(START, init), last.op))
  }

  // One value -----------------------------------------------------------------------------------------

  /** What there is of a value: its score in the index, that of the finished operations, the buckets it is in. */
  datatype Trace = Trace(index: Option<u32>, finished: Option<u32>, places: iset<u32>)

  ghost function Only(o: Option<u32>): iset<u32> {
    if o.Some? then iset{o.value} else iset{}
  }

  ghost function TraceOf(s: State, v: Text): Trace {
    Trace(Lookup(s.index, v), Lookup(Contents(s.log), v), iset k: u32 | v in ValuesAt(s.buckets, k))
  }

  function Pcs(s: State, v: Text): set<Pc> {
    set t | t in s.threads && s.threads[t].value == v :: s.threads[t]
  }

  /** What one step of a writer does to the trace of its value, and where it leaves the writer. */
  ghost function LocalStep(pc: Pc, x: Trace): (Trace, Option<Pc>) {
    match pc
    case AddFind(v, k) => (x, Some(if x.index.Some? then AddLockOld(v, k, x.index.value) else AddLockNew(v, k)))
    case AddLockOld(v, k, from) => (x, Some(AddErase(v, k, from)))
    case AddErase(v, k, from) => (x.(places := x.places - iset{from}), Some(AddPrune(v, k, from)))
    case AddPrune(v, k, _) => (x, Some(AddLockNew(v, k)))
    case AddLockNew(v, k) => (x, Some(AddOpen(v, k)))
    case AddOpen(v, k) => (x, Some(AddEmplace(v, k)))
    case AddEmplace(v, k) => (x.(places := x.places + iset{k}), Some(AddDropIndex(v, k)))
    case AddDropIndex(v, k) => (x.(index := None), Some(AddSetIndex(v, k)))
    case AddSetIndex(v, k) => (x.(index := if x.index.Some? then x.index else Some(k), finished := Some(k)), None)
    case RmvFind(v) => if x.index.Some? then (x, Some(RmvLock(v, x.index.value))) else (x.(finished := None), None)
    case RmvLock(v, from) => (x, Some(RmvErase(v, from)))
    case RmvErase(v, from) => (x.(places := x.places - iset{from}), Some(RmvPrune(v, from)))
    case RmvPrune(_, _) => (x.(finished := None), None)
  }

  /** The writers of a value before and after one of them took a step. */
  ghost predicate Stepped(pcs: set<Pc>, pc: Pc, next: Option<Pc>, pcs': set<Pc>) {
    && pc in pcs
    && (next.Some? ==> next.value in pcs')
    && (forall p <- pcs' :: p in pcs || next == Some(p))
    && (forall p <- pcs :: p in pcs' || p == pc)
  }

  // Additions of one score, and any removals ------------------------------------------------------------

  /** What an addition of the score `k` that has come to `pc` knows of its value. */
  ghost predicate Knows(pc: Pc, k: u32, x: Trace) {
    match pc
    case AddFind(_, _) => true
    case AddLockOld(_, _, from) => x.places <= iset{k} || x.places <= iset{from}
    case AddErase(_, _, from) => x.places <= iset{k} || x.places <= iset{from}
    case AddSetIndex(_, _) => x.places <= iset{k} && (x.index == None || x.index == Some(k))
    case _ => x.places <= iset{k}
  }

  /** While the additions under way all have the score `k`: one bucket at most, the index's or that one. */
  ghost predicate Snug(k: u32, x: Trace, pcs: set<Pc>) {
    && (x.places <= iset{k} || x.places <= Only(x.index))
    && (forall pc <- pcs :: IsAdd(pc) ==> pc.score == k && Knows(pc, k, x))
    && (x.places <= Only(x.index) || exists pc <- pcs :: IsAdd(pc))
  }

  lemma SnugStep(k: u32, x: Trace, pcs: set<Pc>, pc: Pc, pcs': set<Pc>)
    requires Snug(k, x, pcs) && Stepped(pcs, pc, LocalStep(pc, x).1, pcs')
    ensures Snug(k, LocalStep(pc, x).0, pcs')
  {
    var (x', next) := LocalStep(pc, x);
    forall p | p in pcs' && IsAdd(p) ensures p.score == k && Knows(p, k, x') {}
    if next.Some? && IsAdd(pc) { assert IsAdd(next.value); }
    if !(x'.places <= Only(x'.index)) && !IsAdd(pc) {
      var p :| p in pcs && IsAdd(p);
      assert p in pcs';
    }
  }

  // One operation, any number of times -------------------------------------------------------------------

  /** What a value without writers looks like: in the bucket of the finished operations, and the index knows it. */
  ghost predicate Orderly(x: Trace) {
    x.places == Only(x.finished) && (x.finished.Some? ==> x.index == x.finished)
  }

  predicate WillEmplace(pc: Pc) {
    IsAdd(pc) && !pc.AddDropIndex? && !pc.AddSetIndex?
  }

  /** The removal that has come to `pc` goes for the bucket that the value is in. */
  predicate Aims(pc: Pc, k: u32) {
    pc.RmvFind? || ((pc.RmvLock? || pc.RmvErase?) && pc.from == k)
  }

  /** While all the writers are at `op`. */
  ghost predicate Sole(op: ZOp, x: Trace, pcs: set<Pc>) {
    && (forall pc <- pcs :: OpOf(pc) == op)
    && if pcs == {} then Orderly(x)
       else match op
            case Put(_, k) => Snug(k, x, pcs) && (x.places == iset{k} || exists pc <- pcs :: WillEmplace(pc))
            case Drop(_) =>
              || (Orderly(x) && (x.finished.Some? ==> forall pc <- pcs :: Aims(pc, x.finished.value)))
              || (x.places == iset{} && exists pc <- pcs :: pc.RmvPrune?)
  }

  lemma StepKeepsOp(pc: Pc, x: Trace)
    ensures LocalStep(pc, x).1.Some? ==> OpOf(LocalStep(pc, x).1.value) == OpOf(pc)
  {}

  lemma SoleAddStep(op: ZOp, x: Trace, pcs: set<Pc>, pc: Pc, pcs': set<Pc>)
    requires op.Put? && Sole(op, x, pcs) && Stepped(pcs, pc, LocalStep(pc, x).1, pcs')
    ensures Sole(op, LocalStep(pc, x).0, pcs')
  {
    var (x', next) := LocalStep(pc, x);
    assert OpOf(pc) == op && IsAdd(pc) && pc.score == op.score && Knows(pc, op.score, x);
    StepKeepsOp(pc, x);
    SnugStep(op.score, x, pcs, pc, pcs');
    if next.Some? && WillEmplace(next.value) {
    } else if pc.AddEmplace? {
      assert x'.places == iset{op.score};
    } else if p :| p in pcs && WillEmplace(p) {
      assert p in pcs';
    }
  }

  lemma SoleRemovalStep(op: ZOp, x: Trace, pcs: set<Pc>, pc: Pc, pcs': set<Pc>)
    requires op.Drop? && Sole(op, x, pcs) && Stepped(pcs, pc, LocalStep(pc, x).1, pcs')
    ensures Sole(op, LocalStep(pc, x).0, pcs')
  {
    var (x', next) := LocalStep(pc, x);
    assert OpOf(pc) == op;
    StepKeepsOp(pc, x);
    if p :| p in pcs && p.RmvPrune? {
      if p != pc { assert p in pcs'; }
    }
  }

  /** A new writer joins. */
  lemma SnugJoins(k: u32, x: Trace, pcs: set<Pc>, op: ZOp) returns (k': u32)
    requires Snug(k, x, pcs)
    requires forall pc <- pcs :: op.Put? && IsAdd(pc) ==> pc.score == op.score
    ensures Snug(k', x, pcs + {First(op)})
  {
    if op.Drop? {
      k' := k;
      if !(x.places <= Only(x.index)) {
        var pc :| pc in pcs && IsAdd(pc);
        assert pc in pcs + {First(op)};
      }
    } else {
      k' := op.score;
      assert First(op) in pcs + {First(op)} && IsAdd(First(op));
      if pc :| pc in pcs && IsAdd(pc) { assert k == op.score; }
    }
  }

  function First(op: ZOp): Pc {
    if op.Put? then AddFind(op.value, op.score) else RmvFind(op.value)
  }

  lemma SoleJoins(op: ZOp, x: Trace, pcs: set<Pc>)
    requires Sole(op, x, pcs)
    ensures Sole(op, x, pcs + {First(op)})
  {
    assert First(op) in pcs + {First(op)};
  }

  // All values ------------------------------------------------------------------------------------------

  lemma ActTrace(s: State, t: Thread, w: Text)
    requires BucketsInv(s) && t in s.threads && Act(s, t).To?
    ensures var pc := s.threads[t];
            TraceOf(Act(s, t).state, w) == if w == pc.value then LocalStep(pc, TraceOf(s, w)).0 else TraceOf(s, w)
  {
    hide Ascending, ValuesAt, HasScore, Open, SetValues, Erase, EraseValue, Prune, Contents;
    match s.threads[t]
    case AddErase(v, k, from) => EraseValueSpec(s.buckets, from, v);
    case RmvErase(v, from) => EraseValueSpec(s.buckets, from, v);
    case AddPrune(v, k, from) => PruneSpec(s.buckets, from);
    case RmvPrune(v, from) => PruneSpec(s.buckets, from); ContentsAppend(s.log, Drop(v));
    case AddOpen(v, k) => OpenSpec(s.buckets, k);
    case AddEmplace(v, k) => SetValuesSpec(s.buckets, k, ValuesAt(s.buckets, k) + {v});
    case AddSetIndex(v, k) => ContentsAppend(s.log, Put(v, k));
    case RmvFind(v) => ContentsAppend(s.log, Drop(v));
    case _ =>
  }

  lemma ActPc(s: State, t: Thread)
    requires t in s.threads && Act(s, t).To?
    ensures var s' := Act(s, t).state;
            LocalStep(s.threads[t], TraceOf(s, s.threads[t].value)).1 ==
            if t in s'.threads then Some(s'.threads[t]) else None
  {
    hide ValuesAt, Open, SetValues, Erase, EraseValue, Prune, Contents;
  }

  lemma PcsAre(s: State, v: Text)
    ensures forall t <- s.threads :: s.threads[t].value == v ==> s.threads[t] in Pcs(s, v)
    ensures forall pc <- Pcs(s, v) :: pc.value == v && exists t <- s.threads :: s.threads[t] == pc
  {}

  lemma ActPcs(s: State, t: Thread, w: Text)
    requires t in s.threads && Act(s, t).To?
    ensures var pc, pcs, pcs' := s.threads[t], Pcs(s, w), Pcs(Act(s, t).state, w);
            if w == pc.value then Stepped(pcs, pc, LocalStep(pc, TraceOf(s, w)).1, pcs') else pcs' == pcs
  {
    hide Act, LocalStep, TraceOf, Pcs;
    var s' := Act(s, t).state;
    ThreadsAfter(s, t);
    ActPc(s, t);
    PcsAre(s, w);
    PcsAre(s', w);
    forall p | p in Pcs(s', w) ensures p in Pcs(s, w) || (t in s'.threads && p == s'.threads[t] && w == s.threads[t].value) {
      var u :| u in s'.threads && s'.threads[u] == p;
      if u != t { assert s.threads[u] == p; }
    }
    forall p | p in Pcs(s, w) ensures p in Pcs(s', w) || (p == s.threads[t] && w == s.threads[t].value) {
      var u :| u in s.threads && s.threads[u] == p;
      if u != t { assert s'.threads[u] == p; }
    }
  }

  ghost predicate ValueInv(rule: Rule, s: State, v: Text) {
    match rule
    case SameScore => exists k: u32 :: Snug(k, TraceOf(s, v), Pcs(s, v))
    case SameOperation => exists op: ZOp :: op.value == v && Sole(op, TraceOf(s, v), Pcs(s, v))
  }

  lemma AdvanceKeepsValue(rule: Rule, s: State, t: Thread, v: Text)
    requires BucketsInv(s) && t in s.threads && Act(s, t).To? && ValueInv(rule, s, v)
    ensures ValueInv(rule, Act(s, t).state, v)
  {
    hide BucketsInv, Act, Snug, Sole, Pcs, TraceOf, LocalStep, Stepped;
    var s', pc := Act(s, t).state, s.threads[t];
    ActPcs(s, t, v);
    ActTrace(s, t, v);
    if v == pc.value {
      match rule
      case SameScore =>
        var k: u32 :| Snug(k, TraceOf(s, v), Pcs(s, v));
        SnugStep(k, TraceOf(s, v), Pcs(s, v), pc, Pcs(s', v));
      case SameOperation =>
        var op: ZOp :| op.value == v && Sole(op, TraceOf(s, v), Pcs(s, v));
        if op.Put? { SoleAddStep(op, TraceOf(s, v), Pcs(s, v), pc, Pcs(s', v)); }
        else { SoleRemovalStep(op, TraceOf(s, v), Pcs(s, v), pc, Pcs(s', v)); }
    }
  }

  lemma PcsWith(s: State, t: Thread, pc: Pc, v: Text)
    requires t !in s.threads
    ensures Pcs(s.(threads := s.threads[t := pc]), v) == if pc.value == v then Pcs(s, v) + {pc} else Pcs(s, v)
  {
    var s' := s.(threads := s.threads[t := pc]);
    forall p ensures p in Pcs(s', v) <==> p in Pcs(s, v) || (pc.value == v && p == pc) {
      if p in Pcs(s, v) {
        var u :| u in s.threads && s.threads[u] == p;
        assert s'.threads[u] == p;
      }
      if p == pc { assert s'.threads[t] == p; }
    }
  }

  lemma BeginKeepsValue(rule: Rule, s: State, t: Thread, begun: ZOp, v: Text)
    requires t !in s.threads && Welcome(rule, s, begun) && ValueInv(rule, s, v)
    ensures ValueInv(rule, Step(s, Begin(t, begun)).state, v)
  {
    hide Snug, Sole, Act;
    var s' := s.(threads := s.threads[t := First(begun)]);
    assert Step(s, Begin(t, begun)).state == s';
    var x, pcs := TraceOf(s, v), Pcs(s, v);
    assert TraceOf(s', v) == x;
    PcsWith(s, t, First(begun), v);
    if begun.value == v {
      assert forall pc <- pcs :: Compatible(rule, OpOf(pc), begun);
      match rule
      case SameScore =>
        var k: u32 :| Snug(k, x, pcs);
        var k' := SnugJoins(k, x, pcs, begun);
      case SameOperation =>
        var op: ZOp :| op.value == v && Sole(op, x, pcs);
        SoleMeets(op, begun, x, pcs);
        SoleJoins(begun, x, pcs);
    }
  }

  lemma SoleMeets(op: ZOp, begun: ZOp, x: Trace, pcs: set<Pc>)
    requires Sole(op, x, pcs) && forall pc <- pcs :: OpOf(pc) == begun
    ensures Sole(begun, x, pcs)
  {
    if pcs != {} { var pc :| pc in pcs; }
  }

  lemma {:induction false} TolerantKeepsValues(rule: Rule, schedule: seq<Choice>, v: Text)
    requires Tolerant(rule, schedule)
    ensures ValueInv(rule, Run(START, schedule), v)
    decreases |schedule|
  {
    if schedule == [] {
      assert Pcs(START, v) == {} && TraceOf(START, v) == Trace(None, None, iset{});
      assert Snug(0, TraceOf(START, v), Pcs(START, v));
      assert Sole(Drop(v), TraceOf(START, v), Pcs(START, v));
    } else {
      hide ValueInv, BucketsInv, Act, Welcome;
      var init, last := schedule[..|schedule| - 1], schedule[|schedule| - 1];
      var s := Run(START, init);
      TolerantKeepsValues(rule, init, v);
      RunKeepsBuckets(init);
      if Step(s, last).To? {
        match last
        case Begin(t, op) => BeginKeepsValue(rule, s, t, op, v);
        case Advance(t) => AdvanceKeepsValue(rule, s, t, v);
      }
    }
  }

  // What compatible writers leave -----------------------------------------------------------------------

  /** No value is in two buckets. */
  ghost predicate EachOnce(s: State) {
    forall v, j: u32, k: u32 :: v in ValuesAt(s.buckets, j) && v in ValuesAt(s.buckets, k) ==> j == k
  }

  /** The bucket a value is in is the one the index names. */
  ghost predicate AsIndexed(s: State) {
    forall v, k: u32 :: v in ValuesAt(s.buckets, k) ==> v in s.index && s.index[v] == k
  }

  /** The buckets hold what the finished operations, one after the other, leave. */
  ghost predicate Sequential(s: State) {
    forall v, k: u32 :: v in ValuesAt(s.buckets, k) <==> v in Contents(s.log) && Contents(s.log)[v] == k
  }

  /** As long as overlapping additions of one value have one score, no value is in two buckets at any moment. */
  lemma SameScoreMeansEachOnce(schedule: seq<Choice>)
    requires Tolerant(SameScore, schedule)
    ensures EachOnce(Run(START, schedule))
    ensures Run(START, schedule).threads == map[] ==> AsIndexed(Run(START, schedule))
  {
    hide Tolerant, Run, ValuesAt;
    var s := Run(START, schedule);
    forall v, j: u32, k: u32 | v in ValuesAt(s.buckets, j) && v in ValuesAt(s.buckets, k) ensures j == k {
      TolerantKeepsValues(SameScore, schedule, v);
      assert j in TraceOf(s, v).places && k in TraceOf(s, v).places;
    }
    forall v, k: u32 | s.threads == map[] && v in ValuesAt(s.buckets, k) ensures v in s.index && s.index[v] == k {
      TolerantKeepsValues(SameScore, schedule, v);
      assert Pcs(s, v) == {} && k in TraceOf(s, v).places;
    }
  }

  /** So no range query shows a value twice. */
  lemma SnapshotShowsEachOnce(schedule: seq<Choice>, min: u32, max: u32)
    requires Tolerant(SameScore, schedule) && Run(START, schedule).mutex == Free
    ensures var r := Snapshot(Run(START, schedule), min, max);
            && Ascending(r) && NoneEmpty(r)
            && forall a, b, v :: a in r && b in r && v in a.values && v in b.values ==> a == b
  {
    hide Tolerant, Run;
    var s := Run(START, schedule);
    var r := Snapshot(s, min, max);
    FreeMeansTidy(schedule);
    SameScoreMeansEachOnce(schedule);
    WithinSpec(s.buckets, min, max);
    forall a, b, v | a in r && b in r && v in a.values && v in b.values ensures a == b {
      ValuesOf(s.buckets, a);
      ValuesOf(s.buckets, b);
    }
  }

  /**
   If overlapping operations on one value are the same operation, then with no operation under way every
   range query is the range of what the operations, one after the other, leave.
   */
  lemma QuiescentMeansSequential(schedule: seq<Choice>, min: u32, max: u32)
    requires Tolerant(SameOperation, schedule) && Run(START, schedule).threads == map[]
    ensures Run(START, schedule).mutex == Free && Sequential(Run(START, schedule))
    ensures Snapshot(Run(START, schedule), min, max) == Range(Contents(Run(START, schedule).log), min, max)
  {
    hide Tolerant, ValuesAt, Contents;
    var s := Run(START, schedule);
    RunKeepsBuckets(schedule);
    forall v, k: u32 ensures v in ValuesAt(s.buckets, k) <==> v in Contents(s.log) && Contents(s.log)[v] == k {
      TolerantKeepsValues(SameOperation, schedule, v);
      var op: ZOp :| op.value == v && Sole(op, TraceOf(s, v), Pcs(s, v));
      assert Pcs(s, v) == {};
      assert k in TraceOf(s, v).places <==> v in ValuesAt(s.buckets, k);
    }
    WithinIsRange(s.buckets, Contents(s.log), min, max);
  }

  // What incompatible writers can leave --------------------------------------------------------------------

  /** Two overlapping additions of a new value with different scores both finish and leave it in both buckets. */
  lemma RacingAddsLeaveTwo(v: Text, j: u32, k: u32) returns (schedule: seq<Choice>)
    requires j < k
    ensures Begun(schedule) == multiset{Put(v, j), Put(v, k)}
    ensures Run(START, schedule) ==
            State(map[v := k], [Bucket(j, {v}), Bucket(k, {v})], Free, map[], [Put(v, j), Put(v, k)])
  {
    hide Disciplined, Run, Begun;
    StartRuns();
    schedule := Then([], Begin(0, Put(v, j)));
    schedule := Then(schedule, Begin(1, Put(v, k)));
    assert Begun(schedule) == multiset{Put(v, j), Put(v, k)};
    schedule := Then(schedule, Advance(0));
    schedule := Then(schedule, Advance(1));
    assert Run(START, schedule) == State(map[], [], Free, map[0 := AddLockNew(v, j), 1 := AddLockNew(v, k)], []);
    schedule := RacingAddsEnd(v, j, k, schedule);
  }

  lemma RacingAddsEnd(v: Text, j: u32, k: u32, schedule: seq<Choice>) returns (longer: seq<Choice>)
    requires j < k
    requires Run(START, schedule) == State(map[], [], Free, map[0 := AddLockNew(v, j), 1 := AddLockNew(v, k)], [])
    ensures Begun(longer) == Begun(schedule)
    ensures Run(START, longer) ==
            State(map[v := k], [Bucket(j, {v}), Bucket(k, {v})], Free, map[], [Put(v, j), Put(v, k)])
  {
    hide Disciplined, Run, Begun;
    longer := FirstAddEnds(v, j, k, schedule);
    longer := EmplaceSecond(v, j, k, longer);
    longer := SetIndex(longer, 1, v, k);
  }

  lemma FirstAddEnds(v: Text, j: u32, k: u32, schedule: seq<Choice>) returns (longer: seq<Choice>)
    requires Run(START, schedule) == State(map[], [], Free, map[0 := AddLockNew(v, j), 1 := AddLockNew(v, k)], [])
    ensures Begun(longer) == Begun(schedule)
    ensures Run(START, longer) == State(map[v := j], [Bucket(j, {v})], Free, map[1 := AddLockNew(v, k)], [Put(v, j)])
  {
    hide Disciplined, Run, Begun;
    longer := Emplace(schedule, 0, v, j);
    longer := SetIndex(longer, 0, v, j);
  }

  lemma EmplaceSecond(v: Text, j: u32, k: u32, schedule: seq<Choice>) returns (longer: seq<Choice>)
    requires j < k
    requires Run(START, schedule) == State(map[v := j], [Bucket(j, {v})], Free, map[1 := AddLockNew(v, k)], [Put(v, j)])
    ensures Begun(longer) == Begun(schedule)
    ensures Run(START, longer) ==
            State(map[v := j], [Bucket(j, {v}), Bucket(k, {v})], Free, map[1 := AddDropIndex(v, k)], [Put(v, j)])
  {
    hide Disciplined, Run, Begun;
    longer := Then(schedule, Advance(1));
    longer := Then(longer, Advance(1));
    SecondBucket(v, j, k);
    longer := Then(longer, Advance(1));
  }

  lemma SecondBucket(v: Text, j: u32, k: u32)
    requires j < k
    ensures Open([Bucket(j, {v})], k) == [Bucket(j, {v}), Bucket(k, {})]
    ensures var m := [Bucket(j, {v}), Bucket(k, {})];
            SetValues(m, k, ValuesAt(m, k) + {v}) == [Bucket(j, {v}), Bucket(k, {v})]
    ensures v in ValuesAt([Bucket(j, {v}), Bucket(k, {v})], j) && v in ValuesAt([Bucket(j, {v}), Bucket(k, {v})], k)
  {
    var m, r := [Bucket(j, {v}), Bucket(k, {})], [Bucket(j, {v}), Bucket(k, {v})];
    assert [Bucket(j, {v})][1..] == [];
    assert m[1..] == [Bucket(k, {})] && r[1..] == [Bucket(k, {v})];
    assert {} + {v} == {v};
  }

  /**
   An addition of a value that is there, and a removal that falls between its emplacing and its finishing:
   the addition finishes last, but the value is gone.
   */
  lemma RacingRemovalWins(v: Text, k: u32) returns (schedule: seq<Choice>)
    ensures Begun(schedule) == multiset{Put(v, k), Put(v, k), Drop(v)}
    ensures Run(START, schedule) == State(map[v := k], [], Free, map[], [Put(v, k), Drop(v), Put(v, k)])
  {
    hide Disciplined, Run, Begun;
    schedule := AddAlone(v, k);
    schedule := Then(schedule, Begin(0, Put(v, k)));
    schedule := Then(schedule, Begin(1, Drop(v)));
    assert Begun(schedule) == multiset{Put(v, k), Put(v, k), Drop(v)};
    schedule := Then(schedule, Advance(0));
    schedule := Then(schedule, Advance(1));
    assert Run(START, schedule) == State(
             map[v := k], [Bucket(k, {v})], Free, map[0 := AddLockOld(v, k, k), 1 := RmvLock(v, k)], [Put(v, k)]);
    schedule := RemovedMeanwhile(v, k, schedule);
  }

  lemma MovedAgain(v: Text, k: u32, schedule: seq<Choice>) returns (longer: seq<Choice>)
    requires Run(START, schedule) == State(
               map[v := k], [Bucket(k, {v})], Free, map[0 := AddLockOld(v, k, k), 1 := RmvLock(v, k)], [Put(v, k)])
    ensures Begun(longer) == Begun(schedule)
    ensures Run(START, longer) == State(
              map[v := k], [Bucket(k, {v})], Free, map[0 := AddDropIndex(v, k), 1 := RmvLock(v, k)], [Put(v, k)])
  {
    hide Disciplined, Run, Begun;
    longer := Vacate(schedule, 0, v, k, k);
    longer := Emplace(longer, 0, v, k);
  }

  lemma RemovedMeanwhile(v: Text, k: u32, schedule: seq<Choice>) returns (longer: seq<Choice>)
    requires Run(START, schedule) == State(
               map[v := k], [Bucket(k, {v})], Free, map[0 := AddLockOld(v, k, k), 1 := RmvLock(v, k)], [Put(v, k)])
    ensures Begun(longer) == Begun(schedule)
    ensures Run(START, longer) == State(map[v := k], [], Free, map[], [Put(v, k), Drop(v), Put(v, k)])
  {
    hide Disciplined, Run, Begun;
    longer := MovedAgain(v, k, schedule);
    EmptiedBucket(v, k);
    longer := Then(longer, Advance(1));
    longer := Then(longer, Advance(1));
    longer := Then(longer, Advance(1));
    assert Run(START, longer) == State(map[v := k], [], Free, map[0 := AddDropIndex(v, k)], [Put(v, k), Drop(v)]);
    longer := SetIndex(longer, 0, v, k);
  }

  // Exactly the compatible operations ---------------------------------------------------------------------

  ghost predicate OnlyBegins(schedule: seq<Choice>, ops: set<ZOp>) {
    forall op <- Begun(schedule) :: op in ops
  }

  lemma ActKeepsOp(s: State, t: Thread)
    requires t in s.threads && Act(s, t).To?
    ensures t in Act(s, t).state.threads ==> OpOf(Act(s, t).state.threads[t]) == OpOf(s.threads[t])
  {
    hide ValuesAt, Open, SetValues, Erase, EraseValue, Prune;
  }

  lemma {:induction false} UnderWayWereBegun(schedule: seq<Choice>, t: Thread)
    requires t in Run(START, schedule).threads
    ensures OpOf(Run(START, schedule).threads[t]) in Begun(schedule)
    decreases |schedule|
  {
    if schedule != [] {
      hide Act, OpOf;
      var init, last := schedule[..|schedule| - 1], schedule[|schedule| - 1];
      var s := Run(START, init);
      if Begins(s, last) { FirstIs(last.op); }
      if last.Advance? && last.thread in s.threads && Act(s, last.thread).To? {
        ThreadsAfter(s, last.thread);
        ActKeepsOp(s, last.thread);
      }
      if t in s.threads { UnderWayWereBegun(init, t); }
    }
  }

  lemma FirstIs(op: ZOp)
    ensures OpOf(First(op)) == op
  {}

  lemma {:induction false} CompatibleIsTolerant(rule: Rule, schedule: seq<Choice>, ops: set<ZOp>)
    requires OnlyBegins(schedule, ops)
    requires forall a, b :: a in ops && b in ops ==> Compatible(rule, a, b)
    ensures Tolerant(rule, schedule)
    decreases |schedule|
  {
    if schedule != [] {
      hide Run, OpOf, Compatible;
      var init, last := schedule[..|schedule| - 1], schedule[|schedule| - 1];
      assert forall op <- Begun(init) :: op in Begun(schedule);
      CompatibleIsTolerant(rule, init, ops);
      var s := Run(START, init);
      if Begins(s, last) {
        assert last.op in Begun(schedule);
        forall t | t in s.threads ensures Compatible(rule, OpOf(s.threads[t]), last.op) { UnderWayWereBegun(init, t); }
      }
    }
  }

  /** Two additions of one value with different scores can leave it in two buckets for good. */
  lemma DifferentScoresFail(a: ZOp, b: ZOp) returns (schedule: seq<Choice>)
    requires !Compatible(SameScore, a, b)
    ensures Begun(schedule) == multiset{a, b}
    ensures var s := Run(START, schedule);
            s.threads == map[] && !EachOnce(s) && !AsIndexed(s) && !Sequential(s)
  {
    hide Run, Begun;
    var v := a.value;
    var j, k := if a.score < b.score then a.score else b.score, if a.score < b.score then b.score else a.score;
    schedule := RacingAddsLeaveTwo(v, j, k);
    assert multiset{a, b} == multiset{Put(v, j), Put(v, k)};
    SecondBucket(v, j, k);
    TwoBuckets(Run(START, schedule), v, j, k);
  }

  lemma TwoBuckets(s: State, v: Text, j: u32, k: u32)
    requires j != k && v in ValuesAt(s.buckets, j) && v in ValuesAt(s.buckets, k)
    ensures !EachOnce(s) && !AsIndexed(s) && !Sequential(s)
  {
    hide ValuesAt, Contents;
    var named, left := Lookup(s.index, v), Lookup(Contents(s.log), v);
    var i := if named == Some(j) then k else j;
    assert v in ValuesAt(s.buckets, i) && !(v in s.index && s.index[v] == i);
    var h := if left == Some(j) then k else j;
    assert v in ValuesAt(s.buckets, h) && !(v in Contents(s.log) && Contents(s.log)[v] == h);
  }

  lemma DifferentOperationsFail(a: ZOp, b: ZOp) returns (schedule: seq<Choice>)
    requires !Compatible(SameOperation, a, b)
    ensures OnlyBegins(schedule, {a, b})
    ensures Run(START, schedule).threads == map[] && !Sequential(Run(START, schedule))
  {
    hide Run, Begun, Sequential;
    if a.Put? && b.Put? {
      schedule := DifferentScoresFail(a, b);
    } else {
      var k := if a.Put? then a.score else b.score;
      schedule := RacingRemovalWins(a.value, k);
      LostValue(a.value, k);
      assert !Sequential(Run(START, schedule)) by { NotSequential(Run(START, schedule), a.value, k); }
    }
  }

  lemma LostValue(v: Text, k: u32)
    ensures Contents([Put(v, k), Drop(v), Put(v, k)]) == map[v := k]
  {
    var log := [Put(v, k), Drop(v)];
    ContentsAppend(log, Put(v, k));
    assert log + [Put(v, k)] == [Put(v, k), Drop(v), Put(v, k)];
    ContentsAppend([Put(v, k)], Drop(v));
    assert [Put(v, k)] + [Drop(v)] == log;
    ContentsAppend([], Put(v, k));
    assert [] + [Put(v, k)] == [Put(v, k)];
  }

  lemma NotSequential(s: State, v: Text, k: u32)
    requires s.buckets == [] && Contents(s.log) == map[v := k]
    ensures !Sequential(s)
  {
    hide Contents;
    assert !(v in ValuesAt(s.buckets, k) <==> v in Contents(s.log) && Contents(s.log)[v] == k);
  }

  /**
   The exact condition for one bucket a value. Whatever is scheduled of a set of operations keeps every
   value in one bucket at most, in the end the one that the index names, if and only if the set has no
   two additions of one value with different scores.
   */
  lemma EachOnceExactly(ops: set<ZOp>)
    ensures (forall schedule :: OnlyBegins(schedule, ops) ==>
                                  && EachOnce(Run(START, schedule))
                                  && (Run(START, schedule).threads == map[] ==> AsIndexed(Run(START, schedule))))
            <==> forall a, b :: a in ops && b in ops ==> Compatible(SameScore, a, b)
  {
    hide Compatible, EachOnce, AsIndexed, Run, Begun;
    if a, b :| a in ops && b in ops && !Compatible(SameScore, a, b) {
      var schedule := DifferentScoresFail(a, b);
      assert OnlyBegins(schedule, ops);
    } else {
      forall schedule | OnlyBegins(schedule, ops)
        ensures EachOnce(Run(START, schedule))
        ensures Run(START, schedule).threads == map[] ==> AsIndexed(Run(START, schedule))
      {
        CompatibleIsTolerant(SameScore, schedule, ops);
        SameScoreMeansEachOnce(schedule);
      }
    }
  }

  /**
   The exact condition for sequential contents. Whatever is scheduled of a set of operations ends with
   what the finished operations, one after the other, leave, if and only if the set has no two different
   operations on one value.
   */
  lemma SequentialExactly(ops: set<ZOp>)
    ensures (forall schedule :: OnlyBegins(schedule, ops) && Run(START, schedule).threads == map[] ==>
                                  Sequential(Run(START, schedule)))
            <==> forall a, b :: a in ops && b in ops ==> Compatible(SameOperation, a, b)
  {
    hide Compatible, Sequential, Run, Begun;
    if a, b :| a in ops && b in ops && !Compatible(SameOperation, a, b) {
      var schedule := DifferentOperationsFail(a, b);
      assert OnlyBegins(schedule, ops);
    } else {
      forall schedule | OnlyBegins(schedule, ops) && Run(START, schedule).threads == map[]
        ensures Sequential(Run(START, schedule))
      {
        CompatibleIsTolerant(SameOperation, schedule, ops);
        QuiescentMeansSequential(schedule, 0, 0);
      }
    }
  }
}
