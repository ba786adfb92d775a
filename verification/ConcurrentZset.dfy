/**
 The sorted set of the Rust store under concurrent requests. The index from value to score is a
 lock-free map of atomic operations; the buckets are behind a read-write lock. Each step below is one
 index operation, or one critical section of the lock; threads interleave between any two of them.
 `done` lists the operations in the order in which they took effect on the buckets.
 */
module ConcurrentZset {
  import opened Values
  import opened ZsetSpec
  import opened RustZset

  type Thread = nat

  /** Where a thread is: before which step, with the score its lookup or removal returned. */
  datatype Pc =
    | AddFind(value: Text, score: u32)
    | AddMove(value: Text, score: u32, from: u32)
    | AddReindex(value: Text, score: u32)
    | AddIndexNew(value: Text, score: u32)
    | AddInsert(value: Text, score: u32)
    | RmvTake(value: Text)
    | RmvErase(value: Text, from: u32)

  datatype State = State(index: Scores, buckets: Buckets, threads: map<Thread, Pc>, done: seq<ZOp>)

  const START := State(map[], map[], map[], [])

  datatype Choice = Begin(thread: Thread, op: ZOp) | Advance(thread: Thread)

  function At(s: State, t: Thread, pc: Pc): State {
    s.(threads := s.threads[t := pc])
  }

  function Finish(s: State, t: Thread): State {
    s.(threads := s.threads - {t})
  }

  function Effect(s: State, op: ZOp, buckets: Buckets): State {
    s.(buckets := buckets, done := s.done + [op])
  }

  function Act(s: State, t: Thread): State
    requires t in s.threads
  {
    match s.threads[t]
    case AddFind(v, k) =>
      if v !in s.index then At(s, t, AddIndexNew(v, k))
      else if s.index[v] != k then At(s, t, AddMove(v, k, s.index[v]))
      else Finish(Effect(s, Put(v, k), s.buckets), t)
    case AddMove(v, k, from) =>
      At(Effect(s, Put(v, k), InsertAt(RemoveAt(s.buckets, from, v), k, v)), t, AddReindex(v, k))
    case AddReindex(v, k) => Finish(s.(index := s.index[v := k]), t)
    case AddIndexNew(v, k) => At(s.(index := s.index[v := k]), t, AddInsert(v, k))
    case AddInsert(v, k) => Finish(Effect(s, Put(v, k), InsertAt(s.buckets, k, v)), t)
    case RmvTake(v) =>
      if v in s.index then At(s.(index := s.index - {v}), t, RmvErase(v, s.index[v]))
      else Finish(Effect(s, Drop(v), s.buckets), t)
    case RmvErase(v, from) => Finish(Effect(s, Drop(v), RemoveAt(s.buckets, from, v)), t)
  }

  function First(op: ZOp): Pc {
    match op
    case Put(v, k) => AddFind(v, k)
    case Drop(v) => RmvTake(v)
  }

  /** An idle thread begins an operation, a busy one takes its next step; other choices change nothing. */
  function Step(s: State, c: Choice): State {
    match c
    case Begin(t, op) => if t in s.threads then s else At(s, t, First(op))
    case Advance(t) => if t in s.threads then Act(s, t) else s
  }

  predicate Begins(s: State, c: Choice) {
    c.Begin? && c.thread !in s.threads
  }

  function Run(s: State, schedule: seq<Choice>): State {
    if schedule == [] then s else Step(Run(s, schedule[..|schedule| - 1]), schedule[|schedule| - 1])
  }

  // Every operation takes effect once ----------------------------------------------------------------

  predicate HasEffect(pc: Pc) {
    pc.AddReindex?
  }

  function OpOf(pc: Pc): ZOp {
    if pc.RmvTake? || pc.RmvErase? then Drop(pc.value) else Put(pc.value, pc.score)
  }

  /** An operation takes effect at exactly one of its steps, between its begin and its end. */
  lemma EffectIsOnce(s: State, t: Thread)
    requires t in s.threads
    ensures var pc, s' := s.threads[t], Act(s, t);
            && (HasEffect(pc) ==> s'.done == s.done && t !in s'.threads)
            && (!HasEffect(pc) ==>
                  if t in s'.threads && !HasEffect(s'.threads[t]) then s'.done == s.done && OpOf(s'.threads[t]) == OpOf(pc)
                  else s'.done == s.done + [OpOf(pc)])
  {}

  /** The threads with this operation under way, its effect still to come. */
  function Pending(s: State, op: ZOp): set<Thread> {
    set t | t in s.threads && !HasEffect(s.threads[t]) && OpOf(s.threads[t]) == op
  }

  /** The operations begun in a schedule. */
  function Begun(schedule: seq<Choice>): multiset<ZOp> {
    if schedule == [] then multiset{}
    else
      var init, last := schedule[..|schedule| - 1], schedule[|schedule| - 1];
      Begun(init) + if Begins(Run(START, init), last) then multiset{last.op} else multiset{}
  }

  lemma ThreadsAfter(s: State, t: Thread)
    requires t in s.threads
    ensures var s' := Act(s, t);
            && (forall u :: u != t ==> (u in s'.threads <==> u in s.threads))
            && (forall u :: u != t && u in s.threads ==> s'.threads[u] == s.threads[u])
            && (t in s'.threads ==> s'.threads[t].value == s.threads[t].value)
  {}

  lemma AdvanceConserves(s: State, t: Thread, op: ZOp)
    requires t in s.threads
    ensures var s' := Act(s, t);
            multiset(s'.done)[op] + |Pending(s', op)| == multiset(s.done)[op] + |Pending(s, op)|
  {
    hide Act, OpOf, HasEffect, Pending;
    EffectIsOnce(s, t);
    ThreadsAfter(s, t);
    var s' := Act(s, t);
    PendingIs(s, op);
    PendingIs(s', op);
    OneMore(Pending(s', op), Pending(s, op), t);
  }

  lemma BeginConserves(s: State, t: Thread, begun: ZOp, op: ZOp)
    requires t !in s.threads
    ensures var s' := Step(s, Begin(t, begun));
            && s'.done == s.done
            && |Pending(s', op)| == |Pending(s, op)| + if begun == op then 1 else 0
  {
    hide OpOf, HasEffect, Act, First;
    FirstHasNoEffect(begun);
    PendingWith(s, t, First(begun), op);
  }

  lemma PendingWith(s: State, t: Thread, pc: Pc, op: ZOp)
    requires t !in s.threads
    ensures |Pending(At(s, t, pc), op)| == |Pending(s, op)| + if !HasEffect(pc) && OpOf(pc) == op then 1 else 0
  {
    hide OpOf, HasEffect, Pending;
    PendingIs(s, op);
    PendingIs(At(s, t, pc), op);
    OneMore(Pending(s, op), Pending(At(s, t, pc), op), t);
  }

  lemma PendingIs(s: State, op: ZOp)
    ensures forall t :: t in Pending(s, op) <==> t in s.threads && !HasEffect(s.threads[t]) && OpOf(s.threads[t]) == op
  {
    hide HasEffect, OpOf;
  }

  lemma OneMore(a: set<Thread>, b: set<Thread>, t: Thread)
    requires t in a ==> t in b
    requires forall u :: u != t ==> (u in a <==> u in b)
    ensures |b| == |a| + if t in b && t !in a then 1 else 0
  {
    if t in b && t !in a { assert b == a + {t}; } else { assert b == a; }
  }

  lemma FirstHasNoEffect(op: ZOp)
    ensures OpOf(First(op)) == op && !HasEffect(First(op))
  {}

  /** Even with writers racing, every operation begun has taken effect once or is still to do so. */
  lemma {:induction false} EffectsAreConserved(schedule: seq<Choice>, op: ZOp)
    ensures multiset(Run(START, schedule).done)[op] + |Pending(Run(START, schedule), op)| == Begun(schedule)[op]
    decreases |schedule|
  {
    if schedule != [] {
      hide Act, Pending;
      var init, last := schedule[..|schedule| - 1], schedule[|schedule| - 1];
      EffectsAreConserved(init, op);
      var s := Run(START, init);
      match last
      case Begin(t, begun) => if t !in s.threads { BeginConserves(s, t, begun, op); }
      case Advance(t) => if t in s.threads { AdvanceConserves(s, t, op); }
    } else {
      assert Pending(START, op) == {};
    }
  }

  // The values, when no two writers of one value overlap ---------------------------------------------

  ghost predicate Alone(s: State, v: Text) {
    forall t <- s.threads :: s.threads[t].value != v
  }

  /** No operation begins while another on the same value is under way. */
  ghost predicate Disciplined(schedule: seq<Choice>) {
    schedule == [] ||
    var init, last := schedule[..|schedule| - 1], schedule[|schedule| - 1];
    Disciplined(init) && (Begins(Run(START, init), last) ==> Alone(Run(START, init), last.op.value))
  }

  ghost predicate Has(c: Scores, v: Text, k: u32) {
    v in c && c[v] == k
  }

  ghost predicate Agrees(s: State, v: Text) {
    forall k: u32 :: Has(s.index, v, k) <==> Has(Contents(s.done), v, k)
  }

  /** What the index says of a value while its one writer is at `pc`. */
  ghost predicate Midway(s: State, pc: Pc) {
    var c, v := Contents(s.done), pc.value;
    match pc
    case AddFind(_, _) => Agrees(s, v)
    case RmvTake(_) => Agrees(s, v)
    case AddMove(_, k, from) => from != k && Has(s.index, v, from) && Has(c, v, from)
    case AddReindex(_, k) => Has(c, v, k)
    case AddIndexNew(_, _) => v !in s.index && v !in c
    case AddInsert(_, k) => Has(s.index, v, k) && v !in c
    case RmvErase(_, from) => v !in s.index && Has(c, v, from)
  }

  ghost predicate Inv(s: State) {
    && Represents(s.buckets, Contents(s.done))
    && (forall t, u :: t in s.threads && u in s.threads && t != u ==> s.threads[t].value != s.threads[u].value)
    && (forall t <- s.threads :: Midway(s, s.threads[t]))
    && (forall v :: Alone(s, v) ==> Agrees(s, v))
  }

  ghost predicate Untouched(s: State, s': State, w: Text) {
    forall k: u32 ::
      && (Has(s'.index, w, k) <==> Has(s.index, w, k))
      && (Has(Contents(s'.done), w, k) <==> Has(Contents(s.done), w, k))
      && (w in BucketAt(s'.buckets, k) <==> w in BucketAt(s.buckets, k))
  }

  lemma UntouchedKeeps(s: State, s': State, pc: Pc)
    requires Untouched(s, s', pc.value)
    ensures Midway(s, pc) ==> Midway(s', pc)
    ensures Agrees(s, pc.value) ==> Agrees(s', pc.value)
  {
    hide BucketAt, Contents;
    var v := pc.value;
    if v in s.index { assert Has(s.index, v, s.index[v]); }
    if v in s'.index { assert Has(s'.index, v, s'.index[v]); }
    if v in Contents(s.done) { assert Has(Contents(s.done), v, Contents(s.done)[v]); }
    if v in Contents(s'.done) { assert Has(Contents(s'.done), v, Contents(s'.done)[v]); }
  }

  lemma ActFrame(s: State, t: Thread, w: Text)
    requires t in s.threads && w != s.threads[t].value
    ensures Untouched(s, Act(s, t), w)
  {
    hide Contents;
    ContentsAppend(s.done, OpOf(s.threads[t]));
  }

  /** The writer's own value: where the writer comes to, and that the buckets follow `done`. */
  lemma ActOwn(s: State, t: Thread)
    requires t in s.threads && Midway(s, s.threads[t]) && Shows(s.buckets, Contents(s.done), s.threads[t].value)
    ensures var s', v := Act(s, t), s.threads[t].value;
            && Shows(s'.buckets, Contents(s'.done), v)
            && if t in s'.threads then s'.threads[t].value == v && Midway(s', s'.threads[t]) else Agrees(s', v)
  {
    hide Contents, BucketAt, InsertAt, RemoveAt;
    var pc, c := s.threads[t], Contents(s.done);
    ContentsAppend(s.done, OpOf(pc));
    match pc {
      case AddMove(v, k, from) => BucketsAfter(s.buckets, from, v); BucketsAfter(RemoveAt(s.buckets, from, v), k, v);
      case AddInsert(v, k) => BucketsAfter(s.buckets, k, v);
      case RmvErase(v, from) => BucketsAfter(s.buckets, from, v);
      case _ =>
    }
    if pc.value in s.index { assert Has(s.index, pc.value, s.index[pc.value]); }
    if pc.value in c { assert Has(c, pc.value, c[pc.value]); }
  }

  lemma AdvanceKeepsInv(s: State, t: Thread)
    requires Inv(s) && t in s.threads
    ensures Inv(Act(s, t))
  {
    hide Act, Midway, Agrees, Contents, BucketAt;
    var s' := Act(s, t);
    ThreadsAfter(s, t);
    ActOwn(s, t);
    forall w ensures Shows(s'.buckets, Contents(s'.done), w) {
      if w != s.threads[t].value { ActFrame(s, t, w); ShowsStays(s, s', w); }
    }
    forall u | u in s'.threads ensures Midway(s', s'.threads[u]) {
      if u != t {
        ActFrame(s, t, s.threads[u].value);
        UntouchedKeeps(s, s', s.threads[u]);
      }
    }
    forall v | Alone(s', v) ensures Agrees(s', v) {
      if v != s.threads[t].value {
        assert Alone(s, v);
        ActFrame(s, t, v);
        UntouchedKeeps(s, s', RmvTake(v));
      }
    }
  }

  lemma ShowsStays(s: State, s': State, w: Text)
    requires Untouched(s, s', w) && Shows(s.buckets, Contents(s.done), w)
    ensures Shows(s'.buckets, Contents(s'.done), w)
  {
    hide BucketAt, Contents;
    forall k: u32
      ensures w in BucketAt(s'.buckets, k) <==> w in Contents(s'.done) && Contents(s'.done)[w] == k
    {
      assert Has(Contents(s'.done), w, k) <==> Has(Contents(s.done), w, k);
    }
  }

  lemma BeginKeepsInv(s: State, t: Thread, op: ZOp)
    requires Inv(s) && t !in s.threads && Alone(s, op.value)
    ensures Inv(Step(s, Begin(t, op)))
  {
    hide Agrees, Represents;
    var s' := Step(s, Begin(t, op));
    forall u | u in s'.threads ensures Midway(s', s'.threads[u]) {
      UntouchedKeeps(s, s', s'.threads[u]);
    }
    forall v | Alone(s', v) ensures Agrees(s', v) {
      assert forall u <- s.threads :: u in s'.threads && s'.threads[u] == s.threads[u];
      assert Alone(s, v);
      UntouchedKeeps(s, s', RmvTake(v));
    }
  }

  lemma {:induction false} DisciplinedKeepsInv(schedule: seq<Choice>)
    requires Disciplined(schedule)
    ensures Inv(Run(START, schedule))
    decreases |schedule|
  {
    if schedule == [] {
      assert Contents([]) == map[];
    } else {
      hide Inv, Act, Alone;
      var init, last := schedule[..|schedule| - 1], schedule[|schedule| - 1];
      var s := Run(START, init);
      DisciplinedKeepsInv(init);
      match last
      case Begin(t, op) => if t !in s.threads { BeginKeepsInv(s, t, op); }
      case Advance(t) => if t in s.threads { AdvanceKeepsInv(s, t); }
    }
  }

  // What range queries see -----------------------------------------------------------------------------

  /**
   At every moment a range query lists exactly what the operations that have taken effect leave: a
   value being moved is listed once, under its old score or its new one.
   */
  lemma QueriesAreSequential(schedule: seq<Choice>, r: seq<ScoreValue>, min: u32, max: u32)
    requires Disciplined(schedule) && Lists(r, Run(START, schedule).buckets, min, max)
    ensures ListsEntries(r, Contents(Run(START, schedule).done), min, max)
  {
    var s := Run(START, schedule);
    DisciplinedKeepsInv(schedule);
    ListingIsExact(r, s.buckets, Contents(s.done), min, max);
  }

  /** Between two scores of the range, a value on the move is never missed and never doubled. */
  lemma MovedValueIsListedOnce(schedule: seq<Choice>, t: Thread, r: seq<ScoreValue>, min: u32, max: u32)
    requires Disciplined(schedule) && t in Run(START, schedule).threads
    requires Lists(r, Run(START, schedule).buckets, min, max)
    requires var pc := Run(START, schedule).threads[t];
             pc.AddMove? && min <= pc.score <= max && min <= pc.from <= max
    ensures var s := Run(START, schedule);
            var pc := s.threads[t];
            && ScoreValue(pc.from, pc.value) in r && ScoreValue(pc.score, pc.value) !in r
            && forall r' :: Lists(r', Act(s, t).buckets, min, max) ==>
                              ScoreValue(pc.from, pc.value) !in r' && ScoreValue(pc.score, pc.value) in r'
  {
    hide Lists, Disciplined, Run;
    var s := Run(START, schedule);
    DisciplinedKeepsInv(schedule);
    assert Midway(s, s.threads[t]);
    ListingIsExact(r, s.buckets, Contents(s.done), min, max);
    AdvanceKeepsInv(s, t);
    var s' := Act(s, t);
    ContentsAppend(s.done, OpOf(s.threads[t]));
    forall r' | Lists(r', s'.buckets, min, max)
      ensures ScoreValue(s.threads[t].from, s.threads[t].value) !in r'
      ensures ScoreValue(s.threads[t].score, s.threads[t].value) in r'
    {
      ListingIsExact(r', s'.buckets, Contents(s'.done), min, max);
    }
  }

  /** What has taken effect stays in order, so an operation that ended before another began comes before it. */
  lemma {:induction false} EffectsOnlyGrow(before: seq<Choice>, after: seq<Choice>)
    ensures Run(START, before).done <= Run(START, before + after).done
    decreases |after|
  {
    if after == [] {
      assert before + after == before;
    } else {
      hide Act;
      var whole := before + after;
      var init, last := whole[..|whole| - 1], whole[|whole| - 1];
      assert init == before + after[..|after| - 1];
      EffectsOnlyGrow(before, after[..|after| - 1]);
      var s := Run(START, init);
      if last.Advance? && last.thread in s.threads { EffectIsOnce(s, last.thread); }
    }
  }
}
