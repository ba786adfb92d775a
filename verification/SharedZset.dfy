/**
 The sorted set that threads share. The index from value to score is a concurrent map of atomic
 operations, the buckets are guarded by a mutex, and one addition takes the mutex twice. Threads are
 interleaved between any two of the steps below; `log` lists the operations in the order they ended.
 */
module SharedZset {
  import opened Values
  import opened FlatMap
  import opened ZsetSpec
  import opened SingleThreadZset

  type Thread = nat
  datatype Mutex = Free | HeldBy(thread: Thread)

  /** Where a thread is. `from` is the score its lookup found; `*Erase`, `*Prune`, `AddOpen` and `AddEmplace` hold the mutex. */
  datatype Pc =
    | AddFind(value: Text, score: u32)
    | AddLockOld(value: Text, score: u32, from: u32)
    | AddErase(value: Text, score: u32, from: u32)
    | AddPrune(value: Text, score: u32, from: u32)
    | AddLockNew(value: Text, score: u32)
    | AddOpen(value: Text, score: u32)
    | AddEmplace(value: Text, score: u32)
    | AddDropIndex(value: Text, score: u32)
    | AddSetIndex(value: Text, score: u32)
    | RmvFind(value: Text)
    | RmvLock(value: Text, from: u32)
    | RmvErase(value: Text, from: u32)
    | RmvPrune(value: Text, from: u32)

  datatype State = State(
    index: Scores, buckets: seq<Bucket>, mutex: Mutex, threads: map<Thread, Pc>, log: seq<ZOp>)

  const START := State(map[], [], Free, map[], [])

  /** A scheduling choice: an idle thread begins an operation, or a busy one takes its next step. */
  datatype Choice = Begin(thread: Thread, op: ZOp) | Advance(thread: Thread)

  datatype Next = Blocked | To(state: State)

  function At(s: State, t: Thread, pc: Pc): Next {
    To(s.(threads := s.threads[t := pc]))
  }

  function Finish(s: State, t: Thread, op: ZOp): Next {
    To(s.(threads := s.threads - {t}, log := s.log + [op]))
  }

  function Lock(s: State, t: Thread, pc: Pc): Next {
    if s.mutex == Free then At(s.(mutex := HeldBy(t)), t, pc) else Blocked
  }

  /** The value is taken out of the bucket of that score, which is made first if there is none. */
  function EraseValue(m: seq<Bucket>, k: u32, v: Text): seq<Bucket> {
    var open := Open(m, k);
    SetValues(open, k, ValuesAt(open, k) - {v})
  }

  /** The bucket is dropped if it holds nothing. */
  function Prune(m: seq<Bucket>, k: u32): seq<Bucket> {
    if ValuesAt(m, k) == {} then Erase(m, k) else m
  }

  function Act(s: State, t: Thread): Next
    requires t in s.threads
  {
    match s.threads[t]
    case AddFind(v, k) => if v in s.index then At(s, t, AddLockOld(v, k, s.index[v])) else At(s, t, AddLockNew(v, k))
    case AddLockOld(v, k, from) => Lock(s, t, AddErase(v, k, from))
    case AddErase(v, k, from) => At(s.(buckets := EraseValue(s.buckets, from, v)), t, AddPrune(v, k, from))
    case AddPrune(v, k, from) => At(s.(buckets := Prune(s.buckets, from), mutex := Free), t, AddLockNew(v, k))
    case AddLockNew(v, k) => Lock(s, t, AddOpen(v, k))
    case AddOpen(v, k) => At(s.(buckets := Open(s.buckets, k)), t, AddEmplace(v, k))
    case AddEmplace(v, k) =>
      At(s.(buckets := SetValues(s.buckets, k, ValuesAt(s.buckets, k) + {v}), mutex := Free), t, AddDropIndex(v, k))
    case AddDropIndex(v, k) => At(s.(index := s.index - {v}), t, AddSetIndex(v, k))
    case AddSetIndex(v, k) => Finish(if v in s.index then s else s.(index := s.index[v := k]), t, Put(v, k))
    case RmvFind(v) => if v in s.index then At(s, t, RmvLock(v, s.index[v])) else Finish(s, t, Drop(v))
    case RmvLock(v, from) => Lock(s, t, RmvErase(v, from))
    case RmvErase(v, from) => At(s.(buckets := EraseValue(s.buckets, from, v)), t, RmvPrune(v, from))
    case RmvPrune(v, from) => Finish(s.(buckets := Prune(s.buckets, from), mutex := Free), t, Drop(v))
  }

  function Step(s: State, c: Choice): Next {
    match c
    case Begin(t, op) =>
      if t in s.threads then Blocked
      else At(s, t, if op.Put? then AddFind(op.value, op.score) else RmvFind(op.value))
    case Advance(t) => if t in s.threads then Act(s, t) else Blocked
  }

  /** The choice begins an operation; a thread that is busy cannot. */
  predicate Begins(s: State, c: Choice) {
    c.Begin? && c.thread !in s.threads
  }

  /** The state after a schedule; a choice that is blocked when its turn comes changes nothing. */
  function Run(s: State, schedule: seq<Choice>): State {
    if schedule == [] then s
    else
      var before := Run(s, schedule[..|schedule| - 1]);
      var next := Step(before, schedule[|schedule| - 1]);
      if next.To? then next.state else before
  }

  /** The operations begun in a schedule. */
  function Begun(schedule: seq<Choice>): multiset<ZOp> {
    if schedule == [] then multiset{}
    else
      var init, last := schedule[..|schedule| - 1], schedule[|schedule| - 1];
      Begun(init) + if Begins(Run(START, init), last) then multiset{last.op} else multiset{}
  }

  // The buckets, whatever the interleaving ---------------------------------------------------------------

  predicate HoldsMutex(pc: Pc) {
    pc.AddErase? || pc.AddPrune? || pc.AddOpen? || pc.AddEmplace? || pc.RmvErase? || pc.RmvPrune?
  }

  /** The bucket that a thread in the middle of its critical section may have left empty. */
  predicate MayBeEmpty(pc: Pc, k: u32) {
    match pc
    case AddPrune(_, _, from) => k == from
    case RmvPrune(_, from) => k == from
    case AddEmplace(_, score) => k == score
    case _ => false
  }

  ghost predicate BucketsInv(s: State) {
    && Ascending(s.buckets)
    && (forall t <- s.threads :: HoldsMutex(s.threads[t]) <==> s.mutex == HeldBy(t))
    && (s.mutex.HeldBy? ==> s.mutex.thread in s.threads)
    && (forall b <- s.buckets :: b.values == {} ==> s.mutex.HeldBy? && MayBeEmpty(s.threads[s.mutex.thread], b.score))
    && (forall t <- s.threads :: s.threads[t].AddEmplace? ==> HasScore(s.buckets, s.threads[t].score))
  }

  /** Erasing leaves at most the erased value's own bucket empty. */
  lemma EraseValueSpec(m: seq<Bucket>, k: u32, v: Text)
    requires Ascending(m)
    ensures var r := EraseValue(m, k, v);
            && Ascending(r)
            && (forall j: u32 :: ValuesAt(r, j) == if j == k then ValuesAt(m, k) - {v} else ValuesAt(m, j))
            && (forall b <- r :: b.values == {} ==> b.score == k || b in m)
  {
    OpenSpec(m, k);
    SetValuesSpec(Open(m, k), k, ValuesAt(Open(m, k), k) - {v});
  }

  lemma PruneSpec(m: seq<Bucket>, k: u32)
    requires Ascending(m)
    ensures var r := Prune(m, k);
            && Ascending(r) && (forall j: u32 :: ValuesAt(r, j) == ValuesAt(m, j))
            && (forall b <- r :: b in m && (b.values == {} ==> b.score != k))
  {
    EraseSpec(m, k);
    forall b | b in m && b.score == k ensures b.values == ValuesAt(m, k) { ValuesOf(m, b); }
  }

  lemma BucketsChange(s: State, t: Thread)
    requires BucketsInv(s) && t in s.threads && HoldsMutex(s.threads[t])
    ensures Act(s, t).To? && BucketsInv(Act(s, t).state)
  {
    hide Ascending, ValuesAt, HasScore, Open, SetValues, Erase, EraseValue, Prune;
    match s.threads[t]
    case AddErase(v, k, from) => EraseValueSpec(s.buckets, from, v);
    case RmvErase(v, from) => EraseValueSpec(s.buckets, from, v);
    case AddPrune(v, k, from) => PruneSpec(s.buckets, from);
    case RmvPrune(v, from) => PruneSpec(s.buckets, from);
    case AddOpen(v, k) => OpenSpec(s.buckets, k);
    case AddEmplace(v, k) => SetValuesSpec(s.buckets, k, ValuesAt(s.buckets, k) + {v});
  }

  lemma BucketsStay(s: State, t: Thread)
    requires BucketsInv(s) && t in s.threads && !HoldsMutex(s.threads[t]) && Act(s, t).To?
    ensures BucketsInv(Act(s, t).state) && Act(s, t).state.buckets == s.buckets
  {
    hide Ascending, ValuesAt, HasScore, Open, SetValues, Erase, EraseValue, Prune;
  }

  lemma BucketsStep(s: State, c: Choice)
    requires BucketsInv(s) && Step(s, c).To?
    ensures BucketsInv(Step(s, c).state)
  {
    hide Act;
    if c.Advance? {
      hide BucketsInv;
      if HoldsMutex(s.threads[c.thread]) { BucketsChange(s, c.thread); } else { BucketsStay(s, c.thread); }
    }
  }

  lemma {:induction false} RunKeepsBuckets(schedule: seq<Choice>)
    ensures BucketsInv(Run(START, schedule))
    decreases |schedule|
  {
    if schedule != [] {
      hide BucketsInv, Step;
      var init, last := schedule[..|schedule| - 1], schedule[|schedule| - 1];
      RunKeepsBuckets(init);
      if Step(Run(START, init), last).To? { BucketsStep(Run(START, init), last); }
    }
  }

  /** Even with writers racing on one value: while the mutex is free, scores ascend strictly and no bucket is empty. */
  lemma FreeMeansTidy(schedule: seq<Choice>)
    requires Run(START, schedule).mutex == Free
    ensures Ascending(Run(START, schedule).buckets) && NoneEmpty(Run(START, schedule).buckets)
  {
    RunKeepsBuckets(schedule);
  }

  /** The threads never block each other for good: while an operation is under way, some thread can take a step. */
  lemma NeverStuck(schedule: seq<Choice>)
    requires Run(START, schedule).threads != map[]
    ensures exists t :: Step(Run(START, schedule), Advance(t)).To?
  {
    var s := Run(START, schedule);
    RunKeepsBuckets(schedule);
    if s.mutex.HeldBy? {
      BucketsChange(s, s.mutex.thread);
      assert Step(s, Advance(s.mutex.thread)).To?;
    } else {
      var t :| t in s.threads;
      assert Step(s, Advance(t)).To?;
    }
  }

  // The values, when no two writers of one value overlap -----------------------------------------------------

  ghost predicate Alone(s: State, v: Text) {
    forall t <- s.threads :: s.threads[t].value != v
  }

  /** No operation begins while another on the same value is under way. */
  ghost predicate Disciplined(schedule: seq<Choice>) {
    schedule == [] ||
    var init, last := schedule[..|schedule| - 1], schedule[|schedule| - 1];
    Disciplined(init) && (Begins(Run(START, init), last) ==> Alone(Run(START, init), last.op.value))
  }

  /** The value is in exactly the bucket where the log says it is, or in none. */
  ghost predicate Shows(s: State, v: Text) {
    forall k: u32 :: v in ValuesAt(s.buckets, k) <==> v in Contents(s.log) && Contents(s.log)[v] == k
  }

  ghost predicate ShowsOnly(s: State, v: Text, score: u32) {
    forall k: u32 :: v in ValuesAt(s.buckets, k) <==> k == score
  }

  ghost predicate ShowsNot(s: State, v: Text) {
    forall k: u32 :: v !in ValuesAt(s.buckets, k)
  }

  /** The index knows the score of a value that is in the set; of others it may say anything. */
  ghost predicate Indexed(s: State, v: Text) {
    v in Contents(s.log) ==> v in s.index && s.index[v] == Contents(s.log)[v]
  }

  ghost predicate Settled(s: State, v: Text) {
    Shows(s, v) && Indexed(s, v)
  }

  ghost predicate LookedUp(s: State, v: Text, from: u32) {
    Shows(s, v) && (v in Contents(s.log) ==> Contents(s.log)[v] == from)
  }

  /** What holds of a value while its one writer is at `pc`. */
  ghost predicate Midway(s: State, pc: Pc) {
    match pc
    case AddFind(v, _) => Settled(s, v)
    case RmvFind(v) => Settled(s, v)
    case AddLockOld(v, _, from) => LookedUp(s, v, from)
    case AddErase(v, _, from) => LookedUp(s, v, from)
    case RmvLock(v, from) => LookedUp(s, v, from)
    case RmvErase(v, from) => LookedUp(s, v, from)
    case AddDropIndex(v, k) => ShowsOnly(s, v, k)
    case AddSetIndex(v, k) => ShowsOnly(s, v, k) && v !in s.index
    case _ => ShowsNot(s, pc.value)
  }

  ghost predicate ValuesInv(s: State) {
    && (forall t, u :: t in s.threads && u in s.threads && t != u ==> s.threads[t].value != s.threads[u].value)
    && (forall t <- s.threads :: Midway(s, s.threads[t]))
    && (forall v :: Alone(s, v) ==> Settled(s, v))
  }

  /** A step of a writer of another value changes nothing about this one. */
  ghost predicate Untouched(s: State, s': State, w: Text) {
    && (forall k: u32 :: w in ValuesAt(s'.buckets, k) <==> w in ValuesAt(s.buckets, k))
    && (w in s'.index <==> w in s.index) && (w in s.index ==> s'.index[w] == s.index[w])
    && (w in Contents(s'.log) <==> w in Contents(s.log))
    && (w in Contents(s.log) ==> Contents(s'.log)[w] == Contents(s.log)[w])
  }

  lemma UntouchedKeeps(s: State, s': State, pc: Pc)
    requires Untouched(s, s', pc.value)
    ensures Midway(s, pc) ==> Midway(s', pc)
    ensures Settled(s, pc.value) ==> Settled(s', pc.value)
  {
    hide ValuesAt, Contents;
  }

  lemma ActFrame(s: State, t: Thread, w: Text)
    requires BucketsInv(s) && t in s.threads && Act(s, t).To? && w != s.threads[t].value
    ensures Untouched(s, Act(s, t).state, w)
  {
    hide Ascending, ValuesAt, HasScore, Open, SetValues, Erase, EraseValue, Prune, Contents;
    match s.threads[t]
    case AddErase(v, k, from) => EraseValueSpec(s.buckets, from, v);
    case RmvErase(v, from) => EraseValueSpec(s.buckets, from, v);
    case AddPrune(v, k, from) => PruneSpec(s.buckets, from);
    case RmvPrune(v, from) => PruneSpec(s.buckets, from); ContentsAppend(s.log, Drop(v));
    case AddOpen(v, k) => OpenSpec(s.buckets, k);
    case AddEmplace(v, k) => SetValuesSpec(s.buckets, k, ValuesAt(s.buckets, k) + {v});
    case AddSetIndex(v, k) => ContentsAppend(s.log, Put(v, k));
    case RmvFind(v) => ContentsAppend(s.log, Drop(v));
    case _ =>
  }

  ghost predicate Follows(s: State, t: Thread, s': State)
    requires t in s.threads
  {
    if t in s'.threads then s'.threads[t].value == s.threads[t].value && Midway(s', s'.threads[t])
    else Settled(s', s.threads[t].value)
  }

  lemma AddSectionFollows(s: State, t: Thread)
    requires BucketsInv(s) && t in s.threads && Midway(s, s.threads[t])
    requires var pc := s.threads[t]; pc.AddErase? || pc.AddPrune? || pc.AddOpen? || pc.AddEmplace?
    ensures Follows(s, t, Act(s, t).state)
  {
    hide Ascending, ValuesAt, HasScore, Open, SetValues, Erase, EraseValue, Prune, Contents;
    match s.threads[t]
    case AddErase(v, k, from) => EraseValueSpec(s.buckets, from, v);
    case AddPrune(v, k, from) => PruneSpec(s.buckets, from);
    case AddOpen(v, k) => OpenSpec(s.buckets, k);
    case AddEmplace(v, k) => SetValuesSpec(s.buckets, k, ValuesAt(s.buckets, k) + {v});
  }

  lemma RmvSectionFollows(s: State, t: Thread)
    requires BucketsInv(s) && t in s.threads && Midway(s, s.threads[t])
    requires s.threads[t].RmvErase? || s.threads[t].RmvPrune?
    ensures Follows(s, t, Act(s, t).state)
  {
    hide Ascending, ValuesAt, HasScore, Open, SetValues, Erase, EraseValue, Prune, Contents;
    match s.threads[t]
    case RmvErase(v, from) => EraseValueSpec(s.buckets, from, v);
    case RmvPrune(v, from) => PruneSpec(s.buckets, from); ContentsAppend(s.log, Drop(v));
  }

  lemma OutsideFollows(s: State, t: Thread)
    requires t in s.threads && Act(s, t).To? && Midway(s, s.threads[t]) && !HoldsMutex(s.threads[t])
    ensures Follows(s, t, Act(s, t).state)
  {
    hide ValuesAt, Open, SetValues, Erase, EraseValue, Prune, Contents;
    match s.threads[t]
    case AddSetIndex(v, k) => ContentsAppend(s.log, Put(v, k));
    case RmvFind(v) => ContentsAppend(s.log, Drop(v));
    case _ =>
  }

  /** The writer's own value follows the writer. */
  lemma ActOwn(s: State, t: Thread)
    requires BucketsInv(s) && t in s.threads && Act(s, t).To? && Midway(s, s.threads[t])
    ensures Follows(s, t, Act(s, t).state)
  {
    hide Act, BucketsInv, Midway, Follows;
    var pc := s.threads[t];
    if pc.RmvErase? || pc.RmvPrune? {
      RmvSectionFollows(s, t);
    } else if HoldsMutex(pc) {
      AddSectionFollows(s, t);
    } else {
      OutsideFollows(s, t);
    }
  }

  lemma ThreadsAfter(s: State, t: Thread)
    requires t in s.threads && Act(s, t).To?
    ensures var s' := Act(s, t).state;
            && (forall u :: u != t ==> (u in s'.threads <==> u in s.threads))
            && (forall u :: u != t && u in s.threads ==> s'.threads[u] == s.threads[u])
            && (t in s'.threads ==> s'.threads[t].value == s.threads[t].value)
  {
    hide Open, SetValues, Erase, EraseValue, Prune, ValuesAt;
  }

  lemma ValuesAdvance(s: State, t: Thread)
    requires BucketsInv(s) && ValuesInv(s) && t in s.threads && Act(s, t).To?
    ensures ValuesInv(Act(s, t).state)
  {
    hide BucketsInv, Act, Midway, Settled, Untouched;
    var s' := Act(s, t).state;
    ThreadsAfter(s, t);
    ActOwn(s, t);
    forall u | u in s'.threads ensures Midway(s', s'.threads[u]) {
      if u != t {
        ActFrame(s, t, s.threads[u].value);
        UntouchedKeeps(s, s', s.threads[u]);
      }
    }
    forall v | Alone(s', v) ensures Settled(s', v) {
      if v != s.threads[t].value {
        assert Alone(s, v);
        ActFrame(s, t, v);
        UntouchedKeeps(s, s', RmvFind(v));
      } else {
        assert t !in s'.threads;
      }
    }
  }

  lemma ValuesBegin(s: State, t: Thread, op: ZOp)
    requires ValuesInv(s) && t !in s.threads && Alone(s, op.value)
    ensures ValuesInv(Step(s, Begin(t, op)).state)
  {
    hide Settled;
    var s' := Step(s, Begin(t, op)).state;
    forall u | u in s'.threads ensures Midway(s', s'.threads[u]) {
      UntouchedKeeps(s, s', s'.threads[u]);
    }
    forall v | Alone(s', v) ensures Settled(s', v) {
      assert s'.threads[t].value == op.value;
      assert forall u <- s.threads :: u in s'.threads && s'.threads[u] == s.threads[u];
      assert Alone(s, v);
      UntouchedKeeps(s, s', RmvFind(v));
    }
  }

  lemma {:induction false} DisciplinedKeepsValues(schedule: seq<Choice>)
    requires Disciplined(schedule)
    ensures ValuesInv(Run(START, schedule))
    decreases |schedule|
  {
    if schedule != [] {
      hide BucketsInv, ValuesInv, Act, Alone;
      var init, last := schedule[..|schedule| - 1], schedule[|schedule| - 1];
      var s := Run(START, init);
      DisciplinedKeepsValues(init);
      RunKeepsBuckets(init);
      if Step(s, last).To? {
        match last
        case Begin(t, op) => ValuesBegin(s, t, op);
        case Advance(t) => ValuesAdvance(s, t);
      }
    }
  }

  // What range queries see ---------------------------------------------------------------------------------

  /** A range query holds the mutex with other readers, so it sees the buckets as no writer is changing them. */
  function Snapshot(s: State, min: u32, max: u32): seq<Bucket>
    requires s.mutex == Free
  {
    Within(s.buckets, min, max)
  }

  /**
   A value being moved is in neither bucket exactly while its writer is between its two critical
   sections: until then queries see it where the log has it, afterwards where the writer puts it.
   */
  lemma MovedValueIsHidden(schedule: seq<Choice>, t: Thread, k: u32)
    requires Disciplined(schedule) && Run(START, schedule).mutex == Free && t in Run(START, schedule).threads
    ensures var s := Run(START, schedule);
            var pc := s.threads[t];
            var listed := pc.value in ValuesAt(Snapshot(s, k, k), k);
            if pc.AddLockNew? then !listed
            else if pc.AddDropIndex? || pc.AddSetIndex? then listed <==> k == pc.score
            else listed <==> pc.value in Contents(s.log) && Contents(s.log)[pc.value] == k
  {
    var s := Run(START, schedule);
    RunKeepsBuckets(schedule);
    DisciplinedKeepsValues(schedule);
    WithinSpec(s.buckets, k, k);
    assert Midway(s, s.threads[t]);
    assert !HoldsMutex(s.threads[t]);
  }

  /** Where a value shows while its one writer is at `pc`: between its critical sections nowhere, behind them at its new score. */
  function ShownAt(pc: Pc, finished: Option<u32>): Option<u32> {
    match pc
    case AddLockNew(_, _) => None
    case AddDropIndex(_, k) => Some(k)
    case AddSetIndex(_, k) => Some(k)
    case _ => finished
  }

  ghost function Shown(s: State, v: Text): Option<u32> {
    var finished := Lookup(Contents(s.log), v);
    if Alone(s, v) then finished
    else
      var t :| t in s.threads && s.threads[t].value == v;
      ShownAt(s.threads[t], finished)
  }

  /** What a query can see: what the finished operations leave, but for values that are under change. */
  ghost function Visible(s: State): Scores {
    var values := Contents(s.log).Keys + set t | t in s.threads :: s.threads[t].value;
    map v | v in values && Shown(s, v).Some? :: Shown(s, v).value
  }

  lemma VisibleIs(s: State, v: Text)
    ensures Lookup(Visible(s), v) == Shown(s, v)
  {
    hide Contents;
    if Alone(s, v) {
    } else {
      var t :| t in s.threads && s.threads[t].value == v;
      assert v in (set t | t in s.threads :: s.threads[t].value);
    }
  }

  /** With the mutex free a value is in the bucket where it shows and in no other. */
  lemma ShownInBucket(s: State, v: Text)
    requires BucketsInv(s) && ValuesInv(s) && s.mutex == Free
    ensures forall k: u32 :: v in ValuesAt(s.buckets, k) <==> Shown(s, v) == Some(k)
  {
    hide ValuesAt, Contents;
    if Alone(s, v) {
      assert Settled(s, v);
    } else {
      var t :| t in s.threads && s.threads[t].value == v && Shown(s, v) == ShownAt(s.threads[t], Lookup(Contents(s.log), v));
      assert Midway(s, s.threads[t]) && !HoldsMutex(s.threads[t]);
    }
  }

  /** Whatever is under way, a range query is the range of what is visible: it misses and adds nothing else. */
  lemma SnapshotIsVisibleRange(schedule: seq<Choice>, min: u32, max: u32)
    requires Disciplined(schedule) && Run(START, schedule).mutex == Free
    ensures var s := Run(START, schedule); Snapshot(s, min, max) == Range(Visible(s), min, max)
  {
    hide BucketsInv, ValuesInv, Visible, Shown;
    var s := Run(START, schedule);
    FreeMeansTidy(schedule);
    RunKeepsBuckets(schedule);
    DisciplinedKeepsValues(schedule);
    forall v, k: u32 ensures v in ValuesAt(s.buckets, k) <==> v in Visible(s) && Visible(s)[v] == k {
      ShownInBucket(s, v);
      VisibleIs(s, v);
    }
    WithinIsRange(s.buckets, Visible(s), min, max);
  }

  /**
   A query over all scores misses a value of the set exactly while the value's writer is between its
   two critical sections.
   */
  lemma MissedExactly(schedule: seq<Choice>, v: Text)
    requires Disciplined(schedule) && Run(START, schedule).mutex == Free
    requires v in Contents(Run(START, schedule).log)
    ensures var s := Run(START, schedule);
            (forall b <- Snapshot(s, 0, 0xFFFF_FFFF) :: v !in b.values) <==>
            exists t <- s.threads :: s.threads[t].AddLockNew? && s.threads[t].value == v
  {
    hide Disciplined, Run, Range, Visible;
    var s := Run(START, schedule);
    SnapshotIsVisibleRange(schedule, 0, 0xFFFF_FFFF);
    RangeListsEachOnce(Visible(s), 0, 0xFFFF_FFFF);
    VisibleIs(s, v);
    ShownUnlessBetween(schedule, v);
    var r := Range(Visible(s), 0, 0xFFFF_FFFF);
    if v in Visible(s) {
      assert Bucket(Visible(s)[v], set w | w in Visible(s) && Visible(s)[w] == Visible(s)[v]) in r;
    }
  }

  /** What the set has in a range is visible, if perhaps at a new score, exactly when no writer between its sections holds any of it. */
  lemma NothingMissedExactly(schedule: seq<Choice>, min: u32, max: u32)
    requires Disciplined(schedule)
    ensures var s := Run(START, schedule);
            (forall v <- Contents(s.log) :: min <= Contents(s.log)[v] <= max ==> v in Visible(s)) <==>
            forall t <- s.threads :: s.threads[t].AddLockNew? && s.threads[t].value in Contents(s.log) ==>
                                       !(min <= Contents(s.log)[s.threads[t].value] <= max)
  {
    hide Disciplined, Run, Visible, Contents;
    var s := Run(START, schedule);
    forall v | v in Contents(s.log)
      ensures v !in Visible(s) <==> exists t <- s.threads :: s.threads[t].AddLockNew? && s.threads[t].value == v
    {
      VisibleIs(s, v);
      ShownUnlessBetween(schedule, v);
    }
  }

  lemma ShownUnlessBetween(schedule: seq<Choice>, v: Text)
    requires Disciplined(schedule) && v in Contents(Run(START, schedule).log)
    ensures var s := Run(START, schedule);
            Shown(s, v).None? <==> exists t <- s.threads :: s.threads[t].AddLockNew? && s.threads[t].value == v
  {
    hide Disciplined, Run, Contents;
    DisciplinedKeepsValues(schedule);
  }

  // What goes wrong otherwise -------------------------------------------------------------------------------

  lemma Then(schedule: seq<Choice>, c: Choice) returns (longer: seq<Choice>)
    requires Step(Run(START, schedule), c).To?
    ensures Run(START, longer) == Step(Run(START, schedule), c).state
    ensures Disciplined(longer) <==>
            Disciplined(schedule) && (Begins(Run(START, schedule), c) ==> Alone(Run(START, schedule), c.op.value))
    ensures Begun(longer) == Begun(schedule) + if Begins(Run(START, schedule), c) then multiset{c.op} else multiset{}
  {
    longer := schedule + [c];
    assert longer[..|longer| - 1] == schedule;
  }

  lemma SetOnly(k: u32, before: set<Text>, after: set<Text>)
    ensures SetValues([Bucket(k, before)], k, after) == [Bucket(k, after)]
  {}

  /** An addition that waits for the mutex while there are no buckets: its critical section. */
  lemma Emplace(schedule: seq<Choice>, t: Thread, v: Text, k: u32) returns (longer: seq<Choice>)
    requires var s := Run(START, schedule);
             s.mutex == Free && s.buckets == [] && t in s.threads && s.threads[t] == AddLockNew(v, k)
    ensures Disciplined(longer) == Disciplined(schedule) && Begun(longer) == Begun(schedule)
    ensures var s := Run(START, schedule);
            Run(START, longer) == s.(buckets := [Bucket(k, {v})], threads := s.threads[t := AddDropIndex(v, k)])
  {
    hide Disciplined, Run, Begun;
    SetOnly(k, {}, {} + {v});
    assert {} + {v} == {v};
    longer := Then(schedule, Advance(t));
    longer := Then(longer, Advance(t));
    longer := Then(longer, Advance(t));
  }

  /** An addition behind its critical sections: the index. */
  lemma SetIndex(schedule: seq<Choice>, t: Thread, v: Text, k: u32) returns (longer: seq<Choice>)
    requires t in Run(START, schedule).threads && Run(START, schedule).threads[t] == AddDropIndex(v, k)
    ensures Disciplined(longer) == Disciplined(schedule) && Begun(longer) == Begun(schedule)
    ensures var s := Run(START, schedule);
            Run(START, longer) == s.(index := s.index[v := k], threads := s.threads - {t}, log := s.log + [Put(v, k)])
  {
    hide Disciplined, Run, Begun;
    longer := Then(schedule, Advance(t));
    longer := Then(longer, Advance(t));
    var s := Run(START, schedule);
    assert (s.index - {v})[v := k] == s.index[v := k];
    assert s.threads[t := AddSetIndex(v, k)] - {t} == s.threads - {t};
  }

  /** An addition that takes its value, the only one there is, out of its old bucket. */
  lemma Vacate(schedule: seq<Choice>, t: Thread, v: Text, k: u32, from: u32) returns (longer: seq<Choice>)
    requires var s := Run(START, schedule);
             s.mutex == Free && s.buckets == [Bucket(from, {v})] && t in s.threads && s.threads[t] == AddLockOld(v, k, from)
    ensures Disciplined(longer) == Disciplined(schedule) && Begun(longer) == Begun(schedule)
    ensures var s := Run(START, schedule);
            Run(START, longer) == s.(buckets := [], threads := s.threads[t := AddLockNew(v, k)])
  {
    hide Disciplined, Run, Begun;
    EmptiedBucket(v, from);
    longer := Then(schedule, Advance(t));
    longer := Then(longer, Advance(t));
    longer := Then(longer, Advance(t));
  }

  lemma EmptiedBucket(v: Text, k: u32)
    ensures EraseValue([Bucket(k, {v})], k, v) == [Bucket(k, {})]
    ensures Prune([Bucket(k, {})], k) == []
  {
    SetOnly(k, {v}, {v} - {v});
    assert {v} - {v} == {};
    assert [Bucket(k, {})][1..] == [];
  }

  lemma AddAlone(v: Text, k: u32) returns (schedule: seq<Choice>)
    ensures Disciplined(schedule) && Begun(schedule) == multiset{Put(v, k)}
    ensures Run(START, schedule) == State(map[v := k], [Bucket(k, {v})], Free, map[], [Put(v, k)])
  {
    hide Disciplined, Run, Begun;
    StartRuns();
    schedule := Then([], Begin(0, Put(v, k)));
    schedule := Then(schedule, Advance(0));
    schedule := Emplace(schedule, 0, v, k);
    schedule := SetIndex(schedule, 0, v, k);
  }

  lemma StartRuns()
    ensures Run(START, []) == START && Disciplined([]) && Begun([]) == multiset{}
  {}

  /** A query between the two critical sections misses a value that is in the set before and after. */
  lemma MoveCanBeMissed(v: Text, from: u32, k: u32) returns (schedule: seq<Choice>)
    ensures Disciplined(schedule) && Begun(schedule) == multiset{Put(v, from), Put(v, k)}
    ensures var s := Run(START, schedule);
            && s.mutex == Free && s.buckets == [] && Contents(s.log) == map[v := from]
            && s.threads == map[0 := AddLockNew(v, k)]
  {
    hide Disciplined, Run, Begun;
    schedule := AddAlone(v, from);
    schedule := Then(schedule, Begin(0, Put(v, k)));
    schedule := Then(schedule, Advance(0));
    schedule := Vacate(schedule, 0, v, k, from);
    assert Contents([Put(v, from)]) == ApplyOp(Contents([]), Put(v, from));
  }
}
