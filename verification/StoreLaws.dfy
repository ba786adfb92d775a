/**
 What clients see of a store, told from the requests alone: every answer in a run is the one that the
 earlier requests on its key call for, whether the store is one or sharded.
 */
module StoreLaws {
  import opened Values
  import opened FlatMap
  import opened ZsetSpec
  import opened StoreSpec
  import opened Sharding

  // Keys by their history --------------------------------------------------------------------------------

  /** The request gives the key its plain value, or none, and with it the key begins anew. */
  predicate Resets(op: Op, key: Text) {
    (op.AddOp? || op.DelOp?) && op.key == key
  }

  /** Nothing from `i` on resets the key. */
  ghost predicate NotResetFrom(ops: seq<Op>, i: nat, key: Text) {
    forall j :: i <= j < |ops| ==> !Resets(ops[j], key)
  }

  /** The last request that resets the key adds it with this value. */
  ghost predicate Stored(ops: seq<Op>, key: Text, value: Text) {
    exists i :: 0 <= i < |ops| && ops[i] == AddOp(key, value) && NotResetFrom(ops, i + 1, key)
  }

  ghost predicate IsPlain(ops: seq<Op>, key: Text) {
    exists value :: Stored(ops, key, value)
  }

  /** Since the key was last reset, which was no addition, something was added to its set. */
  ghost predicate IsSet(ops: seq<Op>, key: Text) {
    !IsPlain(ops, key) && exists i :: SetAt(ops, key, i)
  }

  ghost predicate SetAt(ops: seq<Op>, key: Text, i: int) {
    0 <= i < |ops| && ops[i].ZAddOp? && ops[i].key == key && NotResetFrom(ops, i, key)
  }

  /** The request gives a value of a set its score, or takes it out. */
  predicate Touches(op: Op, key: Text, value: Text) {
    (op.ZAddOp? || op.ZRmvOp?) && op.key == key && op.value == value
  }

  /** Since the key was last reset, which was no addition, the last request on the value gives it this score. */
  ghost predicate Scored(ops: seq<Op>, key: Text, value: Text, score: u32) {
    !IsPlain(ops, key) && exists i :: ScoredAt(ops, key, value, score, i)
  }

  ghost predicate ScoredAt(ops: seq<Op>, key: Text, value: Text, score: u32, i: int) {
    && 0 <= i < |ops| && ops[i] == ZAddOp(key, value, score) && NotResetFrom(ops, i, key)
    && forall j :: i < j < |ops| ==> !Touches(ops[j], key, value)
  }

  // Answers by history ------------------------------------------------------------------------------------

  /** The buckets list, by ascending score, exactly the entries with scores in the range. */
  ghost predicate ListsScored(buckets: seq<Bucket>, ops: seq<Op>, key: Text, min: u32, max: u32) {
    && (forall i, j :: 0 <= i < j < |buckets| ==> buckets[i].score < buckets[j].score)
    && (forall b <- buckets :: b.values != {})
    && (forall b <- buckets, v :: v in b.values ==> min <= b.score <= max && Scored(ops, key, v, b.score))
    && (forall v, k: u32 :: Scored(ops, key, v, k) && min <= k <= max ==> exists b <- buckets :: b.score == k && v in b.values)
  }

  /** The answer to a request that follows those of `ops`. */
  ghost predicate Answers(ops: seq<Op>, op: Op, reply: Reply) {
    match op
    case QueryOp(key) => reply.Found? && forall x :: reply.value == Some(x) <==> Stored(ops, key, x)
    case ListOp(keys) =>
      reply.Listed? && forall x: KeyValue ::
        multiset(reply.items)[x] == if Stored(ops, x.key, x.value) then multiset(keys)[x.key] else 0
    case ZAddOp(key, _, _) => reply == Accepted(!IsPlain(ops, key))
    case ZRangeOp(key, min, max) =>
      && reply.Ranged? && (reply.buckets.Some? <==> IsSet(ops, key))
      && (reply.buckets.Some? ==> ListsScored(reply.buckets.value, ops, key, min, max))
    case _ => reply == Done
  }

  // The store by history -----------------------------------------------------------------------------------

  ghost predicate KeyTold(s: Store, ops: seq<Op>, key: Text) {
    && (forall x :: (key in s.kv && s.kv[key] == x) <==> Stored(ops, key, x))
    && (key in s.zsets <==> IsSet(ops, key))
    && (forall v, k: u32 :: (key in s.zsets && v in s.zsets[key] && s.zsets[key][v] == k) <==> Scored(ops, key, v, k))
  }

  lemma NotResetAppend(ops: seq<Op>, op: Op, i: nat, key: Text)
    requires i <= |ops|
    ensures NotResetFrom(ops + [op], i, key) <==> NotResetFrom(ops, i, key) && !Resets(op, key)
  {
    var more := ops + [op];
    assert more[|ops|] == op;
    forall j | 0 <= j < |ops| ensures more[j] == ops[j] {}
  }

  lemma StoredAppend(ops: seq<Op>, op: Op, key: Text, x: Text)
    ensures Stored(ops + [op], key, x) <==>
            if Resets(op, key) then op == AddOp(key, x) else Stored(ops, key, x)
  {
    hide Resets, NotResetFrom;
    var more := ops + [op];
    assert more[|ops|] == op;
    NotResetAppend(ops, op, |ops|, key);
    if i :| 0 <= i < |ops| && ops[i] == AddOp(key, x) && NotResetFrom(ops, i + 1, key) {
      NotResetAppend(ops, op, i + 1, key);
      assert more[i] == ops[i];
    }
    if i :| 0 <= i < |more| && more[i] == AddOp(key, x) && NotResetFrom(more, i + 1, key) {
      if i < |ops| { NotResetAppend(ops, op, i + 1, key); }
    }
    LastResets(more, op, key);
  }

  lemma LastResets(more: seq<Op>, op: Op, key: Text)
    requires more != [] && more[|more| - 1] == op
    ensures NotResetFrom(more, |more|, key)
    ensures Resets(op, key) ==> forall i :: 0 <= i < |more| ==> !NotResetFrom(more, i, key)
    ensures op == AddOp(key, if op.AddOp? then op.value else []) ==> Resets(op, key)
  {}

  lemma PlainAppend(ops: seq<Op>, op: Op, key: Text)
    ensures IsPlain(ops + [op], key) <==> if Resets(op, key) then op.AddOp? else IsPlain(ops, key)
  {
    hide Stored;
    forall x ensures Stored(ops + [op], key, x) <==> if Resets(op, key) then op == AddOp(key, x) else Stored(ops, key, x) {
      StoredAppend(ops, op, key, x);
    }
    if Resets(op, key) && op.AddOp? { assert Stored(ops + [op], key, op.value); }
    if x :| Stored(ops, key, x) && !Resets(op, key) { assert Stored(ops + [op], key, x); }
  }

  lemma SetAppend(ops: seq<Op>, op: Op, key: Text)
    ensures IsSet(ops + [op], key) <==>
            if Resets(op, key) then false
            else if op.ZAddOp? && op.key == key then !IsPlain(ops, key)
            else IsSet(ops, key)
  {
    hide IsPlain, Resets, NotResetFrom;
    var more := ops + [op];
    assert more[|ops|] == op;
    PlainAppend(ops, op, key);
    NotResetAppend(ops, op, |ops|, key);
    LastResets(more, op, key);
    NothingLeft(ops, key);
    if op.ZAddOp? && op.key == key && !Resets(op, key) { assert SetAt(more, key, |ops|); }
    if i :| SetAt(ops, key, i) && !Resets(op, key) {
      NotResetAppend(ops, op, i, key);
      assert more[i] == ops[i] && SetAt(more, key, i);
    }
    if i :| SetAt(more, key, i) && i < |ops| {
      NotResetAppend(ops, op, i, key);
      assert more[i] == ops[i] && SetAt(ops, key, i);
    }
  }

  lemma NothingLeft(ops: seq<Op>, key: Text)
    ensures NotResetFrom(ops, |ops|, key)
  {}

  lemma ScoredAppend(ops: seq<Op>, op: Op, key: Text, v: Text, k: u32)
    ensures Scored(ops + [op], key, v, k) <==>
            if Resets(op, key) then false
            else if Touches(op, key, v) then op == ZAddOp(key, v, k) && !IsPlain(ops, key)
            else Scored(ops, key, v, k)
  {
    hide IsPlain, Resets, NotResetFrom;
    var more := ops + [op];
    assert more[|ops|] == op && forall j :: 0 <= j < |ops| ==> more[j] == ops[j];
    PlainAppend(ops, op, key);
    NotResetAppend(ops, op, |ops|, key);
    LastResets(more, op, key);
    NothingLeft(ops, key);
    if op == ZAddOp(key, v, k) && !Resets(op, key) { assert ScoredAt(more, key, v, k, |ops|); }
    if i :| ScoredAt(ops, key, v, k, i) && !Resets(op, key) && !Touches(op, key, v) {
      NotResetAppend(ops, op, i, key);
      assert ScoredAt(more, key, v, k, i);
    }
    if i :| ScoredAt(more, key, v, k, i) && i < |ops| {
      NotResetAppend(ops, op, i, key);
      assert !Touches(more[|ops|], key, v);
      assert ScoredAt(ops, key, v, k, i);
    }
  }

  /** One request keeps what is told of a key. */
  lemma RequestTold(s: Store, ops: seq<Op>, op: Op, key: Text)
    requires KeyTold(s, ops, key)
    ensures KeyTold(Apply(s, op).0, ops + [op], key)
  {
    hide Stored, Scored, IsSet, IsPlain, Range, List;
    var s', more := Apply(s, op).0, ops + [op];
    forall x ensures (key in s'.kv && s'.kv[key] == x) <==> Stored(more, key, x) { StoredAppend(ops, op, key, x); }
    PlainTold(s, ops, key);
    SetAppend(ops, op, key);
    PlainIsNoSet(ops, key);
    forall v, k: u32
      ensures (key in s'.zsets && v in s'.zsets[key] && s'.zsets[key][v] == k) <==> Scored(more, key, v, k)
    {
      ScoreTold(s, ops, op, key, v, k);
    }
  }

  ghost predicate HasScore(s: Store, key: Text, v: Text, k: u32) {
    key in s.zsets && v in s.zsets[key] && s.zsets[key][v] == k
  }

  lemma ScoreTold(s: Store, ops: seq<Op>, op: Op, key: Text, v: Text, k: u32)
    requires KeyTold(s, ops, key)
    ensures HasScore(Apply(s, op).0, key, v, k) <==> Scored(ops + [op], key, v, k)
  {
    hide Stored, Scored, IsSet, IsPlain, Range, List;
    ScoredAppend(ops, op, key, v, k);
    PlainTold(s, ops, key);
    PlainIsNoSet(ops, key);
    assert HasScore(s, key, v, k) <==> Scored(ops, key, v, k);
    var s' := Apply(s, op).0;
    if !op.ListOp? && op.key == key {
      match op
      case ZAddOp(_, value, score) => assert key !in s.kv ==> s'.zsets[key] == ScoresOf(s, key)[value := score];
      case ZRmvOp(_, value) => assert key in s.zsets ==> s'.zsets[key] == s.zsets[key] - {value};
      case _ =>
    }
  }

  lemma PlainTold(s: Store, ops: seq<Op>, key: Text)
    requires KeyTold(s, ops, key)
    ensures key in s.kv <==> IsPlain(ops, key)
  {
    hide Stored;
    if key in s.kv { assert Stored(ops, key, s.kv[key]); }
  }

  lemma PlainIsNoSet(ops: seq<Op>, key: Text)
    ensures IsPlain(ops, key) ==> !IsSet(ops, key) && forall v, k: u32 :: !Scored(ops, key, v, k)
  {}

  // Answers ------------------------------------------------------------------------------------------------

  lemma {:induction false} AscendingBy(m: seq<Bucket>, i: nat, j: nat)
    requires Ascending(m) && i < j < |m|
    ensures m[i].score < m[j].score
    decreases i
  {
    if i == 0 {
      assert m[j] in m[1..];
    } else {
      AscendingBy(m[1..], i - 1, j - 1);
    }
  }

  lemma RangeTold(s: Store, ops: seq<Op>, key: Text, min: u32, max: u32)
    requires KeyTold(s, ops, key) && key in s.zsets
    ensures ListsScored(Range(s.zsets[key], min, max), ops, key, min, max)
  {
    hide Scored, Stored, IsSet, Ascending, Range;
    var c := s.zsets[key];
    var r := Range(c, min, max);
    RangeListsEachOnce(c, min, max);
    forall i, j | 0 <= i < j < |r| ensures r[i].score < r[j].score { AscendingBy(r, i, j); }
    forall b, v | b in r && v in b.values ensures min <= b.score <= max && Scored(ops, key, v, b.score) {
      assert v in c && c[v] == b.score;
    }
    forall v, k: u32 | Scored(ops, key, v, k) && min <= k <= max ensures exists b <- r :: b.score == k && v in b.values {
      assert v in c && c[v] == k;
      assert Bucket(c[v], set w | w in c && c[w] == c[v]) in r;
    }
  }

  lemma {:induction false} ListCounts(s: Store, keys: seq<Text>, x: KeyValue)
    ensures multiset(List(s, keys))[x] == if x.key in s.kv && s.kv[x.key] == x.value then multiset(keys)[x.key] else 0
    decreases |keys|
  {
    if keys != [] {
      var init, last := keys[..|keys| - 1], keys[|keys| - 1];
      ListCounts(s, init, x);
      assert keys == init + [last];
      assert multiset(keys) == multiset(init) + multiset{last};
    }
  }

  /** A store that is as its history says answers as its history says. */
  lemma ToldAnswers(s: Store, ops: seq<Op>, op: Op)
    requires forall key :: KeyTold(s, ops, key)
    ensures Answers(ops, op, Apply(s, op).1)
  {
    hide KeyTold, Stored, IsSet, IsPlain, ListsScored, Range, List;
    match op
    case QueryOp(key) => QueryTold(s, ops, key);
    case ListOp(keys) =>
      forall x: KeyValue
        ensures multiset(List(s, keys))[x] == if Stored(ops, x.key, x.value) then multiset(keys)[x.key] else 0
      {
        ListCounts(s, keys, x);
        StoredTold(s, ops, x.key, x.value);
      }
    case ZAddOp(key, _, _) => PlainTold(s, ops, key);
    case ZRangeOp(key, min, max) =>
      SetTold(s, ops, key);
      if key in s.zsets { RangeTold(s, ops, key, min, max); }
    case _ =>
  }

  lemma QueryTold(s: Store, ops: seq<Op>, key: Text)
    requires KeyTold(s, ops, key)
    ensures forall x :: Query(s, key) == Some(x) <==> Stored(ops, key, x)
  {
    hide Stored, Scored, IsSet;
  }

  lemma StoredTold(s: Store, ops: seq<Op>, key: Text, x: Text)
    requires KeyTold(s, ops, key)
    ensures (key in s.kv && s.kv[key] == x) <==> Stored(ops, key, x)
  {
    hide Stored, Scored, IsSet;
  }

  lemma SetTold(s: Store, ops: seq<Op>, key: Text)
    requires KeyTold(s, ops, key)
    ensures key in s.zsets <==> IsSet(ops, key)
  {
    hide Stored, Scored, IsSet;
  }

  lemma {:induction false} RunAnswers(s: Store, before: seq<Op>, ops: seq<Op>)
    requires forall key :: KeyTold(s, before, key)
    ensures |Run(s, ops).1| == |ops|
    ensures forall i :: 0 <= i < |ops| ==> Answers(before + ops[..i], ops[i], Run(s, ops).1[i])
    decreases |ops|
  {
    if ops != [] {
      hide KeyTold, Apply, Answers;
      var (s', reply) := Apply(s, ops[0]);
      ToldAnswers(s, before, ops[0]);
      forall key ensures KeyTold(s', before + [ops[0]], key) { RequestTold(s, before, ops[0], key); }
      RunAnswers(s', before + [ops[0]], ops[1..]);
      assert before + ops[..0] == before;
      forall i | 0 < i < |ops| ensures before + [ops[0]] + ops[1..][..i - 1] == before + ops[..i] {
        assert ops[..i] == [ops[0]] + ops[1..][..i - 1];
      }
    }
  }

  lemma EmptyTold(key: Text)
    ensures KeyTold(EMPTY, [], key)
  {}

  /** Every answer of a store that began empty is the one that the requests before it call for. */
  lemma StoreAnswers(ops: seq<Op>, i: nat)
    requires i < |ops|
    ensures |Run(EMPTY, ops).1| == |ops| && Answers(ops[..i], ops[i], Run(EMPTY, ops).1[i])
  {
    hide Run, Answers, KeyTold;
    forall key ensures KeyTold(EMPTY, [], key) { EmptyTold(key); }
    RunAnswers(EMPTY, [], ops);
    assert [] + ops[..i] == ops[..i];
  }

  lemma MatchingAnswers(ops: seq<Op>, op: Op, sharded: Reply, whole: Reply)
    requires Matches(sharded, whole) && Answers(ops, op, whole)
    ensures Answers(ops, op, sharded)
  {
    hide Stored, IsSet, IsPlain, ListsScored;
  }

  /** And so is every answer of a sharded store. */
  lemma ShardsAnswer(hash: Hash, count: nat, ops: seq<Op>, i: nat)
    requires count > 0 && i < |ops|
    ensures var replies := ShardRun(hash, seq(count, _ => EMPTY), ops).1;
            |replies| == |ops| && Answers(ops[..i], ops[i], replies[i])
  {
    hide Run, ShardRun, Answers, Splits, Matches;
    ShardingIsInvisible(hash, count, ops);
    StoreAnswers(ops, i);
    MatchingAnswers(ops[..i], ops[i], ShardRun(hash, seq(count, _ => EMPTY), ops).1[i], Run(EMPTY, ops).1[i]);
  }

  // After a deletion ---------------------------------------------------------------------------------------

  /** Nothing of a deleted key is seen: no value, no set, no place in a list, and it can become a set. */
  lemma DeletedIsGone(ops: seq<Op>, key: Text, op: Op, reply: Reply)
    requires Answers(ops + [DelOp(key)], op, reply)
    ensures op == QueryOp(key) ==> reply == Found(None)
    ensures op.ZRangeOp? && op.key == key ==> reply == Ranged(None)
    ensures op.ListOp? ==> reply.Listed? && forall x :: KeyValue(key, x) !in reply.items
    ensures op.ZAddOp? && op.key == key ==> reply == Accepted(true)
  {
    hide Stored, IsSet, IsPlain, ListsScored, Resets;
    DeletionForgets(ops, key);
    if op == QueryOp(key) { NothingIsNone(ops + [DelOp(key)], key, reply); }
    if op.ListOp? {
      forall x ensures KeyValue(key, x) !in reply.items {
        assert multiset(reply.items)[KeyValue(key, x)] == 0;
      }
    }
  }

  lemma NothingIsNone(told: seq<Op>, key: Text, reply: Reply)
    requires reply.Found? && forall x :: reply.value == Some(x) <==> Stored(told, key, x)
    requires forall x :: !Stored(told, key, x)
    ensures reply == Found(None)
  {
    hide Stored;
    NoneOrSome(reply.value);
  }

  lemma NoneOrSome(answer: Option<Text>)
    ensures answer == None || exists x :: answer == Some(x)
  {
    if answer.Some? { assert answer == Some(answer.value); }
  }

  lemma DeletionForgets(ops: seq<Op>, key: Text)
    ensures var more := ops + [DelOp(key)];
            !IsPlain(more, key) && !IsSet(more, key) && forall x :: !Stored(more, key, x)
  {
    hide Stored;
    PlainAppend(ops, DelOp(key), key);
    SetAppend(ops, DelOp(key), key);
    forall x ensures !Stored(ops + [DelOp(key)], key, x) { StoredAppend(ops, DelOp(key), key, x); }
  }

  /** A value that is added is what the next query answers, whatever was there. */
  lemma AddedIsRead(ops: seq<Op>, key: Text, value: Text, reply: Reply)
    requires Answers(ops + [AddOp(key, value)], QueryOp(key), reply)
    ensures reply == Found(Some(value))
  {
    hide Stored;
    StoredAppend(ops, AddOp(key, value), key, value);
  }

  /** A request on one key changes no answer about another. */
  lemma OtherKeysStay(ops: seq<Op>, op: Op, key: Text)
    requires op.ListOp? || op.key != key
    ensures forall x :: Stored(ops + [op], key, x) <==> Stored(ops, key, x)
    ensures IsPlain(ops + [op], key) <==> IsPlain(ops, key)
    ensures IsSet(ops + [op], key) <==> IsSet(ops, key)
    ensures forall v, k: u32 :: Scored(ops + [op], key, v, k) <==> Scored(ops, key, v, k)
  {
    hide Stored, Scored, IsSet, IsPlain;
    forall x ensures Stored(ops + [op], key, x) <==> Stored(ops, key, x) { StoredAppend(ops, op, key, x); }
    PlainAppend(ops, op, key);
    SetAppend(ops, op, key);
    forall v, k: u32 ensures Scored(ops + [op], key, v, k) <==> Scored(ops, key, v, k) { ScoredAppend(ops, op, key, v, k); }
  }

  /** So queries and range queries of other keys are answered as before, by one store and by shards. */
  lemma OtherAnswersStay(s: Store, op: Op, q: Op)
    requires (q.QueryOp? || q.ZRangeOp?) && (op.ListOp? || op.key != q.key)
    ensures Apply(Apply(s, op).0, q).1 == Apply(s, q).1
  {
    hide Range, List;
  }

  lemma OtherShardAnswersStay(hash: Hash, shards: seq<Store>, whole: Store, op: Op, q: Op)
    requires Splits(hash, shards, whole)
    requires (q.QueryOp? || q.ZRangeOp?) && (op.ListOp? || op.key != q.key)
    ensures ShardApply(hash, ShardApply(hash, shards, op).0, q).1 == ShardApply(hash, shards, q).1
  {
    SplitsNonempty(hash, shards, whole);
    hide Apply, ShardApply, Splits;
    StepRefines(hash, shards, whole, op);
    StepRefines(hash, shards, whole, q);
    StepRefines(hash, ShardApply(hash, shards, op).0, Apply(whole, op).0, q);
    OtherAnswersStay(whole, op, q);
    NoList(whole, q);
  }

  lemma NoList(s: Store, q: Op)
    requires q.QueryOp? || q.ZRangeOp?
    ensures !Apply(s, q).1.Listed?
  {
    hide Range;
  }
}
