/**
 Keys routed by hash to independent stores. For every hash function and every number of shards the
 shards together answer as one store would.
 */
module Sharding {
  import opened Values
  import opened ZsetSpec
  import opened StoreSpec

  type Hash = Text -> u32

  /** `get_cpu` */
  function GetCpu(hash: Hash, count: nat, key: Text): (cpu: nat)
    requires count > 0
    ensures cpu < count
  {
    hash(key) % count
  }

  /** A key's core is the remainder of its hash by the number of cores. */
  lemma GetCpuExactly(hash: Hash, count: nat, key: Text, cpu: nat)
    requires count > 0
    ensures GetCpu(hash, count, key) == cpu <==> cpu < count && exists q: nat :: HashIs(hash, key, q, count, cpu)
  {
    var h := hash(key);
    if cpu < count {
      assert HashIs(hash, key, h / count, count, h % count);
      if q: nat :| HashIs(hash, key, q, count, cpu) { RemainderIs(h, q, count, cpu); }
    }
  }

  ghost predicate HashIs(hash: Hash, key: Text, q: nat, count: nat, r: nat) {
    hash(key) == q * count + r
  }

  lemma RemainderIs(h: nat, q: nat, count: nat, r: nat)
    requires h == q * count + r && r < count
    ensures h % count == r
  {
    OneRemainder(h / count, q, count, h % count, r);
  }

  lemma OneRemainder(a: nat, b: nat, count: nat, r: nat, s: nat)
    requires a * count + r == b * count + s && r < count && s < count
    ensures r == s
  {
    if a > b {
      Larger(a, b, count);
    } else if b > a {
      Larger(b, a, count);
    }
  }

  lemma Larger(a: nat, b: nat, count: nat)
    requires a > b
    ensures a * count >= b * count + count
  {
    assert (a - b - 1) * count >= 0;
    assert a * count == b * count + count + (a - b - 1) * count;
  }

  /** The keys that one shard is asked for, in their order. */
  function Group(hash: Hash, count: nat, keys: seq<Text>, cpu: nat): seq<Text>
    requires count > 0
  {
    if keys == [] then []
    else
      var k := keys[|keys| - 1];
      Group(hash, count, keys[..|keys| - 1], cpu) + if GetCpu(hash, count, k) == cpu then [k] else []
  }

  lemma {:induction false} GroupInOrder(hash: Hash, count: nat, a: seq<Text>, key: Text, b: seq<Text>, cpu: nat)
    requires count > 0
    ensures Group(hash, count, a + [key] + b, cpu) ==
            Group(hash, count, a, cpu) + (if GetCpu(hash, count, key) == cpu then [key] else []) + Group(hash, count, b, cpu)
    decreases |b|
  {
    hide GetCpu;
    var keys := a + [key] + b;
    if b == [] {
      assert keys[..|keys| - 1] == a;
    } else {
      assert keys[..|keys| - 1] == a + [key] + b[..|b| - 1];
      GroupInOrder(hash, count, a, key, b[..|b| - 1], cpu);
    }
  }

  /** What the shards answer to a list request, one answer each. */
  function ListShards(hash: Hash, shards: seq<Store>, keys: seq<Text>): (r: seq<seq<KeyValue>>)
    requires |shards| > 0
    ensures |r| == |shards|
  {
    seq(|shards|, i requires 0 <= i < |shards| => List(shards[i], Group(hash, |shards|, keys, i)))
  }

  function Flatten(parts: seq<seq<KeyValue>>): seq<KeyValue> {
    if parts == [] then [] else parts[0] + Flatten(parts[1..])
  }

  function ShardApply(hash: Hash, shards: seq<Store>, op: Op): (r: (seq<Store>, Reply))
    requires |shards| > 0
    ensures |r.0| == |shards|
  {
    if op.ListOp? then (shards, Listed(Flatten(ListShards(hash, shards, op.keys))))
    else
      var cpu := GetCpu(hash, |shards|, op.key);
      var (s, reply) := Apply(shards[cpu], op);
      (shards[cpu := s], reply)
  }

  /** One store and the shards hold the same, each key on the shard it is routed to and nowhere else. */
  ghost predicate Splits(hash: Hash, shards: seq<Store>, whole: Store) {
    && |shards| > 0
    && forall i :: 0 <= i < |shards| ==> IsPart(hash, |shards|, shards[i], i, whole)
  }

  ghost predicate IsPart(hash: Hash, count: nat, part: Store, cpu: nat, whole: Store)
    requires count > 0
  {
    && (forall k :: k in part.kv <==> k in whole.kv && GetCpu(hash, count, k) == cpu)
    && (forall k :: k in part.zsets <==> k in whole.zsets && GetCpu(hash, count, k) == cpu)
    && (forall k <- part.kv :: part.kv[k] == whole.kv[k])
    && (forall k <- part.zsets :: part.zsets[k] == whole.zsets[k])
  }

  /** Answers agree; the pairs of a list may come in another order. */
  ghost predicate Matches(sharded: Reply, whole: Reply) {
    if sharded.Listed? && whole.Listed? then multiset(sharded.items) == multiset(whole.items) else sharded == whole
  }

  // One request --------------------------------------------------------------------------------------

  lemma PartAdds(hash: Hash, count: nat, part: Store, cpu: nat, whole: Store, key: Text, value: Text)
    requires count > 0 && IsPart(hash, count, part, cpu, whole)
    ensures if GetCpu(hash, count, key) == cpu then IsPart(hash, count, Add(part, key, value), cpu, Add(whole, key, value))
            else IsPart(hash, count, part, cpu, Add(whole, key, value))
  {
    hide GetCpu;
  }

  lemma PartDels(hash: Hash, count: nat, part: Store, cpu: nat, whole: Store, key: Text)
    requires count > 0 && IsPart(hash, count, part, cpu, whole)
    ensures if GetCpu(hash, count, key) == cpu then IsPart(hash, count, Del(part, key), cpu, Del(whole, key))
            else IsPart(hash, count, part, cpu, Del(whole, key))
  {
    hide GetCpu;
  }

  lemma PartZAdds(hash: Hash, count: nat, part: Store, cpu: nat, whole: Store, key: Text, value: Text, score: u32)
    requires count > 0 && IsPart(hash, count, part, cpu, whole)
    ensures if GetCpu(hash, count, key) == cpu then IsPart(hash, count, ZAdd(part, key, value, score).0, cpu, ZAdd(whole, key, value, score).0) && ZAdd(part, key, value, score).1 == ZAdd(whole, key, value, score).1
            else IsPart(hash, count, part, cpu, ZAdd(whole, key, value, score).0)
  {
    hide GetCpu;
  }

  lemma PartZRmvs(hash: Hash, count: nat, part: Store, cpu: nat, whole: Store, key: Text, value: Text)
    requires count > 0 && IsPart(hash, count, part, cpu, whole)
    ensures if GetCpu(hash, count, key) == cpu then IsPart(hash, count, ZRmv(part, key, value), cpu, ZRmv(whole, key, value))
            else IsPart(hash, count, part, cpu, ZRmv(whole, key, value))
  {
    hide GetCpu;
  }

  lemma PartReads(hash: Hash, count: nat, part: Store, cpu: nat, whole: Store, key: Text, min: u32, max: u32)
    requires count > 0 && IsPart(hash, count, part, cpu, whole) && GetCpu(hash, count, key) == cpu
    ensures Query(part, key) == Query(whole, key)
    ensures ZRange(part, key, min, max) == ZRange(whole, key, min, max)
  {
    hide Range;
  }

  lemma PartApplies(hash: Hash, count: nat, part: Store, cpu: nat, whole: Store, op: Op)
    requires count > 0 && IsPart(hash, count, part, cpu, whole) && !op.ListOp?
    ensures if GetCpu(hash, count, op.key) == cpu
            then IsPart(hash, count, Apply(part, op).0, cpu, Apply(whole, op).0) && Apply(part, op).1 == Apply(whole, op).1
            else IsPart(hash, count, part, cpu, Apply(whole, op).0)
  {
    hide IsPart, GetCpu, Add, Del, ZAdd, ZRmv, Query, ZRange;
    match op
    case AddOp(key, value) => PartAdds(hash, count, part, cpu, whole, key, value);
    case DelOp(key) => PartDels(hash, count, part, cpu, whole, key);
    case ZAddOp(key, value, score) => PartZAdds(hash, count, part, cpu, whole, key, value, score);
    case ZRmvOp(key, value) => PartZRmvs(hash, count, part, cpu, whole, key, value);
    case QueryOp(key) => if GetCpu(hash, count, key) == cpu { PartReads(hash, count, part, cpu, whole, key, 0, 0); }
    case ZRangeOp(key, min, max) => if GetCpu(hash, count, key) == cpu { PartReads(hash, count, part, cpu, whole, key, min, max); }
  }

  lemma ListAppend(s: Store, keys: seq<Text>, k: Text)
    ensures List(s, keys + [k]) == List(s, keys) + if k in s.kv then [KeyValue(k, s.kv[k])] else []
  {
    assert (keys + [k])[..|keys|] == keys;
  }

  lemma FlattenUpdate(parts: seq<seq<KeyValue>>, i: nat, more: seq<KeyValue>)
    requires i < |parts|
    ensures multiset(Flatten(parts[i := parts[i] + more])) == multiset(Flatten(parts)) + multiset(more)
  {
    var updated := parts[i := parts[i] + more];
    if i == 0 {
      assert updated[1..] == parts[1..];
      assert Flatten(updated) == (parts[0] + more) + Flatten(parts[1..]);
    } else {
      assert updated[1..] == parts[1..][i - 1 := parts[i] + more];
      FlattenUpdate(parts[1..], i - 1, more);
    }
  }

  lemma FlattenNothing(parts: seq<seq<KeyValue>>)
    requires forall i :: 0 <= i < |parts| ==> parts[i] == []
    ensures Flatten(parts) == []
  {
    if parts != [] { FlattenNothing(parts[1..]); }
  }

  /** Asking for one more key adds to one shard's answer only. */
  lemma ListShardsAppend(hash: Hash, shards: seq<Store>, keys: seq<Text>, k: Text)
    requires |shards| > 0
    ensures var cpu := GetCpu(hash, |shards|, k);
            var before := ListShards(hash, shards, keys);
            ListShards(hash, shards, keys + [k]) ==
            before[cpu := before[cpu] + if k in shards[cpu].kv then [KeyValue(k, shards[cpu].kv[k])] else []]
  {
    hide List, GetCpu;
    var n, cpu := |shards|, GetCpu(hash, |shards|, k);
    assert (keys + [k])[..|keys|] == keys;
    forall i | 0 <= i < n
      ensures Group(hash, n, keys + [k], i) == if i == cpu then Group(hash, n, keys, i) + [k] else Group(hash, n, keys, i)
    {}
    ListAppend(shards[cpu], Group(hash, n, keys, cpu), k);
  }

  lemma {:induction false} ListMatches(hash: Hash, shards: seq<Store>, whole: Store, keys: seq<Text>)
    requires Splits(hash, shards, whole)
    ensures multiset(Flatten(ListShards(hash, shards, keys))) == multiset(List(whole, keys))
    decreases |keys|
  {
    if keys == [] {
      FlattenNothing(ListShards(hash, shards, keys));
    } else {
      hide List, ListShards, Flatten;
      var k, init := keys[|keys| - 1], keys[..|keys| - 1];
      var cpu := GetCpu(hash, |shards|, k);
      var more := if k in whole.kv then [KeyValue(k, whole.kv[k])] else [];
      assert IsPart(hash, |shards|, shards[cpu], cpu, whole);
      assert keys == init + [k];
      ListMatches(hash, shards, whole, init);
      ListAppend(whole, init, k);
      ListShardsAppend(hash, shards, init, k);
      FlattenUpdate(ListShards(hash, shards, init), cpu, more);
    }
  }

  /** One request: the shards stay a split of the store, and the answers agree. */
  lemma StepRefines(hash: Hash, shards: seq<Store>, whole: Store, op: Op)
    requires Splits(hash, shards, whole)
    ensures Splits(hash, ShardApply(hash, shards, op).0, Apply(whole, op).0)
    ensures Matches(ShardApply(hash, shards, op).1, Apply(whole, op).1)
  {
    hide IsPart, Apply;
    if op.ListOp? {
      ListMatches(hash, shards, whole, op.keys);
      ApplyList(whole, op);
    } else {
      forall i | 0 <= i < |shards|
        ensures IsPart(hash, |shards|, ShardApply(hash, shards, op).0[i], i, Apply(whole, op).0)
        ensures i == GetCpu(hash, |shards|, op.key) ==> Apply(shards[i], op).1 == Apply(whole, op).1
      {
        PartApplies(hash, |shards|, shards[i], i, whole, op);
      }
    }
  }

  lemma ApplyList(s: Store, op: Op)
    requires op.ListOp?
    ensures Apply(s, op) == (s, Listed(List(s, op.keys)))
  {}

  // Runs ---------------------------------------------------------------------------------------------

  function Run(s: Store, ops: seq<Op>): (Store, seq<Reply>)
    decreases |ops|
  {
    if ops == [] then (s, [])
    else
      var (s', reply) := Apply(s, ops[0]);
      var (s'', replies) := Run(s', ops[1..]);
      (s'', [reply] + replies)
  }

  function ShardRun(hash: Hash, shards: seq<Store>, ops: seq<Op>): (seq<Store>, seq<Reply>)
    requires |shards| > 0
    decreases |ops|
  {
    if ops == [] then (shards, [])
    else
      var (shards', reply) := ShardApply(hash, shards, ops[0]);
      var (shards'', replies) := ShardRun(hash, shards', ops[1..]);
      (shards'', [reply] + replies)
  }

  lemma {:induction false} RunRefines(hash: Hash, shards: seq<Store>, whole: Store, ops: seq<Op>)
    requires Splits(hash, shards, whole)
    ensures Splits(hash, ShardRun(hash, shards, ops).0, Run(whole, ops).0)
    ensures |ShardRun(hash, shards, ops).1| == |Run(whole, ops).1| == |ops|
    ensures forall i :: 0 <= i < |ops| ==> Matches(ShardRun(hash, shards, ops).1[i], Run(whole, ops).1[i])
    decreases |ops|
  {
    hide Splits, Apply, ShardApply, Matches;
    if ops != [] {
      SplitsNonempty(hash, shards, whole);
      StepRefines(hash, shards, whole, ops[0]);
      RunRefines(hash, ShardApply(hash, shards, ops[0]).0, Apply(whole, ops[0]).0, ops[1..]);
    }
  }

  lemma SplitsNonempty(hash: Hash, shards: seq<Store>, whole: Store)
    requires Splits(hash, shards, whole)
    ensures |shards| > 0
  {}

  lemma {:induction false} RunKeepsExclusive(s: Store, ops: seq<Op>)
    requires Exclusive(s)
    ensures Exclusive(Run(s, ops).0)
    decreases |ops|
  {
    hide Apply;
    if ops != [] {
      ApplyKeepsExclusive(s, ops[0]);
      RunKeepsExclusive(Apply(s, ops[0]).0, ops[1..]);
    }
  }

  /**
   Sharding is invisible: any run of requests from empty gets the answers one store would give, and
   leaves every key on its own shard only, as a plain key or as a sorted set but not both.
   */
  lemma ShardingIsInvisible(hash: Hash, count: nat, ops: seq<Op>)
    requires count > 0
    ensures var (shards, replies) := ShardRun(hash, seq(count, _ => EMPTY), ops);
            var (whole, answers) := Run(EMPTY, ops);
            && |replies| == |answers| == |ops|
            && (forall i :: 0 <= i < |ops| ==> Matches(replies[i], answers[i]))
            && Splits(hash, shards, whole)
            && Exclusive(whole) && forall s <- shards :: Exclusive(s)
  {
    RunRefines(hash, seq(count, _ => EMPTY), EMPTY, ops);
    RunKeepsExclusive(EMPTY, ops);
    var (shards, replies) := ShardRun(hash, seq(count, _ => EMPTY), ops);
    forall s | s in shards ensures Exclusive(s) {
      var i :| 0 <= i < |shards| && shards[i] == s;
      assert IsPart(hash, |shards|, s, i, Run(EMPTY, ops).0);
    }
  }
}
