/**
 What a store is: plain keys and sorted sets, and what each request does to them and answers.
 The single-threaded store is proved against these functions, and sharding is proved about them.
 */
module StoreSpec {
  import opened Values
  import opened FlatMap
  import opened ZsetSpec

  datatype Store = Store(kv: map<Text, Text>, zsets: map<Text, Scores>)

  const EMPTY := Store(map[], map[])

  /** No key is both a plain key and a sorted set. */
  predicate Exclusive(s: Store) {
    s.kv.Keys !! s.zsets.Keys
  }

  function Query(s: Store, key: Text): Option<Text> {
    if key in s.kv then Some(s.kv[key]) else None
  }

  function Add(s: Store, key: Text, value: Text): Store {
    Store(s.kv[key := value], s.zsets - {key})
  }

  function Del(s: Store, key: Text): Store {
    Store(s.kv - {key}, s.zsets - {key})
  }

  /** The pairs of those keys that are plain keys, in the order asked for. */
  function List(s: Store, keys: seq<Text>): seq<KeyValue> {
    if keys == [] then []
    else
      var k := keys[|keys| - 1];
      List(s, keys[..|keys| - 1]) + if k in s.kv then [KeyValue(k, s.kv[k])] else []
  }

  /** Keys are answered in the order in which they are asked for, one by one. */
  lemma {:induction false} ListInOrder(s: Store, a: seq<Text>, key: Text, b: seq<Text>)
    ensures List(s, a + [key] + b) ==
            List(s, a) + (if key in s.kv then [KeyValue(key, s.kv[key])] else []) + List(s, b)
    decreases |b|
  {
    var keys := a + [key] + b;
    if b == [] {
      assert keys[..|keys| - 1] == a;
    } else {
      assert keys[..|keys| - 1] == a + [key] + b[..|b| - 1];
      ListInOrder(s, a, key, b[..|b| - 1]);
    }
  }

  function ScoresOf(s: Store, key: Text): Scores {
    if key in s.zsets then s.zsets[key] else map[]
  }

  /** A plain key refuses to become a sorted set. */
  function ZAdd(s: Store, key: Text, value: Text, score: u32): (Store, bool) {
    if key in s.kv then (s, false)
    else (s.(zsets := s.zsets[key := ScoresOf(s, key)[value := score]]), true)
  }

  function ZRmv(s: Store, key: Text, value: Text): Store {
    if key in s.zsets then s.(zsets := s.zsets[key := s.zsets[key] - {value}]) else s
  }

  function ZRange(s: Store, key: Text, min: u32, max: u32): Option<seq<Bucket>> {
    if key in s.zsets then Some(Range(s.zsets[key], min, max)) else None
  }

  /** A request, and the answer to it. */
  datatype Op =
    | QueryOp(key: Text)
    | AddOp(key: Text, value: Text)
    | DelOp(key: Text)
    | ListOp(keys: seq<Text>)
    | ZAddOp(key: Text, value: Text, score: u32)
    | ZRmvOp(key: Text, value: Text)
    | ZRangeOp(key: Text, min: u32, max: u32)

  datatype Reply =
    | Done
    | Found(value: Option<Text>)
    | Accepted(ok: bool)
    | Ranged(buckets: Option<seq<Bucket>>)
    | Listed(items: seq<KeyValue>)

  function Apply(s: Store, op: Op): (Store, Reply) {
    match op
    case QueryOp(key) => (s, Found(Query(s, key)))
    case AddOp(key, value) => (Add(s, key, value), Done)
    case DelOp(key) => (Del(s, key), Done)
    case ListOp(keys) => (s, Listed(List(s, keys)))
    case ZAddOp(key, value, score) => (ZAdd(s, key, value, score).0, Accepted(ZAdd(s, key, value, score).1))
    case ZRmvOp(key, value) => (ZRmv(s, key, value), Done)
    case ZRangeOp(key, min, max) => (s, Ranged(ZRange(s, key, min, max)))
  }

  lemma ApplyKeepsExclusive(s: Store, op: Op)
    requires Exclusive(s)
    ensures Exclusive(Apply(s, op).0)
  {
    hide Range, List;
  }
}
