/**
 The requests that one node of the Rust cluster spreads over the others: a batch of pairs is cut into
 a group for each shard and the groups run side by side; a list of keys is asked for shard by shard.
 Keys belong to shards by an arbitrary hash; calls to other nodes succeed.
 */
module Cluster {
  import opened Values
  import opened RustNode
  import opened RustStorage
  import Sharding

  type u64 = n: nat | n < 0x1_0000_0000_0000_0000
  type Nodes = map<u32, Node>

  /** The remainder is cast down to 32 bits; without peers everything is on shard 0. */
  function GetShard(hash: Text -> u64, key: Text, count: u64): u32 {
    if count == 0 then 0 else hash(key) % count % 0x1_0000_0000
  }

  /** A key's shard is the low half of the remainder of its hash by the number of shards. */
  lemma GetShardExactly(hash: Text -> u64, key: Text, count: u64, shard: u32)
    requires count > 0
    ensures GetShard(hash, key, count) == shard <==>
            exists q: nat, high: nat :: HashIs(hash, key, q, count, high, shard)
    ensures GetShard(hash, key, 0) == 0
  {
    hide HashIs;
    if q: nat, high: nat :| HashIs(hash, key, q, count, high, shard) { LowHalf(hash, key, q, count, high, shard); }
    if GetShard(hash, key, count) == shard {
      var q, high := Quotients(hash, key, count);
    }
  }

  lemma LowHalf(hash: Text -> u64, key: Text, q: nat, count: u64, high: nat, shard: u32)
    requires HashIs(hash, key, q, count, high, shard)
    ensures count > 0 && GetShard(hash, key, count) == shard
  {
    var rest := high * 0x1_0000_0000 + shard;
    Sharding.RemainderIs(hash(key), q, count, rest);
    assert rest % 0x1_0000_0000 == shard;
  }

  lemma Quotients(hash: Text -> u64, key: Text, count: u64) returns (q: nat, high: nat)
    requires count > 0
    ensures HashIs(hash, key, q, count, high, GetShard(hash, key, count))
  {
    var h: nat, n: nat := hash(key), count;
    var rest := h % n;
    q, high := h / n, rest / 0x1_0000_0000;
    assert high * 0x1_0000_0000 + rest % 0x1_0000_0000 == rest;
  }

  ghost predicate HashIs(hash: Text -> u64, key: Text, q: nat, count: u64, high: nat, shard: u32) {
    var rest := high * 0x1_0000_0000 + shard;
    rest < count && hash(key) == q * count + rest
  }

  /** What a shard has of a map. */
  function Share(hash: Text -> u64, count: u64, whole: map<Text, Text>, shard: u32): map<Text, Text> {
    map key | key in whole && GetShard(hash, key, count) == shard :: whole[key]
  }

  /** The plain keys of the nodes are one map, each key on its own shard only. */
  ghost predicate Spread(hash: Text -> u64, count: u64, nodes: Nodes, whole: map<Text, Text>) {
    forall shard <- nodes :: nodes[shard].kv == Share(hash, count, whole, shard)
  }

  // Requests for one key -----------------------------------------------------------------------------

  /** The node that owns the key does the work, whether the request came to it or not. */
  function Route(hash: Text -> u64, count: u64, nodes: Nodes, key: Text, op: Op): Nodes
    requires GetShard(hash, key, count) in nodes
  {
    var shard := GetShard(hash, key, count);
    nodes[shard := Apply(nodes[shard], op)]
  }

  lemma ShareOfPut(hash: Text -> u64, count: u64, whole: map<Text, Text>, key: Text, value: Text, shard: u32)
    ensures var part := Share(hash, count, whole, shard);
            Share(hash, count, whole[key := value], shard) ==
            if GetShard(hash, key, count) == shard then part[key := value] else part
  {
    hide GetShard;
  }

  lemma ShareOfDel(hash: Text -> u64, count: u64, whole: map<Text, Text>, key: Text, shard: u32)
    ensures var part := Share(hash, count, whole, shard);
            Share(hash, count, whole - {key}, shard) ==
            if GetShard(hash, key, count) == shard then part - {key} else part
  {
    hide GetShard;
  }

  lemma ShareAt(hash: Text -> u64, count: u64, whole: map<Text, Text>, key: Text)
    ensures var part := Share(hash, count, whole, GetShard(hash, key, count));
            (key in part <==> key in whole) && (key in whole ==> part[key] == whole[key])
  {
    hide GetShard;
  }

  /** Adding, deleting and asking for a key at its shard is doing so to the whole. */
  lemma RoutedRequestsActOnTheWhole(
      hash: Text -> u64, count: u64, nodes: Nodes, whole: map<Text, Text>, key: Text, value: Text)
    requires Spread(hash, count, nodes, whole) && GetShard(hash, key, count) in nodes
    ensures Spread(hash, count, Route(hash, count, nodes, key, Add(key, value)), whole[key := value])
    ensures Spread(hash, count, Route(hash, count, nodes, key, Del(key)), whole - {key})
    ensures key in nodes[GetShard(hash, key, count)].kv <==> key in whole
    ensures key in whole ==> nodes[GetShard(hash, key, count)].kv[key] == whole[key]
  {
    hide GetShard, Share;
    var added, deleted := Route(hash, count, nodes, key, Add(key, value)), Route(hash, count, nodes, key, Del(key));
    forall shard | shard in nodes ensures added[shard].kv == Share(hash, count, whole[key := value], shard) {
      ShareOfPut(hash, count, whole, key, value, shard);
    }
    forall shard | shard in nodes ensures deleted[shard].kv == Share(hash, count, whole - {key}, shard) {
      ShareOfDel(hash, count, whole, key, shard);
    }
    ShareAt(hash, count, whole, key);
  }

  // Batches ------------------------------------------------------------------------------------------

  /** The fold over the request list that collects each shard's pairs. */
  function Group(hash: Text -> u64, count: u64, items: seq<KeyValue>): map<u32, seq<KeyValue>> {
    if items == [] then map[]
    else
      var groups, last := Group(hash, count, items[..|items| - 1]), items[|items| - 1];
      var shard := GetShard(hash, last.key, count);
      groups[shard := (if shard in groups then groups[shard] else []) + [last]]
  }

  /** The pairs of one shard, in the order of the request. */
  function Part(hash: Text -> u64, count: u64, items: seq<KeyValue>, shard: u32): seq<KeyValue> {
    if items == [] then []
    else
      var last := items[|items| - 1];
      Part(hash, count, items[..|items| - 1], shard) + if GetShard(hash, last.key, count) == shard then [last] else []
  }

  lemma {:induction false} GroupsAreParts(hash: Text -> u64, count: u64, items: seq<KeyValue>, shard: u32)
    ensures var groups := Group(hash, count, items);
            Part(hash, count, items, shard) == if shard in groups then groups[shard] else []
    decreases |items|
  {
    if items != [] { GroupsAreParts(hash, count, items[..|items| - 1], shard); }
  }

  /** What a node does for a batch, step by step. */
  datatype Task =
    | Insert(item: KeyValue)              // at a peer: set dropped, byte store and memory written
    | PutMemory(item: KeyValue)           // at the node that took the request
    | WriteBatch(items: seq<KeyValue>)    // there too, when memory is done

  function Do(n: Node, task: Task): Node {
    match task
    case Insert(item) => Apply(n, Add(item.key, item.value))
    case PutMemory(item) => n.(kv := n.kv[item.key := item.value])
    case WriteBatch(items) => n.(db := PutAll(n.db, items))
  }

  function DoAll(n: Node, tasks: seq<Task>): Node
    decreases |tasks|
  {
    if tasks == [] then n else DoAll(Do(n, tasks[0]), tasks[1..])
  }

  function TasksOf(items: seq<KeyValue>, mine: bool): seq<Task> {
    if mine then seq(|items|, i requires 0 <= i < |items| => PutMemory(items[i])) + [WriteBatch(items)]
    else seq(|items|, i requires 0 <= i < |items| => Insert(items[i]))
  }

  /** The nodes and what each of them has left to do. */
  datatype State = State(nodes: Nodes, todo: map<u32, seq<Task>>)

  /** The node `me` takes its own group; every other group goes to its node. */
  function Scatter(hash: Text -> u64, count: u64, me: u32, nodes: Nodes, items: seq<KeyValue>): State {
    var groups := Group(hash, count, items);
    State(nodes, map shard | shard in groups.Keys + {me} ::
                   TasksOf(if shard in groups then groups[shard] else [], shard == me))
  }

  function Step(s: State, shard: u32): State {
    if shard in s.todo && s.todo[shard] != [] && shard in s.nodes
    then State(s.nodes[shard := Do(s.nodes[shard], s.todo[shard][0])], s.todo[shard := s.todo[shard][1..]])
    else s
  }

  function RunAll(s: State, schedule: seq<u32>): State
    decreases |schedule|
  {
    if schedule == [] then s else RunAll(Step(s, schedule[0]), schedule[1..])
  }

  predicate Finished(s: State) {
    forall shard <- s.todo :: s.todo[shard] == []
  }

  function TasksAt(s: State, shard: u32): seq<Task> {
    if shard in s.todo then s.todo[shard] else []
  }

  /** However the groups interleave, each node with what it has left to do comes to the same. */
  lemma {:induction false} InterleavingDoesNotMatter(s: State, schedule: seq<u32>)
    ensures var r := RunAll(s, schedule);
            && r.nodes.Keys == s.nodes.Keys && r.todo.Keys == s.todo.Keys
            && forall shard <- s.nodes :: DoAll(r.nodes[shard], TasksAt(r, shard)) == DoAll(s.nodes[shard], TasksAt(s, shard))
    decreases |schedule|
  {
    hide Do;
    if schedule != [] { InterleavingDoesNotMatter(Step(s, schedule[0]), schedule[1..]); }
  }

  lemma {:induction false} InsertsDone(n: Node, items: seq<KeyValue>)
    ensures var r := DoAll(n, TasksOf(items, false));
            && r.kv == PutAll(n.kv, items) && r.db == PutAll(n.db, items) && r.zsetDb == n.zsetDb
            && r.zsets == n.zsets - (set i | 0 <= i < |items| :: items[i].key)
    decreases |items|
  {
    if items != [] {
      var init, last := items[..|items| - 1], items[|items| - 1];
      InsertsDone(n, init);
      assert TasksOf(items, false) == TasksOf(init, false) + [Insert(last)];
      DoAppend(n, TasksOf(init, false), Insert(last));
      assert (set i | 0 <= i < |items| :: items[i].key) == (set i | 0 <= i < |init| :: init[i].key) + {last.key} by {
        assert forall i :: 0 <= i < |init| ==> init[i] == items[i];
        assert items[|items| - 1].key == last.key;
      }
    }
  }

  lemma {:induction false} PutsDone(n: Node, items: seq<KeyValue>)
    ensures DoAll(n, seq(|items|, i requires 0 <= i < |items| => PutMemory(items[i]))) == n.(kv := PutAll(n.kv, items))
    decreases |items|
  {
    var tasks := seq(|items|, i requires 0 <= i < |items| => PutMemory(items[i]));
    if items != [] {
      var init, last := items[..|items| - 1], items[|items| - 1];
      var initTasks := seq(|init|, i requires 0 <= i < |init| => PutMemory(init[i]));
      PutsDone(n, init);
      assert tasks == initTasks + [PutMemory(last)];
      DoAppend(n, initTasks, PutMemory(last));
    }
  }

  lemma {:induction false} DoAppend(n: Node, tasks: seq<Task>, last: Task)
    ensures DoAll(n, tasks + [last]) == Do(DoAll(n, tasks), last)
    decreases |tasks|
  {
    hide Do;
    if tasks == [] {
      assert tasks + [last] == [last] && [last][1..] == [];
      assert DoAll(n, [last]) == DoAll(Do(n, last), []);
    } else {
      assert (tasks + [last])[1..] == tasks[1..] + [last];
      DoAppend(Do(n, tasks[0]), tasks[1..], last);
    }
  }

  /** The node's own group is the local batch request. */
  lemma OwnGroupIsBatch(n: Node, items: seq<KeyValue>)
    ensures DoAll(n, TasksOf(items, true)) == Apply(n, Batch(items))
  {
    var puts := seq(|items|, i requires 0 <= i < |items| => PutMemory(items[i]));
    PutsDone(n, items);
    DoAppend(n, puts, WriteBatch(items));
  }

  lemma {:induction false} ShareOfPuts(
      hash: Text -> u64, count: u64, whole: map<Text, Text>, items: seq<KeyValue>, shard: u32)
    ensures Share(hash, count, PutAll(whole, items), shard) ==
            PutAll(Share(hash, count, whole, shard), Part(hash, count, items, shard))
    decreases |items|
  {
    hide GetShard, Share;
    if items != [] {
      var init, last := items[..|items| - 1], items[|items| - 1];
      ShareOfPuts(hash, count, whole, init, shard);
      ShareOfPut(hash, count, PutAll(whole, init), last.key, last.value, shard);
      if GetShard(hash, last.key, count) == shard {
        var part := Part(hash, count, items, shard);
        assert part == Part(hash, count, init, shard) + [last];
        assert part[..|part| - 1] == Part(hash, count, init, shard) && part[|part| - 1] == last;
      } else {
        assert Part(hash, count, items, shard) == Part(hash, count, init, shard);
      }
    }
  }

  /** What one node has when a batch is done, wherever the request came in. */
  lemma NodeAfterBatch(
      hash: Text -> u64, count: u64, me: u32, nodes: Nodes, items: seq<KeyValue>, schedule: seq<u32>, shard: u32)
    requires me in nodes && shard in nodes
    requires Finished(RunAll(Scatter(hash, count, me, nodes, items), schedule))
    ensures var n, part := nodes[shard], Part(hash, count, items, shard);
            var r := RunAll(Scatter(hash, count, me, nodes, items), schedule).nodes;
            && r.Keys == nodes.Keys
            && r[shard].kv == PutAll(n.kv, part) && r[shard].db == PutAll(n.db, part) && r[shard].zsetDb == n.zsetDb
            && r[shard].zsets == if shard == me then n.zsets else n.zsets - (set i | 0 <= i < |part| :: part[i].key)
  {
    hide Group, Part, PutAll, TasksOf, RunAll;
    var s := Scatter(hash, count, me, nodes, items);
    var end := RunAll(s, schedule);
    var part := Part(hash, count, items, shard);
    InterleavingDoesNotMatter(s, schedule);
    GroupsAreParts(hash, count, items, shard);
    assert TasksAt(end, shard) == [];
    if shard == me {
      OwnGroupIsBatch(nodes[shard], part);
    } else {
      InsertsDone(nodes[shard], part);
      if part == [] { NoTasks(); }
      assert DoAll(nodes[shard], TasksAt(s, shard)) == DoAll(nodes[shard], TasksOf(part, false));
    }
  }

  lemma NoTasks()
    ensures TasksOf([], false) == []
  {}

  /**
   The scattered batch is the list applied in order to the whole: of two pairs with one key the later
   wins, however the groups interleave, and each key stays on its own shard only.
   */
  lemma BatchAppliesInOrder(
      hash: Text -> u64, count: u64, me: u32, nodes: Nodes, whole: map<Text, Text>, items: seq<KeyValue>,
      schedule: seq<u32>)
    requires me in nodes && Spread(hash, count, nodes, whole)
    requires forall item <- items :: GetShard(hash, item.key, count) in nodes
    requires Finished(RunAll(Scatter(hash, count, me, nodes, items), schedule))
    ensures Spread(hash, count, RunAll(Scatter(hash, count, me, nodes, items), schedule).nodes, PutAll(whole, items))
  {
    hide GetShard, Share, Part, PutAll, RunAll, Scatter, Finished;
    var end := RunAll(Scatter(hash, count, me, nodes, items), schedule).nodes;
    NodeAfterBatch(hash, count, me, nodes, items, schedule, me);
    forall shard | shard in end ensures end[shard].kv == Share(hash, count, PutAll(whole, items), shard) {
      NodeAfterBatch(hash, count, me, nodes, items, schedule, shard);
      ShareOfPuts(hash, count, whole, items, shard);
    }
  }

  /** So a key that the batch names reads, at its shard, as in the last of its pairs, and any other as before. */
  lemma LastPairIsRead(
      hash: Text -> u64, count: u64, me: u32, nodes: Nodes, whole: map<Text, Text>, items: seq<KeyValue>,
      schedule: seq<u32>, key: Text)
    requires me in nodes && Spread(hash, count, nodes, whole) && GetShard(hash, key, count) in nodes
    requires forall item <- items :: GetShard(hash, item.key, count) in nodes
    requires Finished(RunAll(Scatter(hash, count, me, nodes, items), schedule))
    ensures var r := RunAll(Scatter(hash, count, me, nodes, items), schedule).nodes;
            var shard := GetShard(hash, key, count);
            && shard in r
            && (forall i: nat :: IsLast(items, i, key) ==> key in r[shard].kv && r[shard].kv[key] == items[i].value)
            && (!Names(items, key) ==>
                  (key in r[shard].kv <==> key in whole) && (key in whole ==> r[shard].kv[key] == whole[key]))
  {
    hide GetShard, Share, PutAll, RunAll, Scatter, Finished, Part, IsLast, Names;
    BatchAppliesInOrder(hash, count, me, nodes, whole, items, schedule);
    NodeAfterBatch(hash, count, me, nodes, items, schedule, GetShard(hash, key, count));
    ShareAt(hash, count, PutAll(whole, items), key);
    PutAllIs(whole, items, key);
  }

  /** A peer's part of a batch. */
  method ServeBatch(storage: Storage, items: seq<KeyValue>)
    requires storage.Valid()
    modifies storage
    ensures storage.Valid() && storage.View() == DoAll(old(storage.View()), TasksOf(items, false))
  {
    hide Apply;
    ghost var n := storage.View();
    assert TasksOf([], false) == [];
    for i := 0 to |items|
      invariant storage.Valid() && storage.View() == DoAll(n, TasksOf(items[..i], false))
    {
      assert TasksOf(items[..i + 1], false) == TasksOf(items[..i], false) + [Insert(items[i])];
      DoAppend(n, TasksOf(items[..i], false), Insert(items[i]));
      storage.InsertKv(items[i].key, items[i].value);
    }
    assert items[..|items|] == items;
  }

  // Lists ----------------------------------------------------------------------------------------------

  /** The pairs of those keys that are there, each once, in some order. */
  ghost predicate ListsPairs(r: seq<KeyValue>, kv: map<Text, Text>, keys: set<Text>) {
    && (forall i, j :: 0 <= i < j < |r| ==> r[i].key != r[j].key)
    && forall x :: x in r <==> x.key in keys && x.key in kv && kv[x.key] == x.value
  }

  lemma JoinLists(a: seq<KeyValue>, b: seq<KeyValue>, kv: map<Text, Text>, A: set<Text>, B: set<Text>)
    requires ListsPairs(a, kv, A) && ListsPairs(b, kv, B) && A !! B
    ensures ListsPairs(a + b, kv, A + B)
  {
    forall i, j | 0 <= i < j < |a + b| ensures (a + b)[i].key != (a + b)[j].key {
      if i < |a| <= j {
        assert a[i] in a && b[j - |a|] in b;
      }
    }
    forall x ensures x in a + b <==> x.key in A + B && x.key in kv && kv[x.key] == x.value {
      assert x in a + b <==> x in a || x in b;
    }
  }

  /** A node's pairs of a set of keys, taken in whatever order the set yields them. */
  method ListKeys(kv: map<Text, Text>, keys: set<Text>) returns (r: seq<KeyValue>)
    ensures ListsPairs(r, kv, keys)
  {
    r := [];
    var rest := keys;
    while rest != {}
      invariant rest <= keys && ListsPairs(r, kv, keys - rest)
    {
      hide ListsPairs;
      var key :| key in rest;
      var more := if key in kv then [KeyValue(key, kv[key])] else [];
      ListsOne(kv, key);
      JoinLists(r, more, kv, keys - rest, {key});
      assert keys - (rest - {key}) == keys - rest + {key};
      r := r + more;
      rest := rest - {key};
    }
    assert keys - rest == keys;
  }

  lemma ListsOne(kv: map<Text, Text>, key: Text)
    ensures ListsPairs(if key in kv then [KeyValue(key, kv[key])] else [], kv, {key})
  {}

  /** The listing of keys that all belong to one shard is that of the whole. */
  lemma ListsOfShare(
      hash: Text -> u64, count: u64, whole: map<Text, Text>, shard: u32, r: seq<KeyValue>, keys: set<Text>)
    requires ListsPairs(r, Share(hash, count, whole, shard), keys)
    requires forall key <- keys :: GetShard(hash, key, count) == shard
    ensures ListsPairs(r, whole, keys)
  {
    hide GetShard;
  }

  function KeysAt(sharded: map<u32, set<Text>>, shard: u32): set<Text> {
    if shard in sharded then sharded[shard] else {}
  }

  function KeysOn(hash: Text -> u64, count: u64, keys: set<Text>, shard: u32): set<Text> {
    set key | key in keys && GetShard(hash, key, count) == shard
  }

  lemma KeysOnOneMore(hash: Text -> u64, count: u64, keys: set<Text>, key: Text, shard: u32)
    ensures KeysOn(hash, count, keys + {key}, shard) ==
            KeysOn(hash, count, keys, shard) + if GetShard(hash, key, count) == shard then {key} else {}
  {
    hide GetShard;
  }

  /** The fold that collects each shard's keys, without repetitions. */
  method Shard(hash: Text -> u64, count: u64, keys: seq<Text>) returns (sharded: map<u32, set<Text>>)
    ensures forall shard: u32 :: KeysAt(sharded, shard) == KeysOn(hash, count, Elements(keys), shard)
    ensures forall shard <- sharded :: sharded[shard] != {}
  {
    hide GetShard, KeysOn;
    sharded := map[];
    assert forall shard: u32 :: KeysOn(hash, count, {}, shard) == {} by { NoKeys(hash, count); }
    assert Elements([]) == {};
    for i := 0 to |keys|
      invariant forall shard: u32 :: KeysAt(sharded, shard) == KeysOn(hash, count, Elements(keys[..i]), shard)
      invariant forall shard <- sharded :: sharded[shard] != {}
    {
      var shard := GetShard(hash, keys[i], count);
      assert Elements(keys[..i + 1]) == Elements(keys[..i]) + {keys[i]} by {
        assert keys[..i + 1] == keys[..i] + [keys[i]];
      }
      forall s: u32 { KeysOnOneMore(hash, count, Elements(keys[..i]), keys[i], s); }
      sharded := sharded[shard := KeysAt(sharded, shard) + {keys[i]}];
    }
    assert keys[..|keys|] == keys;
  }

  function Elements(keys: seq<Text>): set<Text> {
    set key | key in keys
  }

  lemma NoKeys(hash: Text -> u64, count: u64)
    ensures forall shard: u32 :: KeysOn(hash, count, {}, shard) == {}
  {}

  /**
   A list request answers each key of the list that is anywhere in the cluster, once, with its value;
   not found if there is none.
   */
  method HandleList(
      hash: Text -> u64, count: u64, me: u32, nodes: Nodes, keys: seq<Text>, ghost whole: map<Text, Text>)
    returns (reply: Option<seq<KeyValue>>)
    requires me in nodes && Spread(hash, count, nodes, whole)
    requires forall key <- keys :: GetShard(hash, key, count) in nodes
    ensures reply.None? <==> Elements(keys) !! whole.Keys
    ensures reply.Some? ==> ListsPairs(reply.value, whole, Elements(keys))
  {
    hide GetShard, ListsPairs, Share, KeysOn, KeysNotOn, Spread, Elements;
    ghost var all := Elements(keys);
    var sharded := Shard(hash, count, keys);
    AllButOne(hash, count, all, sharded, me);
    ShardsAreNodes(hash, count, keys, nodes, sharded);
    var result := AskShard(hash, count, nodes, me, KeysAt(sharded, me), whole, all);
    result := Gather(hash, count, nodes, sharded - {me}, result, whole, all);
    reply := if result == [] then None else Some(result);
    EmptyListing(result, whole, all);
  }

  /** The answers of the other shards, in whatever order the table of groups yields them. */
  method Gather(
      hash: Text -> u64, count: u64, nodes: Nodes, sharded: map<u32, set<Text>>, first: seq<KeyValue>,
      ghost whole: map<Text, Text>, ghost all: set<Text>)
    returns (result: seq<KeyValue>)
    requires Spread(hash, count, nodes, whole)
    requires ListsPairs(first, whole, KeysNotOn(hash, count, all, sharded.Keys))
    requires forall shard <- sharded :: shard in nodes && sharded[shard] == KeysOn(hash, count, all, shard)
    ensures ListsPairs(result, whole, all)
  {
    hide GetShard, ListsPairs, KeysOn, KeysNotOn, Spread;
    result := first;
    var left := sharded.Keys;
    while left != {}
      invariant left <= sharded.Keys
      invariant ListsPairs(result, whole, KeysNotOn(hash, count, all, left))
    {
      var shard :| shard in left;
      var part := AskShard(hash, count, nodes, shard, sharded[shard], whole, all);
      OneShardMore(hash, count, all, left, shard);
      JoinLists(result, part, whole, KeysNotOn(hash, count, all, left), KeysOn(hash, count, all, shard));
      result := result + part;
      left := left - {shard};
    }
    NoneLeft(hash, count, all);
  }

  lemma ShardsAreNodes(hash: Text -> u64, count: u64, keys: seq<Text>, nodes: Nodes, sharded: map<u32, set<Text>>)
    requires forall key <- keys :: GetShard(hash, key, count) in nodes
    requires forall shard <- sharded :: exists key <- Elements(keys) :: GetShard(hash, key, count) == shard
    ensures forall shard <- sharded :: shard in nodes
  {
    hide GetShard;
  }

  /** The keys of the shards that have been asked. */
  ghost function KeysNotOn(hash: Text -> u64, count: u64, keys: set<Text>, left: set<u32>): set<Text> {
    set key | key in keys && GetShard(hash, key, count) !in left
  }

  lemma OneShardMore(hash: Text -> u64, count: u64, keys: set<Text>, left: set<u32>, shard: u32)
    requires shard in left
    ensures KeysNotOn(hash, count, keys, left - {shard}) == KeysNotOn(hash, count, keys, left) + KeysOn(hash, count, keys, shard)
    ensures KeysNotOn(hash, count, keys, left) !! KeysOn(hash, count, keys, shard)
  {
    hide GetShard;
  }

  lemma NoneLeft(hash: Text -> u64, count: u64, keys: set<Text>)
    ensures KeysNotOn(hash, count, keys, {}) == keys
  {}

  lemma AllButOne(hash: Text -> u64, count: u64, keys: set<Text>, sharded: map<u32, set<Text>>, me: u32)
    requires forall shard: u32 :: KeysAt(sharded, shard) == KeysOn(hash, count, keys, shard)
    requires forall shard <- sharded :: sharded[shard] != {}
    ensures KeysNotOn(hash, count, keys, (sharded - {me}).Keys) == KeysOn(hash, count, keys, me)
    ensures forall shard <- sharded ::
              sharded[shard] == KeysOn(hash, count, keys, shard) && exists key <- keys :: GetShard(hash, key, count) == shard
  {
    hide GetShard;
    forall key | key in keys ensures key in KeysAt(sharded, GetShard(hash, key, count)) {
      assert key in KeysOn(hash, count, keys, GetShard(hash, key, count));
    }
    forall shard | shard in sharded
      ensures sharded[shard] == KeysOn(hash, count, keys, shard) && exists key <- keys :: GetShard(hash, key, count) == shard
    {
      assert sharded[shard] == KeysAt(sharded, shard);
      var key :| key in sharded[shard];
      assert key in keys && GetShard(hash, key, count) == shard;
    }
  }

  /** A shard's listing of the keys that belong to it is that of the whole. */
  method AskShard(
      hash: Text -> u64, count: u64, nodes: Nodes, shard: u32, keys: set<Text>, ghost whole: map<Text, Text>,
      ghost all: set<Text>)
    returns (r: seq<KeyValue>)
    requires Spread(hash, count, nodes, whole) && shard in nodes && keys == KeysOn(hash, count, all, shard)
    ensures ListsPairs(r, whole, keys)
  {
    hide GetShard, ListsPairs;
    r := ListKeys(nodes[shard].kv, keys);
    ListsOfShare(hash, count, whole, shard, r, keys);
  }

  lemma EmptyListing(r: seq<KeyValue>, kv: map<Text, Text>, keys: set<Text>)
    requires ListsPairs(r, kv, keys)
    ensures r == [] <==> keys !! kv.Keys
  {
    if key :| key in keys && key in kv { assert KeyValue(key, kv[key]) in r; }
    assert r != [] ==> r[0] in r;
  }
}
