/**
 One store per core. A request runs on the core its key is routed to, directly or by message; a
 list request is split among all cores and their answers are returned side by side.
 */
module ShardedStorage {
  import opened Values
  import opened FlatMap
  import opened StoreSpec
  import opened Sharding
  import opened SingleThreadStorage

  class Shards {
    const hash: Hash
    const peers: seq<Storage>
    ghost var Repr: set<object>

    ghost predicate Valid()
      reads this, Repr
    {
      && this in Repr && |peers| > 0
      && (forall i :: 0 <= i < |peers| ==> peers[i] in Repr && peers[i].Repr <= Repr && this !in peers[i].Repr && peers[i].Valid())
      && (forall i, j :: 0 <= i < j < |peers| ==> peers[i].Repr !! peers[j].Repr)
    }

    /** The stores of the cores. */
    ghost function View(): (v: seq<Store>)
      reads this, Repr
      requires Valid()
      ensures |v| == |peers|
    {
      seq(|peers|, i requires 0 <= i < |peers| && Valid() reads this, Repr => peers[i].View())
    }

    /** `start`: an empty store on each of `count` cores. */
    constructor (hash: Hash, count: nat)
      requires count > 0
      ensures Valid() && fresh(Repr)
      ensures this.hash == hash && View() == seq(count, _ => EMPTY)
    {
      var stores: seq<Storage> := [];
      ghost var objects: set<object> := {};
      while |stores| < count
        invariant |stores| <= count && fresh(objects)
        invariant forall i :: 0 <= i < |stores| ==> stores[i].Repr <= objects && stores[i].Valid() && stores[i].View() == EMPTY
        invariant forall i, j :: 0 <= i < j < |stores| ==> stores[i].Repr !! stores[j].Repr
      {
        var store := new Storage();
        stores := stores + [store];
        objects := objects + store.Repr;
      }
      this.hash, peers := hash, stores;
      Repr := objects + {this};
    }

    method GetValueByKey(key: Text) returns (r: Option<Text>)
      requires Valid()
      ensures Found(r) == ShardApply(hash, View(), QueryOp(key)).1
    {
      var cpu := GetCpu(hash, |peers|, key);
      r := peers[cpu].GetValueByKey(key);
    }

    method AddKeyValue(key: Text, value: Text)
      requires Valid()
      modifies Repr
      ensures Valid() && fresh(Repr - old(Repr))
      ensures View() == ShardApply(hash, old(View()), AddOp(key, value)).0
    {
      hide Storage.Valid, Storage.View, Add;
      var cpu := GetCpu(hash, |peers|, key);
      peers[cpu].AddKeyValue(key, value);
    }

    method DelKey(key: Text)
      requires Valid()
      modifies Repr
      ensures Valid() && fresh(Repr - old(Repr))
      ensures View() == ShardApply(hash, old(View()), DelOp(key)).0
    {
      hide Storage.Valid, Storage.View, Del;
      var cpu := GetCpu(hash, |peers|, key);
      peers[cpu].DelKey(key);
    }

    method ZsetAdd(key: Text, value: Text, score: u32) returns (ok: bool)
      requires Valid()
      modifies Repr
      ensures Valid() && fresh(Repr - old(Repr))
      ensures View() == ShardApply(hash, old(View()), ZAddOp(key, value, score)).0
      ensures Accepted(ok) == ShardApply(hash, old(View()), ZAddOp(key, value, score)).1
    {
      hide Storage.Valid, Storage.View, ZAdd;
      var cpu := GetCpu(hash, |peers|, key);
      ok := peers[cpu].ZsetAdd(key, value, score);
      Repr := Repr + peers[cpu].Repr;
      assert View()[cpu] == ZAdd(old(View())[cpu], key, value, score).0;
    }

    method ZsetRmv(key: Text, value: Text)
      requires Valid()
      modifies Repr
      ensures Valid() && fresh(Repr - old(Repr))
      ensures View() == ShardApply(hash, old(View()), ZRmvOp(key, value)).0
    {
      hide Storage.Valid, Storage.View, ZRmv;
      var cpu := GetCpu(hash, |peers|, key);
      peers[cpu].ZsetRmv(key, value);
    }

    method ZsetZrange(key: Text, min: u32, max: u32) returns (r: Option<seq<Bucket>>)
      requires Valid()
      ensures Ranged(r) == ShardApply(hash, View(), ZRangeOp(key, min, max)).1
    {
      var cpu := GetCpu(hash, |peers|, key);
      r := peers[cpu].ZsetZrange(key, min, max);
    }

    /** The keys, in whatever order the caller's set yields them, are sent to their cores. */
    method ListKeys(keys: seq<Text>) returns (result: seq<seq<KeyValue>>)
      requires Valid()
      ensures result == ListShards(hash, View(), keys)
    {
      hide Storage.Valid, Storage.View, List;
      var n := |peers|;
      var keysPerCpu := seq(n, _ => []);
      for i := 0 to |keys|
        invariant |keysPerCpu| == n
        invariant forall c :: 0 <= c < n ==> keysPerCpu[c] == Group(hash, n, keys[..i], c)
      {
        assert keys[..i + 1][..i] == keys[..i];
        var cpu := GetCpu(hash, n, keys[i]);
        keysPerCpu := keysPerCpu[cpu := keysPerCpu[cpu] + [keys[i]]];
      }
      assert keys[..|keys|] == keys;
      result := [];
      for c := 0 to n
        invariant result == ListShards(hash, View(), keys)[..c]
      {
        var items := peers[c].ListKeys(keysPerCpu[c]);
        result := result + [items];
      }
    }
  }
}
