/** The store of one core: two maps updated in place, one of them to sorted sets on the heap. */
module SingleThreadStorage {
  import opened Values
  import opened FlatMap
  import opened SingleThreadZset
  import opened StoreSpec

  class Storage {
    var zsets: map<Text, Zset>
    var kv: map<Text, Text>
    ghost var Repr: set<object>

    /** Every key has a sorted set of its own, and none is a plain key. */
    ghost predicate Valid()
      reads this, Repr
      ensures Valid() ==> this in Repr
    {
      && this in Repr
      && (forall k <- zsets :: zsets[k] in Repr && zsets[k].Valid())
      && (forall j, k :: j in zsets && k in zsets && j != k ==> zsets[j] != zsets[k])
      && kv.Keys !! zsets.Keys
    }

    /** The store this object stands for. */
    ghost function View(): Store
      reads this, Repr
      requires Valid()
    {
      Store(kv, map k | k in zsets :: zsets[k].contents)
    }

    constructor ()
      ensures Valid() && fresh(Repr) && View() == EMPTY
    {
      zsets, kv, Repr := map[], map[], {this};
    }

    method GetValueByKey(key: Text) returns (r: Option<Text>)
      requires Valid()
      ensures r == Query(View(), key)
    {
      r := if key in kv then Some(kv[key]) else None;
    }

    method AddKeyValue(key: Text, value: Text)
      requires Valid()
      modifies this
      ensures Valid() && Repr == old(Repr)
      ensures View() == Add(old(View()), key, value)
    {
      hide Zset.Valid;
      kv := kv - {key};
      zsets := zsets - {key};
      kv := kv[key := value];
      assert kv == old(kv)[key := value];
      assert View().zsets == old(View()).zsets - {key};
    }

    method DelKey(key: Text)
      requires Valid()
      modifies this
      ensures Valid() && Repr == old(Repr)
      ensures View() == Del(old(View()), key)
    {
      hide Zset.Valid;
      kv := kv - {key};
      zsets := zsets - {key};
      assert View().zsets == old(View()).zsets - {key};
    }

    method ListKeys(keys: seq<Text>) returns (result: seq<KeyValue>)
      requires Valid()
      ensures result == List(View(), keys)
    {
      result := [];
      for i := 0 to |keys|
        invariant result == List(View(), keys[..i])
      {
        assert keys[..i + 1][..i] == keys[..i];
        if keys[i] in kv {
          result := result + [KeyValue(keys[i], kv[keys[i]])];
        }
      }
      assert keys[..|keys|] == keys;
    }

    method ZsetAdd(key: Text, value: Text, score: u32) returns (ok: bool)
      requires Valid()
      modifies Repr
      ensures Valid() && fresh(Repr - old(Repr))
      ensures (View(), ok) == ZAdd(old(View()), key, value, score)
    {
      hide Zset.Valid;
      if key in kv {
        return false;
      }
      if key !in zsets {
        var empty := new Zset();
        zsets := zsets[key := empty];
        Repr := Repr + {empty};
      }
      var zset := zsets[key];
      zset.Zadd(value, score);
      ok := true;
      assert View().zsets == old(View()).zsets[key := ScoresOf(old(View()), key)[value := score]];
    }

    method ZsetRmv(key: Text, value: Text)
      requires Valid()
      modifies Repr
      ensures Valid() && Repr == old(Repr)
      ensures View() == ZRmv(old(View()), key, value)
    {
      hide Zset.Valid;
      if key !in zsets {
        return;
      }
      var zset := zsets[key];
      zset.Zrmv(value);
      assert View().zsets == old(View()).zsets[key := old(View()).zsets[key] - {value}];
    }

    method ZsetZrange(key: Text, min: u32, max: u32) returns (r: Option<seq<Bucket>>)
      requires Valid()
      ensures r == ZRange(View(), key, min, max)
    {
      if key !in zsets {
        return None;
      }
      var buckets := zsets[key].Zrange(min, max);
      r := Some(buckets);
    }
  }
}
