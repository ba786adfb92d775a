/** The storage of a Rust node, updated in place one map or byte-store operation at a time. */
module RustStorage {
  import opened Values
  import opened ZsetSpec
  import opened ZsetKeyCodec
  import opened RustZset
  import opened RustNode

  /** A sorted set: the index from value to score and the buckets of values by score. */
  datatype ZSet = ZSet(valueToScore: Scores, scoreToValues: Buckets)

  const EMPTY_ZSET := ZSet(map[], map[])

  /** The answers of a range query; a range with its ends exchanged panics. */
  datatype RangeAnswer = NotFound | Panics | Listed(items: seq<ScoreValue>)

  lemma MoveShows(m: Buckets, c: Scores, value: Text, score: u32, w: Text)
    requires Represents(m, c)
    ensures value in c ==> Shows(InsertAt(RemoveAt(m, c[value], value), score, value), c[value := score], w)
    ensures value in c ==> Shows(RemoveAt(m, c[value], value), c - {value}, w)
    ensures value !in c ==> Shows(InsertAt(m, score, value), c[value := score], w)
  {
    assert Shows(m, c, w) && Shows(m, c, value);
    hide BucketAt, InsertAt, RemoveAt;
    BucketsAfter(m, score, value);
    if value in c {
      BucketsAfter(m, c[value], value);
      BucketsAfter(RemoveAt(m, c[value], value), score, value);
    }
  }

  /** What becomes of the buckets on an addition, with the value in the index or not, and on a removal. */
  lemma MoveRepresents(m: Buckets, c: Scores, value: Text, score: u32)
    requires Represents(m, c)
    ensures value in c ==> Represents(InsertAt(RemoveAt(m, c[value], value), score, value), c[value := score])
    ensures value in c ==> Represents(RemoveAt(m, c[value], value), c - {value})
    ensures value !in c ==> Represents(InsertAt(m, score, value), c[value := score])
  {
    hide Shows, InsertAt, RemoveAt;
    var added := c[value := score];
    if value in c {
      var without, less := RemoveAt(m, c[value], value), c - {value};
      var moved := InsertAt(without, score, value);
      forall w ensures Shows(moved, added, w) { MoveShows(m, c, value, score, w); }
      forall w ensures Shows(without, less, w) { MoveShows(m, c, value, score, w); }
    } else {
      var inserted := InsertAt(m, score, value);
      forall w ensures Shows(inserted, added, w) { MoveShows(m, c, value, score, w); }
    }
  }

  lemma EmptyRepresents()
    ensures Represents(EMPTY_ZSET.scoreToValues, EMPTY_ZSET.valueToScore)
  {}

  class Storage {
    var kv: map<Text, Text>
    var zsets: map<Text, ZSet>
    var db: map<Text, Text>
    var zsetDb: map<Text, Text>

    /** In every sorted set the buckets hold what the index says. */
    ghost predicate Valid()
      reads this
    {
      forall key <- zsets :: Represents(zsets[key].scoreToValues, zsets[key].valueToScore)
    }

    ghost function View(): Node
      reads this
    {
      Node(kv, map key | key in zsets :: zsets[key].valueToScore, db, zsetDb)
    }

    constructor ()
      ensures Valid() && View() == FRESH
    {
      kv, zsets, db, zsetDb := map[], map[], map[], map[];
    }

    method ZaddMemory(key: Text, value: Text, score: u32)
      requires Valid()
      modifies this`zsets
      ensures Valid()
      ensures View() == old(View()).(zsets := old(View()).zsets[key := ScoresOf(old(View()), key)[value := score]])
    {
      hide Represents, InsertAt, RemoveAt;
      if key !in zsets {
        zsets := zsets[key := EMPTY_ZSET];
      }
      var zset := zsets[key];
      assert Represents(zset.scoreToValues, zset.valueToScore) by { EmptyRepresents(); }
      assert zset.valueToScore == ScoresOf(old(View()), key);
      MoveRepresents(zset.scoreToValues, zset.valueToScore, value, score);
      if value in zset.valueToScore {
        var oldScore := zset.valueToScore[value];
        assert oldScore == score ==> zset.valueToScore[value := score] == zset.valueToScore;
        if oldScore != score {
          zset := zset.(scoreToValues := RemoveAt(zset.scoreToValues, oldScore, value));
          zset := zset.(scoreToValues := InsertAt(zset.scoreToValues, score, value));
          zset := zset.(valueToScore := zset.valueToScore[value := score]);
        }
      } else {
        zset := zset.(valueToScore := zset.valueToScore[value := score]);
        zset := zset.(scoreToValues := InsertAt(zset.scoreToValues, score, value));
      }
      zsets := zsets[key := zset];
    }

    method Zadd(key: Text, value: Text, score: u32)
      requires Valid()
      modifies this`zsets, this`zsetDb
      ensures Valid() && View() == Apply(old(View()), ZAdd(key, value, score))
    {
      zsetDb := zsetDb[EncodeKey(key, value) := LeBytes(score)];
      ZaddMemory(key, value, score);
    }

    method Zrmv(key: Text, value: Text)
      requires Valid()
      modifies this`zsets, this`zsetDb
      ensures Valid() && View() == Apply(old(View()), ZRmv(key, value))
    {
      hide Represents, RemoveAt, EncodeKey;
      if key in zsets {
        var zset := zsets[key];
        if value in zset.valueToScore {
          MoveRepresents(zset.scoreToValues, zset.valueToScore, value, 0);
          var score := zset.valueToScore[value];
          zset := zset.(valueToScore := zset.valueToScore - {value});
          zsetDb := zsetDb - {EncodeKey(key, value)};
          zset := zset.(scoreToValues := RemoveAt(zset.scoreToValues, score, value));
          zsets := zsets[key := zset];
        }
      }
    }

    /** A query answers with any order that the hash sets may yield. */
    ghost predicate ZrangeMay(key: Text, min: u32, max: u32, answer: RangeAnswer)
      reads this
    {
      if key !in zsets then answer == NotFound
      else if min > max then answer == Panics
      else answer.Listed? && Lists(answer.items, zsets[key].scoreToValues, min, max)
    }

    method InsertKv(key: Text, value: Text)
      requires Valid()
      modifies this`zsets, this`db, this`kv
      ensures Valid() && View() == Apply(old(View()), Add(key, value))
    {
      hide Represents;
      zsets := zsets - {key};
      db := db[key := value];
      kv := kv[key := value];
    }

    /** Memory is updated pair by pair, the byte store with the whole batch at the end. */
    method BatchInsertKv(items: seq<KeyValue>)
      requires Valid()
      modifies this`db, this`kv
      ensures Valid() && View() == Apply(old(View()), Batch(items))
    {
      var writeBatch := [];
      for i := 0 to |items|
        invariant writeBatch == items[..i] && kv == PutAll(old(kv), items[..i])
        invariant Valid() && View() == old(View()).(kv := kv)
      {
        writeBatch := writeBatch + [items[i]];
        kv := kv[items[i].key := items[i].value];
        assert items[..i + 1][..i] == items[..i];
      }
      assert items[..|items|] == items;
      db := PutAll(db, writeBatch);
    }

    method RemoveKey(key: Text)
      requires Valid()
      modifies this`db, this`kv
      ensures Valid() && View() == old(View()).(kv := old(kv) - {key}, db := old(db) - {key})
    {
      db := db - {key};
      kv := kv - {key};
    }

    /** Deleting a key, as the handlers do it. */
    method Del(key: Text)
      requires Valid()
      modifies this`zsets, this`db, this`kv
      ensures Valid() && View() == Apply(old(View()), RustNode.Del(key))
    {
      hide Represents;
      RemoveKey(key);
      zsets := zsets - {key};
    }

    /** Reads both byte stores, in whatever order they yield their entries; `ok` is false where that panics. */
    method LoadFromDisk() returns (ok: bool)
      requires Valid()
      modifies this`kv, this`zsets
      ensures Valid() && ok == Loadable(zsetDb)
      ensures ok ==> View() == Loaded(old(View()))
    {
      hide Represents, DecodeKey, EncodeKey, FromLeBytes, LoadedSets;
      var rest := db.Keys;
      while rest != {}
        invariant rest <= db.Keys && zsets == old(zsets)
        invariant kv.Keys == old(kv).Keys + (db.Keys - rest)
        invariant forall key <- kv :: kv[key] == if key in db && key !in rest then db[key] else old(kv)[key]
      {
        var key :| key in rest;
        kv := kv[key := db[key]];
        rest := rest - {key};
      }
      assert kv == old(kv) + db;
      ok := LoadZsets();
    }

    method LoadZsets() returns (ok: bool)
      requires Valid()
      modifies this`zsets
      ensures Valid() && ok == Loadable(zsetDb)
      ensures ok ==> View().zsets == LoadedSets(old(View()).zsets, zsetDb)
    {
      hide Represents, DecodeKey, EncodeKey, FromLeBytes, LoadedSets;
      ghost var before := View().zsets;
      var rest := zsetDb.Keys;
      LoadedNothing(before);
      assert zsetDb - rest == map[];
      while rest != {}
        invariant Valid() && rest <= zsetDb.Keys
        invariant Loadable(zsetDb - rest)
        invariant View().zsets == LoadedSets(before, zsetDb - rest)
      {
        var s :| s in rest;
        var key, score := DecodeKey(s), FromLeBytes(zsetDb[s]);
        if key.None? || score.None? {
          return false;
        }
        LoadedOneMore(before, zsetDb - rest, s, zsetDb[s]);
        assert zsetDb - (rest - {s}) == (zsetDb - rest)[s := zsetDb[s]];
        ZaddMemory(key.value.0, key.value.1, score.value);
        rest := rest - {s};
      }
      assert zsetDb - rest == zsetDb;
      return true;
    }
  }

  /**
   A query lists exactly the entries in the range, once each and by ascending score, in any order of the
   values with one score. It answers with nothing for a missing key only, and panics only for a set that
   is there with the ends of the range exchanged.
   */
  lemma ZrangeIsExact(storage: Storage, key: Text, min: u32, max: u32)
    requires storage.Valid()
    ensures var zsets := storage.View().zsets;
            && (storage.ZrangeMay(key, min, max, NotFound) <==> key !in zsets)
            && (storage.ZrangeMay(key, min, max, Panics) <==> key in zsets && min > max)
            && forall items ::
                 storage.ZrangeMay(key, min, max, Listed(items)) <==>
                 key in zsets && min <= max && ListsEntries(items, zsets[key], min, max)
  {
    hide Represents, Lists, ListsEntries;
    if key in storage.zsets {
      var scores, buckets := storage.zsets[key].valueToScore, storage.zsets[key].scoreToValues;
      forall items ensures Lists(items, buckets, min, max) <==> ListsEntries(items, scores, min, max) {
        if Lists(items, buckets, min, max) { ListingIsExact(items, buckets, scores, min, max); }
        if ListsEntries(items, scores, min, max) { EveryListing(items, buckets, scores, min, max); }
      }
    }
  }

  /** Every query has an answer; the set that `zrmv` has emptied lists nothing. */
  lemma SomeAnswer(storage: Storage, key: Text, min: u32, max: u32) returns (answer: RangeAnswer)
    requires storage.Valid()
    ensures storage.ZrangeMay(key, min, max, answer)
    ensures answer.NotFound? <==> key !in storage.View().zsets
    ensures answer.Panics? <==> key in storage.View().zsets && min > max
    ensures answer.Listed? ==> ListsEntries(answer.items, storage.View().zsets[key], min, max)
  {
    hide Represents, Lists, ListsEntries;
    ZrangeIsExact(storage, key, min, max);
    if key !in storage.zsets {
      answer := NotFound;
    } else if min > max {
      answer := Panics;
    } else {
      var items := SomeListing(storage.zsets[key].scoreToValues, min, max);
      answer := Listed(items);
    }
  }
}
