/**
 What a sorted set is: one map from value to score. The implementations that follow, single-threaded
 and shared, are all proved against it.
 */
module ZsetSpec {
  import opened Values
  import opened FlatMap

  /** The map a sorted set stands for. */
  type Scores = map<Text, u32>

  function Lookup(c: Scores, value: Text): Option<u32> {
    if value in c then Some(c[value]) else None
  }

  lemma SameScores(a: Scores, b: Scores)
    requires forall value :: Lookup(a, value) == Lookup(b, value)
    ensures a == b
  {
    forall value ensures value in a <==> value in b {
      assert Lookup(a, value) == Lookup(b, value);
    }
    forall value | value in a ensures a[value] == b[value] {
      assert Lookup(a, value) == Lookup(b, value);
    }
  }

  /** What a range query means: for each score from `k` to `max` in turn, the values that have it. */
  function Range(c: Scores, k: nat, max: u32): seq<Bucket>
    decreases max as int + 1 - k
  {
    if k > max then []
    else
      var values := set v | v in c && c[v] == k;
      (if values == {} then [] else [Bucket(k, values)]) + Range(c, k + 1, max)
  }

  lemma {:induction false} RangeSpec(c: Scores, k: nat, max: u32)
    ensures var r := Range(c, k, max);
            && Ascending(r) && NoneEmpty(r) && (forall b <- r :: k <= b.score <= max)
            && forall j: u32 :: ValuesAt(r, j) == if k <= j <= max then set v | v in c && c[v] == j else {}
    decreases max as int + 1 - k
  {
    if k <= max {
      hide Ascending, ValuesAt, NoneEmpty;
      RangeSpec(c, k + 1, max);
      var values := set v | v in c && c[v] == k;
      var rest := Range(c, k + 1, max);
      var r := Range(c, k, max);
      assert Above(rest, k);
      NoneBelow(rest, k);
      if values == {} {
        assert r == rest;
      } else {
        assert r == [Bucket(k, values)] + rest;
        Prepend(Bucket(k, values), rest);
      }
    }
  }

  /** A range lists, in ascending order, exactly the entries in it, each value once and under its score. */
  lemma RangeListsEachOnce(c: Scores, min: u32, max: u32)
    ensures var r := Range(c, min, max);
            && Ascending(r)
            && (forall b <- r :: min <= b.score <= max && b.values != {} && b.values == set v | v in c && c[v] == b.score)
            && (forall v <- c :: min <= c[v] <= max ==> Bucket(c[v], set w | w in c && c[w] == c[v]) in r)
            && (forall a, b, v :: a in r && b in r && v in a.values && v in b.values ==> a == b)
  {
    var r := Range(c, min, max);
    RangeSpec(c, min, max);
    forall b | b in r ensures b.values == set v | v in c && c[v] == b.score { ValuesOf(r, b); }
    forall v | v in c && min <= c[v] <= max ensures Bucket(c[v], set w | w in c && c[w] == c[v]) in r {
      assert v in ValuesAt(r, c[v]);
      if !HasScore(r, c[v]) { NoScoreNoValues(r, c[v]); } else { BucketOf(r, c[v]); }
    }
  }

  datatype ZOp = Put(value: Text, score: u32) | Drop(value: Text)

  function ApplyOp(c: Scores, op: ZOp): Scores {
    if op.Put? then c[op.value := op.score] else c - {op.value}
  }

  /** What a list of operations, one after the other, leaves. */
  function Contents(log: seq<ZOp>): Scores {
    if log == [] then map[] else ApplyOp(Contents(log[..|log| - 1]), log[|log| - 1])
  }

  lemma ContentsAppend(log: seq<ZOp>, op: ZOp)
    ensures Contents(log + [op]) == ApplyOp(Contents(log), op)
  {
    assert (log + [op])[..|log|] == log;
  }

  /** The last operation on a value decides: if it puts the value, there it is with that score, otherwise it is not there. */
  lemma {:induction false} ContentsAre(log: seq<ZOp>, value: Text, score: u32)
    ensures Lookup(Contents(log), value) == Some(score) <==> exists i :: PutLast(log, value, score, i)
    decreases |log|
  {
    if log != [] {
      var init, last := log[..|log| - 1], log[|log| - 1];
      ContentsAre(init, value, score);
      if i :| PutLast(init, value, score, i) && last.value != value { assert PutLast(log, value, score, i); }
      if last == Put(value, score) { assert PutLast(log, value, score, |log| - 1); }
      if i :| PutLast(log, value, score, i) && i < |log| - 1 {
        assert log[|log| - 1].value != value && PutLast(init, value, score, i);
      }
    }
  }

  ghost predicate PutLast(log: seq<ZOp>, value: Text, score: u32, i: int) {
    0 <= i < |log| && log[i] == Put(value, score) && forall j :: i < j < |log| ==> log[j].value != value
  }
}
