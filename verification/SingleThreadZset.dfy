/**
 The sorted set of the single-threaded store: an index from value to score and buckets of values by
 score. Together they are one map from value to score, although removal leaves its entry in the
 index behind.
 */
module SingleThreadZset {
  import opened Values
  import opened FlatMap
  import opened ZsetSpec

  /** The buckets hold exactly the entries of the map. */
  ghost predicate Indexes(m: seq<Bucket>, c: Scores) {
    && Ascending(m) && NoneEmpty(m)
    && forall v, k: u32 :: v in ValuesAt(m, k) <==> v in c && c[v] == k
  }

  /** The buckets with scores in a range. */
  function Within(m: seq<Bucket>, min: u32, max: u32): seq<Bucket> {
    if m == [] then []
    else (if min <= m[0].score <= max then [m[0]] else []) + Within(m[1..], min, max)
  }

  lemma {:induction false} WithinSpec(m: seq<Bucket>, min: u32, max: u32)
    requires Ascending(m)
    ensures var r := Within(m, min, max);
            && Ascending(r) && (forall b <- r :: b in m)
            && forall j: u32 :: ValuesAt(r, j) == if min <= j <= max then ValuesAt(m, j) else {}
  {
    if m != [] {
      WithinSpec(m[1..], min, max);
      var r, rest := Within(m, min, max), Within(m[1..], min, max);
      if min <= m[0].score <= max {
        assert r == [m[0]] + rest && r[1..] == rest;
      } else {
        assert r == rest;
        NoneBelow(m[1..], m[0].score);
      }
    }
  }

  lemma {:induction false} WithinNothing(m: seq<Bucket>, min: u32, max: u32)
    requires Above(m, max)
    ensures Within(m, min, max) == []
  {
    if m != [] {
      assert m[0] in m && forall b <- m[1..] :: b in m;
      WithinNothing(m[1..], min, max);
    }
  }

  /** The buckets in a range, read off the index, are the range of the map. */
  lemma WithinIsRange(m: seq<Bucket>, c: Scores, min: u32, max: u32)
    requires Indexes(m, c)
    ensures Within(m, min, max) == Range(c, min, max)
  {
    WithinSpec(m, min, max);
    RangeSpec(c, min, max);
    SameBuckets(Within(m, min, max), Range(c, min, max));
  }

  /** `values.erase(value)`, and the bucket with it when that was its last value. */
  function WithoutValue(m: seq<Bucket>, k: u32, v: Text): seq<Bucket> {
    var open := Open(m, k);
    var left := SetValues(open, k, ValuesAt(open, k) - {v});
    if ValuesAt(left, k) == {} then Erase(left, k) else left
  }

  function WithValue(m: seq<Bucket>, k: u32, v: Text): seq<Bucket> {
    var open := Open(m, k);
    SetValues(open, k, ValuesAt(open, k) + {v})
  }

  lemma WithoutValueSpec(m: seq<Bucket>, k: u32, v: Text)
    requires Ascending(m) && NoneEmpty(m)
    ensures var r := WithoutValue(m, k, v);
            && Ascending(r) && NoneEmpty(r)
            && forall j: u32 :: ValuesAt(r, j) == if j == k then ValuesAt(m, k) - {v} else ValuesAt(m, j)
  {
    OpenSpec(m, k);
    var open := Open(m, k);
    SetValuesSpec(open, k, ValuesAt(open, k) - {v});
    EraseSpec(SetValues(open, k, ValuesAt(open, k) - {v}), k);
  }

  lemma WithValueSpec(m: seq<Bucket>, k: u32, v: Text)
    requires Ascending(m) && NoneEmpty(m)
    ensures var r := WithValue(m, k, v);
            && Ascending(r) && NoneEmpty(r)
            && forall j: u32 :: ValuesAt(r, j) == if j == k then ValuesAt(m, k) + {v} else ValuesAt(m, j)
  {
    OpenSpec(m, k);
    var open := Open(m, k);
    SetValuesSpec(open, k, ValuesAt(open, k) + {v});
  }

  /** Adding: whatever the index says of the value, stale or not, its bucket loses it and the new one gets it. */
  lemma ZaddSpec(m: seq<Bucket>, c: Scores, index: Scores, v: Text, k: u32)
    requires Indexes(m, c) && forall w <- c :: w in index && index[w] == c[w]
    ensures v in index ==> Indexes(WithValue(WithValue(WithoutValue(m, index[v], v), k, v), k, v), c[v := k])
    ensures v !in index ==> Indexes(WithValue(m, k, v), c[v := k])
  {
    hide WithValue, WithoutValue, Ascending, NoneEmpty, ValuesAt;
    if v in index {
      var m1 := WithoutValue(m, index[v], v);
      WithoutValueSpec(m, index[v], v);
      WithValueSpec(m1, k, v);
      WithValueSpec(WithValue(m1, k, v), k, v);
    } else {
      WithValueSpec(m, k, v);
    }
  }

  lemma ZrmvSpec(m: seq<Bucket>, c: Scores, index: Scores, v: Text)
    requires Indexes(m, c) && forall w <- c :: w in index && index[w] == c[w]
    ensures v in index ==> Indexes(WithoutValue(m, index[v], v), c - {v})
    ensures v !in index ==> c - {v} == c
  {
    hide WithoutValue, Ascending, NoneEmpty, ValuesAt;
    if v in index { WithoutValueSpec(m, index[v], v); }
  }

  /** The buckets before `i` have been looked at and those of them in the range are in `result`. */
  ghost predicate Scanned(m: seq<Bucket>, i: nat, min: u32, max: u32, result: seq<Bucket>) {
    && i <= |m| && Ascending(m[i..])
    && Within(m, min, max) == result + Within(m[i..], min, max)
  }

  lemma ScanOne(m: seq<Bucket>, i: nat, min: u32, max: u32, result: seq<Bucket>)
    requires i < |m| && Scanned(m, i, min, max, result)
    ensures m[i].score < min ==> Scanned(m, i + 1, min, max, result)
    ensures min <= m[i].score <= max ==> Scanned(m, i + 1, min, max, result + [m[i]])
    ensures m[i].score > max ==> result == Within(m, min, max)
    ensures i + 1 < |m| ==> m[i].score < m[i + 1].score
  {
    var left := m[i..];
    assert left[0] == m[i] && left[1..] == m[i + 1..];
    if i + 1 < |m| { assert m[i + 1] in left[1..]; }
    if m[i].score > max {
      assert Above(left, max) by { assert left == [m[i]] + left[1..]; }
      WithinNothing(left, min, max);
    }
  }

  lemma ScanEnds(m: seq<Bucket>, min: u32, max: u32, result: seq<Bucket>)
    requires Scanned(m, |m|, min, max, result)
    ensures result == Within(m, min, max)
  {
    assert m[|m|..] == [];
  }

  lemma ScanBegins(m: seq<Bucket>, min: u32, max: u32)
    requires Ascending(m)
    ensures Scanned(m, 0, min, max, [])
  {
    assert m[0..] == m;
  }

  class Zset {
    var valueToScore: Scores
    var scoreToValues: seq<Bucket>
    /** The map this set stands for. */
    ghost var contents: Scores

    /** Every entry is in the index; the index may hold stale entries besides. */
    ghost predicate Valid()
      reads this
    {
      && Indexes(scoreToValues, contents)
      && forall v <- contents :: v in valueToScore && valueToScore[v] == contents[v]
    }

    constructor ()
      ensures Valid() && contents == map[]
    {
      valueToScore, scoreToValues, contents := map[], [], map[];
    }

    method Zrmv(value: Text)
      requires Valid()
      modifies this
      ensures Valid()
      ensures contents == old(contents) - {value}
    {
      hide Indexes, ValuesAt, Open, SetValues, Erase;
      ZrmvSpec(scoreToValues, contents, valueToScore, value);
      contents := contents - {value};
      if value !in valueToScore {
        return;
      }
      var score := valueToScore[value];
      scoreToValues := Open(scoreToValues, score);
      scoreToValues := SetValues(scoreToValues, score, ValuesAt(scoreToValues, score) - {value});
      if ValuesAt(scoreToValues, score) == {} {
        scoreToValues := Erase(scoreToValues, score);
      }
    }

    method Zadd(value: Text, score: u32)
      requires Valid()
      modifies this
      ensures Valid()
      ensures contents == old(contents)[value := score]
    {
      hide Indexes, ValuesAt, Open, SetValues, Erase;
      ZaddSpec(scoreToValues, contents, valueToScore, value, score);
      if value in valueToScore {
        var oldScore := valueToScore[value];
        scoreToValues := Open(scoreToValues, oldScore);
        scoreToValues := SetValues(scoreToValues, oldScore, ValuesAt(scoreToValues, oldScore) - {value});
        if ValuesAt(scoreToValues, oldScore) == {} {
          scoreToValues := Erase(scoreToValues, oldScore);
        }
        scoreToValues := Open(scoreToValues, score);
        scoreToValues := SetValues(scoreToValues, score, ValuesAt(scoreToValues, score) + {value});
      }
      scoreToValues := Open(scoreToValues, score);
      scoreToValues := SetValues(scoreToValues, score, ValuesAt(scoreToValues, score) + {value});
      valueToScore := valueToScore - {value};
      valueToScore := valueToScore[value := score];
      contents := contents[value := score];
    }

    /** From the first bucket not below `min` on, until one is above `max`. */
    method Zrange(min: u32, max: u32) returns (result: seq<Bucket>)
      requires Valid()
      ensures result == Range(contents, min, max)
    {
      result := [];
      ghost var m := scoreToValues;
      WithinIsRange(m, contents, min, max);
      ScanBegins(m, min, max);
      hide Scanned, Within, Range, Indexes;
      var i := 0;
      while i < |scoreToValues| && scoreToValues[i].score < min
        invariant 0 <= i <= |m| && Scanned(m, i, min, max, [])
      {
        ScanOne(m, i, min, max, []);
        i := i + 1;
      }
      while i < |scoreToValues|
        invariant 0 <= i <= |m| && Scanned(m, i, min, max, result)
        invariant i < |m| ==> min <= m[i].score
      {
        ScanOne(m, i, min, max, result);
        if scoreToValues[i].score > max {
          return;
        }
        result := result + [scoreToValues[i]];
        i := i + 1;
      }
      ScanEnds(m, min, max, result);
    }
  }
}
