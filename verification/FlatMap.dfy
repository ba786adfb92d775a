/**
 The ordered index of a sorted set: buckets of values in a sequence that ascends strictly by score,
 as a flat map keeps them, with the map operations the stores use.
 */
module FlatMap {
  import opened Values

  datatype Bucket = Bucket(score: u32, values: set<Text>)

  ghost predicate Above(m: seq<Bucket>, k: int) {
    forall b <- m :: k < b.score
  }

  ghost predicate Ascending(m: seq<Bucket>) {
    m == [] || (Above(m[1..], m[0].score) && Ascending(m[1..]))
  }

  ghost predicate NoneEmpty(m: seq<Bucket>) {
    forall b <- m :: b.values != {}
  }

  /** The values with a score; none if there is no such bucket. */
  function ValuesAt(m: seq<Bucket>, k: u32): set<Text> {
    if m == [] then {} else if m[0].score == k then m[0].values else ValuesAt(m[1..], k)
  }

  /** `operator[]`: makes an empty bucket if there is none. */
  function Open(m: seq<Bucket>, k: u32): seq<Bucket> {
    if m == [] || k < m[0].score then [Bucket(k, {})] + m
    else if k == m[0].score then m
    else [m[0]] + Open(m[1..], k)
  }

  /** Assigns to the values of a bucket that exists. */
  function SetValues(m: seq<Bucket>, k: u32, values: set<Text>): seq<Bucket> {
    if m == [] then []
    else if k == m[0].score then [Bucket(k, values)] + m[1..]
    else [m[0]] + SetValues(m[1..], k, values)
  }

  function Erase(m: seq<Bucket>, k: u32): seq<Bucket> {
    if m == [] then []
    else if k == m[0].score then m[1..]
    else [m[0]] + Erase(m[1..], k)
  }

  predicate HasScore(m: seq<Bucket>, k: u32) {
    m != [] && (m[0].score == k || HasScore(m[1..], k))
  }

  // What the operations do ---------------------------------------------------------------------------

  lemma {:induction false} NoneBelow(m: seq<Bucket>, k: u32)
    requires Above(m, k)
    ensures ValuesAt(m, k) == {} && !HasScore(m, k)
  {
    if m != [] {
      assert m[0] in m;
      assert forall b <- m[1..] :: b in m;
      NoneBelow(m[1..], k);
    }
  }

  lemma Prepend(b: Bucket, m: seq<Bucket>)
    requires Ascending(m) && Above(m, b.score)
    ensures Ascending([b] + m)
    ensures NoneEmpty([b] + m) <==> b.values != {} && NoneEmpty(m)
    ensures forall j: u32 :: ValuesAt([b] + m, j) == if j == b.score then b.values else ValuesAt(m, j)
  {
    assert ([b] + m)[1..] == m;
    assert b in [b] + m && forall c <- m :: c in [b] + m;
  }

  lemma {:induction false} NoScoreNoValues(m: seq<Bucket>, k: u32)
    requires !HasScore(m, k)
    ensures ValuesAt(m, k) == {}
  {
    if m != [] { NoScoreNoValues(m[1..], k); }
  }

  lemma {:induction false} ValuesOf(m: seq<Bucket>, b: Bucket)
    requires Ascending(m) && b in m
    ensures ValuesAt(m, b.score) == b.values && HasScore(m, b.score)
  {
    if b != m[0] {
      assert b in m[1..];
      ValuesOf(m[1..], b);
    }
  }

  lemma {:induction false} BucketOf(m: seq<Bucket>, k: u32)
    requires HasScore(m, k)
    ensures Bucket(k, ValuesAt(m, k)) in m
  {
    if m[0].score != k { BucketOf(m[1..], k); }
  }

  lemma {:induction false} OpenSpec(m: seq<Bucket>, k: u32)
    requires Ascending(m)
    ensures Ascending(Open(m, k)) && HasScore(Open(m, k), k)
    ensures forall j: u32 :: ValuesAt(Open(m, k), j) == ValuesAt(m, j)
    ensures forall b <- Open(m, k) :: b in m || b == Bucket(k, {})
  {
    var r := Open(m, k);
    if m == [] || k < m[0].score {
      assert Above(m, k);
      NoneBelow(m, k);
      assert r[1..] == m;
    } else if k != m[0].score {
      OpenSpec(m[1..], k);
      assert r[1..] == Open(m[1..], k);
    }
  }

  lemma {:induction false} SetValuesSpec(m: seq<Bucket>, k: u32, values: set<Text>)
    requires Ascending(m) && HasScore(m, k)
    ensures var r := SetValues(m, k, values);
            && Ascending(r) && HasScore(r, k)
            && (forall j: u32 :: ValuesAt(r, j) == if j == k then values else ValuesAt(m, j))
            && (forall b <- r :: b == Bucket(k, values) || (b in m && b.score != k))
  {
    var r := SetValues(m, k, values);
    if k == m[0].score {
      assert r[1..] == m[1..];
    } else {
      SetValuesSpec(m[1..], k, values);
      assert r[1..] == SetValues(m[1..], k, values);
      BucketOf(m[1..], k);
    }
  }

  lemma {:induction false} EraseSpec(m: seq<Bucket>, k: u32)
    requires Ascending(m)
    ensures var r := Erase(m, k);
            && Ascending(r) && (forall b <- r :: b in m && b.score != k)
            && (forall j: u32 :: ValuesAt(r, j) == if j == k then {} else ValuesAt(m, j))
  {
    var r := Erase(m, k);
    if m != [] {
      if k == m[0].score {
        NoneBelow(r, k);
      } else {
        EraseSpec(m[1..], k);
        assert r[1..] == Erase(m[1..], k);
      }
    }
  }

  /** Buckets that hold the same values are the same sequence. */
  lemma {:induction false} SameBuckets(a: seq<Bucket>, b: seq<Bucket>)
    requires Ascending(a) && Ascending(b) && NoneEmpty(a) && NoneEmpty(b)
    requires forall k: u32 :: ValuesAt(a, k) == ValuesAt(b, k)
    ensures a == b
  {
    if a == [] && b == [] {
    } else if a != [] && (b == [] || a[0].score < b[0].score) {
      SmallestElsewhere(a, b);
    } else if b != [] && (a == [] || b[0].score < a[0].score) {
      SmallestElsewhere(b, a);
    } else {
      assert ValuesAt(a, a[0].score) == ValuesAt(b, a[0].score);
      forall k: u32 ensures ValuesAt(a[1..], k) == ValuesAt(b[1..], k) {
        TailValues(a, k);
        TailValues(b, k);
      }
      SameBuckets(a[1..], b[1..]);
    }
  }

  lemma SmallestElsewhere(a: seq<Bucket>, b: seq<Bucket>)
    requires Ascending(b) && NoneEmpty(a) && a != [] && (b == [] || a[0].score < b[0].score)
    ensures ValuesAt(a, a[0].score) != ValuesAt(b, a[0].score)
  {
    assert a[0] in a;
    NoneBelow(b, a[0].score);
  }

  lemma TailValues(m: seq<Bucket>, k: u32)
    requires Ascending(m) && m != []
    ensures ValuesAt(m[1..], k) == if k == m[0].score then {} else ValuesAt(m, k)
  {
    if k == m[0].score { NoneBelow(m[1..], k); }
  }
}
