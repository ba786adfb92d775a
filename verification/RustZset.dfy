/**
 The buckets of a sorted set as the Rust store keeps them, in a tree from score to hash set where an
 emptied bucket stays behind, and the listing that a range query makes of them.
 */
module RustZset {
  import opened Values
  import opened ZsetSpec

  type Buckets = map<u32, set<Text>>

  datatype ScoreValue = ScoreValue(score: u32, value: Text)

  function BucketAt(m: Buckets, k: u32): set<Text> {
    if k in m then m[k] else {}
  }

  /** The value is put into the bucket of that score, which is made first if there is none. */
  function InsertAt(m: Buckets, k: u32, v: Text): Buckets {
    m[k := BucketAt(m, k) + {v}]
  }

  /** The value is taken out of the bucket of that score, if there is one; the bucket stays, empty or not. */
  function RemoveAt(m: Buckets, k: u32, v: Text): Buckets {
    if k in m then m[k := m[k] - {v}] else m
  }

  lemma BucketsAfter(m: Buckets, k: u32, v: Text)
    ensures forall j: u32 :: BucketAt(InsertAt(m, k, v), j) == if j == k then BucketAt(m, k) + {v} else BucketAt(m, j)
    ensures forall j: u32 :: BucketAt(RemoveAt(m, k, v), j) == if j == k then BucketAt(m, k) - {v} else BucketAt(m, j)
  {}

  /** The value is in the bucket of its score in the map and in no other. */
  ghost predicate Shows(m: Buckets, c: Scores, v: Text) {
    forall k: u32 :: v in BucketAt(m, k) <==> v in c && c[v] == k
  }

  ghost predicate Represents(m: Buckets, c: Scores) {
    forall v :: Shows(m, c, v)
  }

  // Range queries ------------------------------------------------------------------------------------

  predicate Distinct(r: seq<ScoreValue>) {
    forall i, j :: 0 <= i < j < |r| ==> r[i].value != r[j].value
  }

  predicate Nondecreasing(r: seq<ScoreValue>) {
    forall i, j :: 0 <= i < j < |r| ==> r[i].score <= r[j].score
  }

  /** The values of a hash set in whatever order it yields them, each under the bucket's score. */
  ghost predicate Enumerates(r: seq<ScoreValue>, k: u32, values: set<Text>) {
    && Distinct(r)
    && forall x :: x in r <==> x.score == k && x.value in values
  }

  /** `range(min..=max)`, from the score `k` on, with the buckets it visits flattened into one list. */
  ghost predicate Lists(r: seq<ScoreValue>, m: Buckets, k: nat, max: u32)
    decreases max as int + 1 - k
  {
    if k > max then r == []
    else exists n :: 0 <= n <= |r| && Enumerates(r[..n], k, BucketAt(m, k)) && Lists(r[n..], m, k + 1, max)
  }

  /** The list of the entries with scores from `min` to `max`: each of them once, by ascending score. */
  ghost predicate ListsEntries(r: seq<ScoreValue>, c: Scores, min: nat, max: u32) {
    && Nondecreasing(r) && Distinct(r)
    && forall x :: x in r <==> x.value in c && c[x.value] == x.score && min <= x.score <= max
  }

  /** Whatever orders the hash sets yield, flattening the buckets lists the entries of the map. */
  lemma {:induction false} ListingIsExact(r: seq<ScoreValue>, m: Buckets, c: Scores, min: nat, max: u32)
    requires Represents(m, c) && Lists(r, m, min, max)
    ensures ListsEntries(r, c, min, max)
    decreases max as int + 1 - min
  {
    hide Represents, BucketAt, Enumerates, Lists, ListsEntries;
    if min > max {
      NoneListed(r, m, c, min, max);
    } else {
      var n := FirstListed(r, m, min, max);
      ListingIsExact(r[n..], m, c, min + 1, max);
      JoinListings(r[..n], r[n..], m, c, min, max);
      assert r == r[..n] + r[n..];
    }
  }

  lemma NoneListed(r: seq<ScoreValue>, m: Buckets, c: Scores, min: nat, max: u32)
    requires min > max && Lists(r, m, min, max)
    ensures ListsEntries(r, c, min, max)
  {}

  lemma FirstListed(r: seq<ScoreValue>, m: Buckets, k: u32, max: u32) returns (n: nat)
    requires k <= max && Lists(r, m, k, max)
    ensures n <= |r| && Enumerates(r[..n], k, BucketAt(m, k)) && Lists(r[n..], m, k + 1, max)
  {
    hide BucketAt, Enumerates;
    n :| 0 <= n <= |r| && Enumerates(r[..n], k, BucketAt(m, k)) && Lists(r[n..], m, k + 1, max);
  }

  lemma JoinListings(a: seq<ScoreValue>, b: seq<ScoreValue>, m: Buckets, c: Scores, k: u32, max: u32)
    requires k <= max && Represents(m, c) && Enumerates(a, k, BucketAt(m, k)) && ListsEntries(b, c, k + 1, max)
    ensures ListsEntries(a + b, c, k, max)
  {
    hide BucketAt;
    forall x ensures x in a + b <==> x.value in c && c[x.value] == x.score && k <= x.score <= max {
      assert x in a + b <==> x in a || x in b;
      assert Shows(m, c, x.value);
    }
    forall i, j | 0 <= i < j < |a + b| ensures (a + b)[i].score <= (a + b)[j].score && (a + b)[i].value != (a + b)[j].value {
      var x, y := (a + b)[i], (a + b)[j];
      assert if i < |a| then x == a[i] && x in a else x == b[i - |a|] && x in b;
      assert if j < |a| then y == a[j] && y in a else y == b[j - |a|] && y in b;
      assert Shows(m, c, x.value);
    }
  }

  /** And every such list can come out, for some orders of the hash sets. */
  lemma {:induction false} EveryListing(r: seq<ScoreValue>, m: Buckets, c: Scores, min: nat, max: u32)
    requires Represents(m, c) && ListsEntries(r, c, min, max)
    ensures Lists(r, m, min, max)
    decreases max as int + 1 - min
  {
    if min > max {
      EmptyOrNot(r);
    } else {
      hide Represents, BucketAt, Enumerates, ListsEntries;
      var n := Lead(r, min);
      FirstBucket(r, m, c, min, max);
      LaterBuckets(r, c, min, max);
      EveryListing(r[n..], m, c, min + 1, max);
    }
  }

  lemma EmptyOrNot(r: seq<ScoreValue>)
    ensures r == [] || exists x :: x in r
  {
    if r != [] { assert r[0] in r; }
  }

  /** How many entries at the front have the score `k`. */
  function Lead(r: seq<ScoreValue>, k: u32): (n: nat)
    ensures n <= |r| && (forall i :: 0 <= i < n ==> r[i].score == k) && (n < |r| ==> r[n].score != k)
  {
    if r == [] || r[0].score != k then 0 else 1 + Lead(r[1..], k)
  }

  lemma LeadSplits(r: seq<ScoreValue>, c: Scores, k: u32, max: u32)
    requires k <= max && ListsEntries(r, c, k, max)
    ensures var n := Lead(r, k);
            && (forall x :: x in r[..n] <==> x in r && x.score == k)
            && (forall x :: x in r[n..] <==> x in r && x.score > k)
  {
    var n := Lead(r, k);
    hide Lead;
    forall i | n <= i < |r| ensures r[i].score > k {
      assert r[n] in r && r[n].score <= r[i].score;
    }
    forall x ensures x in r ==> if x.score == k then x in r[..n] else x in r[n..] {
      if x in r {
        var i :| 0 <= i < |r| && r[i] == x;
        assert if i < n then r[..n][i] == x else r[n..][i - n] == x;
      }
    }
  }

  lemma FirstBucket(r: seq<ScoreValue>, m: Buckets, c: Scores, k: u32, max: u32)
    requires k <= max && Represents(m, c) && ListsEntries(r, c, k, max)
    ensures Enumerates(r[..Lead(r, k)], k, BucketAt(m, k))
  {
    hide BucketAt, Lead;
    LeadSplits(r, c, k, max);
    forall x ensures x in r[..Lead(r, k)] <==> x.score == k && x.value in BucketAt(m, k) {
      assert Shows(m, c, x.value);
    }
  }

  lemma LaterBuckets(r: seq<ScoreValue>, c: Scores, k: u32, max: u32)
    requires k <= max && ListsEntries(r, c, k, max)
    ensures ListsEntries(r[Lead(r, k)..], c, k + 1, max)
  {
    hide Lead;
    LeadSplits(r, c, k, max);
  }

  lemma {:induction false} SomeEnumeration(k: u32, values: set<Text>) returns (r: seq<ScoreValue>)
    ensures Enumerates(r, k, values)
  {
    if values == {} {
      r := [];
    } else {
      var v :| v in values;
      var rest := SomeEnumeration(k, values - {v});
      r := [ScoreValue(k, v)] + rest;
      forall i, j | 0 <= i < j < |r| ensures r[i].value != r[j].value {
        assert r[j] == rest[j - 1] && rest[j - 1] in rest;
      }
    }
  }

  /** A range query always has a result. */
  lemma {:induction false} SomeListing(m: Buckets, min: nat, max: u32) returns (r: seq<ScoreValue>)
    ensures Lists(r, m, min, max)
    decreases max as int + 1 - min
  {
    if min > max {
      r := [];
    } else {
      var first := SomeEnumeration(min, BucketAt(m, min));
      var rest := SomeListing(m, min + 1, max);
      r := first + rest;
      assert r[..|first|] == first && r[|first|..] == rest;
    }
  }
}
