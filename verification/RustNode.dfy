/**
 One node of the Rust cluster: plain keys and sorted sets in memory, their mirrors in two ordered byte
 stores, what each request does to the four of them, and what a restart makes of the two on disk.
 */
module RustNode {
  import opened Values
  import opened ZsetSpec
  import opened ZsetKeyCodec

  datatype Node = Node(kv: map<Text, Text>, zsets: map<Text, Scores>, db: map<Text, Text>, zsetDb: map<Text, Text>)

  const FRESH := Node(map[], map[], map[], map[])

  datatype Op =
    | ZAdd(key: Text, value: Text, score: u32)
    | ZRmv(key: Text, value: Text)
    | Add(key: Text, value: Text)
    | Batch(items: seq<KeyValue>)
    | Del(key: Text)

  function SetOf(zsets: map<Text, Scores>, key: Text): Scores {
    if key in zsets then zsets[key] else map[]
  }

  function ScoresOf(n: Node, key: Text): Scores {
    SetOf(n.zsets, key)
  }

  /** One pair after the other. */
  function PutAll(m: map<Text, Text>, items: seq<KeyValue>): map<Text, Text> {
    if items == [] then m
    else
      var last := items[|items| - 1];
      PutAll(m, items[..|items| - 1])[last.key := last.value]
  }

  /** The last pair for the key. */
  ghost predicate IsLast(items: seq<KeyValue>, i: nat, key: Text) {
    i < |items| && items[i].key == key && forall j :: i < j < |items| ==> items[j].key != key
  }

  ghost predicate Names(items: seq<KeyValue>, key: Text) {
    exists i :: 0 <= i < |items| && items[i].key == key
  }

  /** Of the pairs for a key the last one counts, and a key that no pair names keeps what it had. */
  lemma {:induction false} PutAllIs(m: map<Text, Text>, items: seq<KeyValue>, key: Text)
    ensures forall i: nat :: IsLast(items, i, key) ==> key in PutAll(m, items) && PutAll(m, items)[key] == items[i].value
    ensures !Names(items, key) ==> (key in PutAll(m, items) <==> key in m) && (key in m ==> PutAll(m, items)[key] == m[key])
    ensures Names(items, key) ==> key in PutAll(m, items)
    decreases |items|
  {
    if items != [] {
      var init, last := items[..|items| - 1], items[|items| - 1];
      PutAllIs(m, init, key);
      if last.key != key {
        forall i: nat | IsLast(items, i, key) ensures IsLast(init, i, key) && items[i] == init[i] {}
        assert Names(items, key) ==> Names(init, key);
        assert Names(init, key) ==> Names(items, key) by {
          if i :| 0 <= i < |init| && init[i].key == key { assert items[i].key == key; }
        }
      } else {
        assert items[|items| - 1].key == key;
      }
    }
  }

  /** A local batch puts plain keys without dropping sorted sets; nothing but `zrmv` deletes from `zsetDb`. */
  function Apply(n: Node, op: Op): Node {
    match op
    case ZAdd(key, value, score) =>
      n.(zsets := n.zsets[key := ScoresOf(n, key)[value := score]],
         zsetDb := n.zsetDb[EncodeKey(key, value) := LeBytes(score)])
    case ZRmv(key, value) =>
      if value in ScoresOf(n, key)
      then n.(zsets := n.zsets[key := ScoresOf(n, key) - {value}], zsetDb := n.zsetDb - {EncodeKey(key, value)})
      else n
    case Add(key, value) => Node(n.kv[key := value], n.zsets - {key}, n.db[key := value], n.zsetDb)
    case Batch(items) => n.(kv := PutAll(n.kv, items), db := PutAll(n.db, items))
    case Del(key) => Node(n.kv - {key}, n.zsets - {key}, n.db - {key}, n.zsetDb)
  }

  function Run(ops: seq<Op>): Node {
    if ops == [] then FRESH else Apply(Run(ops[..|ops| - 1]), ops[|ops| - 1])
  }

  // Loading from disk --------------------------------------------------------------------------------

  /** Every entry can be decoded, so loading does not panic. */
  predicate Loadable(zsetDb: map<Text, Text>) {
    forall s <- zsetDb :: DecodeKey(s).Some? && FromLeBytes(zsetDb[s]).Some?
  }

  /** The score that the byte store has for a value, as loading reads it. */
  function Stored(zsetDb: map<Text, Text>, key: Text, value: Text): Option<u32> {
    var s := EncodeKey(key, value);
    if NUL !in key && s in zsetDb then FromLeBytes(zsetDb[s]) else None
  }

  function StoredKeys(zsetDb: map<Text, Text>): set<Text> {
    set s | s in zsetDb && DecodeKey(s).Some? :: DecodeKey(s).value.0
  }

  function StoredScores(zsetDb: map<Text, Text>, key: Text): Scores {
    map value | value in (set s | s in zsetDb && DecodeKey(s).Some? :: DecodeKey(s).value.1)
                && Stored(zsetDb, key, value).Some? :: Stored(zsetDb, key, value).value
  }

  function LoadedSets(zsets: map<Text, Scores>, zsetDb: map<Text, Text>): map<Text, Scores> {
    map key | key in zsets.Keys + StoredKeys(zsetDb) :: SetOf(zsets, key) + StoredScores(zsetDb, key)
  }

  /** Memory after loading: what was there, overridden by what is on disk. */
  function Loaded(n: Node): Node {
    n.(kv := n.kv + n.db, zsets := LoadedSets(n.zsets, n.zsetDb))
  }

  /** Memory is lost and loaded again. */
  function Restart(n: Node): Node {
    Loaded(n.(kv := map[], zsets := map[]))
  }

  lemma StoredScoresAre(zsetDb: map<Text, Text>, key: Text, value: Text)
    ensures Lookup(StoredScores(zsetDb, key), value) == Stored(zsetDb, key, value)
    ensures Stored(zsetDb, key, value).Some? ==> key in StoredKeys(zsetDb)
  {
    hide FromLeBytes, DecodeKey, EncodeKey;
    KeyRoundTrip(key, value);
    if Stored(zsetDb, key, value).Some? {
      var s := EncodeKey(key, value);
      assert s in zsetDb && DecodeKey(s) == Some((key, value));
      assert DecodeKey(s).value.0 == key && DecodeKey(s).value.1 == value;
    }
  }

  lemma LoadedNothing(zsets: map<Text, Scores>)
    ensures LoadedSets(zsets, map[]) == zsets
  {
    hide DecodeKey, Stored;
    assert StoredKeys(map[]) == {};
    forall key ensures SetOf(zsets, key) + StoredScores(map[], key) == SetOf(zsets, key) {
      assert StoredScores(map[], key) == map[];
    }
    assert LoadedSets(zsets, map[]).Keys == zsets.Keys;
  }

  /** After loading, what is on disk counts, and what is not is as it was. */
  lemma LoadedIs(n: Node, key: Text, value: Text)
    ensures var kv := Loaded(n).kv;
            && (key in kv <==> key in n.db || key in n.kv)
            && (key in kv ==> kv[key] == if key in n.db then n.db[key] else n.kv[key])
    ensures Lookup(ScoresOf(Loaded(n), key), value) ==
            if Stored(n.zsetDb, key, value).Some? then Stored(n.zsetDb, key, value) else Lookup(ScoresOf(n, key), value)
  {
    hide Stored, StoredScores, StoredKeys, LoadedSets;
    LoadedSet(n.zsets, n.zsetDb, key);
    StoredScoresAre(n.zsetDb, key, value);
  }

  /** Loading succeeds exactly if every stored key holds a NUL byte and every stored score four bytes. */
  lemma LoadableExactly(zsetDb: map<Text, Text>)
    ensures Loadable(zsetDb) <==> forall s <- zsetDb :: 0 in s && |zsetDb[s]| == 4
  {
    hide DecodeKey, EncodeKey;
    forall s | s in zsetDb ensures DecodeKey(s).Some? <==> 0 in s { DecodedKey(s); }
  }

  lemma StoredOneMore(zsetDb: map<Text, Text>, s: Text, bytes: Text, key: Text, value: Text)
    requires s !in zsetDb && DecodeKey(s).Some?
    ensures Stored(zsetDb[s := bytes], key, value) ==
            if (key, value) == DecodeKey(s).value then FromLeBytes(bytes) else Stored(zsetDb, key, value)
  {
    hide FromLeBytes, DecodeKey, EncodeKey;
    DecodedKey(s);
    KeyRoundTrip(key, value);
  }

  lemma StoredKeysOneMore(zsetDb: map<Text, Text>, s: Text, bytes: Text)
    requires s !in zsetDb && DecodeKey(s).Some?
    ensures StoredKeys(zsetDb[s := bytes]) == StoredKeys(zsetDb) + {DecodeKey(s).value.0}
  {
    hide DecodeKey;
    var after := zsetDb[s := bytes];
    assert s in after;
    forall key | key in StoredKeys(zsetDb) ensures key in StoredKeys(after) {
      var x :| x in zsetDb && DecodeKey(x).Some? && DecodeKey(x).value.0 == key;
      assert x in after;
    }
  }

  lemma StoredScoresOneMore(zsetDb: map<Text, Text>, s: Text, bytes: Text, key: Text)
    requires s !in zsetDb && DecodeKey(s).Some? && FromLeBytes(bytes).Some?
    ensures StoredScores(zsetDb[s := bytes], key) ==
            if key == DecodeKey(s).value.0
            then StoredScores(zsetDb, key)[DecodeKey(s).value.1 := FromLeBytes(bytes).value]
            else StoredScores(zsetDb, key)
  {
    hide FromLeBytes, DecodeKey, EncodeKey, Stored, StoredScores;
    var a, b := StoredScores(zsetDb[s := bytes], key), StoredScores(zsetDb, key);
    var c := if key == DecodeKey(s).value.0 then b[DecodeKey(s).value.1 := FromLeBytes(bytes).value] else b;
    forall value ensures Lookup(a, value) == Lookup(c, value) {
      StoredOneMore(zsetDb, s, bytes, key, value);
      StoredScoresAre(zsetDb, key, value);
      StoredScoresAre(zsetDb[s := bytes], key, value);
    }
    SameScores(a, c);
  }

  lemma NoStoredKeyNoScores(zsetDb: map<Text, Text>, key: Text)
    requires key !in StoredKeys(zsetDb)
    ensures StoredScores(zsetDb, key) == map[]
  {
    hide Stored, StoredScores, StoredKeys;
    forall value ensures Lookup(StoredScores(zsetDb, key), value) == Lookup(map[], value) {
      StoredScoresAre(zsetDb, key, value);
    }
    SameScores(StoredScores(zsetDb, key), map[]);
  }

  lemma LoadedSet(zsets: map<Text, Scores>, zsetDb: map<Text, Text>, key: Text)
    ensures SetOf(LoadedSets(zsets, zsetDb), key) == SetOf(zsets, key) + StoredScores(zsetDb, key)
  {
    hide StoredScores, StoredKeys;
    if key !in StoredKeys(zsetDb) { NoStoredKeyNoScores(zsetDb, key); }
  }

  lemma LoadedAtKey(zsets: map<Text, Scores>, zsetDb: map<Text, Text>, s: Text, bytes: Text)
    requires s !in zsetDb && DecodeKey(s).Some? && FromLeBytes(bytes).Some?
    ensures var key, value := DecodeKey(s).value.0, DecodeKey(s).value.1;
            SetOf(LoadedSets(zsets, zsetDb[s := bytes]), key) ==
            SetOf(LoadedSets(zsets, zsetDb), key)[value := FromLeBytes(bytes).value]
  {
    hide FromLeBytes, DecodeKey, StoredScores, SetOf, LoadedSets;
    var key, value, score := DecodeKey(s).value.0, DecodeKey(s).value.1, FromLeBytes(bytes).value;
    StoredScoresOneMore(zsetDb, s, bytes, key);
    LoadedSet(zsets, zsetDb, key);
    LoadedSet(zsets, zsetDb[s := bytes], key);
    assert (SetOf(zsets, key) + StoredScores(zsetDb, key))[value := score] ==
           SetOf(zsets, key) + StoredScores(zsetDb, key)[value := score];
  }

  /** Loading one more entry is adding it to what is loaded, whichever entries came before. */
  lemma LoadedOneMore(zsets: map<Text, Scores>, zsetDb: map<Text, Text>, s: Text, bytes: Text)
    requires s !in zsetDb && DecodeKey(s).Some? && FromLeBytes(bytes).Some?
    ensures var (key, value) := DecodeKey(s).value;
            var before := LoadedSets(zsets, zsetDb);
            LoadedSets(zsets, zsetDb[s := bytes]) ==
            before[key := SetOf(before, key)[value := FromLeBytes(bytes).value]]
  {
    hide FromLeBytes, DecodeKey, StoredScores, StoredKeys;
    var key, value, score := DecodeKey(s).value.0, DecodeKey(s).value.1, FromLeBytes(bytes).value;
    var before, after := LoadedSets(zsets, zsetDb), LoadedSets(zsets, zsetDb[s := bytes]);
    var target := before[key := SetOf(before, key)[value := score]];
    StoredKeysOneMore(zsetDb, s, bytes);
    assert after.Keys == target.Keys;
    LoadedAtKey(zsets, zsetDb, s, bytes);
    forall k | k in after && k != key ensures after[k] == target[k] {
      StoredScoresOneMore(zsetDb, s, bytes, k);
    }
  }

  // What holds after every run ---------------------------------------------------------------------------

  lemma ApplyKeepsLoadable(n: Node, op: Op)
    requires Loadable(n.zsetDb)
    ensures Loadable(Apply(n, op).zsetDb)
  {
    hide FromLeBytes, LeBytes, DecodeKey;
    if op.ZAdd? {
      DecodedKey(EncodeKey(op.key, op.value));
      ScoreRoundTrip(op.score);
    }
  }

  lemma ApplyKeepsPlain(n: Node, op: Op)
    requires n.kv == n.db
    ensures Apply(n, op).kv == Apply(n, op).db
  {}

  /** After any run of requests: the plain keys are those of the main byte store, and a restart would not panic. */
  lemma {:induction false} RunMirrorsPlainKeys(ops: seq<Op>)
    ensures Run(ops).kv == Run(ops).db && Loadable(Run(ops).zsetDb)
    decreases |ops|
  {
    if ops != [] {
      hide Apply, Loadable;
      RunMirrorsPlainKeys(ops[..|ops| - 1]);
      ApplyKeepsPlain(Run(ops[..|ops| - 1]), ops[|ops| - 1]);
      ApplyKeepsLoadable(Run(ops[..|ops| - 1]), ops[|ops| - 1]);
    }
  }

  predicate NulFree(op: Op) {
    op.ZAdd? || op.ZRmv? ==> NUL !in op.key
  }

  /** Every entry in memory is on disk with the same score. */
  ghost predicate Mirrored(n: Node) {
    forall key, value :: value in ScoresOf(n, key) ==> Stored(n.zsetDb, key, value) == Some(ScoresOf(n, key)[value])
  }

  /** Different pairs have different stored keys, as long as the keys hold no NUL byte. */
  lemma EncodingsDiffer(key: Text, value: Text, key': Text, value': Text)
    requires NUL !in key && NUL !in key' && (key, value) != (key', value')
    ensures EncodeKey(key, value) != EncodeKey(key', value')
  {
    KeyRoundTrip(key, value);
    KeyRoundTrip(key', value');
  }

  /** What a request on NUL-free keys changes in the byte store. */
  lemma StoredAfter(n: Node, op: Op, key: Text, value: Text)
    requires NulFree(op)
    ensures Stored(Apply(n, op).zsetDb, key, value) ==
            if op.ZAdd? && op.key == key && op.value == value then Some(op.score)
            else if op.ZRmv? && op.key == key && op.value == value && value in ScoresOf(n, key) then None
            else Stored(n.zsetDb, key, value)
  {
    hide FromLeBytes, LeBytes, EncodeKey;
    if (op.ZAdd? || op.ZRmv?) && NUL !in key {
      if op.ZAdd? { ScoreRoundTrip(op.score); }
      if (key, value) != (op.key, op.value) { EncodingsDiffer(key, value, op.key, op.value); }
    }
  }

  lemma ScoresAfter(n: Node, op: Op, key: Text, value: Text)
    ensures var c, c' := ScoresOf(n, key), ScoresOf(Apply(n, op), key);
            if op.ZAdd? && op.key == key && op.value == value then value in c' && c'[value] == op.score
            else if op.ZRmv? && op.key == key && op.value == value then value !in c'
            else if (op.Add? || op.Del?) && op.key == key then value !in c'
            else (value in c' <==> value in c) && (value in c ==> c'[value] == c[value])
  {
    hide LeBytes, EncodeKey, PutAll;
  }

  /** Which keys have a sorted set: `zadd` makes one, `add` and `del` drop it, and taking its last entry out does not. */
  lemma SetsAfter(n: Node, op: Op, key: Text)
    ensures key in Apply(n, op).zsets <==>
            if op.ZAdd? && op.key == key then true
            else if (op.Add? || op.Del?) && op.key == key then false
            else key in n.zsets
  {
    hide LeBytes, EncodeKey, PutAll;
  }

  /** What a request leaves of a plain key. */
  lemma PlainAfter(n: Node, op: Op, key: Text)
    ensures var kv, kv' := n.kv, Apply(n, op).kv;
            && (op.Add? && op.key == key ==> key in kv' && kv'[key] == op.value)
            && (op == Del(key) ==> key !in kv')
            && (op.Batch? ==> forall i: nat :: IsLast(op.items, i, key) ==> key in kv' && kv'[key] == op.items[i].value)
            && (!((op.Add? || op.Del?) && op.key == key) && !(op.Batch? && Names(op.items, key)) ==>
                  (key in kv' <==> key in kv) && (key in kv ==> kv'[key] == kv[key]))
  {
    hide PutAll, LeBytes, EncodeKey, Names, IsLast;
    if op.Batch? { PutAllIs(n.kv, op.items, key); }
  }

  /** After any run of requests on NUL-free set keys, no sorted set has an entry in memory that disk lacks. */
  lemma {:induction false} RunMirrorsEntries(ops: seq<Op>)
    requires forall op <- ops :: NulFree(op)
    ensures Mirrored(Run(ops))
    decreases |ops|
  {
    if ops != [] {
      hide Apply, Stored;
      var init, last := ops[..|ops| - 1], ops[|ops| - 1];
      RunMirrorsEntries(init);
      forall key, value | value in ScoresOf(Run(ops), key)
        ensures Stored(Run(ops).zsetDb, key, value) == Some(ScoresOf(Run(ops), key)[value])
      {
        StoredAfter(Run(init), last, key, value);
        ScoresAfter(Run(init), last, key, value);
      }
    }
  }

  // Restarts -----------------------------------------------------------------------------------------------

  ghost predicate EntryFaithful(n: Node, key: Text, value: Text) {
    Stored(n.zsetDb, key, value) == Lookup(ScoresOf(n, key), value)
  }

  /** The byte store has exactly the entries in memory. */
  ghost predicate Faithful(n: Node) {
    forall key, value :: EntryFaithful(n, key, value)
  }

  /** What a request must not do: add under a key with a NUL byte, or drop a sorted set that has entries. */
  predicate Keeps(n: Node, op: Op) {
    match op
    case ZAdd(key, _, _) => NUL !in key
    case Add(key, _) => ScoresOf(n, key) == map[]
    case Del(key) => ScoresOf(n, key) == map[]
    case _ => true
  }

  lemma KeepsFaithful(n: Node, op: Op)
    requires Faithful(n) && Keeps(n, op)
    ensures Faithful(Apply(n, op))
  {
    hide Apply, Stored;
    if op.ZRmv? && NUL in op.key {
      assert EntryFaithful(n, op.key, op.value);
      NulKeysNotStored(n.zsetDb, op.key, op.value);
      RemovesNothing(n, op.key, op.value);
    } else {
      forall key, value ensures EntryFaithful(Apply(n, op), key, value) {
        assert EntryFaithful(n, key, value);
        StoredAfter(n, op, key, value);
        ScoresAfter(n, op, key, value);
      }
    }
  }

  lemma NulKeysNotStored(zsetDb: map<Text, Text>, key: Text, value: Text)
    requires NUL in key
    ensures Stored(zsetDb, key, value).None?
  {}

  lemma RemovesNothing(n: Node, key: Text, value: Text)
    requires value !in ScoresOf(n, key)
    ensures Apply(n, ZRmv(key, value)) == n
  {}

  lemma BreaksFaithful(n: Node, op: Op)
    requires Faithful(n) && !Keeps(n, op)
    ensures !Faithful(Apply(n, op))
  {
    hide Apply, Stored, Faithful;
    var n' := Apply(n, op);
    if op.ZAdd? {
      NulKeysNotStored(n'.zsetDb, op.key, op.value);
      ScoresAfter(n, op, op.key, op.value);
      assert !EntryFaithful(n', op.key, op.value);
      NotFaithful(n', op.key, op.value);
    } else {
      var value :| value in ScoresOf(n, op.key);
      FaithfulAt(n, op.key, value);
      StoredAfter(n, op, op.key, value);
      ScoresAfter(n, op, op.key, value);
      assert !EntryFaithful(n', op.key, value);
      NotFaithful(n', op.key, value);
    }
  }

  lemma NotFaithful(n: Node, key: Text, value: Text)
    requires !EntryFaithful(n, key, value)
    ensures !Faithful(n)
  {}

  lemma FaithfulAt(n: Node, key: Text, value: Text)
    requires Faithful(n)
    ensures EntryFaithful(n, key, value)
  {}

  /** From a node whose disk matches its memory, exactly the requests that keep to the rule leave a match. */
  lemma FaithfulExactly(n: Node, op: Op)
    requires Faithful(n)
    ensures Faithful(Apply(n, op)) <==> Keeps(n, op)
  {
    if Keeps(n, op) { KeepsFaithful(n, op); } else { BreaksFaithful(n, op); }
  }

  /** The same to every request; a sorted set without entries may be there or not. */
  ghost predicate Same(a: Node, b: Node) {
    && a.kv == b.kv && a.db == b.db && a.zsetDb == b.zsetDb
    && forall key :: ScoresOf(a, key) == ScoresOf(b, key)
  }

  lemma SameApply(a: Node, b: Node, op: Op)
    requires Same(a, b)
    ensures Same(Apply(a, op), Apply(b, op))
  {
    hide PutAll, LeBytes, EncodeKey;
    if op.ZAdd? || op.ZRmv? { assert ScoresOf(a, op.key) == ScoresOf(b, op.key); }
    forall key ensures ScoresOf(Apply(a, op), key) == ScoresOf(Apply(b, op), key) {
      assert ScoresOf(a, key) == ScoresOf(b, key);
    }
  }

  lemma RestartScores(n: Node, key: Text, value: Text)
    ensures Lookup(ScoresOf(Restart(n), key), value) == Stored(n.zsetDb, key, value)
  {
    hide Stored, StoredKeys, StoredScores;
    StoredScoresAre(n.zsetDb, key, value);
  }

  /** A restart brings back exactly what there was. */
  lemma RestartIsFaithful(n: Node)
    requires Faithful(n) && n.kv == n.db
    ensures Same(Restart(n), n)
  {
    hide Stored, ScoresOf;
    var r := Restart(n);
    assert r.kv == n.kv && r.db == n.db && r.zsetDb == n.zsetDb by { assert map[] + n.db == n.db; }
    hide Restart;
    forall key ensures ScoresOf(r, key) == ScoresOf(n, key) {
      forall value ensures Lookup(ScoresOf(r, key), value) == Lookup(ScoresOf(n, key), value) {
        FaithfulAt(n, key, value);
        RestartScores(n, key, value);
      }
      SameScores(ScoresOf(r, key), ScoresOf(n, key));
    }
  }

  /** A sorted set without entries does not outlive a restart; every other does. */
  lemma EmptiedSetVanishes(n: Node, key: Text)
    requires Faithful(n) && Loadable(n.zsetDb)
    ensures key in Restart(n).zsets <==> ScoresOf(n, key) != map[]
  {
    hide FromLeBytes, DecodeKey, EncodeKey, StoredScores;
    if key in StoredKeys(n.zsetDb) {
      var s :| s in n.zsetDb && DecodeKey(s).Some? && DecodeKey(s).value.0 == key;
      DecodedKey(s);
      assert EntryFaithful(n, key, DecodeKey(s).value.1);
    } else if ScoresOf(n, key) != map[] {
      var value :| value in ScoresOf(n, key);
      assert EntryFaithful(n, key, value);
      StoredScoresAre(n.zsetDb, key, value);
    }
  }

  /** Dropping a sorted set with its key does not outlive a restart: all its entries come back. */
  lemma DroppedEntriesReturn(n: Node, op: Op, key: Text)
    requires Faithful(n) && (op.Add? || op.Del?)
    ensures ScoresOf(Apply(n, op), op.key) == map[]
    ensures ScoresOf(Restart(Apply(n, op)), key) == ScoresOf(n, key)
  {
    hide Stored, Restart;
    var n' := Apply(n, op);
    forall value ensures Lookup(ScoresOf(Restart(n'), key), value) == Lookup(ScoresOf(n, key), value) {
      FaithfulAt(n, key, value);
      RestartScores(n', key, value);
    }
    SameScores(ScoresOf(Restart(n'), key), ScoresOf(n, key));
  }

  // Whole histories ----------------------------------------------------------------------------------------

  datatype Event = Do(op: Op) | Restarts

  function Live(events: seq<Event>): Node {
    if events == [] then FRESH
    else
      var n, last := Live(events[..|events| - 1]), events[|events| - 1];
      if last.Do? then Apply(n, last.op) else Restart(n)
  }

  /** The requests of a history, as if it had no restarts. */
  function Requests(events: seq<Event>): seq<Op> {
    if events == [] then []
    else
      var last := events[|events| - 1];
      Requests(events[..|events| - 1]) + if last.Do? then [last.op] else []
  }

  ghost predicate AllKeep(ops: seq<Op>) {
    ops == [] || (AllKeep(ops[..|ops| - 1]) && Keeps(Run(ops[..|ops| - 1]), ops[|ops| - 1]))
  }

  lemma {:induction false} RunIsFaithful(ops: seq<Op>)
    requires AllKeep(ops)
    ensures Faithful(Run(ops))
    decreases |ops|
  {
    if ops == [] {
      forall key, value ensures EntryFaithful(FRESH, key, value) {}
    } else {
      hide Faithful, Apply;
      RunIsFaithful(ops[..|ops| - 1]);
      KeepsFaithful(Run(ops[..|ops| - 1]), ops[|ops| - 1]);
    }
  }

  lemma RunAppend(ops: seq<Op>, op: Op)
    ensures Run(ops + [op]) == Apply(Run(ops), op)
    ensures AllKeep(ops + [op]) <==> AllKeep(ops) && Keeps(Run(ops), op)
  {
    assert (ops + [op])[..|ops|] == ops;
  }

  /** Restarts at any moments of a history go unnoticed, if its requests keep to the rule. */
  lemma {:induction false} RestartsAreInvisible(events: seq<Event>)
    requires AllKeep(Requests(events))
    ensures Same(Live(events), Run(Requests(events)))
    decreases |events|
  {
    if events != [] {
      hide Same, Apply, Restart, AllKeep, Run;
      var init, last := events[..|events| - 1], events[|events| - 1];
      var ops := Requests(init);
      if last.Do? {
        RunAppend(ops, last.op);
        RestartsAreInvisible(init);
        SameApply(Live(init), Run(ops), last.op);
      } else {
        assert Requests(events) == ops;
        RestartsAreInvisible(init);
        RunIsFaithful(ops);
        RunMirrorsPlainKeys(ops);
        SameRestart(Live(init), Run(ops));
        RestartIsFaithful(Run(ops));
      }
    } else {
      assert Live(events) == Run(Requests(events));
    }
  }

  lemma SameRestart(a: Node, b: Node)
    requires Same(a, b)
    ensures Restart(a) == Restart(b)
  {}

  /** In particular: with no other requests than `zadd` and `zrmv`, and no NUL byte in set keys. */
  lemma {:induction false} SetRequestsKeep(ops: seq<Op>)
    requires forall op <- ops :: (op.ZAdd? || op.ZRmv?) && NUL !in op.key
    ensures AllKeep(ops)
    decreases |ops|
  {
    if ops != [] { SetRequestsKeep(ops[..|ops| - 1]); }
  }

  /** Without that, two keys can share a stored key, and one of them loses its score already on disk. */
  lemma NulKeysCollide(a: Text, b: Text, value: Text)
    ensures EncodeKey(a + [NUL] + b, value) == EncodeKey(a, b + [NUL] + value)
    ensures var n := Run([ZAdd(a + [NUL] + b, value, 1), ZAdd(a, b + [NUL] + value, 2)]);
            && n.zsetDb == map[EncodeKey(a, b + [NUL] + value) := LeBytes(2)]
            && ScoresOf(n, a + [NUL] + b) == map[value := 1]
  {
    assert a + [NUL] + b + [NUL] + value == a + [NUL] + (b + [NUL] + value);
    var first, second := ZAdd(a + [NUL] + b, value, 1), ZAdd(a, b + [NUL] + value, 2);
    RunAppend([], first);
    RunAppend([first], second);
    assert [] + [first] == [first] && [first] + [second] == [first, second];
    assert |a + [NUL] + b| > |a|;
  }

  // Plain keys and sorted sets -------------------------------------------------------------------------------

  /** No key is both a plain key and a sorted set. */
  predicate Exclusive(n: Node) {
    n.kv.Keys !! n.zsets.Keys
  }

  /** Neither `zadd` nor a local batch looks for the other kind: exactly these let a key become both. */
  lemma ExclusiveExactly(n: Node, op: Op)
    requires Exclusive(n)
    ensures Exclusive(Apply(n, op)) <==>
            match op
            case ZAdd(key, _, _) => key !in n.kv
            case Batch(items) => forall i :: 0 <= i < |items| ==> items[i].key !in n.zsets
            case _ => true
  {
    if op.Batch? {
      forall key ensures key in PutAll(n.kv, op.items) <==> key in n.kv || Names(op.items, key) {
        PutAllIs(n.kv, op.items, key);
      }
    } else {
      hide PutAll;
    }
  }
}
