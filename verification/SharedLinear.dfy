/**
 The C++ sorted set that threads share is linearizable at rest: if overlapping additions of one value have
 one score, then, with no operation under way, the buckets hold what some order of the operations leaves,
 in which operations that did not overlap stay in order. That condition is exact.
 */
module SharedLinear {
  import opened Values
  import opened FlatMap
  import opened ZsetSpec
  import opened SingleThreadZset
  import opened SharedZset
  import opened SharedOverlap

  // When operations began ------------------------------------------------------------------------------

  /** How many operations had ended when each one under way began, and when each one that has ended did. */
  datatype History = History(underWay: map<Thread, nat>, ended: seq<nat>)

  function HistoryOf(schedule: seq<Choice>): History {
    if schedule == [] then History(map[], [])
    else
      var init, last := schedule[..|schedule| - 1], schedule[|schedule| - 1];
      NextHistory(Run(START, init), HistoryOf(init), last)
  }

  function NextHistory(s: State, h: History, c: Choice): History {
    if Begins(s, c) then h.(underWay := h.underWay[c.thread := |s.log|])
    else if c.Advance? && c.thread in s.threads && c.thread in h.underWay && Act(s, c.thread).To?
            && c.thread !in Act(s, c.thread).state.threads
    then History(h.underWay - {c.thread}, h.ended + [h.underWay[c.thread]])
    else h
  }

  ghost predicate Dated(s: State, h: History) {
    && h.underWay.Keys == s.threads.Keys && |h.ended| == |s.log|
    && (forall t <- h.underWay :: h.underWay[t] <= |s.log|)
    && (forall i :: 0 <= i < |h.ended| ==> h.ended[i] <= i)
  }

  // Orders of the operations that have ended ---------------------------------------------------------------

  /**
   Every place of the log once; and what comes later in the order had not ended when what comes earlier
   began, so that operations which did not overlap are in the order in which they happened.
   */
  ghost predicate Linearizes(order: seq<nat>, ended: seq<nat>) {
    && |order| == |ended|
    && (forall p :: 0 <= p < |order| ==> order[p] < |ended|)
    && (forall p, q :: 0 <= p < q < |order| ==> order[p] != order[q] && order[q] >= ended[order[p]])
  }

  function InOrder(log: seq<ZOp>, order: seq<nat>): seq<ZOp>
    requires forall p :: 0 <= p < |order| ==> order[p] < |log|
  {
    seq(|order|, p requires 0 <= p < |order| => log[order[p]])
  }

  /** From some operation on the value on, everything in the order ended only when `b` operations had. */
  ghost predicate Late(log: seq<ZOp>, order: seq<nat>, v: Text, b: nat)
    requires forall p :: 0 <= p < |order| ==> order[p] < |log|
  {
    exists p :: LateFrom(log, order, v, b, p)
  }

  ghost predicate LateFrom(log: seq<ZOp>, order: seq<nat>, v: Text, b: nat, p: nat)
    requires forall p :: 0 <= p < |order| ==> order[p] < |log|
  {
    && p < |order| && log[order[p]].value == v
    && forall q :: p <= q < |order| ==> order[q] >= b
  }

  function Insert(order: seq<nat>, p: nat, j: nat): seq<nat>
    requires p <= |order|
  {
    order[..p] + [j] + order[p..]
  }

  lemma {:induction false} InsertedIsOverridden(a: seq<ZOp>, x: ZOp, b: seq<ZOp>)
    requires b != [] && b[0].value == x.value
    ensures Contents(a + [x] + b) == Contents(a + b)
    decreases |b|
  {
    hide Contents;
    var init, last := b[..|b| - 1], b[|b| - 1];
    assert b == init + [last];
    assert a + [x] + b == (a + [x] + init) + [last] && a + b == (a + init) + [last];
    ContentsAppend(a + [x] + init, last);
    ContentsAppend(a + init, last);
    if init == [] {
      assert a + [x] + init == a + [x] && a + init == a;
      ContentsAppend(a, x);
      AppliedTwice(Contents(a), x, last);
    } else {
      InsertedIsOverridden(a, x, init);
    }
  }

  lemma AppliedTwice(c: Scores, x: ZOp, y: ZOp)
    requires x.value == y.value
    ensures ApplyOp(ApplyOp(c, x), y) == ApplyOp(c, y)
  {}

  lemma InsertedAt(log: seq<ZOp>, order: seq<nat>, op: ZOp, p: nat)
    requires p <= |order| && forall q :: 0 <= q < |order| ==> order[q] < |log|
    ensures var order' := Insert(order, p, |log|);
            && (forall q :: 0 <= q < |order'| ==> order'[q] < |log| + 1)
            && InOrder(log + [op], order') == InOrder(log, order)[..p] + [op] + InOrder(log, order)[p..]
  {
    var order' := Insert(order, p, |log|);
    assert forall q :: 0 <= q < |order'| ==> order'[q] == if q < p then order[q] else if q == p then |log| else order[q - 1];
  }

  lemma LateStays(log: seq<ZOp>, order: seq<nat>, op: ZOp, p: nat, v: Text, c: nat)
    requires p <= |order| && (forall q :: 0 <= q < |order| ==> order[q] < |log|)
    requires forall q :: 0 <= q < |order| + 1 ==> Insert(order, p, |log|)[q] < |log| + 1
    requires Late(log, order, v, c) && c <= |log|
    ensures Late(log + [op], Insert(order, p, |log|), v, c)
  {
    var order' := Insert(order, p, |log|);
    var r: nat :| LateFrom(log, order, v, c, r);
    var r' := if r < p then r else r + 1;
    assert order'[r'] == order[r];
    forall q | r' <= q < |order'| ensures order'[q] >= c {
      assert order'[q] == if q < p then order[q] else if q == p then |log| else order[q - 1];
    }
    assert LateFrom(log + [op], order', v, c, r');
  }

  /** The newest operation put in front of a later one on its value: a linearization with the same contents. */
  lemma Inserted(log: seq<ZOp>, order: seq<nat>, ended: seq<nat>, op: ZOp, b: nat) returns (order': seq<nat>)
    requires |log| == |ended| && Linearizes(order, ended) && (forall i :: 0 <= i < |ended| ==> ended[i] <= i)
    requires Late(log, order, op.value, b)
    ensures Linearizes(order', ended + [b])
    ensures Contents(InOrder(log + [op], order')) == Contents(InOrder(log, order))
    ensures forall v, c: nat :: Late(log, order, v, c) && c <= |log| ==> Late(log + [op], order', v, c)
  {
    hide Contents, Late, InOrder, Insert;
    var p: nat := LateAt(log, order, op.value, b);
    order' := Insert(order, p, |log|);
    InsertLinearizes(order, ended, p, b);
    InsertedAt(log, order, op, p);
    InOrderAt(log, order, p);
    var ops := InOrder(log, order);
    assert ops == ops[..p] + ops[p..];
    InsertedIsOverridden(ops[..p], op, ops[p..]);
    forall v, c: nat | Late(log, order, v, c) && c <= |log| ensures Late(log + [op], order', v, c) {
      LateStays(log, order, op, p, v, c);
    }
  }

  lemma LateAt(log: seq<ZOp>, order: seq<nat>, v: Text, b: nat) returns (p: nat)
    requires (forall q :: 0 <= q < |order| ==> order[q] < |log|) && Late(log, order, v, b)
    ensures p < |order| && log[order[p]].value == v && forall q :: p <= q < |order| ==> order[q] >= b
  {
    p :| LateFrom(log, order, v, b, p);
  }

  lemma InOrderAt(log: seq<ZOp>, order: seq<nat>, p: nat)
    requires (forall q :: 0 <= q < |order| ==> order[q] < |log|) && p < |order|
    ensures |InOrder(log, order)| == |order| && InOrder(log, order)[p] == log[order[p]]
  {}

  lemma InsertedElement(order: seq<nat>, p: nat, j: nat, q: nat)
    requires p <= |order| && q <= |order|
    ensures |Insert(order, p, j)| == |order| + 1
    ensures Insert(order, p, j)[q] == if q < p then order[q] else if q == p then j else order[q - 1]
  {}

  lemma InsertLinearizes(order: seq<nat>, ended: seq<nat>, p: nat, b: nat)
    requires Linearizes(order, ended) && p <= |order| && (forall i :: 0 <= i < |ended| ==> ended[i] <= i)
    requires forall q :: p <= q < |order| ==> order[q] >= b
    ensures Linearizes(Insert(order, p, |ended|), ended + [b])
  {
    hide Insert;
    var n := |ended|;
    var order', ended' := Insert(order, p, n), ended + [b];
    InsertedElement(order, p, n, 0);
    forall q | 0 <= q < |order'| ensures order'[q] < |ended'| { InsertedElement(order, p, n, q); }
    forall q, r | 0 <= q < r < |order'| ensures order'[q] != order'[r] && order'[r] >= ended'[order'[q]] {
      InsertedElement(order, p, n, q);
      InsertedElement(order, p, n, r);
      if r == p {
        assert order'[q] == order[q] && ended'[order[q]] == ended[order[q]];
      } else if q != p {
        var q', r' := if q < p then q else q - 1, if r < p then r else r - 1;
        assert order'[q] == order[q'] && order'[r] == order[r'] && ended'[order[q']] == ended[order[q']];
      }
    }
  }

  lemma Appended(log: seq<ZOp>, order: seq<nat>, ended: seq<nat>, op: ZOp, b: nat) returns (order': seq<nat>)
    requires |log| == |ended| && Linearizes(order, ended) && (forall i :: 0 <= i < |ended| ==> ended[i] <= i)
    ensures Linearizes(order', ended + [b])
    ensures Contents(InOrder(log + [op], order')) == ApplyOp(Contents(InOrder(log, order)), op)
    ensures forall v, c: nat :: Late(log, order, v, c) && c <= |log| ==> Late(log + [op], order', v, c)
    ensures forall c: nat :: c <= |log| ==> Late(log + [op], order', op.value, c)
  {
    hide Contents, Late, InOrder, Linearizes;
    var n := |log|;
    assert |order| == n && forall q :: 0 <= q < |order| ==> order[q] < n by { LinearizesBounds(order, ended); }
    order' := Insert(order, n, n);
    InsertLinearizes(order, ended, n, b);
    InsertedAt(log, order, op, n);
    assert |InOrder(log, order)| == n by { InOrderLength(log, order); }
    assert InOrder(log + [op], order') == InOrder(log, order) + [op];
    ContentsAppend(InOrder(log, order), op);
    forall v, c: nat | Late(log, order, v, c) && c <= n ensures Late(log + [op], order', v, c) {
      LateStays(log, order, op, n, v, c);
    }
    forall c: nat | c <= n ensures Late(log + [op], order', op.value, c) { LatestIsLate(log, order, op, c); }
  }

  lemma LinearizesBounds(order: seq<nat>, ended: seq<nat>)
    requires Linearizes(order, ended)
    ensures |order| == |ended| && forall q :: 0 <= q < |order| ==> order[q] < |ended|
  {}

  lemma InOrderLength(log: seq<ZOp>, order: seq<nat>)
    requires forall q :: 0 <= q < |order| ==> order[q] < |log|
    ensures |InOrder(log, order)| == |order|
  {}

  lemma LatestIsLate(log: seq<ZOp>, order: seq<nat>, op: ZOp, c: nat)
    requires |order| == |log| && (forall q :: 0 <= q < |order| ==> order[q] < |log|) && c <= |log|
    requires forall q :: 0 <= q < |log| + 1 ==> Insert(order, |log|, |log|)[q] < |log| + 1
    ensures Late(log + [op], Insert(order, |log|, |log|), op.value, c)
  {
    assert Insert(order, |log|, |log|) == order + [|log|];
    assert LateFrom(log + [op], order + [|log|], op.value, c, |log|);
  }

  // One value --------------------------------------------------------------------------------------------

  /** A writer of the value, and how many operations had ended when it began. */
  type Writer = (Pc, nat)

  ghost predicate Adds(ws: set<Writer>) {
    exists w <- ws :: IsAdd(w.0)
  }

  /** A writer that will still bring the buckets and the contents of the order together. */
  ghost predicate Settles(ws: set<Writer>) {
    exists w <- ws :: WillEmplace(w.0) || w.0.RmvPrune?
  }

  /**
   How far the buckets of a value, `places`, may be from `effect`, its score in the contents of the order:
   as far as its writers have still to end, and can be put in order then.
   */
  ghost predicate Pending(places: iset<u32>, effect: Option<u32>, lates: iset<nat>, ws: set<Writer>) {
    && (!Adds(ws) ==> Only(effect) == places || (places == iset{} && exists w <- ws :: w.0.RmvPrune?))
    && forall w <- ws :: Excused(w, places, effect, lates, ws)
  }

  ghost predicate Excused(w: Writer, places: iset<u32>, effect: Option<u32>, lates: iset<nat>, ws: set<Writer>) {
    match w.0
    case AddDropIndex(_, k) => places == iset{k} || Settles(ws) || (effect == None && w.1 in lates)
    case AddSetIndex(_, k) => places == iset{k} || Settles(ws) || (effect == None && w.1 in lates)
    case RmvLock(_, from) => places <= iset{from} || Adds(ws) || (Only(effect) == places && w.1 in lates)
    case RmvErase(_, from) => places <= iset{from} || Adds(ws) || (Only(effect) == places && w.1 in lates)
    case RmvPrune(_, from) => places == iset{} || Adds(ws) || (Only(effect) == places && w.1 in lates)
    case _ => true
  }

  /** The writers before and after one of them took a step. */
  ghost predicate Moved(ws: set<Writer>, w: Writer, next: Option<Pc>, ws': set<Writer>) {
    && w in ws
    && (next.Some? ==> (next.value, w.1) in ws')
    && (forall u <- ws' :: u in ws || (next == Some(u.0) && u.1 == w.1))
    && (forall u <- ws :: u in ws' || u == w)
  }

  function PcsOf(ws: set<Writer>): set<Pc> {
    set w | w in ws :: w.0
  }

  lemma SnugGives(k: u32, x: Trace, ws: set<Writer>, w: Writer)
    requires Snug(k, x, PcsOf(ws)) && w in ws
    ensures IsAdd(w.0) ==> w.0.score == k && Knows(w.0, k, x)
    ensures x.places <= iset{k} || x.places <= Only(x.index)
    ensures !Adds(ws) ==> x.places <= Only(x.index)
  {
    assert w.0 in PcsOf(ws);
    if !(x.places <= Only(x.index)) {
      var pc :| pc in PcsOf(ws) && IsAdd(pc);
      var u :| u in ws && u.0 == pc;
    }
  }

  lemma AddsAfter(ws: set<Writer>, w: Writer, next: Option<Pc>, ws': set<Writer>)
    requires Moved(ws, w, next, ws') && next.Some? && IsAdd(next.value) == IsAdd(w.0)
    ensures Adds(ws') <==> Adds(ws)
  {}

  lemma SettlesAfter(ws: set<Writer>, w: Writer, next: Option<Pc>, ws': set<Writer>)
    requires Moved(ws, w, next, ws') && Settles(ws)
    requires WillEmplace(w.0) || w.0.RmvPrune? ==> next.Some? && (WillEmplace(next.value) || next.value.RmvPrune?)
    ensures Settles(ws')
  {
    var u :| u in ws && (WillEmplace(u.0) || u.0.RmvPrune?);
    if u != w { assert u in ws'; }
  }

  /** A step that does not touch the buckets and does not end its operation. */
  lemma QuietStep(k: u32, x: Trace, effect: Option<u32>, lates: iset<nat>, ws: set<Writer>, w: Writer, ws': set<Writer>)
    requires Pending(x.places, effect, lates, ws) && Snug(k, x, PcsOf(ws))
    requires Moved(ws, w, LocalStep(w.0, x).1, ws') && LocalStep(w.0, x).1.Some?
    requires !w.0.AddErase? && !w.0.AddEmplace? && !w.0.RmvErase?
    ensures LocalStep(w.0, x).0.places == x.places && Pending(x.places, effect, lates, ws')
  {
    hide Snug, Settles, Adds;
    var next := LocalStep(w.0, x).1;
    SnugGives(k, x, ws, w);
    AddsAfter(ws, w, next, ws');
    if Settles(ws) { SettlesAfter(ws, w, next, ws'); }
    assert Excused(w, x.places, effect, lates, ws);
    forall u | u in ws' ensures Excused(u, x.places, effect, lates, ws') {
      if u in ws { assert Excused(u, x.places, effect, lates, ws); }
    }
    if u :| u in ws && u.0.RmvPrune? { assert u in ws'; }
  }

  lemma EraseStep(k: u32, x: Trace, effect: Option<u32>, lates: iset<nat>, ws: set<Writer>, w: Writer, ws': set<Writer>)
    requires Pending(x.places, effect, lates, ws) && Snug(k, x, PcsOf(ws)) && w.0.AddErase?
    requires Moved(ws, w, LocalStep(w.0, x).1, ws')
    ensures Pending(LocalStep(w.0, x).0.places, effect, lates, ws')
  {
    hide Snug;
    var next := LocalStep(w.0, x).1;
    var n := (next.value, w.1);
    assert n in ws' && WillEmplace(n.0) && IsAdd(n.0);
  }

  lemma EmplaceStep(k: u32, x: Trace, effect: Option<u32>, lates: iset<nat>, ws: set<Writer>, w: Writer, ws': set<Writer>)
    requires Pending(x.places, effect, lates, ws) && Snug(k, x, PcsOf(ws)) && w.0.AddEmplace?
    requires Moved(ws, w, LocalStep(w.0, x).1, ws')
    ensures Pending(LocalStep(w.0, x).0.places, effect, lates, ws')
  {
    hide Snug;
    var (x', next) := LocalStep(w.0, x);
    var n := (next.value, w.1);
    SnugGives(k, x, ws, w);
    assert x'.places == iset{k};
    assert n in ws' && IsAdd(n.0);
    forall u | u in ws' ensures Excused(u, x'.places, effect, lates, ws') {
      if u in ws { SnugGives(k, x, ws, u); }
    }
  }

  lemma RemovalStep(k: u32, x: Trace, effect: Option<u32>, lates: iset<nat>, ws: set<Writer>, w: Writer, ws': set<Writer>)
    requires Pending(x.places, effect, lates, ws) && Snug(k, x, PcsOf(ws)) && w.0.RmvErase?
    requires Moved(ws, w, LocalStep(w.0, x).1, ws')
    ensures Pending(LocalStep(w.0, x).0.places, effect, lates, ws')
  {
    hide Snug, Adds;
    var (x', next) := LocalStep(w.0, x);
    var n := (next.value, w.1);
    SnugGives(k, x, ws, w);
    AddsAfter(ws, w, next, ws');
    assert n in ws' && n.0.RmvPrune?;
    AtMostOne(k, x);
    assert x'.places == x.places || x'.places == iset{};
    assert Excused(w, x.places, effect, lates, ws);
    forall u | u in ws' ensures Excused(u, x'.places, effect, lates, ws') {
      if u in ws { assert Excused(u, x.places, effect, lates, ws); }
    }
  }

  lemma AtMostOne(k: u32, x: Trace)
    requires x.places <= iset{k} || x.places <= Only(x.index)
    ensures forall j: u32 :: x.places - iset{j} == x.places || x.places - iset{j} == iset{}
  {}

  function ScoreSet(pc: Pc): Option<u32> {
    if IsAdd(pc) then Some(pc.score) else None
  }

  /** Whether an operation that ends goes to the end of the order, or in front of one that has ended since it began. */
  ghost predicate GoesLast(w: Writer, places: iset<u32>, ws: set<Writer>) {
    if IsAdd(w.0) then places == iset{w.0.score} || Settles(ws) else places == iset{} || Adds(ws)
  }

  lemma EndsLast(
      k: u32, x: Trace, effect: Option<u32>, lates: iset<nat>, ws: set<Writer>, w: Writer, ws': set<Writer>,
      lates': iset<nat>)
    requires Pending(x.places, effect, lates, ws) && Snug(k, x, PcsOf(ws))
    requires LocalStep(w.0, x).1 == None && Moved(ws, w, None, ws')
    requires GoesLast(w, x.places, ws) && forall u <- ws' :: u.1 in lates'
    ensures LocalStep(w.0, x).0.places == x.places && Pending(x.places, ScoreSet(w.0), lates', ws')
  {
    hide Snug;
    SnugGives(k, x, ws, w);
    forall u | u in ws' ensures Excused(u, x.places, ScoreSet(w.0), lates', ws') {
      SnugGives(k, x, ws, u);
      if Settles(ws) && IsAdd(w.0) { SettlesAfter(ws, w, None, ws'); }
      if Adds(ws) && !IsAdd(w.0) { AddsStay(ws, w, ws'); }
    }
    if !Adds(ws') {
      if IsAdd(w.0) && x.places != iset{w.0.score} {
        SettlesAfter(ws, w, None, ws');
      } else if !IsAdd(w.0) && Adds(ws) {
        AddsStay(ws, w, ws');
      }
    }
  }

  lemma AddsStay(ws: set<Writer>, w: Writer, ws': set<Writer>)
    requires Moved(ws, w, None, ws') && Adds(ws) && !IsAdd(w.0)
    ensures Adds(ws')
  {
    var u :| u in ws && IsAdd(u.0);
    assert u in ws';
  }

  lemma EndsBefore(
      k: u32, x: Trace, effect: Option<u32>, lates: iset<nat>, ws: set<Writer>, w: Writer, ws': set<Writer>,
      lates': iset<nat>)
    requires Pending(x.places, effect, lates, ws) && Snug(k, x, PcsOf(ws))
    requires LocalStep(w.0, x).1 == None && Moved(ws, w, None, ws')
    requires !GoesLast(w, x.places, ws) && forall u <- ws' :: u.1 in lates ==> u.1 in lates'
    ensures w.1 in lates && LocalStep(w.0, x).0.places == x.places && Pending(x.places, effect, lates', ws')
  {
    hide Snug;
    SnugGives(k, x, ws, w);
    assert Excused(w, x.places, effect, lates, ws);
    forall u | u in ws' ensures Excused(u, x.places, effect, lates', ws') {
      SnugGives(k, x, ws, u);
      assert Excused(u, x.places, effect, lates, ws);
    }
  }

  lemma BeginsPending(places: iset<u32>, effect: Option<u32>, lates: iset<nat>, ws: set<Writer>, op: ZOp, b: nat)
    requires Pending(places, effect, lates, ws)
    ensures Pending(places, effect, lates, ws + {(First(op), b)})
  {
    var n := (First(op), b);
    var ws' := ws + {n};
    assert n in ws' && forall u <- ws :: u in ws';
    forall u | u in ws' ensures Excused(u, places, effect, lates, ws') {
      if u in ws { assert Excused(u, places, effect, lates, ws); }
    }
  }

  lemma MoreLate(places: iset<u32>, effect: Option<u32>, lates: iset<nat>, lates': iset<nat>, ws: set<Writer>)
    requires Pending(places, effect, lates, ws) && forall u <- ws :: u.1 in lates ==> u.1 in lates'
    ensures Pending(places, effect, lates', ws)
  {
    forall u | u in ws ensures Excused(u, places, effect, lates', ws) {
      assert Excused(u, places, effect, lates, ws);
    }
  }

  // All values -------------------------------------------------------------------------------------------

  function Writers(s: State, h: History, v: Text): set<Writer> {
    set t | t in s.threads && t in h.underWay && s.threads[t].value == v :: (s.threads[t], h.underWay[t])
  }

  ghost function Lates(s: State, order: seq<nat>, v: Text): iset<nat>
    requires forall p :: 0 <= p < |order| ==> order[p] < |s.log|
  {
    iset b: nat | Late(s.log, order, v, b)
  }

  ghost predicate ValuePending(s: State, h: History, order: seq<nat>, v: Text)
    requires forall p :: 0 <= p < |order| ==> order[p] < |s.log|
  {
    Pending(TraceOf(s, v).places, Lookup(Contents(InOrder(s.log, order)), v), Lates(s, order, v), Writers(s, h, v))
  }

  lemma WritersAre(s: State, h: History, v: Text)
    requires Dated(s, h)
    ensures forall t <- s.threads :: s.threads[t].value == v ==> (s.threads[t], h.underWay[t]) in Writers(s, h, v)
    ensures forall w <- Writers(s, h, v) ::
              w.0.value == v && w.1 <= |s.log| && exists t <- s.threads :: (s.threads[t], h.underWay[t]) == w
    ensures PcsOf(Writers(s, h, v)) == Pcs(s, v)
  {
    var ws := Writers(s, h, v);
    forall t | t in s.threads && s.threads[t].value == v ensures (s.threads[t], h.underWay[t]) in ws {}
    forall pc | pc in Pcs(s, v) ensures pc in PcsOf(ws) {
      var t :| t in s.threads && s.threads[t].value == v && s.threads[t] == pc;
      assert (s.threads[t], h.underWay[t]) in ws;
    }
  }

  lemma DatedNext(s: State, h: History, c: Choice)
    requires Dated(s, h) && Step(s, c).To?
    ensures Dated(Step(s, c).state, NextHistory(s, h, c))
  {
    if c.Advance? { AdvanceLogs(s, c.thread); }
  }

  lemma AdvanceLogs(s: State, t: Thread)
    requires t in s.threads && Act(s, t).To?
    ensures var s' := Act(s, t).state;
            && s'.log == (if t in s'.threads then s.log else s.log + [OpOf(s.threads[t])])
            && s'.threads.Keys == (if t in s'.threads then s.threads.Keys else s.threads.Keys - {t})
  {
    hide Open, SetValues, Erase, EraseValue, Prune, ValuesAt;
  }

  lemma WritersMove(s: State, h: History, t: Thread, v: Text)
    requires Dated(s, h) && t in s.threads && Act(s, t).To?
    ensures t in h.underWay
    ensures var s', h' := Act(s, t).state, NextHistory(s, h, Advance(t));
            if v == s.threads[t].value
            then Moved(Writers(s, h, v), (s.threads[t], h.underWay[t]), LocalStep(s.threads[t], TraceOf(s, v)).1, Writers(s', h', v))
            else Writers(s', h', v) == Writers(s, h, v)
  {
    hide Act, LocalStep, TraceOf, Writers, Dated, NextHistory;
    var s', h' := Act(s, t).state, NextHistory(s, h, Advance(t));
    ActPc(s, t);
    OwnWriter(s, h, t);
    forall w | w in Writers(s', h', v)
      ensures w in Writers(s, h, v) || (t in s'.threads && w == (s'.threads[t], h.underWay[t]) && v == s.threads[t].value)
    {
      WriterCameFrom(s, h, t, v, w);
    }
    forall w | w in Writers(s, h, v)
      ensures w in Writers(s', h', v) || (w == (s.threads[t], h.underWay[t]) && v == s.threads[t].value)
    {
      WriterWentTo(s, h, t, v, w);
    }
  }

  lemma OwnWriter(s: State, h: History, t: Thread)
    requires Dated(s, h) && t in s.threads && Act(s, t).To?
    ensures t in h.underWay
    ensures var s', h', v := Act(s, t).state, NextHistory(s, h, Advance(t)), s.threads[t].value;
            && (s.threads[t], h.underWay[t]) in Writers(s, h, v)
            && (t in s'.threads ==> (s'.threads[t], h.underWay[t]) in Writers(s', h', v))
  {
    hide Act, NextHistory;
    ThreadsAfter(s, t);
    SameDates(s, h, t);
    var s', h' := Act(s, t).state, NextHistory(s, h, Advance(t));
    if t in s'.threads { assert t in h'.underWay && h'.underWay[t] == h.underWay[t]; }
  }

  lemma WriterCameFrom(s: State, h: History, t: Thread, v: Text, w: Writer)
    requires Dated(s, h) && t in s.threads && Act(s, t).To?
    requires w in Writers(Act(s, t).state, NextHistory(s, h, Advance(t)), v)
    ensures var s' := Act(s, t).state;
            w in Writers(s, h, v) || (t in s'.threads && w == (s'.threads[t], h.underWay[t]) && v == s.threads[t].value)
  {
    hide Act, NextHistory;
    var s', h' := Act(s, t).state, NextHistory(s, h, Advance(t));
    ThreadsAfter(s, t);
    SameDates(s, h, t);
    var u :| u in s'.threads && u in h'.underWay && s'.threads[u].value == v && (s'.threads[u], h'.underWay[u]) == w;
    if u != t { assert (s.threads[u], h.underWay[u]) == w; }
  }

  lemma WriterWentTo(s: State, h: History, t: Thread, v: Text, w: Writer)
    requires Dated(s, h) && t in s.threads && Act(s, t).To? && w in Writers(s, h, v)
    ensures w in Writers(Act(s, t).state, NextHistory(s, h, Advance(t)), v) ||
            (w == (s.threads[t], h.underWay[t]) && v == s.threads[t].value)
  {
    hide Act, NextHistory;
    var s', h' := Act(s, t).state, NextHistory(s, h, Advance(t));
    ThreadsAfter(s, t);
    SameDates(s, h, t);
    var u :| u in s.threads && u in h.underWay && s.threads[u].value == v && (s.threads[u], h.underWay[u]) == w;
    if u != t { assert (s'.threads[u], h'.underWay[u]) == w; }
  }

  lemma SameDates(s: State, h: History, t: Thread)
    requires Dated(s, h) && t in s.threads && Act(s, t).To?
    ensures var s', h' := Act(s, t).state, NextHistory(s, h, Advance(t));
            && t in h.underWay && h'.underWay.Keys == s'.threads.Keys
            && (forall u <- s'.threads :: u in h.underWay && h'.underWay[u] == h.underWay[u])
            && (forall u <- s.threads :: u in h.underWay)
            && h'.ended == if t in s'.threads then h.ended else h.ended + [h.underWay[t]]
  {
    AdvanceLogs(s, t);
  }

  lemma StepOn(k: u32, x: Trace, effect: Option<u32>, lates: iset<nat>, ws: set<Writer>, w: Writer, ws': set<Writer>)
    requires Pending(x.places, effect, lates, ws) && Snug(k, x, PcsOf(ws))
    requires Moved(ws, w, LocalStep(w.0, x).1, ws') && LocalStep(w.0, x).1.Some?
    ensures Pending(LocalStep(w.0, x).0.places, effect, lates, ws')
  {
    hide Pending, Snug, LocalStep, Moved;
    match w.0
    case AddErase(_, _, _) => EraseStep(k, x, effect, lates, ws, w, ws');
    case AddEmplace(_, _) => EmplaceStep(k, x, effect, lates, ws, w, ws');
    case RmvErase(_, _) => RemovalStep(k, x, effect, lates, ws, w, ws');
    case _ => QuietStep(k, x, effect, lates, ws, w, ws');
  }

  /** A step that does not end its operation keeps every value's writers on the way to the order. */
  lemma ContinuesPending(s: State, h: History, order: seq<nat>, t: Thread, v: Text)
    requires BucketsInv(s) && Dated(s, h) && Linearizes(order, h.ended)
    requires ValuePending(s, h, order, v) && ValueInv(SameScore, s, v)
    requires t in s.threads && Act(s, t).To? && t in Act(s, t).state.threads
    ensures var s' := Act(s, t).state;
            s'.log == s.log && ValuePending(s', NextHistory(s, h, Advance(t)), order, v)
  {
    hide Act, BucketsInv, Snug, Pending, LocalStep, TraceOf, Writers, Moved, Pcs, NextHistory, Linearizes, Contents;
    LinearizesBounds(order, h.ended);
    ActTrace(s, t, v);
    ActPc(s, t);
    AdvanceLogs(s, t);
    WritersMove(s, h, t, v);
    WritersAre(s, h, v);
    if v == s.threads[t].value {
      var k: u32 :| Snug(k, TraceOf(s, v), Pcs(s, v));
      StepOn(k, TraceOf(s, v), Lookup(Contents(InOrder(s.log, order)), v), Lates(s, order, v),
             Writers(s, h, v), (s.threads[t], h.underWay[t]), Writers(Act(s, t).state, NextHistory(s, h, Advance(t)), v));
    } else {
      PlacesSame(s, Act(s, t).state, v);
    }
  }

  lemma PlacesSame(s: State, s': State, v: Text)
    requires TraceOf(s', v) == TraceOf(s, v)
    ensures TraceOf(s', v).places == TraceOf(s, v).places
  {}

  lemma AppliedElsewhere(c: Scores, op: ZOp, v: Text)
    ensures Lookup(ApplyOp(c, op), v) == if v == op.value then (if op.Put? then Some(op.score) else None) else Lookup(c, v)
  {}

  /** The end of an operation, put into the order where its value's buckets need it. */
  lemma EndsPending(s: State, h: History, order: seq<nat>, t: Thread) returns (order': seq<nat>)
    requires BucketsInv(s) && Dated(s, h) && Linearizes(order, h.ended)
    requires forall v :: ValuePending(s, h, order, v) && ValueInv(SameScore, s, v)
    requires t in s.threads && Act(s, t).To? && t !in Act(s, t).state.threads
    ensures var s', h' := Act(s, t).state, NextHistory(s, h, Advance(t));
            && Linearizes(order', h'.ended) && |h'.ended| == |s'.log|
            && forall v :: ValuePending(s', h', order', v)
  {
    hide Act, BucketsInv, Snug, Pending, LocalStep, TraceOf, Writers, Moved, Pcs, NextHistory, Contents, GoesLast, Late, InOrder,
         ValueInv, Linearizes;
    var s', h' := Act(s, t).state, NextHistory(s, h, Advance(t));
    var w, op := (s.threads[t], h.underWay[t]), OpOf(s.threads[t]);
    var v := op.value;
    LinearizesBounds(order, h.ended);
    AdvanceLogs(s, t);
    SameDates(s, h, t);
    DatedNext(s, h, Advance(t));
    if GoesLast(w, TraceOf(s, v).places, Writers(s, h, v)) {
      order' := Appended(s.log, order, h.ended, op, w.1);
      LinearizesBounds(order', h'.ended);
      OwnEndsLast(s, h, order, t, order');
    } else {
      OwnIsLate(s, h, order, t);
      order' := Inserted(s.log, order, h.ended, op, w.1);
      LinearizesBounds(order', h'.ended);
      OwnEndsBefore(s, h, order, t, order');
    }
    forall u ensures ValuePending(s', h', order', u) {
      if u != v {
        AppliedElsewhere(Contents(InOrder(s.log, order)), op, u);
        OtherEnds(s, h, order, t, order', u);
      }
    }
  }

  lemma OwnIsLate(s: State, h: History, order: seq<nat>, t: Thread)
    requires BucketsInv(s) && Dated(s, h) && Linearizes(order, h.ended)
    requires t in s.threads && Act(s, t).To? && t !in Act(s, t).state.threads
    requires var v := s.threads[t].value; ValuePending(s, h, order, v) && ValueInv(SameScore, s, v)
    requires var v := s.threads[t].value;
             !GoesLast((s.threads[t], h.underWay[t]), TraceOf(s, v).places, Writers(s, h, v))
    ensures Late(s.log, order, s.threads[t].value, h.underWay[t])
  {
    hide Act, BucketsInv, Snug, Pending, LocalStep, TraceOf, Writers, Moved, Pcs, NextHistory, Contents, GoesLast, Late, InOrder,
         Linearizes;
    LinearizesBounds(order, h.ended);
    var v, w := s.threads[t].value, (s.threads[t], h.underWay[t]);
    var k: u32 :| Snug(k, TraceOf(s, v), Pcs(s, v));
    var lates, ws' := Lates(s, order, v), Writers(Act(s, t).state, NextHistory(s, h, Advance(t)), v);
    ActPc(s, t);
    WritersMove(s, h, t, v);
    WritersAre(s, h, v);
    EndsBefore(k, TraceOf(s, v), Lookup(Contents(InOrder(s.log, order)), v), lates, Writers(s, h, v), w, ws', lates);
    assert w.1 in lates;
  }

  lemma OwnEndsLast(s: State, h: History, order: seq<nat>, t: Thread, order': seq<nat>)
    requires BucketsInv(s) && Dated(s, h) && Linearizes(order, h.ended)
    requires t in s.threads && Act(s, t).To? && t !in Act(s, t).state.threads
    requires var v := s.threads[t].value; ValuePending(s, h, order, v) && ValueInv(SameScore, s, v)
    requires var v := s.threads[t].value;
             GoesLast((s.threads[t], h.underWay[t]), TraceOf(s, v).places, Writers(s, h, v))
    requires var s', op := Act(s, t).state, OpOf(s.threads[t]);
             && s'.log == s.log + [op] && (forall p :: 0 <= p < |order'| ==> order'[p] < |s'.log|)
             && Contents(InOrder(s'.log, order')) == ApplyOp(Contents(InOrder(s.log, order)), op)
             && forall c: nat :: c <= |s.log| ==> Late(s'.log, order', op.value, c)
    ensures ValuePending(Act(s, t).state, NextHistory(s, h, Advance(t)), order', s.threads[t].value)
  {
    hide Act, BucketsInv, Snug, Pending, LocalStep, TraceOf, Writers, Moved, Pcs, NextHistory, Contents, GoesLast, Late, InOrder,
         Linearizes;
    LinearizesBounds(order, h.ended);
    var v, w, s', h' := s.threads[t].value, (s.threads[t], h.underWay[t]), Act(s, t).state, NextHistory(s, h, Advance(t));
    var k: u32 :| Snug(k, TraceOf(s, v), Pcs(s, v));
    ActPc(s, t);
    ActTrace(s, t, v);
    WritersMove(s, h, t, v);
    WritersAre(s, h, v);
    var ws, ws' := Writers(s, h, v), Writers(s', h', v);
    forall u | u in ws' ensures u.1 in Lates(s', order', v) {
      MovedOnly(ws, w, ws');
      assert u in ws;
    }
    EndsLast(k, TraceOf(s, v), Lookup(Contents(InOrder(s.log, order)), v), Lates(s, order, v), ws, w, ws', Lates(s', order', v));
    AppliedElsewhere(Contents(InOrder(s.log, order)), OpOf(s.threads[t]), v);
    ScoreSetIs(s.threads[t]);
  }

  lemma MovedOnly(ws: set<Writer>, w: Writer, ws': set<Writer>)
    requires Moved(ws, w, None, ws')
    ensures ws' <= ws
  {}

  lemma ScoreSetIs(pc: Pc)
    ensures ScoreSet(pc) == if OpOf(pc).Put? then Some(OpOf(pc).score) else None
    ensures OpOf(pc).value == pc.value
  {}

  lemma OwnEndsBefore(s: State, h: History, order: seq<nat>, t: Thread, order': seq<nat>)
    requires BucketsInv(s) && Dated(s, h) && Linearizes(order, h.ended)
    requires t in s.threads && Act(s, t).To? && t !in Act(s, t).state.threads
    requires var v := s.threads[t].value; ValuePending(s, h, order, v) && ValueInv(SameScore, s, v)
    requires var v := s.threads[t].value;
             !GoesLast((s.threads[t], h.underWay[t]), TraceOf(s, v).places, Writers(s, h, v))
    requires var s', v := Act(s, t).state, s.threads[t].value;
             && |s'.log| >= |s.log| && (forall p :: 0 <= p < |order'| ==> order'[p] < |s'.log|)
             && Contents(InOrder(s'.log, order')) == Contents(InOrder(s.log, order))
             && forall u, c: nat :: Late(s.log, order, u, c) && c <= |s.log| ==> Late(s'.log, order', u, c)
    ensures ValuePending(Act(s, t).state, NextHistory(s, h, Advance(t)), order', s.threads[t].value)
  {
    hide Act, BucketsInv, Snug, Pending, LocalStep, TraceOf, Writers, Moved, Pcs, NextHistory, Contents, GoesLast, Late, InOrder,
         Linearizes;
    LinearizesBounds(order, h.ended);
    var v, w, s', h' := s.threads[t].value, (s.threads[t], h.underWay[t]), Act(s, t).state, NextHistory(s, h, Advance(t));
    var k: u32 :| Snug(k, TraceOf(s, v), Pcs(s, v));
    ActPc(s, t);
    ActTrace(s, t, v);
    WritersMove(s, h, t, v);
    WritersAre(s, h, v);
    var ws, ws' := Writers(s, h, v), Writers(s', h', v);
    MovedOnly(ws, w, ws');
    EndsBefore(k, TraceOf(s, v), Lookup(Contents(InOrder(s.log, order)), v), Lates(s, order, v), ws, w, ws', Lates(s', order', v));
  }

  lemma OtherEnds(s: State, h: History, order: seq<nat>, t: Thread, order': seq<nat>, v: Text)
    requires BucketsInv(s) && Dated(s, h) && Linearizes(order, h.ended) && ValuePending(s, h, order, v)
    requires t in s.threads && Act(s, t).To? && v != s.threads[t].value
    requires var s' := Act(s, t).state;
             && (forall p :: 0 <= p < |order'| ==> order'[p] < |s'.log|)
             && Lookup(Contents(InOrder(s'.log, order')), v) == Lookup(Contents(InOrder(s.log, order)), v)
             && forall u, c: nat :: Late(s.log, order, u, c) && c <= |s.log| ==> Late(s'.log, order', u, c)
    ensures ValuePending(Act(s, t).state, NextHistory(s, h, Advance(t)), order', v)
  {
    hide Act, BucketsInv, Pending, TraceOf, Writers, Moved, NextHistory, Contents, Late, InOrder, Linearizes;
    LinearizesBounds(order, h.ended);
    var s', h' := Act(s, t).state, NextHistory(s, h, Advance(t));
    ActTrace(s, t, v);
    WritersMove(s, h, t, v);
    WritersAre(s, h, v);
    MoreLate(TraceOf(s, v).places, Lookup(Contents(InOrder(s.log, order)), v), Lates(s, order, v), Lates(s', order', v), Writers(s, h, v));
  }

  lemma BeginsPendingAll(s: State, h: History, order: seq<nat>, t: Thread, op: ZOp, v: Text)
    requires Dated(s, h) && Linearizes(order, h.ended) && ValuePending(s, h, order, v) && t !in s.threads
    ensures var s' := Step(s, Begin(t, op)).state;
            s'.log == s.log && ValuePending(s', NextHistory(s, h, Begin(t, op)), order, v)
  {
    hide Pending, Contents, Late, InOrder, Linearizes, ValuesAt;
    LinearizesBounds(order, h.ended);
    var s', h' := Step(s, Begin(t, op)).state, NextHistory(s, h, Begin(t, op));
    assert TraceOf(s', v) == TraceOf(s, v) && Lates(s', order, v) == Lates(s, order, v);
    WritersWith(s, h, t, op, v);
    if op.value == v {
      BeginsPending(TraceOf(s, v).places, Lookup(Contents(InOrder(s.log, order)), v), Lates(s, order, v), Writers(s, h, v), op, |s.log|);
    }
  }

  lemma WritersWith(s: State, h: History, t: Thread, op: ZOp, v: Text)
    requires Dated(s, h) && t !in s.threads
    ensures var s', h' := Step(s, Begin(t, op)).state, NextHistory(s, h, Begin(t, op));
            Writers(s', h', v) == if op.value == v then Writers(s, h, v) + {(First(op), |s.log|)} else Writers(s, h, v)
  {
    hide Act;
    var s', h' := Step(s, Begin(t, op)).state, NextHistory(s, h, Begin(t, op));
    var n := (First(op), |s.log|);
    assert s'.threads == s.threads[t := First(op)] && h'.underWay == h.underWay[t := |s.log|];
    forall w ensures w in Writers(s', h', v) <==> w in Writers(s, h, v) || (op.value == v && w == n) {
      if w in Writers(s, h, v) {
        var u :| u in s.threads && s.threads[u].value == v && (s.threads[u], h.underWay[u]) == w;
        assert (s'.threads[u], h'.underWay[u]) == w;
      }
      if w == n { assert (s'.threads[t], h'.underWay[t]) == w; }
    }
  }

  lemma {:induction false} RunPending(schedule: seq<Choice>) returns (order: seq<nat>)
    requires Tolerant(SameScore, schedule)
    ensures Dated(Run(START, schedule), HistoryOf(schedule)) && Linearizes(order, HistoryOf(schedule).ended)
    ensures forall p :: 0 <= p < |order| ==> order[p] < |Run(START, schedule).log|
    ensures forall v :: ValuePending(Run(START, schedule), HistoryOf(schedule), order, v)
    decreases |schedule|
  {
    if schedule == [] {
      order := [];
      forall v ensures ValuePending(START, History(map[], []), order, v) {
        assert InOrder([], order) == [];
        assert Writers(START, History(map[], []), v) == {} && TraceOf(START, v).places == iset{};
      }
    } else {
      hide Act, BucketsInv, ValuePending, Dated, Linearizes, NextHistory, ValueInv, Welcome;
      var init, last := schedule[..|schedule| - 1], schedule[|schedule| - 1];
      var s, h := Run(START, init), HistoryOf(init);
      order := RunPending(init);
      RunKeepsBuckets(init);
      forall v ensures ValueInv(SameScore, s, v) { TolerantKeepsValues(SameScore, init, v); }
      if Step(s, last).To? {
        DatedNext(s, h, last);
        match last {
          case Begin(t, op) =>
            BeginsNothing(s, h, t, op);
            forall v ensures ValuePending(Step(s, last).state, NextHistory(s, h, last), order, v) {
              BeginsPendingAll(s, h, order, t, op, v);
            }
          case Advance(t) => order := AdvancePending(s, h, order, t);
        }
      } else {
        BlockedHistory(s, h, last);
      }
    }
  }

  lemma BeginsNothing(s: State, h: History, t: Thread, op: ZOp)
    requires t !in s.threads
    ensures NextHistory(s, h, Begin(t, op)).ended == h.ended && Step(s, Begin(t, op)).state.log == s.log
  {}

  lemma BlockedHistory(s: State, h: History, c: Choice)
    requires Step(s, c).Blocked?
    ensures NextHistory(s, h, c) == h
  {}

  lemma AdvancePending(s: State, h: History, order: seq<nat>, t: Thread) returns (order': seq<nat>)
    requires BucketsInv(s) && Dated(s, h) && Linearizes(order, h.ended)
    requires forall v :: ValuePending(s, h, order, v) && ValueInv(SameScore, s, v)
    requires t in s.threads && Act(s, t).To?
    ensures var s', h' := Act(s, t).state, NextHistory(s, h, Advance(t));
            && Linearizes(order', h'.ended) && (forall p :: 0 <= p < |order'| ==> order'[p] < |s'.log|)
            && forall v :: ValuePending(s', h', order', v)
  {
    hide Act, BucketsInv, Linearizes, NextHistory, ValueInv, Pending;
    var s', h' := Act(s, t).state, NextHistory(s, h, Advance(t));
    LinearizesBounds(order, h.ended);
    if t in s'.threads {
      order' := order;
      SameDates(s, h, t);
      AdvanceLogs(s, t);
      forall v ensures ValuePending(s', h', order, v) { ContinuesPending(s, h, order, t, v); }
    } else {
      order' := EndsPending(s, h, order, t);
      LinearizesBounds(order', h'.ended);
    }
  }

  // Exactly additions of one score ---------------------------------------------------------------------------

  /** The buckets hold what the operations leave in some order that keeps those which did not overlap in order. */
  ghost predicate Linearizable(schedule: seq<Choice>) {
    exists order :: LinearizableBy(Run(START, schedule), HistoryOf(schedule), order)
  }

  ghost predicate LinearizableBy(s: State, h: History, order: seq<nat>) {
    && Linearizes(order, h.ended) && |h.ended| == |s.log|
    && forall v, k: u32 ::
         v in ValuesAt(s.buckets, k) <==> Lookup(Contents(InOrder(s.log, order)), v) == Some(k)
  }

  /** If overlapping additions of one value have one score, the set is linearizable whenever no operation is under way. */
  lemma QuiescentMeansLinearizable(schedule: seq<Choice>)
    requires Tolerant(SameScore, schedule) && Run(START, schedule).threads == map[]
    ensures Linearizable(schedule)
  {
    hide Run, HistoryOf, Tolerant, Linearizes, Contents, ValuesAt, InOrder;
    var order := RunPending(schedule);
    var s, h := Run(START, schedule), HistoryOf(schedule);
    forall v, k: u32 ensures v in ValuesAt(s.buckets, k) <==> Lookup(Contents(InOrder(s.log, order)), v) == Some(k) {
      assert ValuePending(s, h, order, v);
      assert Writers(s, h, v) == {};
      assert k in TraceOf(s, v).places <==> v in ValuesAt(s.buckets, k);
    }
    assert LinearizableBy(s, h, order);
  }

  lemma TwoBucketsNotLinearizable(schedule: seq<Choice>)
    requires !EachOnce(Run(START, schedule))
    ensures !Linearizable(schedule)
  {
    hide Run, HistoryOf, Linearizes, Contents, ValuesAt, InOrder;
    var s := Run(START, schedule);
    var v, j: u32, k: u32 :| v in ValuesAt(s.buckets, j) && v in ValuesAt(s.buckets, k) && j != k;
    forall order ensures !LinearizableBy(s, HistoryOf(schedule), order) {
      NoOrderLeavesTwo(s, HistoryOf(schedule), order, v, j, k);
    }
  }

  lemma NoOrderLeavesTwo(s: State, h: History, order: seq<nat>, v: Text, j: u32, k: u32)
    requires v in ValuesAt(s.buckets, j) && v in ValuesAt(s.buckets, k) && j != k
    ensures !LinearizableBy(s, h, order)
  {
    hide Contents, ValuesAt, Linearizes, InOrder;
    if Linearizes(order, h.ended) && |h.ended| == |s.log| {
      LinearizesBounds(order, h.ended);
      var left := Lookup(Contents(InOrder(s.log, order)), v);
      var i := if left == Some(j) then k else j;
      assert v in ValuesAt(s.buckets, i) && left != Some(i);
    }
  }

  /**
   The exact condition. Whatever is scheduled of a set of operations is linearizable at rest if and only if
   the set has no two additions of one value with different scores.
   */
  lemma LinearizableExactly(ops: set<ZOp>)
    ensures (forall schedule :: OnlyBegins(schedule, ops) && Run(START, schedule).threads == map[] ==> Linearizable(schedule))
            <==> forall a, b :: a in ops && b in ops ==> Compatible(SameScore, a, b)
  {
    hide Compatible, Linearizable, EachOnce, Run, Begun;
    if a, b :| a in ops && b in ops && !Compatible(SameScore, a, b) {
      var schedule := DifferentScoresFail(a, b);
      TwoBucketsNotLinearizable(schedule);
      assert OnlyBegins(schedule, ops);
    } else {
      forall schedule | OnlyBegins(schedule, ops) && Run(START, schedule).threads == map[] ensures Linearizable(schedule) {
        CompatibleIsTolerant(SameScore, schedule, ops);
        QuiescentMeansLinearizable(schedule);
      }
    }
  }
}
