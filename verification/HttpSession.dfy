/**
 The loop of a server that receives a request in pieces: each time something arrives it parses all it has,
 until the parser does not answer -2. It may pass on the length of what it had before, or always 0.
 */
module HttpSession {
  import opened Bytes
  import opened HttpSyntax
  import opened HttpFinality
  import opened HttpComplete
  import opened HttpParser

  function LengthsOf(parts: seq<seq<byte>>): seq<nat> {
    seq(|parts|, i requires 0 <= i < |parts| => |Concat(parts[..i + 1])|)
  }

  lemma {:induction false} TakeIsPrefix(parts: seq<seq<byte>>, i: nat, n: nat)
    requires i <= n <= |parts|
    ensures Concat(parts[..i]) <= Concat(parts[..n])
    decreases n - i
  {
    if i < n {
      TakeIsPrefix(parts, i, n - 1);
      ConcatTake(parts, n - 1);
    }
  }

  lemma LengthsGrow(parts: seq<seq<byte>>)
    ensures Growing(Concat(parts), LengthsOf(parts))
    ensures forall i :: 0 <= i < |parts| ==>
                          LengthsOf(parts)[i] <= |Concat(parts)| && Concat(parts)[..LengthsOf(parts)[i]] == Concat(parts[..i + 1])
  {
    var s, lens := Concat(parts), LengthsOf(parts);
    assert parts[..|parts|] == parts;
    forall i | 0 <= i < |parts| ensures lens[i] <= |s| && s[..lens[i]] == Concat(parts[..i + 1]) {
      TakeIsPrefix(parts, i + 1, |parts|);
    }
    forall i, j | 0 <= i < j < |lens| ensures lens[i] <= lens[j] {
      TakeIsPrefix(parts, i + 1, j + 1);
    }
  }

  /** What the parser says of the first `n` reads. */
  function Parsed(parts: seq<seq<byte>>, n: nat, max: nat): Parse<(Request, nat)>
    requires n <= |parts|
  {
    ParseRequest(Concat(parts[..n]), max)
  }

  /** None of the first `n` reads was answered, and none of them completed the request. */
  ghost predicate StillOpen(parts: seq<seq<byte>>, n: nat, max: nat, useLast: bool)
    requires n <= |parts|
  {
    && (forall i :: 0 < i <= n ==> !Parsed(parts, i, max).Done?)
    && (useLast ==> Growing(Concat(parts), LengthsOf(parts)) &&
                    AllIncomplete(s => ParseRequest(s, max), Concat(parts), LengthsOf(parts), n))
  }

  function LastOf(parts: seq<seq<byte>>, n: nat, useLast: bool): nat
    requires n < |parts|
  {
    if useLast then |Concat(parts[..n])| else 0
  }

  /** The answer after one more read. */
  lemma OneRead(parts: seq<seq<byte>>, n: nat, max: nat, useLast: bool)
    requires n < |parts| && StillOpen(parts, n, max, useLast)
    ensures LastOf(parts, n, useLast) <= |Concat(parts[..n + 1])|
    ensures var r := RequestCall(Concat(parts[..n + 1]), max, LastOf(parts, n, useLast));
            match r
            case Done(_) => r == Parsed(parts, n + 1, max)
            case Bad => forall t :: Concat(parts[..n + 1]) <= t ==> !ParseRequest(t, max).Done?
            case More => StillOpen(parts, n + 1, max, useLast)
  {
    hide ParseRequest, Complete;
    var s, lens, now := Concat(parts), LengthsOf(parts), Concat(parts[..n + 1]);
    var parse := s => ParseRequest(s, max);
    var last := LastOf(parts, n, useLast);
    LengthsGrow(parts);
    TakeIsPrefix(parts, n, n + 1);
    var r := RequestCall(now, max, last);
    if useLast {
      RequestsDecide(max);
      assert LastLen(lens, n) == last by { if n == 0 { assert parts[..0] == []; } }
      assert r == SessionCall(parse, s, lens, n);
      SessionNeverMisses(parse, s, lens, n);
      forall t | r.Bad? && now <= t ensures !ParseRequest(t, max).Done? { SessionRejectsForGood(parse, s, lens, n, t); }
    } else {
      forall t | r.Bad? && now <= t ensures !ParseRequest(t, max).Done? { RequestVerdictIsFinal(now, t, max); }
    }
  }

  /**
   Feeds the reads one after the other. It returns how many were fed. A positive answer is the request at
   the first read that completes it; -1 means that nothing that continues what was fed would be accepted;
   -2 means that all was fed and no read completed a request.
   */
  method ReadRequest(simd: bool, parts: seq<seq<byte>>, max: nat, useLast: bool)
    returns (ret: int, fed: nat, verb: Slice, path: Slice, minor: int, headers: seq<Header>)
    requires |Concat(parts)| < INT_LIMIT
    ensures fed <= |parts|
    ensures ret == -1 || ret == -2 || 0 < ret <= |Concat(parts[..fed])|
    ensures ret > 0 ==> fed > 0 && minor >= 0 && Parsed(parts, fed, max) == Done((Request(verb, path, minor, headers), ret))
    ensures ret == -1 ==> forall t :: Concat(parts[..fed]) <= t ==> !ParseRequest(t, max).Done?
    ensures ret == -2 ==> fed == |parts| && !ParseRequest(Concat(parts), max).Done?
    ensures forall i :: 0 < i < fed ==> !Parsed(parts, i, max).Done?
  {
    hide ParseRequest, Complete, StillOpen, RequestCall;
    ret, fed, verb, path, minor, headers := -2, 0, Slice(0, 0), Slice(0, 0), -1, [];
    var data, lastLen := [], 0;
    assert parts[..0] == [] && parts[..|parts|] == parts;
    NothingRead(parts, max, useLast);
    while fed < |parts|
      invariant fed <= |parts| && ret == -2 && data == Concat(parts[..fed])
      invariant lastLen == if useLast then |data| else 0
      invariant StillOpen(parts, fed, max, useLast)
    {
      OneRead(parts, fed, max, useLast);
      ConcatTake(parts, fed);
      TakeIsPrefix(parts, fed + 1, |parts|);
      OpenMeansNotDone(parts, fed, max, useLast);
      data := data + parts[fed];
      var buf := new byte[|data|](i requires 0 <= i < |data| => data[i]);
      assert buf[..|data|] == data;
      var table, num := new Header[max], 0;
      ret, verb, path, minor, num := PhrParseRequest(simd, buf, |data|, table, max, lastLen);
      headers := table[..num];
      fed := fed + 1;
      if ret != -2 {
        RequestConsumes(data, max);
        return;
      }
      lastLen := if useLast then |data| else 0;
    }
    OpenMeansNotDone(parts, fed, max, useLast);
    EmptyIsOpen(max);
    assert parts == [] ==> Concat(parts) == [];
    assert Parsed(parts, |parts|, max) == ParseRequest(Concat(parts), max);
  }

  lemma NothingRead(parts: seq<seq<byte>>, max: nat, useLast: bool)
    ensures StillOpen(parts, 0, max, useLast)
  {
    LengthsGrow(parts);
  }

  lemma OpenMeansNotDone(parts: seq<seq<byte>>, n: nat, max: nat, useLast: bool)
    requires n <= |parts| && StillOpen(parts, n, max, useLast)
    ensures forall i :: 0 < i <= n ==> !Parsed(parts, i, max).Done?
  {}

  lemma RequestConsumes(s: seq<byte>, max: nat)
    ensures ParseRequest(s, max).Done? ==> 0 < ParseRequest(s, max).value.1 <= |s|
  {}

  lemma EmptyIsOpen(max: nat)
    ensures ParseRequest([], max).More?
  {}
}
