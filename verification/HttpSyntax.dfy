/**
 The message parser as functions on a whole byte sequence. Every function answers one of three
 things: done, with what was read; bad, which is final; or more, when the input ends too early.
 The C parser is proved against these functions, and what is promised about parsing is proved here
 and in the modules that follow.
 */
module HttpSyntax {
  import opened Bytes

  datatype Parse<+T> = Done(value: T) | Bad | More
  {
    predicate IsFailure() {
      !Done?
    }

    function PropagateFailure<U>(): Parse<U>
      requires IsFailure()
    {
      if Bad? then Bad else More
    }

    function Extract(): T
      requires Done?
    {
      value
    }
  }

  // Bytes ------------------------------------------------------------------------------------------

  predicate IsDigit(b: byte) {
    '0' as int <= b <= '9' as int
  }

  predicate IsAlpha(b: byte) {
    'A' as int <= b <= 'Z' as int || 'a' as int <= b <= 'z' as int
  }

  /** `tchar` of section 3.2.6 of RFC 7230. */
  predicate IsTchar(b: byte) {
    IsDigit(b) || IsAlpha(b) || IsTokenMark(b)
  }

  predicate IsTokenMark(b: byte) {
    || b == '!' as int || b == '#' as int || b == '$' as int || b == '%' as int || b == '&' as int
    || b == '\'' as int || b == '*' as int || b == '+' as int || b == '-' as int || b == '.' as int
    || b == '^' as int || b == '_' as int || b == '`' as int || b == '|' as int || b == '~' as int
  }

  predicate IsControl(b: byte) {
    b < SP || b == DEL
  }

  predicate IsBlank(b: byte) {
    b == SP || b == HT
  }

  // Scanning ---------------------------------------------------------------------------------------

  /** What a scan runs over, and where it stops. */
  datatype Kind = Token(stop: byte) | PathText | Spaces | Blanks | LineText
  datatype Class = Pass | Stop | Fail

  function Classify(k: Kind, b: byte): Class {
    match k
    case Token(stop) => if b == stop then Stop else if IsTchar(b) then Pass else Fail
    case PathText => if b == SP then Stop else if IsControl(b) then Fail else Pass
    case Spaces => if b == SP then Pass else Stop
    case Blanks => if IsBlank(b) then Pass else Stop
    case LineText => if IsControl(b) && b != HT then Stop else Pass
  }

  /** The byte loop every scan is meant to be: the position of the first byte that stops it. */
  function Find(k: Kind, s: seq<byte>, i: nat): (r: Parse<nat>)
    requires i <= |s|
    ensures r.Done? ==> i <= r.value < |s| && Classify(k, s[r.value]) == Stop
    decreases |s| - i
  {
    if i == |s| then More
    else
      match Classify(k, s[i])
      case Stop => Done(i)
      case Fail => Bad
      case Pass => Find(k, s, i + 1)
  }

  ghost predicate Passes(k: Kind, s: seq<byte>, i: nat, j: nat)
    requires i <= j <= |s|
  {
    forall m :: i <= m < j ==> Classify(k, s[m]) == Pass
  }

  /** A scan may skip any bytes it would have passed over. */
  lemma {:induction false} FindSkips(k: Kind, s: seq<byte>, i: nat, j: nat)
    requires i <= j <= |s| && Passes(k, s, i, j)
    ensures Find(k, s, i) == Find(k, s, j)
    decreases j - i
  {
    if i < j {
      assert Classify(k, s[i]) == Pass;
      FindSkips(k, s, i + 1, j);
    }
  }

  lemma {:induction false} FindPasses(k: Kind, s: seq<byte>, i: nat)
    requires i <= |s| && !Find(k, s, i).Bad?
    ensures Passes(k, s, i, if Find(k, s, i).Done? then Find(k, s, i).value else |s|)
    decreases |s| - i
  {
    if i < |s| && Classify(k, s[i]) == Pass {
      FindPasses(k, s, i + 1);
    }
  }

  // Pieces of a message ------------------------------------------------------------------------------

  /** Bytes `start` up to but not including `end` of the buffer. */
  datatype Slice = Slice(start: nat, end: nat)

  /** A continuation line of a header has no name. */
  datatype Header = Header(name: Slice, value: Slice) | Continuation(value: Slice)

  function LineBreak(s: seq<byte>, i: nat): (r: Parse<nat>)
    requires i <= |s|
    ensures r.Done? ==> i < r.value <= |s| && s[r.value - 1] == LF
  {
    if i == |s| then More
    else if s[i] == CR then
      if i + 1 == |s| then More else if s[i + 1] == LF then Done(i + 2) else Bad
    else if s[i] == LF then Done(i + 1)
    else Bad
  }

  /** The text up to the end of the line, and where the next line begins. */
  function ToEol(s: seq<byte>, i: nat): (r: Parse<(Slice, nat)>)
    requires i <= |s|
    ensures r.Done? ==> r.value.0.start == i <= r.value.0.end < r.value.1 <= |s|
    ensures r.Done? ==> s[r.value.0.end] != SP
  {
    var e :- Find(LineText, s, i);
    var next :- LineBreak(s, e);
    Done((Slice(i, e), next))
  }

  function TrimRight(s: seq<byte>, a: nat, b: nat): (e: nat)
    requires a <= b <= |s|
    ensures a <= e <= b
    ensures forall m :: e <= m < b ==> IsBlank(s[m])
    ensures a < e ==> !IsBlank(s[e - 1])
  {
    if a < b && IsBlank(s[b - 1]) then TrimRight(s, a, b - 1) else b
  }

  function ParseHeader(s: seq<byte>, i: nat, first: bool): (r: Parse<(Header, nat)>)
    requires i < |s|
    ensures r.Done? ==> i < r.value.1 <= |s|
  {
    if !first && IsBlank(s[i]) then
      var (line, next) :- ToEol(s, i);
      Done((Continuation(Slice(i, TrimRight(s, i, line.end))), next))
    else
      var colon :- Find(Token(COLON), s, i);
      if colon == i then Bad
      else
        var v :- Find(Blanks, s, colon + 1);
        var (line, next) :- ToEol(s, v);
        Done((Header(Slice(i, colon), Slice(v, TrimRight(s, v, line.end))), next))
  }

  function ParseHeaders(s: seq<byte>, i: nat, max: nat, acc: seq<Header>): (r: Parse<(seq<Header>, nat)>)
    requires i <= |s|
    ensures r.Done? ==> i < r.value.1 <= |s|
    decreases |s| - i
  {
    if i == |s| then More
    else if s[i] == CR || s[i] == LF then
      var next :- LineBreak(s, i);
      Done((acc, next))
    else if |acc| == max then Bad
    else
      var (h, next) :- ParseHeader(s, i, acc == []);
      ParseHeaders(s, next, max, acc + [h])
  }

  const HTTP_1: seq<byte> := ['H' as int, 'T' as int, 'T' as int, 'P' as int, '/' as int, '1' as int, '.' as int]

  /** The minor version. Nothing is decided before there is a byte after it. */
  function ParseVersion(s: seq<byte>, i: nat): (r: Parse<nat>)
    requires i <= |s|
    ensures r.Done? ==> i + 9 <= |s| && r.value <= 9
  {
    if |s| - i < 9 then More
    else if s[i..i + 7] == HTTP_1 && IsDigit(s[i + 7]) then Done(s[i + 7] - '0' as int)
    else Bad
  }

  // Messages -----------------------------------------------------------------------------------------

  datatype Request = Request(verb: Slice, path: Slice, minor: nat, headers: seq<Header>)
  datatype Response = Response(minor: nat, status: nat, msg: Slice, headers: seq<Header>)

  /** Clients may send an empty line in front of a request. */
  function SkipEmptyLine(s: seq<byte>): (r: Parse<nat>)
    ensures r.Done? ==> r.value <= |s|
  {
    if s == [] then More
    else if s[0] == CR || s[0] == LF then LineBreak(s, 0)
    else Done(0)
  }

  /** Method and path; spaces separate them from each other and from the version. */
  function ParseTarget(s: seq<byte>, i: nat): (r: Parse<(Slice, Slice, nat)>)
    requires i <= |s|
    ensures r.Done? ==> r.value.2 < |s|
  {
    var verbEnd :- Find(Token(SP), s, i);
    var p :- Find(Spaces, s, verbEnd + 1);
    var pEnd :- Find(PathText, s, p);
    var v :- Find(Spaces, s, pEnd + 1);
    if verbEnd == i || pEnd == p then Bad else Done((Slice(i, verbEnd), Slice(p, pEnd), v))
  }

  function ParseRequestLine(s: seq<byte>): (r: Parse<(Slice, Slice, nat, nat)>)
    ensures r.Done? ==> r.value.3 <= |s|
  {
    var i :- SkipEmptyLine(s);
    var (verb, path, v) :- ParseTarget(s, i);
    var minor :- ParseVersion(s, v);
    var next :- LineBreak(s, v + 8);
    Done((verb, path, minor, next))
  }

  function ParseRequest(s: seq<byte>, max: nat): (r: Parse<(Request, nat)>)
    ensures r.Done? ==> 0 < r.value.1 <= |s|
  {
    var (verb, path, minor, i) :- ParseRequestLine(s);
    var (headers, next) :- ParseHeaders(s, i, max, []);
    Done((Request(verb, path, minor, headers), next))
  }

  function ParseStatus(s: seq<byte>, i: nat): (r: Parse<nat>)
    requires i <= |s|
    ensures r.Done? ==> i + 4 <= |s| && r.value <= 999
  {
    if |s| - i < 4 then More
    else if IsDigit(s[i]) && IsDigit(s[i + 1]) && IsDigit(s[i + 2]) then
      Done(100 * (s[i] - '0' as int) + 10 * (s[i + 1] - '0' as int) + (s[i + 2] - '0' as int))
    else Bad
  }

  /** The reason phrase without the spaces in front of it. */
  function ParseReason(s: seq<byte>, i: nat): (r: Parse<(Slice, nat)>)
    requires i <= |s|
    ensures r.Done? ==> i <= r.value.0.start <= r.value.0.end < r.value.1 <= |s|
  {
    var (line, next) :- ToEol(s, i);
    if line.end == i then Done((line, next))
    else if s[i] != SP then Bad
    else
      SpacesEnd(s, i, line.end);
      Done((Slice(Find(Spaces, s, i).value, line.end), next))
  }

  /** Stripping spaces never runs past the end of the text: what stops the line is no space. */
  lemma {:induction false} SpacesEnd(s: seq<byte>, i: nat, end: nat)
    requires i <= end < |s| && s[end] != SP
    ensures Find(Spaces, s, i).Done? && i <= Find(Spaces, s, i).value <= end
    decreases end - i
  {
    if s[i] == SP { SpacesEnd(s, i + 1, end); }
  }

  function ParseStatusLine(s: seq<byte>): (r: Parse<(nat, nat, Slice, nat)>)
    ensures r.Done? ==> r.value.3 <= |s|
  {
    var minor :- ParseVersion(s, 0);
    if s[8] != SP then Bad
    else
      var i :- Find(Spaces, s, 9);
      var status :- ParseStatus(s, i);
      var (msg, next) :- ParseReason(s, i + 3);
      Done((minor, status, msg, next))
  }

  function ParseResponse(s: seq<byte>, max: nat): (r: Parse<(Response, nat)>)
    ensures r.Done? ==> 0 < r.value.1 <= |s|
  {
    var (minor, status, msg, i) :- ParseStatusLine(s);
    var (headers, next) :- ParseHeaders(s, i, max, []);
    Done((Response(minor, status, msg, headers), next))
  }
}
