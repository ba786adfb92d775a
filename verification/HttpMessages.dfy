/** Whole requests, responses and header blocks: what is accepted is exactly what can be written. */
module HttpMessages {
  import opened Bytes
  import opened HttpSyntax
  import opened HttpGrammar

  /** `lead` is the empty line a client may send first; `sp1` and `sp2` count the spaces of the request line. */
  datatype RequestText = RequestText(
    lead: seq<Break>, verb: seq<byte>, sp1: nat, path: seq<byte>, sp2: nat, minor: nat, end: Break,
    headers: seq<HeaderText>, blank: Break)

  /** `gap` counts the spaces between the status code and the reason phrase. */
  datatype ResponseText = ResponseText(
    minor: nat, sp: nat, status: nat, gap: nat, msg: seq<byte>, end: Break, headers: seq<HeaderText>, blank: Break)

  ghost predicate ValidRequestText(x: RequestText) {
    && |x.lead| <= 1
    && x.verb != [] && All(Token(SP), x.verb)
    && x.sp1 > 0 && x.sp2 > 0
    && x.path != [] && All(PathText, x.path)
    && x.minor <= 9
    && ValidHeaders(x.headers, true)
  }

  ghost predicate ValidResponseText(x: ResponseText) {
    && x.minor <= 9 && x.sp > 0 && x.status <= 999
    && All(LineText, x.msg) && (x.msg != [] ==> x.gap > 0 && x.msg[0] != SP)
    && ValidHeaders(x.headers, true)
  }

  function Spaced(n: nat): seq<byte> {
    Repeat(SP, n)
  }

  function LeadText(lead: seq<Break>): seq<byte> {
    if lead == [] then [] else BreakText(lead[0])
  }

  function TargetText(x: RequestText): seq<byte> {
    x.verb + (Spaced(x.sp1) + (x.path + Spaced(x.sp2)))
  }

  function VersionText(minor: nat): seq<byte>
    requires minor <= 9
  {
    HTTP_1 + ['0' as int + minor]
  }

  function StatusText(n: nat): seq<byte>
    requires n <= 999
  {
    ['0' as int + n / 100, '0' as int + n / 10 % 10, '0' as int + n % 10]
  }

  function BlockText(headers: seq<HeaderText>, blank: Break): seq<byte> {
    PrintHeaders(headers) + BreakText(blank)
  }

  function RequestLineText(x: RequestText): seq<byte>
    requires x.minor <= 9
  {
    LeadText(x.lead) + (TargetText(x) + (VersionText(x.minor) + BreakText(x.end)))
  }

  function PrintRequest(x: RequestText): seq<byte>
    requires x.minor <= 9
  {
    RequestLineText(x) + BlockText(x.headers, x.blank)
  }

  function ReasonText(x: ResponseText): seq<byte> {
    (Spaced(x.gap) + x.msg) + BreakText(x.end)
  }

  function StatusLineText(x: ResponseText): seq<byte>
    requires x.minor <= 9 && x.status <= 999
  {
    VersionText(x.minor) + (Spaced(x.sp) + (StatusText(x.status) + ReasonText(x)))
  }

  function PrintResponse(x: ResponseText): seq<byte>
    requires x.minor <= 9 && x.status <= 999
  {
    StatusLineText(x) + BlockText(x.headers, x.blank)
  }

  /** Where the fields of a printed request lie. */
  function LocateRequest(x: RequestText): Request
    requires x.minor <= 9
  {
    var v := |LeadText(x.lead)|;
    var p := v + |x.verb| + x.sp1;
    Request(Slice(v, v + |x.verb|), Slice(p, p + |x.path|), x.minor, LocateHeaders(x.headers, |RequestLineText(x)|))
  }

  function LocateResponse(x: ResponseText): Response
    requires x.minor <= 9 && x.status <= 999
  {
    var m := 8 + x.sp + 3 + x.gap;
    Response(x.minor, x.status, Slice(m, m + |x.msg|), LocateHeaders(x.headers, |StatusLineText(x)|))
  }

  // Pieces -------------------------------------------------------------------------------------------

  lemma SpacesPass(n: nat)
    ensures All(Spaces, Spaced(n)) && All(LineText, Spaced(n))
  {}

  lemma SpacesOnly(p: seq<byte>)
    requires All(Spaces, p)
    ensures p == Spaced(|p|)
  {
    assert forall i :: 0 <= i < |p| ==> Classify(Spaces, p[i]) == Pass;
  }

  /** At least one space: the first is where a token stopped, the others are skipped. */
  lemma SpacesAt(s: seq<byte>, i: nat, n: nat)
    requires n > 0 && At(s, i, Spaced(n)) && i + n < |s| && s[i + n] != SP
    ensures s[i] == SP && Find(Spaces, s, i + 1) == Done(i + n) && Find(Spaces, s, i) == Done(i + n)
  {
    hide Find, At, All;
    AtByte(s, i, Spaced(n), 0);
    assert Spaced(n) == [SP] + Spaced(n - 1);
    AtSplit(s, i, [SP], Spaced(n - 1));
    SpacesPass(n);
    SpacesPass(n - 1);
    FindAt(Spaces, s, i + 1, Spaced(n - 1));
    FindAt(Spaces, s, i, Spaced(n));
  }

  lemma TextOfSpaces(s: seq<byte>, i: nat) returns (n: nat)
    requires i < |s| && s[i] == SP && Find(Spaces, s, i + 1).Done?
    ensures n > 0 && At(s, i, Spaced(n)) && Find(Spaces, s, i + 1).value == i + n
  {
    hide Find;
    var p := TextOfFind(Spaces, s, i + 1);
    SpacesOnly(p);
    n := 1 + |p|;
    assert Spaced(n) == [SP] + p;
  }

  lemma TargetAt(s: seq<byte>, i: nat, x: RequestText)
    requires ValidRequestText(x) && At(s, i, TargetText(x))
    requires var v := i + |TargetText(x)|; v < |s| && s[v] != SP
    ensures i < |s| && s[i] == x.verb[0]
    ensures var p := i + |x.verb| + x.sp1;
            ParseTarget(s, i) == Done((Slice(i, i + |x.verb|), Slice(p, p + |x.path|), i + |TargetText(x)|))
  {
    hide Find, At, All, ValidHeaders;
    var verbEnd := i + |x.verb|;
    var p := verbEnd + x.sp1;
    var pEnd := p + |x.path|;
    AtSplit(s, i, x.verb, Spaced(x.sp1) + (x.path + Spaced(x.sp2)));
    AtSplit(s, verbEnd, Spaced(x.sp1), x.path + Spaced(x.sp2));
    AtSplit(s, p, x.path, Spaced(x.sp2));
    AtByte(s, i, x.verb, 0);
    AtByte(s, p, x.path, 0);
    PathStart(x.path);
    SpacesAt(s, verbEnd, x.sp1);
    SpacesAt(s, pEnd, x.sp2);
    FindAt(Token(SP), s, i, x.verb);
    FindAt(PathText, s, p, x.path);
  }

  lemma PathStart(path: seq<byte>)
    requires path != [] && All(PathText, path)
    ensures path[0] != SP
  {
    assert Classify(PathText, path[0]) == Pass;
  }

  lemma TextOfTarget(s: seq<byte>, i: nat) returns (verb: seq<byte>, sp1: nat, path: seq<byte>, sp2: nat)
    requires i <= |s| && ParseTarget(s, i).Done?
    ensures verb != [] && All(Token(SP), verb) && sp1 > 0 && path != [] && All(PathText, path) && sp2 > 0
    ensures At(s, i, verb + (Spaced(sp1) + (path + Spaced(sp2))))
    ensures ParseTarget(s, i).value.2 == i + |verb + (Spaced(sp1) + (path + Spaced(sp2)))|
  {
    hide Find, At, All;
    verb := TextOfFind(Token(SP), s, i);
    StopAt(Token(SP), s, i);
    var verbEnd := i + |verb|;
    sp1 := TextOfSpaces(s, verbEnd);
    path := TextOfFind(PathText, s, verbEnd + sp1);
    StopAt(PathText, s, verbEnd + sp1);
    var pEnd := verbEnd + sp1 + |path|;
    sp2 := TextOfSpaces(s, pEnd);
    AtSplit(s, verbEnd + sp1, path, Spaced(sp2));
    AtSplit(s, verbEnd, Spaced(sp1), path + Spaced(sp2));
    AtSplit(s, i, verb, Spaced(sp1) + (path + Spaced(sp2)));
  }

  lemma VersionAt(s: seq<byte>, i: nat, minor: nat)
    requires minor <= 9 && At(s, i, VersionText(minor)) && i + 8 < |s|
    ensures ParseVersion(s, i) == Done(minor) && s[i] != SP
  {
    AtSplit(s, i, HTTP_1, ['0' as int + minor]);
    AtByte(s, i, HTTP_1, 0);
    AtByte(s, i + 7, ['0' as int + minor], 0);
  }

  lemma TextOfVersion(s: seq<byte>, i: nat)
    requires i <= |s| && ParseVersion(s, i).Done?
    ensures At(s, i, VersionText(ParseVersion(s, i).value))
  {
    var minor := ParseVersion(s, i).value;
    assert At(s, i, HTTP_1) && At(s, i + 7, ['0' as int + minor]);
    AtSplit(s, i, HTTP_1, ['0' as int + minor]);
  }

  // Requests -------------------------------------------------------------------------------------------

  lemma LeadAt(s: seq<byte>, lead: seq<Break>)
    requires |lead| <= 1 && At(s, 0, LeadText(lead))
    requires |LeadText(lead)| < |s| && IsTchar(s[|LeadText(lead)|])
    ensures SkipEmptyLine(s) == Done(|LeadText(lead)|)
  {
    hide IsTchar;
    TcharsAreNoBlanks(s[|LeadText(lead)|]);
    if lead != [] { BreakAt(s, 0, lead[0]); }
  }

  lemma TextOfLead(s: seq<byte>) returns (lead: seq<Break>)
    requires SkipEmptyLine(s).Done?
    ensures |lead| <= 1 && At(s, 0, LeadText(lead)) && SkipEmptyLine(s).value == |LeadText(lead)|
  {
    if s[0] == CR || s[0] == LF {
      var b := TextOfBreak(s, 0);
      lead := [b];
    } else {
      lead := [];
    }
  }

  lemma RequestLineAt(s: seq<byte>, x: RequestText)
    requires ValidRequestText(x) && At(s, 0, RequestLineText(x))
    ensures ParseRequestLine(s) ==
            Done((LocateRequest(x).verb, LocateRequest(x).path, x.minor, |RequestLineText(x)|))
  {
    hide Find, At, All, ValidHeaders, IsTchar, TargetText, VersionText, LeadText, ParseTarget, SkipEmptyLine, ParseVersion, LineBreak;
    var i := |LeadText(x.lead)|;
    var v := i + |TargetText(x)|;
    var rest := VersionText(x.minor) + BreakText(x.end);
    AtSplit(s, 0, LeadText(x.lead), TargetText(x) + rest);
    AtSplit(s, i, TargetText(x), rest);
    AtSplit(s, v, VersionText(x.minor), BreakText(x.end));
    VersionLength(x.minor);
    BreakAt(s, v + 8, x.end);
    VersionAt(s, v, x.minor);
    TargetAt(s, i, x);
    AllVerb(x.verb);
    LeadAt(s, x.lead);
  }

  lemma VersionLength(minor: nat)
    requires minor <= 9
    ensures |VersionText(minor)| == 8
  {}

  lemma AllVerb(verb: seq<byte>)
    requires verb != [] && All(Token(SP), verb)
    ensures IsTchar(verb[0])
  {
    assert Classify(Token(SP), verb[0]) == Pass;
  }

  lemma TextOfRequestLine(s: seq<byte>) returns (x: RequestText)
    requires ParseRequestLine(s).Done?
    ensures x.headers == [] && x.blank == Lf && ValidRequestText(x) && At(s, 0, RequestLineText(x))
    ensures ParseRequestLine(s).value.3 == |RequestLineText(x)|
  {
    hide Find, At, All, IsTchar, TargetText, VersionText, LeadText, ParseTarget, SkipEmptyLine, ParseVersion, LineBreak;
    var lead := TextOfLead(s);
    var i := |LeadText(lead)|;
    var verb, sp1, path, sp2 := TextOfTarget(s, i);
    var v := ParseTarget(s, i).value.2;
    TextOfVersion(s, v);
    var minor := ParseVersion(s, v).value;
    VersionLength(minor);
    var end := TextOfBreak(s, v + 8);
    x := RequestText(lead, verb, sp1, path, sp2, minor, end, [], Lf);
    TargetOf(x);
    AtSplit(s, v, VersionText(minor), BreakText(end));
    AtSplit(s, i, TargetText(x), VersionText(minor) + BreakText(end));
    AtSplit(s, 0, LeadText(lead), TargetText(x) + (VersionText(minor) + BreakText(end)));
  }

  lemma TargetOf(x: RequestText)
    ensures TargetText(x) == x.verb + (Spaced(x.sp1) + (x.path + Spaced(x.sp2)))
  {}

  /** Parsing is a left inverse of printing, whatever bytes follow. */
  lemma ParsesPrintedRequest(s: seq<byte>, x: RequestText, max: nat)
    requires ValidRequestText(x) && At(s, 0, PrintRequest(x))
    ensures ParseRequest(s, max) ==
            if |x.headers| <= max then Done((LocateRequest(x), |PrintRequest(x)|)) else Bad
  {
    hide At, ParseRequestLine, RequestLineText, PrintHeaders, LocateHeaders, ValidHeaders, All, ParseHeaders;
    var i := |RequestLineText(x)|;
    AtSplit(s, 0, RequestLineText(x), BlockText(x.headers, x.blank));
    RequestLineAt(s, x);
    if |x.headers| <= max {
      HeadersAt(s, i, x.headers, x.blank, max, []);
      NothingBefore(LocateHeaders(x.headers, i));
    } else {
      AtSplit(s, i, PrintHeaders(x.headers), BreakText(x.blank));
      TooManyHeaders(s, i, x.headers, max, []);
    }
  }

  lemma NothingBefore<T>(p: seq<T>)
    ensures [] + p == p
  {}

  lemma TextOfRequest(s: seq<byte>, max: nat) returns (x: RequestText)
    requires ParseRequest(s, max).Done?
    ensures ValidRequestText(x) && |x.headers| <= max && At(s, 0, PrintRequest(x))
  {
    hide At, ParseRequestLine, TargetText, VersionText, LeadText, PrintHeaders, All, ParseHeaders;
    x := TextOfRequestLine(s);
    var i := |RequestLineText(x)|;
    var hs, blank := TextOfHeaders(s, i, max, []);
    x := x.(headers := hs, blank := blank);
    SameLine(x);
    AtSplit(s, 0, RequestLineText(x), BlockText(hs, blank));
  }

  lemma SameLine(x: RequestText)
    requires x.minor <= 9
    ensures RequestLineText(x) == RequestLineText(x.(headers := [], blank := Lf))
  {
    assert TargetText(x) == TargetText(x.(headers := [], blank := Lf));
  }

  /**
   `s` parses to `request` over its first `k` bytes exactly when those bytes are a request text with at
   most `max` headers whose fields lie where `request` says.
   */
  lemma AcceptsRequestTextsOnly(s: seq<byte>, max: nat, request: Request, k: nat)
    ensures ParseRequest(s, max) == Done((request, k)) <==>
            exists x :: ValidRequestText(x) && |x.headers| <= max && At(s, 0, PrintRequest(x)) &&
                        request == LocateRequest(x) && k == |PrintRequest(x)|
  {
    hide ParseRequest, PrintRequest, LocateRequest, At, All, ValidHeaders;
    forall x | ValidRequestText(x) && |x.headers| <= max && At(s, 0, PrintRequest(x))
      ensures ParseRequest(s, max) == Done((LocateRequest(x), |PrintRequest(x)|))
    {
      ParsesPrintedRequest(s, x, max);
    }
    if ParseRequest(s, max).Done? {
      var x := TextOfRequest(s, max);
      ParsesPrintedRequest(s, x, max);
    }
  }

  // Responses ------------------------------------------------------------------------------------------

  lemma StatusAt(s: seq<byte>, i: nat, n: nat)
    requires n <= 999 && At(s, i, StatusText(n)) && i + 3 < |s|
    ensures ParseStatus(s, i) == Done(n) && s[i] != SP
  {
    AtByte(s, i, StatusText(n), 0);
    AtByte(s, i, StatusText(n), 1);
    AtByte(s, i, StatusText(n), 2);
  }

  lemma TextOfStatus(s: seq<byte>, i: nat)
    requires i <= |s| && ParseStatus(s, i).Done?
    ensures At(s, i, StatusText(ParseStatus(s, i).value))
  {
    var a, b, c := s[i] - '0' as int, s[i + 1] - '0' as int, s[i + 2] - '0' as int;
    var n := 100 * a + 10 * b + c;
    assert n / 100 == a && n / 10 == 10 * a + b && n % 10 == c;
  }

  lemma ReasonAt(s: seq<byte>, i: nat, x: ResponseText)
    requires ValidResponseText(x) && At(s, i, ReasonText(x))
    ensures i < |s| && s[i] == ReasonText(x)[0]
    ensures ParseReason(s, i) == Done((Slice(i + x.gap, i + x.gap + |x.msg|), i + |ReasonText(x)|))
  {
    hide Find, At, All, ToEol, ValidHeaders;
    var text := Spaced(x.gap) + x.msg;
    SpacesPass(x.gap);
    AllJoin(LineText, Spaced(x.gap), x.msg);
    ToEolAt(s, i, text, x.end);
    AtSplit(s, i, text, BreakText(x.end));
    AtSplit(s, i, Spaced(x.gap), x.msg);
    if x.gap > 0 {
      if x.msg != [] { AtByte(s, i + x.gap, x.msg, 0); }
      SpacesAt(s, i, x.gap);
    } else {
      assert Spaced(0) == [];
    }
  }

  lemma TextOfReason(s: seq<byte>, i: nat) returns (gap: nat, msg: seq<byte>, end: Break)
    requires i <= |s| && ParseReason(s, i).Done?
    ensures All(LineText, msg) && (msg != [] ==> gap > 0 && msg[0] != SP)
    ensures At(s, i, (Spaced(gap) + msg) + BreakText(end))
    ensures ParseReason(s, i).value.1 == i + |(Spaced(gap) + msg) + BreakText(end)|
  {
    hide Find, ToEol, All, LineBreak;
    var text;
    text, end := TextOfLine(s, i);
    gap, msg := 0, [];
    if text == [] {
      assert (Spaced(0) + []) + BreakText(end) == text + BreakText(end);
    } else {
      gap, msg := SplitReason(s, i, text);
    }
  }

  lemma SplitReason(s: seq<byte>, i: nat, text: seq<byte>) returns (gap: nat, msg: seq<byte>)
    requires At(s, i, text) && All(LineText, text) && text != [] && s[i] == SP
    requires i + |text| < |s| && s[i + |text|] != SP
    ensures gap > 0 && text == Spaced(gap) + msg && All(LineText, msg) && (msg != [] ==> msg[0] != SP)
  {
    hide Find, All;
    SpacesEnd(s, i, i + |text|);
    var p := TextOfFind(Spaces, s, i);
    StopAt(Spaces, s, i);
    SpacesOnly(p);
    gap := |p|;
    msg := text[gap..];
    assert text[..gap] == s[i..i + |text|][..gap] == p;
    assert text == p + msg;
    AllJoin(LineText, p, msg);
    if msg != [] {
      AtByte(s, i, text, gap);
    }
  }

  lemma StatusLineAt(s: seq<byte>, x: ResponseText)
    requires ValidResponseText(x) && At(s, 0, StatusLineText(x))
    ensures ParseStatusLine(s) == Done((x.minor, x.status, LocateResponse(x).msg, |StatusLineText(x)|))
  {
    hide Find, At, All, ValidHeaders, VersionText, StatusText, ReasonText, ParseVersion, ParseStatus, ParseReason;
    VersionLength(x.minor);
    StatusLength(x.status);
    var i := 8 + x.sp;
    AtSplit(s, 0, VersionText(x.minor), Spaced(x.sp) + (StatusText(x.status) + ReasonText(x)));
    AtSplit(s, 8, Spaced(x.sp), StatusText(x.status) + ReasonText(x));
    AtSplit(s, i, StatusText(x.status), ReasonText(x));
    ReasonAt(s, i + 3, x);
    StatusAt(s, i, x.status);
    VersionAt(s, 0, x.minor);
    SpacesAt(s, 8, x.sp);
  }

  lemma StatusLength(n: nat)
    requires n <= 999
    ensures |StatusText(n)| == 3
  {}

  lemma TextOfStatusLine(s: seq<byte>) returns (x: ResponseText)
    requires ParseStatusLine(s).Done?
    ensures x.headers == [] && x.blank == Lf && ValidResponseText(x) && At(s, 0, StatusLineText(x))
    ensures ParseStatusLine(s).value.3 == |StatusLineText(x)|
  {
    hide Find, At, All, VersionText, StatusText, ParseVersion, ParseStatus, ParseReason;
    var minor := ParseVersion(s, 0).value;
    TextOfVersion(s, 0);
    VersionLength(minor);
    var sp := TextOfSpaces(s, 8);
    var i := 8 + sp;
    var status := ParseStatus(s, i).value;
    TextOfStatus(s, i);
    StatusLength(status);
    var gap, msg, end := TextOfReason(s, i + 3);
    x := ResponseText(minor, sp, status, gap, msg, end, [], Lf);
    AtSplit(s, i, StatusText(status), ReasonText(x));
    AtSplit(s, 8, Spaced(sp), StatusText(status) + ReasonText(x));
    AtSplit(s, 0, VersionText(minor), Spaced(sp) + (StatusText(status) + ReasonText(x)));
  }

  lemma ParsesPrintedResponse(s: seq<byte>, x: ResponseText, max: nat)
    requires ValidResponseText(x) && At(s, 0, PrintResponse(x))
    ensures ParseResponse(s, max) ==
            if |x.headers| <= max then Done((LocateResponse(x), |PrintResponse(x)|)) else Bad
  {
    hide At, ParseStatusLine, StatusLineText, PrintHeaders, LocateHeaders, ValidHeaders, All, ParseHeaders;
    var i := |StatusLineText(x)|;
    AtSplit(s, 0, StatusLineText(x), BlockText(x.headers, x.blank));
    StatusLineAt(s, x);
    if |x.headers| <= max {
      HeadersAt(s, i, x.headers, x.blank, max, []);
      NothingBefore(LocateHeaders(x.headers, i));
    } else {
      AtSplit(s, i, PrintHeaders(x.headers), BreakText(x.blank));
      TooManyHeaders(s, i, x.headers, max, []);
    }
  }

  lemma TextOfResponse(s: seq<byte>, max: nat) returns (x: ResponseText)
    requires ParseResponse(s, max).Done?
    ensures ValidResponseText(x) && |x.headers| <= max && At(s, 0, PrintResponse(x))
  {
    hide At, ParseStatusLine, VersionText, StatusText, PrintHeaders, All, ParseHeaders;
    x := TextOfStatusLine(s);
    var i := |StatusLineText(x)|;
    var hs, blank := TextOfHeaders(s, i, max, []);
    x := x.(headers := hs, blank := blank);
    SameStatusLine(x);
    AtSplit(s, 0, StatusLineText(x), BlockText(hs, blank));
  }

  lemma SameStatusLine(x: ResponseText)
    requires x.minor <= 9 && x.status <= 999
    ensures StatusLineText(x) == StatusLineText(x.(headers := [], blank := Lf))
  {
    assert ReasonText(x) == ReasonText(x.(headers := [], blank := Lf));
  }

  lemma AcceptsResponseTextsOnly(s: seq<byte>, max: nat, response: Response, k: nat)
    ensures ParseResponse(s, max) == Done((response, k)) <==>
            exists x :: ValidResponseText(x) && |x.headers| <= max && At(s, 0, PrintResponse(x)) &&
                        response == LocateResponse(x) && k == |PrintResponse(x)|
  {
    hide ParseResponse, PrintResponse, LocateResponse, At, All, ValidHeaders;
    forall x | ValidResponseText(x) && |x.headers| <= max && At(s, 0, PrintResponse(x))
      ensures ParseResponse(s, max) == Done((LocateResponse(x), |PrintResponse(x)|))
    {
      ParsesPrintedResponse(s, x, max);
    }
    if ParseResponse(s, max).Done? {
      var x := TextOfResponse(s, max);
      ParsesPrintedResponse(s, x, max);
    }
  }

  // Header blocks --------------------------------------------------------------------------------------

  lemma AcceptsHeaderBlocksOnly(s: seq<byte>, max: nat, headers: seq<Header>, k: nat)
    ensures ParseHeaders(s, 0, max, []) == Done((headers, k)) <==>
            exists hs, blank :: ValidHeaders(hs, true) && |hs| <= max && At(s, 0, BlockText(hs, blank)) &&
                                headers == LocateHeaders(hs, 0) && k == |BlockText(hs, blank)|
  {
    hide ParseHeaders, PrintHeaders, LocateHeaders, At, ValidHeaders;
    forall hs, blank | ValidHeaders(hs, true) && |hs| <= max && At(s, 0, BlockText(hs, blank))
      ensures ParseHeaders(s, 0, max, []) == Done((LocateHeaders(hs, 0), |BlockText(hs, blank)|))
    {
      HeadersAt(s, 0, hs, blank, max, []);
      NothingBefore(LocateHeaders(hs, 0));
    }
    if ParseHeaders(s, 0, max, []).Done? {
      var hs, blank := TextOfHeaders(s, 0, max, []);
      HeadersAt(s, 0, hs, blank, max, []);
      NothingBefore(LocateHeaders(hs, 0));
      assert At(s, 0, BlockText(hs, blank));
    }
  }
}
