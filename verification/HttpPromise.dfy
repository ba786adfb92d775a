/**
 What "more" promises. A header block that is undecided can always be completed. An undecided request or
 response can be completed exactly when its text so far passes the checks that the parser makes late.
 */
module HttpPromise {
  import opened Bytes
  import opened HttpSyntax
  import opened HttpFinality

  /** What is there of the nine bytes from `v` on is `HTTP/1.` and a digit; a ninth byte may be any. */
  ghost predicate VersionSoFar(s: seq<byte>, v: nat) {
    forall m :: v <= m < |s| && m < v + 8 ==> if m < v + 7 then s[m] == HTTP_1[m - v] else IsDigit(s[m])
  }

  /** Behind the optional empty line comes no space, and behind the spaces after the path a version. */
  ghost predicate PromisingRequest(s: seq<byte>) {
    SkipEmptyLine(s).Done? ==>
      var i := SkipEmptyLine(s).value;
      && (i < |s| ==> s[i] != SP)
      && (ParseTarget(s, i).Done? ==> VersionSoFar(s, ParseTarget(s, i).value.2))
  }

  /** What is there of a status code from `i` on is three digits, and behind them a space or the end of the line. */
  ghost predicate StatusSoFar(s: seq<byte>, i: nat) {
    && (forall m :: i <= m < |s| && m < i + 3 ==> IsDigit(s[m]))
    && (i + 3 < |s| ==> s[i + 3] == SP || s[i + 3] == CR || s[i + 3] == LF)
  }

  /** There is a version in front, and behind the spaces after it a status code. */
  ghost predicate PromisingResponse(s: seq<byte>) {
    && VersionSoFar(s, 0)
    && (|s| >= 9 && Find(Spaces, s, 9).Done? ==> StatusSoFar(s, Find(Spaces, s, 9).value))
  }

  // Longer inputs ------------------------------------------------------------------------------------

  lemma Extended(s: seq<byte>, t: seq<byte>, n: nat)
    requires n <= |s|
    ensures SameUpTo(s, s + t, n) && s <= s + t
  {}

  lemma FindStays(k: Kind, s: seq<byte>, t: seq<byte>, i: nat)
    requires i <= |s| && !Find(k, s, i).More?
    ensures Find(k, s + t, i) == Find(k, s, i)
  {
    Extended(s, t, if Find(k, s, i).Done? then Find(k, s, i).value + 1 else |s|);
    FindFinal(k, s, s + t, i);
  }

  lemma FindGoesOn(k: Kind, s: seq<byte>, t: seq<byte>, i: nat)
    requires i <= |s| && Find(k, s, i).More?
    ensures Find(k, s + t, i) == Find(k, s + t, |s|)
  {
    FindPasses(k, s, i);
    forall m | i <= m < |s| ensures Classify(k, (s + t)[m]) == Pass {
      assert (s + t)[m] == s[m];
    }
    FindSkips(k, s + t, i, |s|);
  }

  lemma LineBreakEnds(s: seq<byte>, t: seq<byte>, i: nat)
    requires i <= |s| && LineBreak(s, i).More? && t != [] && t[0] == LF
    ensures LineBreak(s + t, i) == Done(|s| + 1)
  {}

  lemma ToEolEnds(s: seq<byte>, t: seq<byte>, i: nat)
    requires i <= |s| && ToEol(s, i).More? && t != [] && t[0] == LF
    ensures ToEol(s + t, i).Done? && ToEol(s + t, i).value.1 == |s| + 1
  {
    if Find(LineText, s, i).Done? {
      FindStays(LineText, s, t, i);
      LineBreakEnds(s, t, Find(LineText, s, i).value);
    } else {
      FindGoesOn(LineText, s, t, i);
      assert (s + t)[|s|] == LF;
    }
  }

  // Header blocks ------------------------------------------------------------------------------------

  /** What ends the line of an undecided header, and one more LF. */
  function HeaderTail(s: seq<byte>, i: nat, first: bool): (t: seq<byte>)
    requires i < |s|
    ensures t != []
  {
    if (first || !IsBlank(s[i])) && Find(Token(COLON), s, i).More? then [COLON, LF, LF] else [LF, LF]
  }

  lemma FieldIs(u: seq<byte>, i: nat, first: bool, colon: nat, v: nat)
    requires i < colon < |u| && (first || !IsBlank(u[i])) && Find(Token(COLON), u, i) == Done(colon)
    requires Find(Blanks, u, colon + 1) == Done(v) && v <= |u| && ToEol(u, v).Done?
    ensures ParseHeader(u, i, first).Done? && ParseHeader(u, i, first).value.1 == ToEol(u, v).value.1
  {
    hide Find, ToEol, TrimRight;
  }

  lemma EndsInName(s: seq<byte>, i: nat, first: bool)
    requires i < |s| && (first || !IsBlank(s[i])) && Find(Token(COLON), s, i).More?
    ensures var u := s + [COLON, LF, LF];
            ParseHeader(u, i, first).Done? && ParseHeader(u, i, first).value.1 == |s| + 2
  {
    hide ParseHeader;
    var u, b := s + [COLON, LF, LF], |s|;
    FindGoesOn(Token(COLON), s, [COLON, LF, LF], i);
    assert u[b] == COLON && u[b + 1] == LF && u[i] == s[i];
    FieldIs(u, i, first, b, b + 1);
  }

  lemma EndsInValue(s: seq<byte>, i: nat, first: bool)
    requires i < |s| && (first || !IsBlank(s[i])) && Find(Token(COLON), s, i).Done? && i < Find(Token(COLON), s, i).value
    requires var v := Find(Blanks, s, Find(Token(COLON), s, i).value + 1); v.More? || (v.Done? && ToEol(s, v.value).More?)
    ensures var u := s + [LF, LF];
            ParseHeader(u, i, first).Done? && ParseHeader(u, i, first).value.1 == |s| + 1
  {
    hide ParseHeader, ToEol, Find;
    var t: seq<byte> := [LF, LF];
    var u, colon := s + t, Find(Token(COLON), s, i).value;
    assert u[i] == s[i] && u[|s|] == LF;
    FindStays(Token(COLON), s, t, i);
    if Find(Blanks, s, colon + 1).More? {
      FindGoesOn(Blanks, s, t, colon + 1);
      LineIsOver(u, |s|);
      FieldIs(u, i, first, colon, |s|);
    } else {
      var v := Find(Blanks, s, colon + 1).value;
      FindStays(Blanks, s, t, colon + 1);
      ToEolEnds(s, t, v);
      FieldIs(u, i, first, colon, v);
    }
  }

  lemma LineIsOver(u: seq<byte>, b: nat)
    requires b < |u| && u[b] == LF
    ensures Find(Blanks, u, b) == Done(b) && ToEol(u, b).Done? && ToEol(u, b).value.1 == b + 1
  {}

  lemma HeaderEnds(s: seq<byte>, i: nat, first: bool)
    requires i < |s| && ParseHeader(s, i, first).More?
    ensures var u := s + HeaderTail(s, i, first);
            ParseHeader(u, i, first).Done? && ParseHeader(u, i, first).value.1 == |u| - 1
  {
    hide ToEol, TrimRight, Find;
    if !first && IsBlank(s[i]) {
      assert (s + [LF, LF])[i] == s[i];
      ToEolEnds(s, [LF, LF], i);
    } else if Find(Token(COLON), s, i).More? {
      EndsInName(s, i, first);
    } else {
      EndsInValue(s, i, first);
    }
  }

  lemma BlockEnds(u: seq<byte>, i: nat, max: nat, acc: seq<Header>)
    requires i < |u| && u[i] == LF
    ensures ParseHeaders(u, i, max, acc) == Done((acc, i + 1))
  {}

  /** Every undecided header block can be completed. */
  lemma {:induction false} HeadersEnd(s: seq<byte>, i: nat, max: nat, acc: seq<Header>) returns (t: seq<byte>)
    requires i <= |s| && ParseHeaders(s, i, max, acc).More?
    ensures ParseHeaders(s + t, i, max, acc).Done?
    decreases |s| - i
  {
    hide ParseHeader, ToEol;
    if i == |s| {
      t := [LF];
      BlockEnds(s + t, i, max, acc);
    } else if s[i] == CR || s[i] == LF {
      t := [LF];
      LineBreakEnds(s, t, i);
      assert (s + t)[i] == s[i];
    } else if ParseHeader(s, i, acc == []).More? {
      t := HeaderTail(s, i, acc == []);
      var u := s + t;
      HeaderEnds(s, i, acc == []);
      var (h, next) := ParseHeader(u, i, acc == []).value;
      assert u[|u| - 1] == LF && u[i] == s[i];
      BlockEnds(u, next, max, acc + [h]);
    } else {
      var (h, next) := ParseHeader(s, i, acc == []).value;
      t := HeadersEnd(s, next, max, acc + [h]);
      Extended(s, t, next);
      ParseHeaderFinal(s, s + t, i, acc == []);
      assert (s + t)[i] == s[i];
    }
  }

  /** A header block can be completed exactly if it has not been rejected. */
  lemma HeadersPromiseExactly(s: seq<byte>, max: nat)
    ensures (exists t :: ParseHeaders(s + t, 0, max, []).Done?) <==> !ParseHeaders(s, 0, max, []).Bad?
  {
    hide ParseHeaders;
    match ParseHeaders(s, 0, max, []) {
      case Done(_) => assert s + [] == s; assert ParseHeaders(s + [], 0, max, []).Done?;
      case More => var t := HeadersEnd(s, 0, max, []);
      case Bad =>
        forall t ensures ParseHeaders(s + t, 0, max, []) == Bad {
          Extended(s, t, |s|);
          ParseHeadersFinal(s, s + t, 0, max, []);
        }
    }
  }

  // Requests -----------------------------------------------------------------------------------------

  /** A version, and two line breaks. */
  const VERSION_TAIL: seq<byte> := HTTP_1 + ['0' as int, LF, LF]
  const PATH_TAIL: seq<byte> := ['/' as int, SP] + VERSION_TAIL
  const METHOD_TAIL: seq<byte> := ['G' as int, SP] + PATH_TAIL

  /** What completes an undecided request line up to the version. */
  function TargetTail(s: seq<byte>, i: nat): seq<byte>
    requires i <= |s|
  {
    var verbEnd := Find(Token(SP), s, i);
    if !verbEnd.Done? then METHOD_TAIL
    else
      var p := Find(Spaces, s, verbEnd.value + 1);
      if !p.Done? || !Find(PathText, s, p.value).Done? then PATH_TAIL else VERSION_TAIL
  }

  lemma PathTail(u: seq<byte>, b: nat)
    requires b + |PATH_TAIL| == |u| && u[b..] == PATH_TAIL
    ensures Find(Spaces, u, b) == Done(b) && Find(PathText, u, b) == Done(b + 1) && Find(Spaces, u, b + 2) == Done(b + 2)
    ensures u[b + 2..] == VERSION_TAIL
  {
    assert u[b] == u[b..][0] && u[b + 1] == u[b..][1] && u[b + 2] == u[b..][2];
    assert u[b + 2..] == u[b..][2..];
  }

  lemma MethodTail(u: seq<byte>, b: nat)
    requires b + |METHOD_TAIL| == |u| && u[b..] == METHOD_TAIL
    ensures Find(Token(SP), u, b) == Done(b + 1)
    ensures u[b + 2..] == PATH_TAIL
  {
    assert u[b] == u[b..][0] && u[b + 1] == u[b..][1];
    assert u[b + 2..] == u[b..][2..];
  }

  lemma TargetIs(u: seq<byte>, i: nat, verbEnd: nat, p: nat, pEnd: nat, v: nat)
    requires i < verbEnd <= p < pEnd <= v <= |u|
    requires Find(Token(SP), u, i) == Done(verbEnd) && verbEnd < |u| && Find(Spaces, u, verbEnd + 1) == Done(p)
    requires Find(PathText, u, p) == Done(pEnd) && pEnd < |u| && Find(Spaces, u, pEnd + 1) == Done(v)
    ensures ParseTarget(u, i) == Done((Slice(i, verbEnd), Slice(p, pEnd), v))
  {
    hide Find;
  }

  lemma EndsInMethod(s: seq<byte>, i: nat)
    requires i <= |s| && Find(Token(SP), s, i).More?
    ensures var u := s + METHOD_TAIL;
            ParseTarget(u, i).Done? && u[ParseTarget(u, i).value.2..] == VERSION_TAIL
  {
    hide Find, ParseTarget;
    var u, b := s + METHOD_TAIL, |s|;
    FindGoesOn(Token(SP), s, METHOD_TAIL, i);
    assert u[b..] == METHOD_TAIL;
    MethodTail(u, b);
    PathTail(u, b + 2);
    TargetIs(u, i, b + 1, b + 2, b + 3, b + 4);
  }

  lemma EndsBeforePath(s: seq<byte>, i: nat)
    requires i <= |s| && Find(Token(SP), s, i).Done? && i < Find(Token(SP), s, i).value
    requires Find(Spaces, s, Find(Token(SP), s, i).value + 1).More?
    ensures var u := s + PATH_TAIL;
            ParseTarget(u, i).Done? && u[ParseTarget(u, i).value.2..] == VERSION_TAIL
  {
    hide Find, ParseTarget;
    var u, b, verbEnd := s + PATH_TAIL, |s|, Find(Token(SP), s, i).value;
    FindStays(Token(SP), s, PATH_TAIL, i);
    FindGoesOn(Spaces, s, PATH_TAIL, verbEnd + 1);
    assert u[b..] == PATH_TAIL;
    PathTail(u, b);
    TargetIs(u, i, verbEnd, b, b + 1, b + 2);
  }

  lemma EndsInPath(s: seq<byte>, i: nat)
    requires i <= |s| && Find(Token(SP), s, i).Done? && i < Find(Token(SP), s, i).value
    requires Find(Spaces, s, Find(Token(SP), s, i).value + 1).Done?
    requires Find(PathText, s, Find(Spaces, s, Find(Token(SP), s, i).value + 1).value).More?
    ensures var u := s + PATH_TAIL;
            ParseTarget(u, i).Done? && u[ParseTarget(u, i).value.2..] == VERSION_TAIL
  {
    hide Find, ParseTarget;
    var u, b, verbEnd := s + PATH_TAIL, |s|, Find(Token(SP), s, i).value;
    var p := Find(Spaces, s, verbEnd + 1).value;
    FindStays(Token(SP), s, PATH_TAIL, i);
    FindStays(Spaces, s, PATH_TAIL, verbEnd + 1);
    FindGoesOn(PathText, s, PATH_TAIL, p);
    assert u[b..] == PATH_TAIL;
    PathTail(u, b);
    SpacesFrom(s, verbEnd + 1);
    TargetIs(u, i, verbEnd, p, b + 1, b + 2);
  }

  lemma {:induction false} SpacesFrom(s: seq<byte>, i: nat)
    requires i <= |s|
    ensures Find(Spaces, s, i).Done? ==> i <= Find(Spaces, s, i).value < |s| && s[Find(Spaces, s, i).value] != SP
  {}

  lemma PathNotEmpty(s: seq<byte>, p: nat)
    requires p < |s| && s[p] != SP
    ensures Find(PathText, s, p).Done? ==> p < Find(PathText, s, p).value
  {}

  lemma EndsAfterPath(s: seq<byte>, i: nat)
    requires i <= |s| && Find(Token(SP), s, i).Done? && i < Find(Token(SP), s, i).value
    requires Find(Spaces, s, Find(Token(SP), s, i).value + 1).Done?
    requires Find(PathText, s, Find(Spaces, s, Find(Token(SP), s, i).value + 1).value).Done?
    requires Find(Spaces, s, Find(PathText, s, Find(Spaces, s, Find(Token(SP), s, i).value + 1).value).value + 1).More?
    ensures var u := s + VERSION_TAIL;
            ParseTarget(u, i).Done? && u[ParseTarget(u, i).value.2..] == VERSION_TAIL
  {
    hide Find, ParseTarget;
    var u, b, verbEnd := s + VERSION_TAIL, |s|, Find(Token(SP), s, i).value;
    var p := Find(Spaces, s, verbEnd + 1).value;
    var pEnd := Find(PathText, s, p).value;
    FindStays(Token(SP), s, VERSION_TAIL, i);
    FindStays(Spaces, s, VERSION_TAIL, verbEnd + 1);
    FindStays(PathText, s, VERSION_TAIL, p);
    FindGoesOn(Spaces, s, VERSION_TAIL, pEnd + 1);
    assert u[b..] == VERSION_TAIL;
    FindHere(u, b);
    SpacesFrom(s, verbEnd + 1);
    PathNotEmpty(s, p);
    TargetIs(u, i, verbEnd, p, pEnd, b);
  }

  lemma TargetEnds(s: seq<byte>, i: nat)
    requires i <= |s| && ParseTarget(s, i).More? && (i < |s| ==> s[i] != SP)
    ensures var u := s + TargetTail(s, i);
            ParseTarget(u, i).Done? && u[ParseTarget(u, i).value.2..] == VERSION_TAIL
  {
    if Find(Token(SP), s, i).More? {
      EndsInMethod(s, i);
    } else if Find(Spaces, s, Find(Token(SP), s, i).value + 1).More? {
      EndsBeforePath(s, i);
    } else if Find(PathText, s, Find(Spaces, s, Find(Token(SP), s, i).value + 1).value).More? {
      EndsInPath(s, i);
    } else {
      EndsAfterPath(s, i);
    }
  }

  lemma FindHere(u: seq<byte>, b: nat)
    requires b <= |u| && u[b..] == VERSION_TAIL
    ensures Find(Spaces, u, b) == Done(b)
  {
    assert u[b] == u[b..][0];
  }

  /** A request whose target is done and whose version is to come. */
  lemma VersionEnds(u: seq<byte>, v: nat, max: nat)
    requires v <= |u| && u[v..] == VERSION_TAIL
    ensures ParseVersion(u, v).Done? && LineBreak(u, v + 8) == Done(v + 9)
    ensures v + 9 <= |u| && ParseHeaders(u, v + 9, max, []).Done?
  {
    assert u[v..v + 7] == u[v..][..7] == HTTP_1;
    assert u[v + 7] == u[v..][7] && u[v + 8] == u[v..][8] && u[v + 9] == u[v..][9];
    BlockEnds(u, v + 9, max, []);
  }

  lemma RestOfVersion(s: seq<byte>, v: nat)
    requires v <= |s| <= v + 8 && VersionSoFar(s, v)
    ensures var u := s + VERSION_TAIL[|s| - v..];
            u[v..v + 7] == HTTP_1 && IsDigit(u[v + 7]) && u[v + 8..] == [LF, LF]
  {
    var u := s + VERSION_TAIL[|s| - v..];
    forall m | v <= m < v + 7 ensures u[m] == HTTP_1[m - v] {
      if m >= |s| { assert u[m] == VERSION_TAIL[|s| - v..][m - |s|] == VERSION_TAIL[m - v]; }
    }
    assert u[v + 7] == if |s| == v + 8 then s[v + 7] else VERSION_TAIL[7];
    assert u[v + 8..] == VERSION_TAIL[8..];
  }

  lemma RequestIs(u: seq<byte>, max: nat)
    requires SkipEmptyLine(u).Done? && ParseTarget(u, SkipEmptyLine(u).value).Done?
    requires var v := ParseTarget(u, SkipEmptyLine(u).value).value.2;
             && ParseVersion(u, v).Done? && LineBreak(u, v + 8).Done?
             && ParseHeaders(u, LineBreak(u, v + 8).value, max, []).Done?
    ensures ParseRequest(u, max).Done?
  {
    hide ParseTarget, ParseVersion, LineBreak, ParseHeaders, SkipEmptyLine;
  }

  lemma SkipStays(s: seq<byte>, t: seq<byte>)
    requires SkipEmptyLine(s).Done?
    ensures SkipEmptyLine(s + t) == SkipEmptyLine(s)
  {}

  lemma TargetStays(s: seq<byte>, t: seq<byte>, i: nat)
    requires i <= |s| && ParseTarget(s, i).Done?
    ensures ParseTarget(s + t, i) == ParseTarget(s, i)
  {
    hide ParseTarget;
    Extended(s, t, ParseTarget(s, i).value.2 + 1);
    ParseTargetFinal(s, s + t, i);
  }

  lemma RequestEndsInVersion(s: seq<byte>, max: nat) returns (t: seq<byte>)
    requires SkipEmptyLine(s).Done? && ParseTarget(s, SkipEmptyLine(s).value).Done?
    requires var v := ParseTarget(s, SkipEmptyLine(s).value).value.2;
             |s| - v < 9 && VersionSoFar(s, v)
    ensures ParseRequest(s + t, max).Done?
  {
    hide ParseTarget, SkipEmptyLine, ParseRequest, ParseHeaders;
    var i := SkipEmptyLine(s).value;
    var v := ParseTarget(s, i).value.2;
    t := VERSION_TAIL[|s| - v..];
    var u := s + t;
    SkipStays(s, t);
    TargetStays(s, t, i);
    RestOfVersion(s, v);
    assert u[v + 8] == u[v + 8..][0] && u[v + 9] == u[v + 8..][1];
    BlockEnds(u, v + 9, max, []);
    RequestIs(u, max);
  }

  lemma RequestEndsBehindVersion(s: seq<byte>, max: nat) returns (t: seq<byte>)
    requires ParseRequest(s, max).More?
    requires SkipEmptyLine(s).Done? && ParseTarget(s, SkipEmptyLine(s).value).Done?
    requires ParseVersion(s, ParseTarget(s, SkipEmptyLine(s).value).value.2).Done?
    ensures ParseRequest(s + t, max).Done?
  {
    hide ParseTarget, SkipEmptyLine, ParseHeaders, LineBreak;
    var i := SkipEmptyLine(s).value;
    var v := ParseTarget(s, i).value.2;
    if LineBreak(s, v + 8).More? {
      t := [LF, LF];
      LineBreakEnds(s, t, v + 8);
      BlockEnds(s + t, |s| + 1, max, []);
    } else {
      t := HeadersEnd(s, LineBreak(s, v + 8).value, max, []);
      Extended(s, t, LineBreak(s, v + 8).value);
      LineBreakFinal(s, s + t, v + 8);
    }
    SkipStays(s, t);
    TargetStays(s, t, i);
    Extended(s, t, v + 9);
    ParseVersionFinal(s, s + t, v);
    RequestIs(s + t, max);
  }

  lemma RequestEndsInTarget(s: seq<byte>, max: nat) returns (t: seq<byte>)
    requires SkipEmptyLine(s).Done?
    requires var i := SkipEmptyLine(s).value; ParseTarget(s, i).More? && (i < |s| ==> s[i] != SP)
    ensures ParseRequest(s + t, max).Done?
  {
    hide ParseTarget, SkipEmptyLine, ParseHeaders, ParseVersion, LineBreak;
    var i := SkipEmptyLine(s).value;
    t := TargetTail(s, i);
    SkipStays(s, t);
    TargetEnds(s, i);
    VersionEnds(s + t, ParseTarget(s + t, i).value.2, max);
    RequestIs(s + t, max);
  }

  lemma RequestEndsInEmptyLine(s: seq<byte>, max: nat) returns (t: seq<byte>)
    requires SkipEmptyLine(s).More?
    ensures ParseRequest(s + t, max).Done?
  {
    hide SkipEmptyLine, ParseTarget, ParseRequest;
    EmptyLineEnds(s);
    TargetToCome(s + [LF], |s| + 1);
    var more := RequestEndsInTarget(s + [LF], max);
    t := [LF] + more;
    assert s + t == (s + [LF]) + more;
  }

  lemma EmptyLineEnds(s: seq<byte>)
    requires SkipEmptyLine(s).More?
    ensures SkipEmptyLine(s + [LF]) == Done(|s| + 1)
  {
    assert s == [] || s == [CR];
    if s == [] { assert s + [LF] == [LF]; } else { assert s + [LF] == [CR, LF]; }
  }

  lemma TargetToCome(s: seq<byte>, i: nat)
    requires i == |s|
    ensures ParseTarget(s, i).More?
  {}

  lemma RequestEnds(s: seq<byte>, max: nat) returns (t: seq<byte>)
    requires ParseRequest(s, max).More? && PromisingRequest(s)
    ensures ParseRequest(s + t, max).Done?
  {
    hide SkipEmptyLine, ParseTarget, ParseVersion, LineBreak, ParseHeaders, VersionSoFar;
    if SkipEmptyLine(s).More? {
      t := RequestEndsInEmptyLine(s, max);
    } else if ParseTarget(s, SkipEmptyLine(s).value).More? {
      t := RequestEndsInTarget(s, max);
    } else if ParseVersion(s, ParseTarget(s, SkipEmptyLine(s).value).value.2).More? {
      ShortVersion(s, ParseTarget(s, SkipEmptyLine(s).value).value.2);
      t := RequestEndsInVersion(s, max);
    } else {
      t := RequestEndsBehindVersion(s, max);
    }
  }

  lemma ShortVersion(s: seq<byte>, v: nat)
    requires v <= |s|
    ensures ParseVersion(s, v).More? <==> |s| - v < 9
  {}

  lemma VersionFails(u: seq<byte>, v: nat)
    requires v <= |u| && ParseVersion(u, v).Done?
    ensures VersionSoFar(u, v)
  {
    forall m | v <= m < v + 7 ensures u[m] == HTTP_1[m - v] { assert u[m] == u[v..v + 7][m - v]; }
  }

  lemma VersionShorter(s: seq<byte>, t: seq<byte>, v: nat)
    requires VersionSoFar(s + t, v)
    ensures VersionSoFar(s, v)
  {
    forall m | v <= m < |s| && m < v + 8 ensures if m < v + 7 then s[m] == HTTP_1[m - v] else IsDigit(s[m]) {
      assert (s + t)[m] == s[m];
    }
  }

  lemma AcceptedIsPromising(s: seq<byte>, t: seq<byte>, max: nat)
    requires ParseRequest(s + t, max).Done?
    ensures PromisingRequest(s)
  {
    hide ParseVersion, LineBreak, ParseHeaders, VersionSoFar, Find;
    var u := s + t;
    if SkipEmptyLine(s).Done? {
      var i := SkipEmptyLine(s).value;
      SkipStays(s, t);
      if i < |s| { MethodIsThere(u, i); }
      if ParseTarget(s, i).Done? {
        TargetStays(s, t, i);
        VersionFails(u, ParseTarget(u, i).value.2);
        VersionShorter(s, t, ParseTarget(s, i).value.2);
      }
    }
  }

  lemma MethodIsThere(u: seq<byte>, i: nat)
    requires i < |u| && ParseTarget(u, i).Done?
    ensures u[i] != SP
  {}

  /**
   A request can be completed exactly if it is complete already, or undecided and promising: of the
   requests that are answered "more", the promise tells which are the beginning of an acceptable one.
   */
  lemma RequestPromiseExactly(s: seq<byte>, max: nat)
    ensures (exists t :: ParseRequest(s + t, max).Done?) <==>
            ParseRequest(s, max).Done? || (ParseRequest(s, max).More? && PromisingRequest(s))
  {
    hide ParseRequest, PromisingRequest;
    match ParseRequest(s, max) {
      case Done(_) => assert s + [] == s; assert ParseRequest(s + [], max).Done?;
      case More =>
        if PromisingRequest(s) {
          var t := RequestEnds(s, max);
        } else {
          forall t ensures !ParseRequest(s + t, max).Done? {
            if ParseRequest(s + t, max).Done? { AcceptedIsPromising(s, t, max); }
          }
        }
      case Bad =>
        forall t ensures ParseRequest(s + t, max) == Bad {
          Extended(s, t, |s|);
          RequestVerdictIsFinal(s, s + t, max);
        }
    }
  }

  // Responses ----------------------------------------------------------------------------------------

  const STATUS: seq<byte> := ['0' as int, '0' as int, '0' as int, LF, LF]

  lemma ResponseIs(u: seq<byte>, max: nat)
    requires ParseVersion(u, 0).Done? && u[8] == SP && Find(Spaces, u, 9).Done?
    requires var i := Find(Spaces, u, 9).value;
             && ParseStatus(u, i).Done? && ParseReason(u, i + 3).Done?
             && ParseHeaders(u, ParseReason(u, i + 3).value.1, max, []).Done?
    ensures ParseResponse(u, max).Done?
  {
    hide ParseVersion, Find, ParseStatus, ParseReason, ParseHeaders;
  }

  lemma VersionStays(s: seq<byte>, t: seq<byte>)
    requires ParseVersion(s, 0).Done?
    ensures ParseVersion(s + t, 0).Done? && (s + t)[8] == s[8]
  {
    Extended(s, t, 9);
    ParseVersionFinal(s, s + t, 0);
  }

  /** A status line with its number to come. */
  lemma StatusEnds(u: seq<byte>, i: nat, max: nat)
    requires i + 5 == |u| && u[i + 3] == LF && u[i + 4] == LF
    requires IsDigit(u[i]) && IsDigit(u[i + 1]) && IsDigit(u[i + 2])
    ensures ParseStatus(u, i).Done? && ParseReason(u, i + 3).Done?
    ensures ParseHeaders(u, ParseReason(u, i + 3).value.1, max, []).Done?
  {
    assert Find(LineText, u, i + 3) == Done(i + 3) && LineBreak(u, i + 3) == Done(i + 4);
    BlockEnds(u, i + 4, max, []);
  }

  lemma ResponseEndsInVersion(s: seq<byte>, max: nat) returns (t: seq<byte>)
    requires |s| < 9 && VersionSoFar(s, 0)
    ensures ParseResponse(s + t, max).Done?
  {
    var version := HTTP_1 + ['0' as int, SP];
    var tail := version[|s|..];
    var head := s + tail;
    forall m | 0 <= m < 7 ensures head[m] == HTTP_1[m] {}
    assert head[0..7] == HTTP_1 && IsDigit(head[7]) && head[8] == SP;
    t := tail + STATUS;
    var u := head + STATUS;
    assert u == s + t;
    VersionStays(head, STATUS);
    assert u[9] == STATUS[0] && u[10] == STATUS[1] && u[11] == STATUS[2] && u[12] == LF && u[13] == LF;
    assert Find(Spaces, u, 9) == Done(9);
    StatusEnds(u, 9, max);
    ResponseIs(u, max);
  }

  lemma ResponseEndsInSpaces(s: seq<byte>, max: nat) returns (t: seq<byte>)
    requires ParseVersion(s, 0).Done? && s[8] == SP && Find(Spaces, s, 9).More?
    ensures ParseResponse(s + t, max).Done?
  {
    hide ParseVersion, ParseResponse;
    t := STATUS;
    var u, b := s + t, |s|;
    VersionStays(s, t);
    FindGoesOn(Spaces, s, t, 9);
    assert u[b] == STATUS[0] && u[b + 1] == STATUS[1] && u[b + 2] == STATUS[2] && u[b + 3] == LF && u[b + 4] == LF;
    assert Find(Spaces, u, b) == Done(b);
    StatusEnds(u, b, max);
    ResponseIs(u, max);
  }

  lemma ResponseEndsInStatus(s: seq<byte>, max: nat) returns (t: seq<byte>)
    requires ParseVersion(s, 0).Done? && s[8] == SP && Find(Spaces, s, 9).Done?
    requires var i := Find(Spaces, s, 9).value; |s| - i < 4 && StatusSoFar(s, i)
    ensures ParseResponse(s + t, max).Done?
  {
    hide ParseVersion, ParseResponse, Find;
    var i := Find(Spaces, s, 9).value;
    t := STATUS[|s| - i..];
    var u := s + t;
    VersionStays(s, t);
    FindStays(Spaces, s, t, 9);
    forall m | i <= m < i + 3 ensures IsDigit(u[m]) {
      assert u[m] == if m < |s| then s[m] else STATUS[m - i];
    }
    assert u[i + 3] == STATUS[3] && u[i + 4] == STATUS[4];
    StatusEnds(u, i, max);
    ResponseIs(u, max);
  }

  lemma ReasonEnds(s: seq<byte>, i: nat)
    requires i < |s| && ParseReason(s, i).More? && (s[i] == SP || s[i] == CR || s[i] == LF)
    ensures ParseReason(s + [LF, LF], i).Done? && ParseReason(s + [LF, LF], i).value.1 == |s| + 1
  {
    var u := s + [LF, LF];
    ToEolEnds(s, [LF, LF], i);
    assert u[i] == s[i];
  }

  lemma ResponseEndsBehindStatus(s: seq<byte>, max: nat) returns (t: seq<byte>)
    requires ParseResponse(s, max).More?
    requires ParseVersion(s, 0).Done? && s[8] == SP && Find(Spaces, s, 9).Done?
    requires var i := Find(Spaces, s, 9).value; ParseStatus(s, i).Done? && StatusSoFar(s, i)
    ensures ParseResponse(s + t, max).Done?
  {
    hide ParseVersion, Find, ParseStatus, ParseReason, ParseHeaders;
    var i := Find(Spaces, s, 9).value;
    if ParseReason(s, i + 3).More? {
      t := [LF, LF];
      ReasonEnds(s, i + 3);
      BlockEnds(s + t, |s| + 1, max, []);
    } else {
      t := HeadersEnd(s, ParseReason(s, i + 3).value.1, max, []);
      Extended(s, t, ParseReason(s, i + 3).value.1);
      ParseReasonFinal(s, s + t, i + 3);
    }
    VersionStays(s, t);
    FindStays(Spaces, s, t, 9);
    Extended(s, t, i + 4);
    ParseStatusFinal(s, s + t, i);
    ResponseIs(s + t, max);
  }

  lemma ResponseEnds(s: seq<byte>, max: nat) returns (t: seq<byte>)
    requires ParseResponse(s, max).More? && PromisingResponse(s)
    ensures ParseResponse(s + t, max).Done?
  {
    hide Find, ParseReason, ParseHeaders, VersionSoFar, StatusSoFar;
    if |s| < 9 {
      t := ResponseEndsInVersion(s, max);
    } else if Find(Spaces, s, 9).More? {
      t := ResponseEndsInSpaces(s, max);
    } else if |s| - Find(Spaces, s, 9).value < 4 {
      t := ResponseEndsInStatus(s, max);
    } else {
      t := ResponseEndsBehindStatus(s, max);
    }
  }

  lemma StatusFails(u: seq<byte>, i: nat)
    requires i <= |u| && ParseStatus(u, i).Done? && ParseReason(u, i + 3).Done?
    ensures StatusSoFar(u, i)
  {}

  lemma StatusShorter(s: seq<byte>, t: seq<byte>, i: nat)
    requires StatusSoFar(s + t, i)
    ensures StatusSoFar(s, i)
  {
    forall m | i <= m < |s| && m < i + 3 ensures IsDigit(s[m]) { assert (s + t)[m] == s[m]; }
    if i + 3 < |s| { assert (s + t)[i + 3] == s[i + 3]; }
  }

  lemma AcceptedResponseIsPromising(s: seq<byte>, t: seq<byte>, max: nat)
    requires ParseResponse(s + t, max).Done?
    ensures PromisingResponse(s)
  {
    hide ParseVersion, ParseStatus, ParseReason, ParseHeaders, VersionSoFar, StatusSoFar, Find;
    var u := s + t;
    VersionFails(u, 0);
    VersionShorter(s, t, 0);
    if |s| >= 9 && Find(Spaces, s, 9).Done? {
      FindStays(Spaces, s, t, 9);
      StatusFails(u, Find(Spaces, u, 9).value);
      StatusShorter(s, t, Find(Spaces, s, 9).value);
    }
  }

  /** The same of responses. */
  lemma ResponsePromiseExactly(s: seq<byte>, max: nat)
    ensures (exists t :: ParseResponse(s + t, max).Done?) <==>
            ParseResponse(s, max).Done? || (ParseResponse(s, max).More? && PromisingResponse(s))
  {
    hide ParseResponse, PromisingResponse;
    match ParseResponse(s, max) {
      case Done(_) => assert s + [] == s; assert ParseResponse(s + [], max).Done?;
      case More =>
        if PromisingResponse(s) {
          var t := ResponseEnds(s, max);
        } else {
          forall t ensures !ParseResponse(s + t, max).Done? {
            if ParseResponse(s + t, max).Done? { AcceptedResponseIsPromising(s, t, max); }
          }
        }
      case Bad =>
        forall t ensures ParseResponse(s + t, max) == Bad {
          Extended(s, t, |s|);
          ResponseVerdictIsFinal(s, s + t, max);
        }
    }
  }
}
