/**
 The `last_len` shortcut. A caller that has already offered `last_len` bytes lets the parser look
 for a blank line near the new bytes before it parses anything. The shortcut never hides a complete
 request or response; it can hide a header block that is empty, and exactly when is proved too.
 */
module HttpComplete {
  import opened Bytes
  import opened HttpSyntax
  import opened HttpFinality

  /** Looks for two line breaks in a row; `breaks` is how many have just been seen. */
  function Complete(s: seq<byte>, i: nat, breaks: nat): (r: Parse<nat>)
    requires i <= |s|
    decreases |s| - i
  {
    if i == |s| then More
    else if s[i] == CR || s[i] == LF then
      var next :- LineBreak(s, i);
      if breaks + 1 == 2 then Done(next) else Complete(s, next, breaks + 1)
    else Complete(s, i + 1, 0)
  }

  function ScanStart(lastLen: nat): nat {
    if lastLen < 3 then 0 else lastLen - 3
  }

  /** What a call answers whose full parse of `s` would answer `full`. */
  function WithShortcut<T>(s: seq<byte>, lastLen: nat, full: Parse<T>): Parse<T>
    requires ScanStart(lastLen) <= |s|
  {
    if lastLen == 0 then full
    else
      var c := Complete(s, ScanStart(lastLen), 0);
      if c.Done? then full else if c.Bad? then Bad else More
  }

  function RequestCall(s: seq<byte>, max: nat, lastLen: nat): Parse<(Request, nat)>
    requires ScanStart(lastLen) <= |s|
  {
    WithShortcut(s, lastLen, ParseRequest(s, max))
  }

  function ResponseCall(s: seq<byte>, max: nat, lastLen: nat): Parse<(Response, nat)>
    requires ScanStart(lastLen) <= |s|
  {
    WithShortcut(s, lastLen, ParseResponse(s, max))
  }

  function HeadersCall(s: seq<byte>, max: nat, lastLen: nat): Parse<(seq<Header>, nat)>
    requires ScanStart(lastLen) <= |s|
  {
    WithShortcut(s, lastLen, ParseHeaders(s, 0, max, []))
  }

  // The shape of what is accepted --------------------------------------------------------------------

  /** Every CR in `s[i..k]` is followed, still within it, by LF. */
  ghost predicate NoBareCr(s: seq<byte>, i: nat, k: nat) {
    k <= |s| && forall m :: i <= m < k && s[m] == CR ==> m + 1 < k && s[m + 1] == LF
  }

  /** The bytes end, at `k`, with the line break at `e`, which directly follows another line break. */
  ghost predicate EndsBlank(s: seq<byte>, e: nat, k: nat) {
    0 < e < |s| && LineBreak(s, e) == Done(k) && s[e - 1] == LF
  }

  lemma {:induction false} FindHasNoCr(k: Kind, s: seq<byte>, i: nat)
    requires i <= |s| && Find(k, s, i).Done? && k != Token(CR)
    ensures NoBareCr(s, i, Find(k, s, i).value)
  {
    FindPasses(k, s, i);
  }

  lemma NoBareCrJoin(s: seq<byte>, i: nat, j: nat, k: nat)
    requires i <= j <= k && NoBareCr(s, i, j) && NoBareCr(s, j, k)
    ensures NoBareCr(s, i, k)
  {
    forall m | i <= m < k && s[m] == CR ensures m + 1 < k && s[m + 1] == LF {
      if m < j {
        assert m + 1 < j && s[m + 1] == LF;
      }
    }
  }

  lemma ToEolShape(s: seq<byte>, i: nat)
    requires i <= |s| && ToEol(s, i).Done?
    ensures NoBareCr(s, i, ToEol(s, i).value.1) && s[ToEol(s, i).value.1 - 1] == LF
  {
    var e := Find(LineText, s, i).value;
    FindHasNoCr(LineText, s, i);
    NoBareCrJoin(s, i, e, LineBreak(s, e).value);
  }

  lemma ParseHeaderShape(s: seq<byte>, i: nat, first: bool)
    requires i < |s| && ParseHeader(s, i, first).Done?
    ensures NoBareCr(s, i, ParseHeader(s, i, first).value.1) && s[ParseHeader(s, i, first).value.1 - 1] == LF
  {
    hide ToEol, TrimRight, Find, NoBareCr;
    if !first && IsBlank(s[i]) {
      ToEolShape(s, i);
    } else {
      var colon := Find(Token(COLON), s, i).value;
      var v := Find(Blanks, s, colon + 1).value;
      FindHasNoCr(Token(COLON), s, i);
      OneByte(s, colon);
      FindHasNoCr(Blanks, s, colon + 1);
      ToEolShape(s, v);
      NoBareCrJoin(s, i, colon, colon + 1);
      NoBareCrJoin(s, i, colon + 1, v);
      NoBareCrJoin(s, i, v, ToEol(s, v).value.1);
    }
  }

  lemma OneByte(s: seq<byte>, i: nat)
    requires i < |s| && s[i] != CR
    ensures NoBareCr(s, i, i + 1)
  {}

  /** Where the blank line that ends the headers begins. */
  lemma {:induction false} ParseHeadersShape(s: seq<byte>, i: nat, max: nat, acc: seq<Header>) returns (e: nat)
    requires i <= |s| && ParseHeaders(s, i, max, acc).Done?
    ensures var (hs, k) := ParseHeaders(s, i, max, acc).value;
            && i <= e < |s| && LineBreak(s, e) == Done(k) && NoBareCr(s, i, k)
            && (if hs == acc then e == i else i < e && s[e - 1] == LF)
            && |hs| >= |acc|
    decreases |s| - i
  {
    hide ParseHeader;
    if s[i] == CR || s[i] == LF {
      e := i;
    } else {
      var (h, next) := ParseHeader(s, i, acc == []).value;
      ParseHeaderShape(s, i, acc == []);
      e := ParseHeadersShape(s, next, max, acc + [h]);
      NoBareCrJoin(s, i, next, ParseHeaders(s, i, max, acc).value.1);
    }
  }

  lemma VersionHasNoCr(s: seq<byte>, i: nat)
    requires i <= |s| && ParseVersion(s, i).Done?
    ensures NoBareCr(s, i, i + 8)
  {
    forall m | i <= m < i + 7 ensures s[m] != CR {
      assert s[m] == s[i..i + 7][m - i] == HTTP_1[m - i];
    }
  }

  lemma ParseTargetShape(s: seq<byte>, i: nat)
    requires i <= |s| && ParseTarget(s, i).Done?
    ensures i <= ParseTarget(s, i).value.2 && NoBareCr(s, i, ParseTarget(s, i).value.2)
  {
    hide Find, NoBareCr;
    var verbEnd := Find(Token(SP), s, i).value;
    var p := Find(Spaces, s, verbEnd + 1).value;
    var pEnd := Find(PathText, s, p).value;
    var v := Find(Spaces, s, pEnd + 1).value;
    FindHasNoCr(Token(SP), s, i);
    OneByte(s, verbEnd);
    FindHasNoCr(Spaces, s, verbEnd + 1);
    FindHasNoCr(PathText, s, p);
    OneByte(s, pEnd);
    FindHasNoCr(Spaces, s, pEnd + 1);
    NoBareCrJoin(s, i, verbEnd, verbEnd + 1);
    NoBareCrJoin(s, i, verbEnd + 1, p);
    NoBareCrJoin(s, i, p, pEnd);
    NoBareCrJoin(s, i, pEnd, pEnd + 1);
    NoBareCrJoin(s, i, pEnd + 1, v);
  }

  lemma LineBreakShape(s: seq<byte>, i: nat)
    requires i <= |s| && LineBreak(s, i).Done?
    ensures NoBareCr(s, i, LineBreak(s, i).value) && s[LineBreak(s, i).value - 1] == LF
  {}

  lemma SkipEmptyLineShape(s: seq<byte>)
    requires SkipEmptyLine(s).Done?
    ensures NoBareCr(s, 0, SkipEmptyLine(s).value)
  {}

  lemma RequestLineShape(s: seq<byte>)
    requires ParseRequestLine(s).Done?
    ensures var i := ParseRequestLine(s).value.3; 0 < i <= |s| && NoBareCr(s, 0, i) && s[i - 1] == LF
  {
    hide Find, ParseTarget, NoBareCr;
    var i := SkipEmptyLine(s).value;
    var v := ParseTarget(s, i).value.2;
    SkipEmptyLineShape(s);
    ParseTargetShape(s, i);
    VersionHasNoCr(s, v);
    LineBreakShape(s, v + 8);
    NoBareCrJoin(s, 0, i, v);
    NoBareCrJoin(s, 0, v, v + 8);
    NoBareCrJoin(s, 0, v + 8, LineBreak(s, v + 8).value);
  }

  lemma RequestShape(s: seq<byte>, max: nat) returns (e: nat)
    requires ParseRequest(s, max).Done?
    ensures var k := ParseRequest(s, max).value.1; NoBareCr(s, 0, k) && EndsBlank(s, e, k)
  {
    hide ParseRequestLine, ParseHeaders, NoBareCr;
    var i := ParseRequestLine(s).value.3;
    RequestLineShape(s);
    e := ParseHeadersShape(s, i, max, []);
    NoBareCrJoin(s, 0, i, ParseRequest(s, max).value.1);
  }

  lemma StatusHasNoCr(s: seq<byte>, i: nat)
    requires i <= |s| && ParseStatus(s, i).Done?
    ensures NoBareCr(s, i, i + 3)
  {}

  lemma StatusLineShape(s: seq<byte>)
    requires ParseStatusLine(s).Done?
    ensures var i := ParseStatusLine(s).value.3; 0 < i <= |s| && NoBareCr(s, 0, i) && s[i - 1] == LF
  {
    hide Find, NoBareCr, ToEol;
    var i := Find(Spaces, s, 9).value;
    VersionHasNoCr(s, 0);
    OneByte(s, 8);
    FindHasNoCr(Spaces, s, 9);
    StatusHasNoCr(s, i);
    ToEolShape(s, i + 3);
    NoBareCrJoin(s, 0, 8, 9);
    NoBareCrJoin(s, 0, 9, i);
    NoBareCrJoin(s, 0, i, i + 3);
    NoBareCrJoin(s, 0, i + 3, ToEol(s, i + 3).value.1);
  }

  lemma ResponseShape(s: seq<byte>, max: nat) returns (e: nat)
    requires ParseResponse(s, max).Done?
    ensures var k := ParseResponse(s, max).value.1; NoBareCr(s, 0, k) && EndsBlank(s, e, k)
  {
    hide ParseStatusLine, ParseHeaders, NoBareCr;
    var i := ParseStatusLine(s).value.3;
    StatusLineShape(s);
    e := ParseHeadersShape(s, i, max, []);
    NoBareCrJoin(s, 0, i, ParseResponse(s, max).value.1);
  }

  // The shortcut ---------------------------------------------------------------------------------------

  /** A scan that starts before the last two line breaks finds them, or a blank line before them. */
  lemma {:induction false} CompleteFindsEnd(s: seq<byte>, i: nat, breaks: nat, e: nat, k: nat)
    requires EndsBlank(s, e, k) && NoBareCr(s, i, k) && breaks <= 1
    requires i < e || (i == e && breaks == 1)
    ensures Complete(s, i, breaks).Done? && Complete(s, i, breaks).value <= k
    decreases k - i
  {
    if i < e {
      if s[i] == CR {
        assert s[i + 1] == LF;
        if breaks == 0 { CompleteFindsEnd(s, i + 2, 1, e, k); }
      } else if s[i] == LF {
        if breaks == 0 { CompleteFindsEnd(s, i + 1, 1, e, k); }
      } else {
        CompleteFindsEnd(s, i + 1, 0, e, k);
      }
    }
  }

  lemma ScanSucceeds(s: seq<byte>, lastLen: nat, e: nat, k: nat)
    requires NoBareCr(s, 0, k) && EndsBlank(s, e, k) && lastLen < k
    ensures ScanStart(lastLen) <= |s| && Complete(s, ScanStart(lastLen), 0).Done?
  {
    CompleteFindsEnd(s, ScanStart(lastLen), 0, e, k);
  }

  /** A request that ends in the new bytes is parsed as without the shortcut. */
  lemma RequestShortcutLosesNothing(s: seq<byte>, max: nat, lastLen: nat)
    requires ParseRequest(s, max).Done? && lastLen < ParseRequest(s, max).value.1
    ensures ScanStart(lastLen) <= |s| && RequestCall(s, max, lastLen) == ParseRequest(s, max)
  {
    var e := RequestShape(s, max);
    ScanSucceeds(s, lastLen, e, ParseRequest(s, max).value.1);
  }

  lemma ResponseShortcutLosesNothing(s: seq<byte>, max: nat, lastLen: nat)
    requires ParseResponse(s, max).Done? && lastLen < ParseResponse(s, max).value.1
    ensures ScanStart(lastLen) <= |s| && ResponseCall(s, max, lastLen) == ParseResponse(s, max)
  {
    var e := ResponseShape(s, max);
    ScanSucceeds(s, lastLen, e, ParseResponse(s, max).value.1);
  }

  /** A line break at `e`, directly at `i` after `breaks` others or directly after another, with no bare CR before its end. */
  ghost predicate BlankLineAt(s: seq<byte>, i: nat, breaks: nat, e: nat, k: nat) {
    && e < |s| && LineBreak(s, e) == Done(k) && NoBareCr(s, i, k)
    && if e == i then breaks == 1 else i < e && s[e - 1] == LF
  }

  ghost predicate BlankLineAhead(s: seq<byte>, i: nat, breaks: nat) {
    exists e, k :: BlankLineAt(s, i, breaks, e, k)
  }

  /** From `i` on there is a CR that some other byte than LF follows. */
  ghost predicate BareCrAhead(s: seq<byte>, i: nat) {
    exists m :: i <= m < |s| - 1 && s[m] == CR && s[m + 1] != LF
  }

  lemma {:induction false} CompleteEnd(s: seq<byte>, i: nat, breaks: nat) returns (e: nat, k: nat)
    requires i <= |s| && breaks <= 1 && Complete(s, i, breaks).Done?
    ensures BlankLineAt(s, i, breaks, e, k)
    decreases |s| - i
  {
    if s[i] == CR || s[i] == LF {
      var next := LineBreak(s, i).value;
      LineBreakShape(s, i);
      if breaks == 1 {
        e, k := i, next;
      } else {
        e, k := CompleteEnd(s, next, 1);
        NoBareCrJoin(s, i, next, k);
      }
    } else {
      e, k := CompleteEnd(s, i + 1, 0);
      OneByte(s, i);
      NoBareCrJoin(s, i, i + 1, k);
    }
  }

  lemma {:induction false} CompleteMoreHasNoBareCr(s: seq<byte>, i: nat, breaks: nat, m: nat)
    requires i <= m < |s| - 1 && breaks <= 1 && s[m] == CR && Complete(s, i, breaks).More?
    ensures s[m + 1] == LF
    decreases |s| - i
  {
    if s[i] == CR || s[i] == LF {
      var next := LineBreak(s, i).value;
      if next <= m { CompleteMoreHasNoBareCr(s, next, breaks + 1, m); }
    } else {
      CompleteMoreHasNoBareCr(s, i + 1, 0, m);
    }
  }

  lemma {:induction false} CompleteBadHasBareCr(s: seq<byte>, i: nat, breaks: nat) returns (m: nat)
    requires i <= |s| && breaks <= 1 && Complete(s, i, breaks) == Bad
    ensures i <= m < |s| - 1 && s[m] == CR && s[m + 1] != LF
    decreases |s| - i
  {
    if s[i] == CR && LineBreak(s, i) == Bad {
      m := i;
    } else if s[i] == CR || s[i] == LF {
      m := CompleteBadHasBareCr(s, LineBreak(s, i).value, breaks + 1);
    } else {
      m := CompleteBadHasBareCr(s, i + 1, 0);
    }
  }

  /** What the scan looks for, in terms of the text alone, and what it answers when there is none. */
  lemma CompleteExactly(s: seq<byte>, i: nat, breaks: nat)
    requires i <= |s| && breaks <= 1
    ensures Complete(s, i, breaks).Done? <==> BlankLineAhead(s, i, breaks)
    ensures Complete(s, i, breaks).Bad? <==> !BlankLineAhead(s, i, breaks) && BareCrAhead(s, i)
  {
    var r := Complete(s, i, breaks);
    if e: nat, k: nat :| BlankLineAt(s, i, breaks, e, k) {
      if e > i { CompleteFindsEnd(s, i, breaks, e, k); }
    } else if r.Done? {
      var e, k := CompleteEnd(s, i, breaks);
    } else if r.Bad? {
      var m := CompleteBadHasBareCr(s, i, breaks);
    } else if m :| i <= m < |s| - 1 && s[m] == CR && s[m + 1] != LF {
      CompleteMoreHasNoBareCr(s, i, breaks, m);
    }
  }

  /**
   What any call answers whose full parse would answer `full`: that, if the caller has offered nothing yet
   or there is a blank line from three bytes before the new ones on; otherwise it rejects a bare CR there
   and asks for more if there is none.
   */
  lemma CallsExactly<T>(s: seq<byte>, lastLen: nat, full: Parse<T>)
    requires lastLen <= |s|
    ensures var start := if lastLen < 3 then 0 else lastLen - 3;
            WithShortcut(s, lastLen, full) ==
            if lastLen == 0 || BlankLineAhead(s, start, 0) then full else if BareCrAhead(s, start) then Bad else More
  {
    hide BlankLineAhead, BareCrAhead, Complete;
    CompleteExactly(s, if lastLen < 3 then 0 else lastLen - 3, 0);
  }

  /**
   A header block that ends in the new bytes is parsed as without the shortcut exactly when it is not
   the empty block CR LF, of which the caller had seen the CR, or when a blank line still comes: a line
   break directly behind the block, or later two in a row, with no bare CR before their end. Otherwise
   the call rejects the block if there is a bare CR and asks for more if there is none.
   */
  lemma HeadersShortcutExactly(s: seq<byte>, max: nat, lastLen: nat)
    requires ParseHeaders(s, 0, max, []).Done? && 0 < lastLen < ParseHeaders(s, 0, max, []).value.1
    ensures ScanStart(lastLen) <= |s|
    ensures var missed := |s| >= 2 && s[..2] == [CR, LF] && !BlankLineAhead(s, 2, 1);
            HeadersCall(s, max, lastLen) ==
            if !missed then ParseHeaders(s, 0, max, []) else if BareCrAhead(s, 2) then Bad else More
  {
    hide BlankLineAhead, BareCrAhead;
    var (hs, k) := ParseHeaders(s, 0, max, []).value;
    var e := ParseHeadersShape(s, 0, max, []);
    if hs == [] {
      assert s[0] == CR && s[1] == LF && lastLen == 1;
      assert s[..2] == [CR, LF];
      assert Complete(s, 0, 0) == Complete(s, 2, 1);
      CompleteExactly(s, 2, 1);
    } else {
      ScanSucceeds(s, lastLen, e, k);
      assert s[0] != CR by { EmptyBlock(s, max); }
      assert |s| >= 2 ==> s[..2][0] == s[0];
    }
  }

  lemma EmptyBlock(s: seq<byte>, max: nat)
    requires ParseHeaders(s, 0, max, []).Done?
    ensures s != [] && (ParseHeaders(s, 0, max, []).value.0 == [] <==> s[0] == CR || s[0] == LF)
  {
    var e := ParseHeadersShape(s, 0, max, []);
    if s[0] != CR && s[0] != LF {
      var (h, next) := ParseHeader(s, 0, true).value;
      var e' := ParseHeadersShape(s, next, max, [] + [h]);
    }
  }

  /** The whole empty block, offered after its first byte, is not reported; with a bare CR behind it, it is rejected. */
  lemma EmptyHeadersAreMissed(max: nat)
    ensures ParseHeaders([CR, LF], 0, max, []) == Done(([], 2)) && HeadersCall([CR, LF], max, 1) == More
    ensures ParseHeaders([CR, LF, CR, SP], 0, max, []) == Done(([], 2)) && HeadersCall([CR, LF, CR, SP], max, 1) == Bad
  {
    var s: seq<byte>, t: seq<byte> := [CR, LF], [CR, LF, CR, SP];
    assert LineBreak(s, 0) == Done(2) && LineBreak(t, 0) == Done(2);
    assert Complete(s, 2, 1) == More && Complete(t, 2, 1) == Bad;
  }

  // Sessions -------------------------------------------------------------------------------------------

  /** The bytes that decided this answer about `s` are in `t` too. */
  ghost predicate Settles<T>(r: Parse<(T, nat)>, s: seq<byte>, t: seq<byte>) {
    match r
    case Done((x, k)) => SameUpTo(s, t, k)
    case Bad => s <= t
    case More => false
  }

  /** What sessions need of a parser: its verdicts are final, and what it accepts ends with a blank line. */
  ghost predicate DecidesOn<T>(parse: seq<byte> -> Parse<(T, nat)>, s: seq<byte>, t: seq<byte>) {
    && (Settles(parse(s), s, t) ==> parse(t) == parse(s))
    && (parse(s).Done? ==>
          var k := parse(s).value.1;
          k <= |s| && NoBareCr(s, 0, k) && exists e :: EndsBlank(s, e, k))
  }

  ghost predicate Decides<T>(parse: seq<byte> -> Parse<(T, nat)>) {
    forall s, t :: DecidesOn(parse, s, t)
  }

  lemma RequestsDecide(max: nat)
    ensures Decides(s => ParseRequest(s, max))
  {
    hide ParseRequest, NoBareCr, EndsBlank, SameUpTo;
    var parse := s => ParseRequest(s, max);
    forall s, t ensures DecidesOn(parse, s, t) {
      if Settles(ParseRequest(s, max), s, t) { RequestVerdictIsFinal(s, t, max); }
      if ParseRequest(s, max).Done? { var e := RequestShape(s, max); }
    }
  }

  lemma ResponsesDecide(max: nat)
    ensures Decides(s => ParseResponse(s, max))
  {
    hide ParseResponse, NoBareCr, EndsBlank, SameUpTo;
    var parse := s => ParseResponse(s, max);
    forall s, t ensures DecidesOn(parse, s, t) {
      if Settles(ParseResponse(s, max), s, t) { ResponseVerdictIsFinal(s, t, max); }
      if ParseResponse(s, max).Done? { var e := ResponseShape(s, max); }
    }
  }

  /** The stream is offered in growing prefixes; each call passes the length of the one before. */
  ghost predicate Growing(s: seq<byte>, lens: seq<nat>) {
    && (forall i :: 0 <= i < |lens| ==> lens[i] <= |s|)
    && (forall i, j :: 0 <= i < j < |lens| ==> lens[i] <= lens[j])
  }

  function LastLen(lens: seq<nat>, i: nat): nat
    requires i < |lens|
  {
    if i == 0 then 0 else lens[i - 1]
  }

  function SessionCall<T>(parse: seq<byte> -> Parse<(T, nat)>, s: seq<byte>, lens: seq<nat>, i: nat): Parse<(T, nat)>
    requires i < |lens| && lens[i] <= |s| && LastLen(lens, i) <= lens[i]
  {
    WithShortcut(s[..lens[i]], LastLen(lens, i), parse(s[..lens[i]]))
  }

  ghost predicate AllIncomplete<T>(parse: seq<byte> -> Parse<(T, nat)>, s: seq<byte>, lens: seq<nat>, n: nat)
    requires Growing(s, lens) && n <= |lens|
  {
    forall i :: 0 <= i < n ==> SessionCall(parse, s, lens, i) == More
  }

  /** The first read that holds a complete message is answered with it. */
  lemma {:induction false} SessionNeverMisses<T>(parse: seq<byte> -> Parse<(T, nat)>, s: seq<byte>, lens: seq<nat>, i: nat)
    requires Decides(parse)
    requires Growing(s, lens) && i < |lens| && AllIncomplete(parse, s, lens, i)
    ensures parse(s[..lens[i]]).Done? ==> SessionCall(parse, s, lens, i) == parse(s[..lens[i]])
    decreases i
  {
    hide Complete;
    var now := s[..lens[i]];
    if parse(now).Done? {
      var k := parse(now).value.1;
      if i > 0 && k <= lens[i - 1] {
        var before := s[..lens[i - 1]];
        assert SameUpTo(now, before, k) by { assert now[..k] == s[..k] == before[..k]; }
        assert DecidesOn(parse, now, before);
        assert SessionCall(parse, s, lens, i - 1) == More;
        SessionNeverMisses(parse, s, lens, i - 1);
      } else {
        assert DecidesOn(parse, now, now);
        var e :| EndsBlank(now, e, k);
        ScanSucceeds(now, LastLen(lens, i), e, k);
      }
    }
  }

  /** A rejection during a session is final too: no continuation of the stream would be accepted. */
  lemma SessionRejectsForGood<T>(
      parse: seq<byte> -> Parse<(T, nat)>, s: seq<byte>, lens: seq<nat>, i: nat, t: seq<byte>)
    requires Decides(parse)
    requires Growing(s, lens) && i < |lens| && AllIncomplete(parse, s, lens, i)
    requires SessionCall(parse, s, lens, i) == Bad
    requires s[..lens[i]] <= t
    ensures !parse(t).Done?
  {
    hide Complete;
    var now := s[..lens[i]];
    if parse(t).Done? {
      var k := parse(t).value.1;
      assert DecidesOn(parse, t, now) && DecidesOn(parse, now, t);
      if k <= |now| {
        assert SameUpTo(t, now, k) by { assert t[..|now|] == now; assert t[..k] == t[..|now|][..k]; }
        SessionNeverMisses(parse, s, lens, i);
      } else if parse(now) != Bad {
        var m := CompleteBadHasBareCr(now, ScanStart(LastLen(lens, i)), 0);
        BareCrStays(now, t, m, k);
      }
    }
  }

  lemma BareCrStays(s: seq<byte>, t: seq<byte>, m: nat, k: nat)
    requires s <= t && m < |s| - 1 && s[m] == CR && s[m + 1] != LF && |s| < k
    ensures !NoBareCr(t, 0, k)
  {
    assert t[m] == s[m] && t[m + 1] == s[m + 1];
  }

  /** "More" is answered exactly as long as nothing is decided: no shorter input had an answer either. */
  lemma MoreMeansUndecided<T>(parse: seq<byte> -> Parse<(T, nat)>, s: seq<byte>)
    requires Decides(parse)
    ensures parse(s).More? <==> forall n :: 0 <= n <= |s| ==> parse(s[..n]).More?
  {
    assert s[..|s|] == s;
    forall n | 0 <= n <= |s| && parse(s).More? ensures parse(s[..n]).More? {
      var p := s[..n];
      assert DecidesOn(parse, p, s);
      if parse(p).Done? { assert p[..parse(p).value.1] == s[..parse(p).value.1]; }
    }
  }
}
