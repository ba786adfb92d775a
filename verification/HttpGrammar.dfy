/**
 Requests, responses and header blocks as text, independently of the parser: sections 3.1.1, 3.1.2
 and 3.2 of RFC 7230, widened by what the parser tolerates (bare LF, repeated spaces, an empty line
 in front of a request, folded header lines). The parser accepts exactly these texts and finds in
 them exactly the fields they were written from.
 */
module HttpGrammar {
  import opened Bytes
  import opened HttpSyntax

  datatype Break = Crlf | Lf

  function BreakText(b: Break): seq<byte> {
    if b.Crlf? then [CR, LF] else [LF]
  }

  /** `gap` and `trail` are the optional blanks around a value. A folded line continues the one before. */
  datatype HeaderText =
    | Field(name: seq<byte>, gap: seq<byte>, value: seq<byte>, trail: seq<byte>, end: Break)
    | Folded(value: seq<byte>, trail: seq<byte>, end: Break)

  ghost predicate All(k: Kind, p: seq<byte>) {
    forall i :: 0 <= i < |p| ==> Classify(k, p[i]) == Pass
  }

  ghost predicate ValidValue(value: seq<byte>, trail: seq<byte>) {
    && All(LineText, value) && All(Blanks, trail)
    && (value != [] ==> !IsBlank(value[|value| - 1]))
  }

  ghost predicate ValidHeader(h: HeaderText, first: bool) {
    ValidValue(h.value, h.trail) &&
    match h
    case Field(name, gap, value, trail, _) =>
      && name != [] && All(Token(COLON), name)
      && All(Blanks, gap)
      && (if value == [] then trail == [] else !IsBlank(value[0]))
    case Folded(value, trail, _) =>
      && !first
      && (if value == [] then trail != [] else IsBlank(value[0]))
  }

  ghost predicate ValidHeaders(hs: seq<HeaderText>, first: bool) {
    hs == [] || (ValidHeader(hs[0], first) && ValidHeaders(hs[1..], false))
  }

  function PrintHeader(h: HeaderText): seq<byte> {
    match h
    case Field(name, gap, value, trail, end) => name + ([COLON] + (gap + (value + (trail + BreakText(end)))))
    case Folded(value, trail, end) => value + (trail + BreakText(end))
  }

  function PrintHeaders(hs: seq<HeaderText>): seq<byte> {
    if hs == [] then [] else PrintHeader(hs[0]) + PrintHeaders(hs[1..])
  }

  /** Where the fields of a header written at `i` lie. */
  function LocateHeader(h: HeaderText, i: nat): Header {
    match h
    case Field(name, gap, value, trail, end) =>
      var v := i + |name| + 1 + |gap|;
      Header(Slice(i, i + |name|), Slice(v, v + |value|))
    case Folded(value, trail, end) => Continuation(Slice(i, i + |value|))
  }

  function LocateHeaders(hs: seq<HeaderText>, i: nat): (r: seq<Header>)
    ensures |r| == |hs|
  {
    if hs == [] then [] else [LocateHeader(hs[0], i)] + LocateHeaders(hs[1..], i + |PrintHeader(hs[0])|)
  }

  // Text at a place --------------------------------------------------------------------------------

  ghost predicate At(s: seq<byte>, i: nat, p: seq<byte>) {
    i + |p| <= |s| && s[i..i + |p|] == p
  }

  lemma AtSplit(s: seq<byte>, i: nat, p: seq<byte>, q: seq<byte>)
    ensures At(s, i, p + q) <==> At(s, i, p) && At(s, i + |p|, q)
    ensures At(s, i, p + q) ==> i + |p| + |q| <= |s|
  {
    if i + |p + q| <= |s| {
      assert s[i..i + |p + q|] == s[i..i + |p|] + s[i + |p|..i + |p| + |q|];
      assert (p + q)[..|p|] == p && (p + q)[|p|..] == q;
      assert s[i..i + |p + q|][..|p|] == s[i..i + |p|] && s[i..i + |p + q|][|p|..] == s[i + |p|..i + |p| + |q|];
    }
  }

  lemma AtByte(s: seq<byte>, i: nat, p: seq<byte>, m: nat)
    requires At(s, i, p) && m < |p|
    ensures i + |p| <= |s| && s[i + m] == p[m]
  {
    assert s[i..i + |p|][m] == p[m];
  }

  lemma FindAt(k: Kind, s: seq<byte>, i: nat, p: seq<byte>)
    requires At(s, i, p) && All(k, p) && i + |p| < |s| && Classify(k, s[i + |p|]) == Stop
    ensures Find(k, s, i) == Done(i + |p|)
  {
    forall m | i <= m < i + |p| ensures Classify(k, s[m]) == Pass {
      AtByte(s, i, p, m - i);
      assert Classify(k, p[m - i]) == Pass;
    }
    FindSkips(k, s, i, i + |p|);
  }

  lemma TextOfFind(k: Kind, s: seq<byte>, i: nat) returns (p: seq<byte>)
    requires i <= |s| && Find(k, s, i).Done?
    ensures At(s, i, p) && All(k, p) && Find(k, s, i).value == i + |p|
  {
    FindPasses(k, s, i);
    p := s[i..Find(k, s, i).value];
  }

  lemma BreakAt(s: seq<byte>, i: nat, b: Break)
    requires At(s, i, BreakText(b))
    ensures LineBreak(s, i) == Done(i + |BreakText(b)|)
    ensures i < |s| && (s[i] == CR || s[i] == LF)
  {
    AtByte(s, i, BreakText(b), 0);
    if b.Crlf? { AtByte(s, i, BreakText(b), 1); }
  }

  lemma TextOfBreak(s: seq<byte>, i: nat) returns (b: Break)
    requires i <= |s| && LineBreak(s, i).Done?
    ensures At(s, i, BreakText(b)) && LineBreak(s, i).value == i + |BreakText(b)|
  {
    b := if s[i] == CR then Crlf else Lf;
  }

  lemma AllJoin(k: Kind, p: seq<byte>, q: seq<byte>)
    ensures All(k, p + q) <==> All(k, p) && All(k, q)
  {
    assert forall i :: 0 <= i < |p| ==> (p + q)[i] == p[i];
    assert forall i :: 0 <= i < |q| ==> q[i] == (p + q)[|p| + i];
  }

  lemma BlanksAreText(p: seq<byte>)
    requires All(Blanks, p)
    ensures All(LineText, p)
  {
    assert forall i :: 0 <= i < |p| ==> Classify(Blanks, p[i]) == Pass;
  }

  lemma {:induction false} TrimAt(s: seq<byte>, i: nat, value: seq<byte>, trail: seq<byte>)
    requires At(s, i, value) && At(s, i + |value|, trail) && ValidValue(value, trail)
    ensures TrimRight(s, i, i + |value| + |trail|) == i + |value|
    decreases |trail|
  {
    if trail == [] {
      if value != [] { AtByte(s, i, value, |value| - 1); }
    } else {
      AtByte(s, i + |value|, trail, |trail| - 1);
      assert Classify(Blanks, trail[|trail| - 1]) == Pass;
      assert trail == trail[..|trail| - 1] + [trail[|trail| - 1]];
      AtSplit(s, i + |value|, trail[..|trail| - 1], [trail[|trail| - 1]]);
      TrimAt(s, i, value, trail[..|trail| - 1]);
    }
  }

  lemma ToEolAt(s: seq<byte>, i: nat, text: seq<byte>, end: Break)
    requires All(LineText, text) && At(s, i, text + BreakText(end))
    ensures i < |s| && s[i] == (text + BreakText(end))[0]
    ensures ToEol(s, i) == Done((Slice(i, i + |text|), i + |text| + |BreakText(end)|))
  {
    hide Find, At, All;
    AtSplit(s, i, text, BreakText(end));
    BreakAt(s, i + |text|, end);
    FindAt(LineText, s, i, text);
    AtByte(s, i, text + BreakText(end), 0);
  }

  /** A value with blanks behind it, up to the end of the line. */
  lemma ValueAt(s: seq<byte>, i: nat, value: seq<byte>, trail: seq<byte>, end: Break)
    requires ValidValue(value, trail) && At(s, i, value + (trail + BreakText(end)))
    ensures i < |s| && s[i] == (value + (trail + BreakText(end)))[0]
    ensures ToEol(s, i) == Done((Slice(i, i + |value| + |trail|), i + |value| + |trail| + |BreakText(end)|))
    ensures TrimRight(s, i, i + |value| + |trail|) == i + |value|
  {
    hide Find, At, All, TrimRight, ToEol;
    assert value + (trail + BreakText(end)) == (value + trail) + BreakText(end);
    AtSplit(s, i, value + trail, BreakText(end));
    AtSplit(s, i, value, trail);
    BlanksAreText(trail);
    AllJoin(LineText, value, trail);
    ToEolAt(s, i, value + trail, end);
    TrimAt(s, i, value, trail);
  }

  lemma TextOfLine(s: seq<byte>, i: nat) returns (text: seq<byte>, end: Break)
    requires i <= |s| && ToEol(s, i).Done?
    ensures All(LineText, text) && At(s, i, text) && At(s, i, text + BreakText(end))
    ensures ToEol(s, i).value == (Slice(i, i + |text|), i + |text + BreakText(end)|)
  {
    hide Find, At, All, LineBreak;
    text := TextOfFind(LineText, s, i);
    end := TextOfBreak(s, i + |text|);
    AtSplit(s, i, text, BreakText(end));
  }

  lemma TextOfValue(s: seq<byte>, i: nat) returns (value: seq<byte>, trail: seq<byte>, end: Break)
    requires i <= |s| && ToEol(s, i).Done?
    ensures ValidValue(value, trail) && At(s, i, value + (trail + BreakText(end)))
    ensures ToEol(s, i).value == (Slice(i, i + |value| + |trail|), i + |value + (trail + BreakText(end))|)
    ensures TrimRight(s, i, i + |value| + |trail|) == i + |value|
  {
    hide ToEol, Find;
    var text;
    text, end := TextOfLine(s, i);
    value, trail := TrimText(s, i, text);
    AllJoin(LineText, value, trail);
    assert value + (trail + BreakText(end)) == text + BreakText(end);
  }

  lemma TrimText(s: seq<byte>, i: nat, text: seq<byte>) returns (value: seq<byte>, trail: seq<byte>)
    requires At(s, i, text)
    ensures text == value + trail && All(Blanks, trail) && (value != [] ==> !IsBlank(value[|value| - 1]))
    ensures TrimRight(s, i, i + |text|) == i + |value|
  {
    var e := TrimRight(s, i, i + |text|);
    value, trail := s[i..e], s[e..i + |text|];
  }

  // Headers ------------------------------------------------------------------------------------------

  lemma FieldParts(s: seq<byte>, i: nat, h: HeaderText)
    requires h.Field? && At(s, i, PrintHeader(h))
    ensures var colon, v := i + |h.name|, i + |h.name| + 1 + |h.gap|;
            && At(s, i, h.name) && At(s, colon + 1, h.gap) && At(s, v, h.value + (h.trail + BreakText(h.end)))
            && colon < |s| && s[colon] == COLON
            && |PrintHeader(h)| == v - i + |h.value| + |h.trail| + |BreakText(h.end)|
  {
    hide At;
    var rest := h.value + (h.trail + BreakText(h.end));
    AtSplit(s, i, h.name, [COLON] + (h.gap + rest));
    AtSplit(s, i + |h.name|, [COLON], h.gap + rest);
    AtSplit(s, i + |h.name| + 1, h.gap, rest);
    AtByte(s, i + |h.name|, [COLON], 0);
  }

  lemma FieldAt(s: seq<byte>, i: nat, h: HeaderText, first: bool)
    requires h.Field? && ValidHeader(h, first) && At(s, i, PrintHeader(h))
    ensures i < |s| && IsTchar(s[i])
    ensures ParseHeader(s, i, first) == Done((LocateHeader(h, i), i + |PrintHeader(h)|))
  {
    hide Find, ToEol, TrimRight, ValidValue, At, All, IsTchar, PrintHeader;
    var colon, v := i + |h.name|, i + |h.name| + 1 + |h.gap|;
    FieldParts(s, i, h);
    AtByte(s, i, h.name, 0);
    AllTchars(h.name, 0);
    TcharsAreNoBlanks(s[i]);
    FindAt(Token(COLON), s, i, h.name);
    ValueAt(s, v, h.value, h.trail, h.end);
    FindAt(Blanks, s, colon + 1, h.gap);
  }

  lemma AllTchars(name: seq<byte>, i: nat)
    requires All(Token(COLON), name) && i < |name|
    ensures IsTchar(name[i])
  {
    assert Classify(Token(COLON), name[i]) == Pass;
  }

  lemma TcharsAreNoBlanks(b: byte)
    requires IsTchar(b)
    ensures !IsBlank(b) && b != CR && b != LF && b != COLON
  {}

  lemma HeaderAt(s: seq<byte>, i: nat, h: HeaderText, first: bool)
    requires ValidHeader(h, first) && At(s, i, PrintHeader(h))
    ensures i < |s| && s[i] != CR && s[i] != LF
    ensures ParseHeader(s, i, first) == Done((LocateHeader(h, i), i + |PrintHeader(h)|))
  {
    if h.Folded? {
      hide Find, ToEol, TrimRight, ValidValue, At, All;
      ValueAt(s, i, h.value, h.trail, h.end);
      FoldedStart(h.value, h.trail, h.end);
    } else {
      hide *;
      FieldAt(s, i, h, first);
      TcharsAreNoBlanks(s[i]);
    }
  }

  lemma FoldedStart(value: seq<byte>, trail: seq<byte>, end: Break)
    requires ValidHeader(Folded(value, trail, end), false)
    ensures IsBlank((value + (trail + BreakText(end)))[0])
  {
    if value == [] { assert Classify(Blanks, trail[0]) == Pass; }
  }

  lemma TextOfFolded(s: seq<byte>, i: nat) returns (h: HeaderText)
    requires i < |s| && IsBlank(s[i]) && ToEol(s, i).Done?
    ensures h.Folded? && ValidHeader(h, false) && At(s, i, PrintHeader(h))
    ensures ParseHeader(s, i, false) == Done((LocateHeader(h, i), i + |PrintHeader(h)|))
  {
    hide ToEol, TrimRight, At, ValidValue;
    var value, trail, end := TextOfValue(s, i);
    h := Folded(value, trail, end);
    AtByte(s, i, PrintHeader(h), 0);
  }

  lemma FieldText(s: seq<byte>, i: nat, name: seq<byte>, gap: seq<byte>, value: seq<byte>, trail: seq<byte>, end: Break)
    requires name != [] && All(Token(COLON), name) && All(Blanks, gap) && ValidValue(value, trail)
    requires var v := i + |name| + 1 + |gap|;
             && At(s, i, name) && i + |name| < |s| && s[i + |name|] == COLON && At(s, i + |name| + 1, gap)
             && At(s, v, value + (trail + BreakText(end))) && v < |s| && !IsBlank(s[v])
    ensures var h := Field(name, gap, value, trail, end);
            && ValidHeader(h, true) && ValidHeader(h, false)
            && At(s, i, PrintHeader(h))
  {
    hide ValidValue, At, All;
    var rest := value + (trail + BreakText(end));
    var colon := i + |name|;
    AtByte(s, colon + 1 + |gap|, rest, 0);
    UnblankStart(value, trail, end);
    AtSplit(s, colon + 1, gap, rest);
    AtColon(s, colon);
    AtSplit(s, colon, [COLON], gap + rest);
    AtSplit(s, i, name, [COLON] + (gap + rest));
  }

  lemma AtColon(s: seq<byte>, i: nat)
    requires i < |s| && s[i] == COLON
    ensures At(s, i, [COLON])
  {}

  lemma UnblankStart(value: seq<byte>, trail: seq<byte>, end: Break)
    requires ValidValue(value, trail) && !IsBlank((value + (trail + BreakText(end)))[0])
    ensures if value == [] then trail == [] else !IsBlank(value[0])
  {
    if value == [] && trail != [] { FirstBlank(value, trail); }
  }

  lemma FirstBlank(value: seq<byte>, trail: seq<byte>)
    requires ValidValue(value, trail) && trail != []
    ensures IsBlank(trail[0])
  {
    assert Classify(Blanks, trail[0]) == Pass;
  }

  lemma TextOfHeader(s: seq<byte>, i: nat, first: bool) returns (h: HeaderText)
    requires i < |s| && ParseHeader(s, i, first).Done?
    ensures ValidHeader(h, first) && At(s, i, PrintHeader(h))
    ensures ParseHeader(s, i, first).value == (LocateHeader(h, i), i + |PrintHeader(h)|)
  {
    hide Find, ToEol, TrimRight, At, ValidValue, ValidHeader, All;
    if !first && IsBlank(s[i]) {
      h := TextOfFolded(s, i);
    } else {
      var name := TextOfFind(Token(COLON), s, i);
      var colon := i + |name|;
      StopAt(Token(COLON), s, i);
      var gap := TextOfFind(Blanks, s, colon + 1);
      var v := colon + 1 + |gap|;
      StopAt(Blanks, s, colon + 1);
      var value, trail, end := TextOfValue(s, v);
      h := Field(name, gap, value, trail, end);
      FieldText(s, i, name, gap, value, trail, end);
    }
  }

  lemma StopAt(k: Kind, s: seq<byte>, i: nat)
    requires i <= |s| && Find(k, s, i).Done?
    ensures i <= Find(k, s, i).value < |s| && Classify(k, s[Find(k, s, i).value]) == Stop
  {}

  lemma PrintCons(hs: seq<HeaderText>, end: Break)
    requires hs != []
    ensures PrintHeaders(hs) + BreakText(end) == PrintHeader(hs[0]) + (PrintHeaders(hs[1..]) + BreakText(end))
  {
    hide PrintHeader;
  }

  lemma LocateCons(hs: seq<HeaderText>, i: nat, acc: seq<Header>)
    requires hs != []
    ensures acc + LocateHeaders(hs, i) ==
            (acc + [LocateHeader(hs[0], i)]) + LocateHeaders(hs[1..], i + |PrintHeader(hs[0])|)
  {
    hide PrintHeader, LocateHeader;
  }

  lemma {:induction false} HeadersAt(s: seq<byte>, i: nat, hs: seq<HeaderText>, end: Break, max: nat, acc: seq<Header>)
    requires ValidHeaders(hs, acc == []) && |acc| + |hs| <= max
    requires At(s, i, PrintHeaders(hs) + BreakText(end))
    ensures i <= |s|
    ensures ParseHeaders(s, i, max, acc) ==
            Done((acc + LocateHeaders(hs, i), i + |PrintHeaders(hs) + BreakText(end)|))
    decreases |hs|
  {
    hide ParseHeader, PrintHeader, LocateHeader, ValidHeader, At;
    if hs == [] {
      assert PrintHeaders(hs) + BreakText(end) == BreakText(end);
      assert acc + [] == acc;
      BreakAt(s, i, end);
    } else {
      hide PrintHeaders, LocateHeaders;
      var first := PrintHeader(hs[0]);
      PrintCons(hs, end);
      LocateCons(hs, i, acc);
      AtSplit(s, i, first, PrintHeaders(hs[1..]) + BreakText(end));
      HeaderAt(s, i, hs[0], acc == []);
      HeadersAt(s, i + |first|, hs[1..], end, max, acc + [LocateHeader(hs[0], i)]);
    }
  }

  lemma {:induction false} TextOfHeaders(s: seq<byte>, i: nat, max: nat, acc: seq<Header>) returns (hs: seq<HeaderText>, end: Break)
    requires i <= |s| && |acc| <= max && ParseHeaders(s, i, max, acc).Done?
    ensures ValidHeaders(hs, acc == []) && |acc| + |hs| <= max
    ensures At(s, i, PrintHeaders(hs) + BreakText(end))
    decreases |s| - i
  {
    hide ParseHeader, PrintHeader, LocateHeader, ValidHeader;
    if s[i] == CR || s[i] == LF {
      hs := [];
      end := TextOfBreak(s, i);
      assert PrintHeaders(hs) + BreakText(end) == BreakText(end);
    } else {
      var h := TextOfHeader(s, i, acc == []);
      var next := i + |PrintHeader(h)|;
      var more;
      more, end := TextOfHeaders(s, next, max, acc + [LocateHeader(h, i)]);
      hs := [h] + more;
      AtSplit(s, i, PrintHeader(h), PrintHeaders(more) + BreakText(end));
      assert PrintHeaders(hs) + BreakText(end) == PrintHeader(h) + (PrintHeaders(more) + BreakText(end));
    }
  }

  /** `max` headers and the beginning of one more are rejected. */
  lemma {:induction false} TooManyHeaders(s: seq<byte>, i: nat, hs: seq<HeaderText>, max: nat, acc: seq<Header>)
    requires ValidHeaders(hs, acc == []) && |acc| <= max < |acc| + |hs|
    requires At(s, i, PrintHeaders(hs))
    ensures i <= |s| && ParseHeaders(s, i, max, acc) == Bad
    decreases |hs|
  {
    hide ParseHeader, PrintHeader, LocateHeader, ValidHeader;
    var first, rest := PrintHeader(hs[0]), PrintHeaders(hs[1..]);
    AtSplit(s, i, first, rest);
    HeaderAt(s, i, hs[0], acc == []);
    if |acc| < max {
      TooManyHeaders(s, i + |first|, hs[1..], max, acc + [LocateHeader(hs[0], i)]);
    }
  }
}
