/** What the returned slices are: the fields of the text, in order, disjoint, inside what was consumed. */
module HttpFields {
  import opened Bytes
  import opened HttpSyntax
  import opened HttpGrammar
  import opened HttpMessages

  ghost predicate Inside(s: seq<byte>, x: Slice) {
    x.start <= x.end <= |s|
  }

  function Text(s: seq<byte>, x: Slice): seq<byte>
    requires Inside(s, x)
  {
    s[x.start..x.end]
  }

  /** Header `h`, found in `s`, carries what header text `t` was written from. */
  ghost predicate Reads(s: seq<byte>, h: Header, t: HeaderText) {
    && Inside(s, h.value) && Text(s, h.value) == t.value
    && match t
       case Field(name, _, _, _, _) => h.Header? && Inside(s, h.name) && Text(s, h.name) == name
       case Folded(_, _, _) => h.Continuation?
  }

  lemma HeaderReads(s: seq<byte>, i: nat, t: HeaderText)
    requires At(s, i, PrintHeader(t))
    ensures Reads(s, LocateHeader(t, i), t)
  {
    match t
    case Folded(value, trail, end) => AtSplit(s, i, value, trail + BreakText(end));
    case Field(name, gap, value, trail, end) =>
      FieldParts(s, i, t);
      AtSplit(s, i + |name| + 1 + |gap|, value, trail + BreakText(end));
  }

  lemma {:induction false} HeadersRead(s: seq<byte>, i: nat, ts: seq<HeaderText>, j: nat)
    requires At(s, i, PrintHeaders(ts)) && j < |ts|
    ensures Reads(s, LocateHeaders(ts, i)[j], ts[j])
    decreases |ts|
  {
    hide PrintHeader, LocateHeader, At, Reads;
    AtSplit(s, i, PrintHeader(ts[0]), PrintHeaders(ts[1..]));
    if j == 0 {
      HeaderReads(s, i, ts[0]);
    } else {
      HeadersRead(s, i + |PrintHeader(ts[0])|, ts[1..], j - 1);
    }
  }

  lemma RequestParts(s: seq<byte>, x: RequestText)
    requires ValidRequestText(x) && At(s, 0, PrintRequest(x))
    ensures var i := |LeadText(x.lead)|;
            At(s, i, x.verb) && At(s, i + |x.verb| + x.sp1, x.path) && At(s, |RequestLineText(x)|, PrintHeaders(x.headers))
  {
    hide At, PrintHeaders, ValidHeaders, All, VersionText;
    var line, target := RequestLineText(x), TargetText(x);
    var rest := VersionText(x.minor) + BreakText(x.end);
    var i := |LeadText(x.lead)|;
    AtSplit(s, 0, line, BlockText(x.headers, x.blank));
    AtSplit(s, |line|, PrintHeaders(x.headers), BreakText(x.blank));
    AtSplit(s, 0, LeadText(x.lead), target + rest);
    AtSplit(s, i, target, rest);
    AtSplit(s, i, x.verb, Spaced(x.sp1) + (x.path + Spaced(x.sp2)));
    AtSplit(s, i + |x.verb|, Spaced(x.sp1), x.path + Spaced(x.sp2));
    AtSplit(s, i + |x.verb| + x.sp1, x.path, Spaced(x.sp2));
  }

  /** The slices of a printed request are its method, its path and its headers' names and values. */
  lemma RequestFieldsRead(s: seq<byte>, x: RequestText)
    requires ValidRequestText(x) && At(s, 0, PrintRequest(x))
    ensures var q := LocateRequest(x);
            && Inside(s, q.verb) && Text(s, q.verb) == x.verb
            && Inside(s, q.path) && Text(s, q.path) == x.path
            && q.minor == x.minor && |q.headers| == |x.headers|
            && forall j :: 0 <= j < |x.headers| ==> Reads(s, q.headers[j], x.headers[j])
  {
    hide PrintHeaders, LocateHeaders, ValidHeaders, All, RequestLineText, PrintRequest, Reads;
    RequestParts(s, x);
    forall j | 0 <= j < |x.headers| ensures Reads(s, LocateRequest(x).headers[j], x.headers[j]) {
      HeadersRead(s, |RequestLineText(x)|, x.headers, j);
    }
  }

  lemma ResponseParts(s: seq<byte>, x: ResponseText)
    requires ValidResponseText(x) && At(s, 0, PrintResponse(x))
    ensures At(s, 8 + x.sp + 3 + x.gap, x.msg) && At(s, |StatusLineText(x)|, PrintHeaders(x.headers))
    ensures At(s, 8 + x.sp, StatusText(x.status)) && At(s, 8 + x.sp + 3, Spaced(x.gap))
  {
    hide At, PrintHeaders, ValidHeaders, All, VersionText, StatusText;
    VersionLength(x.minor);
    StatusLength(x.status);
    var i := 8 + x.sp + 3;
    AtSplit(s, 0, StatusLineText(x), BlockText(x.headers, x.blank));
    AtSplit(s, |StatusLineText(x)|, PrintHeaders(x.headers), BreakText(x.blank));
    AtSplit(s, 0, VersionText(x.minor), Spaced(x.sp) + (StatusText(x.status) + ReasonText(x)));
    AtSplit(s, 8, Spaced(x.sp), StatusText(x.status) + ReasonText(x));
    AtSplit(s, 8 + x.sp, StatusText(x.status), ReasonText(x));
    AtSplit(s, i, Spaced(x.gap) + x.msg, BreakText(x.end));
    AtSplit(s, i, Spaced(x.gap), x.msg);
  }

  lemma SpacesAreThere(s: seq<byte>, x: ResponseText)
    requires ValidResponseText(x) && At(s, 0, PrintResponse(x))
    ensures var i := 8 + x.sp + 3; SpacesBehindStatus(s, x.status, i, i + x.gap)
  {
    hide PrintHeaders, ValidHeaders, All;
    var i := 8 + x.sp + 3;
    ResponseParts(s, x);
    StatusLength(x.status);
    forall m | i <= m < i + x.gap ensures s[m] == SP { AtByte(s, i, Spaced(x.gap), m - i); }
  }

  lemma ResponseFieldsRead(s: seq<byte>, x: ResponseText)
    requires ValidResponseText(x) && At(s, 0, PrintResponse(x))
    ensures var q := LocateResponse(x);
            && Inside(s, q.msg) && Text(s, q.msg) == x.msg
            && q.minor == x.minor && q.status == x.status && |q.headers| == |x.headers|
            && forall j :: 0 <= j < |x.headers| ==> Reads(s, q.headers[j], x.headers[j])
  {
    hide PrintHeaders, LocateHeaders, ValidHeaders, All, StatusLineText, PrintResponse, Reads;
    ResponseParts(s, x);
    forall j | 0 <= j < |x.headers| ensures Reads(s, LocateResponse(x).headers[j], x.headers[j]) {
      HeadersRead(s, |StatusLineText(x)|, x.headers, j);
    }
  }

  /** Names before values, header after header, from `from` and before `to`. */
  ghost predicate InOrder(hs: seq<Header>, from: nat, to: nat) {
    if hs == [] then from <= to
    else
      var h := hs[0];
      && (h.Header? ==> from <= h.name.start < h.name.end < h.value.start)
      && from <= h.value.start <= h.value.end
      && InOrder(hs[1..], h.value.end + 1, to)
  }

  lemma {:induction false} InOrderWider(hs: seq<Header>, from: nat, to: nat, from': nat, to': nat)
    requires InOrder(hs, from, to) && from' <= from && to <= to'
    ensures InOrder(hs, from', to')
    decreases |hs|
  {
    if hs != [] { InOrderWider(hs[1..], hs[0].value.end + 1, to, hs[0].value.end + 1, to'); }
  }

  lemma LocatedInside(t: HeaderText, i: nat, first: bool)
    requires ValidHeader(t, first)
    ensures var h := LocateHeader(t, i);
            && (h.Header? ==> i <= h.name.start < h.name.end < h.value.start)
            && i <= h.value.start <= h.value.end < i + |PrintHeader(t)|
  {
    hide ValidValue, All;
  }

  lemma {:induction false} LocatedInOrder(ts: seq<HeaderText>, i: nat, first: bool)
    requires ValidHeaders(ts, first)
    ensures InOrder(LocateHeaders(ts, i), i, i + |PrintHeaders(ts)|)
    decreases |ts|
  {
    hide ValidHeader, LocateHeader, PrintHeader;
    if ts != [] {
      var h, n, to := LocateHeader(ts[0], i), |PrintHeader(ts[0])|, i + |PrintHeaders(ts)|;
      LocatedInside(ts[0], i, first);
      LocatedInOrder(ts[1..], i + n, false);
      InOrderWider(LocateHeaders(ts[1..], i + n), i + n, to, h.value.end + 1, to);
      assert LocateHeaders(ts, i)[1..] == LocateHeaders(ts[1..], i + n);
    }
  }

  /** A named header has a name and a value without blanks around it; the first header is named. */
  ghost predicate Tidy(s: seq<byte>, h: Header, first: bool) {
    && Inside(s, h.value)
    && (h.value.start < h.value.end ==> !IsBlank(s[h.value.end - 1]))
    && (h.Header? ==> Inside(s, h.name) && h.name.start < h.name.end)
    && (h.Header? && h.value.start < h.value.end ==> !IsBlank(s[h.value.start]))
    && (first ==> h.Header?)
  }

  lemma HeaderIsTidy(s: seq<byte>, h: Header, t: HeaderText, first: bool)
    requires Reads(s, h, t) && ValidHeader(t, first)
    ensures Tidy(s, h, first)
  {
    hide All;
    if h.value.start < h.value.end {
      assert t.value[0] == s[h.value.start] && t.value[|t.value| - 1] == s[h.value.end - 1];
    }
  }

  lemma {:induction false} ValidHeaderAt(ts: seq<HeaderText>, first: bool, j: nat)
    requires ValidHeaders(ts, first) && j < |ts|
    ensures ValidHeader(ts[j], first && j == 0)
    decreases |ts|
  {
    if j > 0 { ValidHeaderAt(ts[1..], false, j - 1); }
  }

  lemma HeaderSlices(s: seq<byte>, i: nat, ts: seq<HeaderText>, from: nat, to: nat)
    requires ValidHeaders(ts, true) && At(s, i, PrintHeaders(ts))
    requires from <= i && i + |PrintHeaders(ts)| <= to
    ensures InOrder(LocateHeaders(ts, i), from, to)
    ensures forall j :: 0 <= j < |ts| ==> Tidy(s, LocateHeaders(ts, i)[j], j == 0)
  {
    hide At, Reads, ValidHeaders, ValidHeader, LocateHeaders, PrintHeaders, InOrder, Tidy;
    var hs := LocateHeaders(ts, i);
    LocatedInOrder(ts, i, true);
    InOrderWider(hs, i, i + |PrintHeaders(ts)|, from, to);
    forall j | 0 <= j < |ts| ensures Tidy(s, hs[j], j == 0) {
      HeadersRead(s, i, ts, j);
      ValidHeaderAt(ts, true, j);
      HeaderIsTidy(s, hs[j], ts[j], j == 0);
    }
  }

  /** What a successful parse of a request promises about the slices it returns. */
  lemma RequestSlices(s: seq<byte>, max: nat)
    requires ParseRequest(s, max).Done?
    ensures var (q, k) := ParseRequest(s, max).value;
            && q.verb.start < q.verb.end < q.path.start < q.path.end < k <= |s|
            && InOrder(q.headers, q.path.end + 1, k)
            && |q.headers| <= max
            && forall j :: 0 <= j < |q.headers| ==> Tidy(s, q.headers[j], j == 0)
  {
    hide ParseRequest, At, ValidHeaders, LocateHeaders, PrintHeaders, InOrder, Tidy, All;
    var (q, k) := ParseRequest(s, max).value;
    AcceptsRequestTextsOnly(s, max, q, k);
    var x :| ValidRequestText(x) && |x.headers| <= max && At(s, 0, PrintRequest(x)) &&
             q == LocateRequest(x) && k == |PrintRequest(x)|;
    RequestParts(s, x);
    HeaderSlices(s, |RequestLineText(x)|, x.headers, q.path.end + 1, k);
    ParsedFits(s, max);
  }

  /** The digits of a status code end at `i`, and from there to the message there are spaces only. */
  ghost predicate SpacesBehindStatus(s: seq<byte>, status: nat, i: nat, msg: nat) {
    && 3 <= i <= msg <= |s| && status <= 999 && s[i - 3..i] == StatusText(status)
    && forall m :: i <= m < msg ==> s[m] == SP
  }

  /** The same of a response; of its message all spaces in front are stripped, and nothing else. */
  lemma ResponseSlices(s: seq<byte>, max: nat)
    requires ParseResponse(s, max).Done?
    ensures var (q, k) := ParseResponse(s, max).value;
            && q.msg.start <= q.msg.end < k <= |s|
            && (q.msg.start < q.msg.end ==> s[q.msg.start] != SP)
            && (exists i :: SpacesBehindStatus(s, q.status, i, q.msg.start))
            && InOrder(q.headers, q.msg.end + 1, k)
            && |q.headers| <= max
            && forall j :: 0 <= j < |q.headers| ==> Tidy(s, q.headers[j], j == 0)
  {
    hide ParseResponse, At, ValidHeaders, LocateHeaders, PrintHeaders, InOrder, Tidy, All;
    var (q, k) := ParseResponse(s, max).value;
    AcceptsResponseTextsOnly(s, max, q, k);
    var x :| ValidResponseText(x) && |x.headers| <= max && At(s, 0, PrintResponse(x)) &&
             q == LocateResponse(x) && k == |PrintResponse(x)|;
    ResponseParts(s, x);
    if x.msg != [] { AtByte(s, 8 + x.sp + 3 + x.gap, x.msg, 0); }
    SpacesAreThere(s, x);
    HeaderSlices(s, |StatusLineText(x)|, x.headers, q.msg.end + 1, k);
    ParsedFits(s, max);
  }

  lemma ParsedFits(s: seq<byte>, max: nat)
    ensures ParseRequest(s, max).Done? ==> ParseRequest(s, max).value.1 <= |s|
    ensures ParseResponse(s, max).Done? ==> ParseResponse(s, max).value.1 <= |s|
  {}
}
