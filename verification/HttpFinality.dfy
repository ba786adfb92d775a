/**
 A verdict of the parser is final. A message that parsed was decided by its own bytes alone; one
 that was rejected is rejected whatever follows; so "more" is the only answer that can change.
 */
module HttpFinality {
  import opened Bytes
  import opened HttpSyntax

  ghost predicate SameUpTo(s: seq<byte>, t: seq<byte>, n: nat) {
    n <= |s| && n <= |t| && s[..n] == t[..n]
  }

  lemma SameByte(s: seq<byte>, t: seq<byte>, n: nat, i: nat)
    requires SameUpTo(s, t, n) && i < n
    ensures s[i] == t[i]
  {
    assert s[..n][i] == t[..n][i];
  }

  lemma SameShorter(s: seq<byte>, t: seq<byte>, n: nat, m: nat)
    requires SameUpTo(s, t, n) && m <= n
    ensures SameUpTo(s, t, m)
  {
    assert s[..m] == s[..n][..m] == t[..n][..m] == t[..m];
  }

  lemma {:induction false} FindFinal(k: Kind, s: seq<byte>, t: seq<byte>, i: nat)
    requires i <= |s| && i <= |t|
    requires match Find(k, s, i)
             case Done(j) => SameUpTo(s, t, j + 1)
             case Bad => s <= t
             case More => false
    ensures Find(k, t, i) == Find(k, s, i)
    decreases |s| - i
  {
    var n := if Find(k, s, i).Done? then Find(k, s, i).value + 1 else |s|;
    SameByte(s, t, n, i);
    if Classify(k, s[i]) == Pass {
      FindFinal(k, s, t, i + 1);
    }
  }

  lemma LineBreakFinal(s: seq<byte>, t: seq<byte>, i: nat)
    requires i <= |s| && i <= |t|
    requires match LineBreak(s, i)
             case Done(j) => SameUpTo(s, t, j)
             case Bad => s <= t
             case More => false
    ensures LineBreak(t, i) == LineBreak(s, i)
  {
    var n := if LineBreak(s, i).Done? then LineBreak(s, i).value else |s|;
    SameByte(s, t, n, i);
    if s[i] == CR { SameByte(s, t, n, i + 1); }
  }

  lemma ToEolFinal(s: seq<byte>, t: seq<byte>, i: nat)
    requires i <= |s| && i <= |t|
    requires match ToEol(s, i)
             case Done((line, next)) => SameUpTo(s, t, next)
             case Bad => s <= t
             case More => false
    ensures ToEol(t, i) == ToEol(s, i)
  {
    var n := if ToEol(s, i).Done? then ToEol(s, i).value.1 else |s|;
    var e := Find(LineText, s, i);
    if e.Done? { SameShorter(s, t, n, e.value + 1); }
    FindFinal(LineText, s, t, i);
    if e.Done? { LineBreakFinal(s, t, e.value); }
  }

  lemma {:induction false} TrimSame(s: seq<byte>, t: seq<byte>, a: nat, b: nat)
    requires a <= b && SameUpTo(s, t, b)
    ensures TrimRight(t, a, b) == TrimRight(s, a, b)
    decreases b - a
  {
    if a < b {
      SameByte(s, t, b, b - 1);
      SameShorter(s, t, b, b - 1);
      TrimSame(s, t, a, b - 1);
    }
  }

  lemma ParseHeaderFinal(s: seq<byte>, t: seq<byte>, i: nat, first: bool)
    requires i < |s| && i < |t|
    requires match ParseHeader(s, i, first)
             case Done((h, next)) => SameUpTo(s, t, next)
             case Bad => s <= t
             case More => false
    ensures ParseHeader(t, i, first) == ParseHeader(s, i, first)
  {
    hide Find, ToEol, TrimRight;
    var r := ParseHeader(s, i, first);
    var n := if r.Done? then r.value.1 else |s|;
    SameByte(s, t, n, i);
    var v := i;
    if first || !IsBlank(s[i]) {
      var colon := Find(Token(COLON), s, i);
      if colon.Done? { SameShorter(s, t, n, colon.value + 1); }
      FindFinal(Token(COLON), s, t, i);
      if colon.Bad? || colon.value == i { return; }
      var blanks := Find(Blanks, s, colon.value + 1);
      if blanks.Done? { SameShorter(s, t, n, blanks.value + 1); }
      FindFinal(Blanks, s, t, colon.value + 1);
      if blanks.Bad? { return; }
      v := blanks.value;
    }
    ToEolFinal(s, t, v);
    if r.Done? {
      SameShorter(s, t, n, ToEol(s, v).value.0.end);
      TrimSame(s, t, v, ToEol(s, v).value.0.end);
    }
  }

  lemma {:induction false} ParseHeadersFinal(s: seq<byte>, t: seq<byte>, i: nat, max: nat, acc: seq<Header>)
    requires i <= |s| && i <= |t|
    requires match ParseHeaders(s, i, max, acc)
             case Done((hs, next)) => SameUpTo(s, t, next)
             case Bad => s <= t
             case More => false
    ensures ParseHeaders(t, i, max, acc) == ParseHeaders(s, i, max, acc)
    decreases |s| - i
  {
    hide ParseHeader, LineBreak;
    var r := ParseHeaders(s, i, max, acc);
    var n := if r.Done? then r.value.1 else |s|;
    SameByte(s, t, n, i);
    if s[i] == CR || s[i] == LF {
      LineBreakFinal(s, t, i);
    } else if |acc| != max {
      var h := ParseHeader(s, i, acc == []);
      if h.Done? { SameShorter(s, t, n, h.value.1); }
      ParseHeaderFinal(s, t, i, acc == []);
      if h.Done? { ParseHeadersFinal(s, t, h.value.1, max, acc + [h.value.0]); }
    }
  }

  lemma ParseVersionFinal(s: seq<byte>, t: seq<byte>, i: nat)
    requires i <= |s| && i <= |t|
    requires match ParseVersion(s, i)
             case Done(_) => SameUpTo(s, t, i + 9)
             case Bad => s <= t
             case More => false
    ensures ParseVersion(t, i) == ParseVersion(s, i)
  {
    var n := if ParseVersion(s, i).Done? then i + 9 else |s|;
    SameByte(s, t, n, i + 7);
    assert s[i..i + 7] == s[..n][i..i + 7] == t[..n][i..i + 7] == t[i..i + 7];
  }

  lemma SkipEmptyLineFinal(s: seq<byte>, t: seq<byte>)
    requires match SkipEmptyLine(s)
             case Done(i) => s != [] && SameUpTo(s, t, if i == 0 then 1 else i)
             case Bad => s <= t
             case More => false
    ensures SkipEmptyLine(t) == SkipEmptyLine(s)
  {
    var n := match SkipEmptyLine(s) case Done(i) => (if i == 0 then 1 else i) case _ => |s|;
    SameByte(s, t, n, 0);
    if s[0] == CR || s[0] == LF {
      LineBreakFinal(s, t, 0);
    }
  }

  lemma ParseTargetFinal(s: seq<byte>, t: seq<byte>, i: nat)
    requires i <= |s| && i <= |t|
    requires match ParseTarget(s, i)
             case Done(target) => SameUpTo(s, t, target.2 + 1)
             case Bad => s <= t
             case More => false
    ensures ParseTarget(t, i) == ParseTarget(s, i)
  {
    hide Find;
    var r := ParseTarget(s, i);
    var n := if r.Done? then r.value.2 + 1 else |s|;
    var verbEnd := Find(Token(SP), s, i);
    if verbEnd.Done? { SameShorter(s, t, n, verbEnd.value + 1); }
    FindFinal(Token(SP), s, t, i);
    if verbEnd.Bad? { return; }
    var p := Find(Spaces, s, verbEnd.value + 1);
    if p.Done? { SameShorter(s, t, n, p.value + 1); }
    FindFinal(Spaces, s, t, verbEnd.value + 1);
    if p.Bad? { return; }
    var pEnd := Find(PathText, s, p.value);
    if pEnd.Done? { SameShorter(s, t, n, pEnd.value + 1); }
    FindFinal(PathText, s, t, p.value);
    if pEnd.Bad? { return; }
    FindFinal(Spaces, s, t, pEnd.value + 1);
  }

  lemma ParseRequestLineFinal(s: seq<byte>, t: seq<byte>)
    requires match ParseRequestLine(s)
             case Done(line) => SameUpTo(s, t, line.3)
             case Bad => s <= t
             case More => false
    ensures ParseRequestLine(t) == ParseRequestLine(s)
  {
    hide Find, LineBreak, ParseVersion, SkipEmptyLine, ParseTarget;
    var r, skip := ParseRequestLine(s), SkipEmptyLine(s);
    var n := if r.Done? then r.value.3 else |s|;
    SkipEmptyLineEnd(s);
    if skip.Done? { ParseTargetEnd(s, skip.value); }
    if skip.Done? { SameShorter(s, t, n, if skip.value == 0 then 1 else skip.value); }
    SkipEmptyLineFinal(s, t);
    if skip.Bad? { return; }
    var target := ParseTarget(s, skip.value);
    if target.Done? { SameShorter(s, t, n, target.value.2 + 1); }
    ParseTargetFinal(s, t, skip.value);
    if target.Bad? { return; }
    var minor := ParseVersion(s, target.value.2);
    if minor.Done? { SameShorter(s, t, n, target.value.2 + 9); }
    ParseVersionFinal(s, t, target.value.2);
    if minor.Bad? { return; }
    LineBreakFinal(s, t, target.value.2 + 8);
  }

  lemma SkipEmptyLineEnd(s: seq<byte>)
    ensures SkipEmptyLine(s).More? <==> s == [] || s == [CR]
    ensures SkipEmptyLine(s).Done? ==> SkipEmptyLine(s).value <= |s| && s != []
  {}

  lemma ParseTargetEnd(s: seq<byte>, i: nat)
    requires i <= |s|
    ensures ParseTarget(s, i).Done? ==> i < ParseTarget(s, i).value.2
  {}

  /** The request theorem: only the bytes consumed, or on a rejection the bytes read, matter. */
  lemma RequestVerdictIsFinal(s: seq<byte>, t: seq<byte>, max: nat)
    requires match ParseRequest(s, max)
             case Done((request, k)) => SameUpTo(s, t, k)
             case Bad => s <= t
             case More => false
    ensures ParseRequest(t, max) == ParseRequest(s, max)
  {
    hide ParseRequestLine, ParseHeaders;
    var r, line := ParseRequest(s, max), ParseRequestLine(s);
    if r.Done? { SameShorter(s, t, r.value.1, line.value.3); }
    ParseRequestLineFinal(s, t);
    if line.Done? { ParseHeadersFinal(s, t, line.value.3, max, []); }
  }

  lemma ParseStatusFinal(s: seq<byte>, t: seq<byte>, i: nat)
    requires i <= |s| && i <= |t|
    requires match ParseStatus(s, i)
             case Done(_) => SameUpTo(s, t, i + 4)
             case Bad => s <= t
             case More => false
    ensures ParseStatus(t, i) == ParseStatus(s, i)
  {
    var n := if ParseStatus(s, i).Done? then i + 4 else |s|;
    SameByte(s, t, n, i);
    SameByte(s, t, n, i + 1);
    SameByte(s, t, n, i + 2);
  }

  lemma ParseReasonFinal(s: seq<byte>, t: seq<byte>, i: nat)
    requires i <= |s| && i <= |t|
    requires match ParseReason(s, i)
             case Done((line, next)) => SameUpTo(s, t, next)
             case Bad => s <= t
             case More => false
    ensures ParseReason(t, i) == ParseReason(s, i)
  {
    hide Find, LineBreak, ToEol;
    var r := ParseReason(s, i);
    var n := if r.Done? then r.value.1 else |s|;
    var eol := ToEol(s, i);
    ToEolFinal(s, t, i);
    if eol.Done? && eol.value.0.end != i {
      SameByte(s, t, n, i);
      if s[i] == SP {
        SpacesEnd(s, i, eol.value.0.end);
        var m := Find(Spaces, s, i);
        SameShorter(s, t, n, m.value + 1);
        FindFinal(Spaces, s, t, i);
      }
    }
  }

  lemma ParseStatusLineFinal(s: seq<byte>, t: seq<byte>)
    requires match ParseStatusLine(s)
             case Done(line) => SameUpTo(s, t, line.3)
             case Bad => s <= t
             case More => false
    ensures ParseStatusLine(t) == ParseStatusLine(s)
  {
    hide Find, ParseVersion, ParseStatus, ParseReason;
    var r := ParseStatusLine(s);
    var n := if r.Done? then r.value.3 else |s|;
    var minor := ParseVersion(s, 0);
    if minor.Done? { SameShorter(s, t, n, 9); }
    ParseVersionFinal(s, t, 0);
    if minor.Bad? { return; }
    SameByte(s, t, n, 8);
    if s[8] != SP { return; }
    var i := Find(Spaces, s, 9);
    if i.Done? { SameShorter(s, t, n, i.value + 1); }
    FindFinal(Spaces, s, t, 9);
    if i.Bad? { return; }
    var status := ParseStatus(s, i.value);
    if status.Done? { SameShorter(s, t, n, i.value + 4); }
    ParseStatusFinal(s, t, i.value);
    if status.Bad? { return; }
    ParseReasonFinal(s, t, i.value + 3);
  }

  lemma ResponseVerdictIsFinal(s: seq<byte>, t: seq<byte>, max: nat)
    requires match ParseResponse(s, max)
             case Done((response, k)) => SameUpTo(s, t, k)
             case Bad => s <= t
             case More => false
    ensures ParseResponse(t, max) == ParseResponse(s, max)
  {
    hide ParseStatusLine, ParseHeaders;
    var r, line := ParseResponse(s, max), ParseStatusLine(s);
    if r.Done? { SameShorter(s, t, r.value.1, line.value.3); }
    ParseStatusLineFinal(s, t);
    if line.Done? { ParseHeadersFinal(s, t, line.value.3, max, []); }
  }
}
