/**
 The parser: cursors advanced over a buffer, slices of it returned through out-parameters, headers
 written into the caller's array. Every method gives exactly the answer of the function of the
 same name in HttpSyntax on the bytes of the buffer, for both scanning variants.
 */
module HttpParser {
  import opened Bytes
  import opened HttpSyntax
  import opened HttpScan
  import opened HttpComplete

  const INT_LIMIT: nat := 0x8000_0000

  /** `is_complete` */
  method IsComplete(buf: array<byte>, end: nat, lastLen: nat) returns (r: Parse<nat>)
    requires end <= buf.Length && ScanStart(lastLen) <= end
    ensures r == Complete(buf[..end], ScanStart(lastLen), 0)
  {
    ghost var s := buf[..end];
    var breaks := 0;
    var cur := if lastLen < 3 then 0 else lastLen - 3;
    while true
      invariant cur <= end && 0 <= breaks < 2
      invariant Complete(s, ScanStart(lastLen), 0) == Complete(s, cur, breaks)
      decreases end - cur
    {
      if cur == end {
        return More;
      }
      if buf[cur] == CR {
        cur := cur + 1;
        if cur == end {
          return More;
        }
        if buf[cur] != LF {
          return Bad;
        }
        cur := cur + 1;
        breaks := breaks + 1;
      } else if buf[cur] == LF {
        cur := cur + 1;
        breaks := breaks + 1;
      } else {
        cur := cur + 1;
        breaks := 0;
      }
      if breaks == 2 {
        return Done(cur);
      }
    }
  }

  /** `EXPECT_CHAR_NO_CHECK` for each byte of `HTTP/1.`, then `PARSE_INT`. */
  method ParseHttpVersion(buf: array<byte>, cur: nat, end: nat) returns (r: Parse<(nat, nat)>)
    requires cur <= end <= buf.Length
    ensures r == match ParseVersion(buf[..end], cur)
                 case Done(minor) => Done((minor, cur + 8))
                 case Bad => Bad
                 case More => More
  {
    if end - cur < 9 {
      return More;
    }
    var i := 0;
    while i < 7
      invariant 0 <= i <= 7
      invariant forall m :: 0 <= m < i ==> buf[cur + m] == HTTP_1[m]
    {
      if buf[cur + i] != HTTP_1[i] {
        assert buf[..end][cur..cur + 7][i] != HTTP_1[i];
        return Bad;
      }
      i := i + 1;
    }
    assert buf[..end][cur..cur + 7] == HTTP_1;
    if buf[cur + 7] < '0' as int || '9' as int < buf[cur + 7] {
      return Bad;
    }
    r := Done((buf[cur + 7] - '0' as int, cur + 8));
  }

  /** A line break that must stand at `cur`. */
  method ExpectBreak(buf: array<byte>, cur: nat, end: nat) returns (r: Parse<nat>)
    requires cur <= end <= buf.Length
    ensures r == LineBreak(buf[..end], cur)
  {
    if cur == end {
      return More;
    }
    if buf[cur] == CR {
      if cur + 1 == end {
        return More;
      }
      return if buf[cur + 1] == LF then Done(cur + 2) else Bad;
    }
    r := if buf[cur] == LF then Done(cur + 1) else Bad;
  }

  /** Strips blanks from the end of `buf[from..end]`. */
  method TrimValue(buf: array<byte>, from: nat, to: nat) returns (valueEnd: nat)
    requires from <= to <= buf.Length
    ensures from <= valueEnd <= to
    ensures forall end :: to <= end <= buf.Length ==> valueEnd == TrimRight(buf[..end], from, to)
  {
    valueEnd := to;
    while valueEnd != from
      invariant from <= valueEnd <= to
      invariant forall end :: to <= end <= buf.Length ==> TrimRight(buf[..end], from, to) == TrimRight(buf[..end], from, valueEnd)
    {
      if !(buf[valueEnd - 1] == SP || buf[valueEnd - 1] == HT) {
        break;
      }
      valueEnd := valueEnd - 1;
    }
  }

  /** One header line, written to `headers[n]`. */
  method ParseHeaderInto(simd: bool, buf: array<byte>, cur: nat, end: nat, headers: array<Header>, n: nat)
    returns (r: Parse<nat>)
    requires cur < end <= buf.Length && n < headers.Length
    modifies headers
    ensures match ParseHeader(buf[..end], cur, n == 0)
            case Done((h, next)) => r == Done(next) && headers[n] == h
            case Bad => r == Bad
            case More => r == More
    ensures forall i :: 0 <= i < headers.Length && i != n ==> headers[i] == old(headers[i])
  {
    hide Find, ToEol, TrimRight;
    var next := cur;
    if !(n != 0 && (buf[next] == SP || buf[next] == HT)) {
      var name := ParseToken(simd, buf, next, end, COLON);
      if name.IsFailure() {
        return name.PropagateFailure<nat>();
      }
      headers[n] := Header(name.value.0, Slice(0, 0));
      if name.value.0.start == name.value.0.end {
        return Bad;
      }
      next := name.value.1 + 1;
      var blanks := Skip(Blanks, buf, next, end);
      if blanks.IsFailure() {
        return blanks;
      }
      next := blanks.value;
    } else {
      headers[n] := Continuation(Slice(0, 0));
    }
    var line := GetTokenToEol(simd, buf, next, end);
    if line.IsFailure() {
      return line.PropagateFailure<nat>();
    }
    var valueEnd := TrimValue(buf, line.value.0.start, line.value.0.end);
    headers[n] := headers[n].(value := Slice(line.value.0.start, valueEnd));
    r := Done(line.value.1);
  }

  /** `parse_headers`: at most `max` headers are stored, the first ones of the caller's array. */
  method ParseHeadersInto(simd: bool, buf: array<byte>, cur: nat, end: nat, headers: array<Header>, max: nat)
    returns (r: Parse<nat>, num: nat)
    requires cur <= end <= buf.Length && max <= headers.Length
    modifies headers
    ensures num <= max
    ensures match ParseHeaders(buf[..end], cur, max, [])
            case Done((hs, next)) => r == Done(next) && headers[..num] == hs
            case Bad => r == Bad
            case More => r == More
    ensures headers[max..] == old(headers[max..])
  {
    hide ParseHeader, LineBreak;
    ghost var s := buf[..end];
    var next := cur;
    num := 0;
    while true
      invariant cur <= next <= end && num <= max
      invariant ParseHeaders(s, cur, max, []) == ParseHeaders(s, next, max, headers[..num])
      invariant headers[max..] == old(headers[max..])
      decreases end - next
    {
      if next == end {
        return More, num;
      }
      if buf[next] == CR || buf[next] == LF {
        r := ExpectBreak(buf, next, end);
        return;
      }
      if num == max {
        return Bad, num;
      }
      ghost var before := headers[..num];
      r := ParseHeaderInto(simd, buf, next, end, headers, num);
      if r.IsFailure() {
        return;
      }
      assert headers[..num + 1] == before + [headers[num]];
      next := r.value;
      num := num + 1;
    }
  }

  /** The request line of `parse_request`. */
  method ParseRequestLineFrom(simd: bool, buf: array<byte>, end: nat) returns (r: Parse<(Slice, Slice, nat, nat)>)
    requires end <= buf.Length
    ensures r == ParseRequestLine(buf[..end])
  {
    hide Find, LineBreak, ParseVersion;
    if end == 0 {
      return More;
    }
    var cur := 0;
    if buf[0] == CR || buf[0] == LF {
      var skipped := ExpectBreak(buf, 0, end);
      if skipped.IsFailure() {
        return skipped.PropagateFailure<(Slice, Slice, nat, nat)>();
      }
      cur := skipped.value;
    }
    var target := ParseTargetFrom(simd, buf, cur, end);
    if target.IsFailure() {
      return target.PropagateFailure<(Slice, Slice, nat, nat)>();
    }
    var (verb, path, v) := target.value;
    var version := ParseHttpVersion(buf, v, end);
    if version.IsFailure() {
      return version.PropagateFailure<(Slice, Slice, nat, nat)>();
    }
    var next := ExpectBreak(buf, version.value.1, end);
    if next.IsFailure() {
      return next.PropagateFailure<(Slice, Slice, nat, nat)>();
    }
    r := Done((verb, path, version.value.0, next.value));
  }

  /** Method and path; that neither is empty is checked only after the spaces behind the path. */
  method ParseTargetFrom(simd: bool, buf: array<byte>, cur: nat, end: nat) returns (r: Parse<(Slice, Slice, nat)>)
    requires cur <= end <= buf.Length
    ensures r == ParseTarget(buf[..end], cur)
  {
    hide Find;
    var verb := ParseToken(simd, buf, cur, end, SP);
    if verb.IsFailure() {
      return verb.PropagateFailure<(Slice, Slice, nat)>();
    }
    var afterVerb := Skip(Spaces, buf, verb.value.1 + 1, end);
    if afterVerb.IsFailure() {
      return afterVerb.PropagateFailure<(Slice, Slice, nat)>();
    }
    var path := AdvanceToken(simd, buf, afterVerb.value, end);
    if path.IsFailure() {
      return path.PropagateFailure<(Slice, Slice, nat)>();
    }
    var afterPath := Skip(Spaces, buf, path.value.1 + 1, end);
    if afterPath.IsFailure() {
      return afterPath.PropagateFailure<(Slice, Slice, nat)>();
    }
    if verb.value.0.start == verb.value.0.end || path.value.0.start == path.value.0.end {
      return Bad;
    }
    r := Done((verb.value.0, path.value.0, afterPath.value));
  }

  /** `phr_parse_request`. Lengths fit in an `int` because that is what is returned. */
  method PhrParseRequest(simd: bool, buf: array<byte>, len: nat, headers: array<Header>, max: nat, lastLen: nat)
    returns (ret: int, verb: Slice, path: Slice, minor: int, num: nat)
    requires len <= buf.Length && len < INT_LIMIT && max <= headers.Length && ScanStart(lastLen) <= len
    modifies headers
    ensures num <= max && headers[max..] == old(headers[max..])
    ensures var r := RequestCall(buf[..len], max, lastLen);
            && (ret == -1 <==> r.Bad?) && (ret == -2 <==> r.More?) && (r.Done? ==> ret == r.value.1)
            && (r.Done? ==> minor >= 0 && r.value.0 == Request(verb, path, minor, headers[..num]))
  {
    hide ParseRequestLine, ParseHeaders, Complete;
    verb, path, minor, num := Slice(0, 0), Slice(0, 0), -1, 0;
    if lastLen != 0 {
      var c := IsComplete(buf, len, lastLen);
      if c.IsFailure() {
        ret := if c.Bad? then -1 else -2;
        return;
      }
    }
    var line := ParseRequestLineFrom(simd, buf, len);
    if line.IsFailure() {
      ret := if line.Bad? then -1 else -2;
      return;
    }
    verb, path, minor := line.value.0, line.value.1, line.value.2;
    var r;
    r, num := ParseHeadersInto(simd, buf, line.value.3, len, headers, max);
    if r.IsFailure() {
      ret := if r.Bad? then -1 else -2;
      return;
    }
    ret := r.value;
  }

  /** `PARSE_INT_3`, after the check that a byte follows the three digits. */
  method ParseInt3(buf: array<byte>, cur: nat, end: nat) returns (r: Parse<nat>)
    requires cur <= end <= buf.Length
    ensures r == ParseStatus(buf[..end], cur)
  {
    if end - cur < 4 {
      return More;
    }
    var n, unit, i := 0, 100, 0;
    while i < 3
      invariant 0 <= i <= 3 && unit == [100, 10, 1, 0][i]
      invariant forall m :: cur <= m < cur + i ==> IsDigit(buf[m])
      invariant n == (if i > 0 then 100 * (buf[cur] - '0' as int) else 0) + (if i > 1 then 10 * (buf[cur + 1] - '0' as int) else 0) +
                     (if i > 2 then buf[cur + 2] - '0' as int else 0)
    {
      if buf[cur + i] < '0' as int || '9' as int < buf[cur + i] {
        return Bad;
      }
      n := n + unit * (buf[cur + i] - '0' as int);
      unit := unit / 10;
      i := i + 1;
    }
    r := Done(n);
  }

  /** The reason phrase; the loop that drops its leading spaces is stopped by the end of the line. */
  method ParseReasonFrom(simd: bool, buf: array<byte>, cur: nat, end: nat) returns (r: Parse<(Slice, nat)>)
    requires cur <= end <= buf.Length
    ensures r == ParseReason(buf[..end], cur)
  {
    hide LineBreak;
    ghost var s := buf[..end];
    var line := GetTokenToEol(simd, buf, cur, end);
    if line.IsFailure() {
      return line;
    }
    var msg, next := line.value.0, line.value.1;
    if msg.start == msg.end {
      return line;
    }
    if buf[msg.start] != SP {
      return Bad;
    }
    var start, len := msg.start, msg.end - msg.start;
    SpacesEnd(s, start, msg.end);
    while buf[start] == SP
      invariant msg.start <= start && 0 <= len && start + len == msg.end
      invariant Find(Spaces, s, msg.start) == Find(Spaces, s, start)
      decreases len
    {
      start := start + 1;
      len := len - 1;
    }
    r := Done((Slice(start, start + len), next));
  }

  /** `phr_parse_response` */
  method PhrParseResponse(simd: bool, buf: array<byte>, len: nat, headers: array<Header>, max: nat, lastLen: nat)
    returns (ret: int, minor: int, status: nat, msg: Slice, num: nat)
    requires len <= buf.Length && len < INT_LIMIT && max <= headers.Length && ScanStart(lastLen) <= len
    modifies headers
    ensures num <= max && headers[max..] == old(headers[max..])
    ensures var r := ResponseCall(buf[..len], max, lastLen);
            && (ret == -1 <==> r.Bad?) && (ret == -2 <==> r.More?) && (r.Done? ==> ret == r.value.1)
            && (r.Done? ==> minor >= 0 && r.value.0 == Response(minor, status, msg, headers[..num]))
  {
    hide ParseStatusLine, ParseHeaders, Complete;
    minor, status, msg, num := -1, 0, Slice(0, 0), 0;
    if lastLen != 0 {
      var c := IsComplete(buf, len, lastLen);
      if c.IsFailure() {
        ret := if c.Bad? then -1 else -2;
        return;
      }
    }
    var line := ParseStatusLineFrom(simd, buf, len);
    if line.IsFailure() {
      ret := if line.Bad? then -1 else -2;
      return;
    }
    minor, status, msg := line.value.0, line.value.1, line.value.2;
    var r;
    r, num := ParseHeadersInto(simd, buf, line.value.3, len, headers, max);
    if r.IsFailure() {
      ret := if r.Bad? then -1 else -2;
      return;
    }
    ret := r.value;
  }

  method ParseStatusLineFrom(simd: bool, buf: array<byte>, end: nat) returns (r: Parse<(nat, nat, Slice, nat)>)
    requires end <= buf.Length
    ensures r == ParseStatusLine(buf[..end])
  {
    hide Find, ParseVersion, ParseStatus, ParseReason;
    var version := ParseHttpVersion(buf, 0, end);
    if version.IsFailure() {
      return version.PropagateFailure<(nat, nat, Slice, nat)>();
    }
    if buf[8] != SP {
      return Bad;
    }
    var cur := Skip(Spaces, buf, 9, end);
    if cur.IsFailure() {
      return cur.PropagateFailure<(nat, nat, Slice, nat)>();
    }
    var status := ParseInt3(buf, cur.value, end);
    if status.IsFailure() {
      return status.PropagateFailure<(nat, nat, Slice, nat)>();
    }
    var reason := ParseReasonFrom(simd, buf, cur.value + 3, end);
    if reason.IsFailure() {
      return reason.PropagateFailure<(nat, nat, Slice, nat)>();
    }
    r := Done((version.value.0, status.value, reason.value.0, reason.value.1));
  }

  /** `phr_parse_headers` */
  method PhrParseHeaders(simd: bool, buf: array<byte>, len: nat, headers: array<Header>, max: nat, lastLen: nat)
    returns (ret: int, num: nat)
    requires len <= buf.Length && len < INT_LIMIT && max <= headers.Length && ScanStart(lastLen) <= len
    modifies headers
    ensures num <= max && headers[max..] == old(headers[max..])
    ensures var r := HeadersCall(buf[..len], max, lastLen);
            && (ret == -1 <==> r.Bad?) && (ret == -2 <==> r.More?) && (r.Done? ==> ret == r.value.1)
            && (r.Done? ==> r.value.0 == headers[..num])
  {
    hide ParseHeaders, Complete;
    num := 0;
    if lastLen != 0 {
      var c := IsComplete(buf, len, lastLen);
      if c.IsFailure() {
        ret := if c.Bad? then -1 else -2;
        return;
      }
    }
    var r;
    r, num := ParseHeadersInto(simd, buf, 0, len, headers, max);
    if r.IsFailure() {
      ret := if r.Bad? then -1 else -2;
      return;
    }
    ret := r.value;
  }
}
