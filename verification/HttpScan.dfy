/**
 The scans of the parser as the C code runs them: sixteen bytes at a time against a table of byte
 ranges, eight bytes at a time in an unrolled loop, and byte by byte. `simd` says which of the two
 compile-time variants is meant; every result is proved for both.
 */
module HttpScan {
  import opened Bytes
  import opened HttpSyntax

  /** `IS_PRINTABLE_ASCII`: the unsigned subtraction wraps for bytes below the space. */
  predicate IsPrintableAscii(b: byte) {
    (b - 32) % 0x1_0000_0000 < 95
  }

  /** The table of token characters, one row for each block of 32 bytes. */
  const TOKEN_CHAR_MAP: seq<seq<byte>> := [
    [0, 0, 0, 0, 0, 0, 0, 0, 0, 0, 0, 0, 0, 0, 0, 0, 0, 0, 0, 0, 0, 0, 0, 0, 0, 0, 0, 0, 0, 0, 0, 0],
    [0, 1, 0, 1, 1, 1, 1, 1, 0, 0, 1, 1, 0, 1, 1, 0, 1, 1, 1, 1, 1, 1, 1, 1, 1, 1, 0, 0, 0, 0, 0, 0],
    [0, 1, 1, 1, 1, 1, 1, 1, 1, 1, 1, 1, 1, 1, 1, 1, 1, 1, 1, 1, 1, 1, 1, 1, 1, 1, 1, 0, 0, 0, 1, 1],
    [1, 1, 1, 1, 1, 1, 1, 1, 1, 1, 1, 1, 1, 1, 1, 1, 1, 1, 1, 1, 1, 1, 1, 1, 1, 1, 1, 0, 1, 0, 1, 0],
    [0, 0, 0, 0, 0, 0, 0, 0, 0, 0, 0, 0, 0, 0, 0, 0, 0, 0, 0, 0, 0, 0, 0, 0, 0, 0, 0, 0, 0, 0, 0, 0],
    [0, 0, 0, 0, 0, 0, 0, 0, 0, 0, 0, 0, 0, 0, 0, 0, 0, 0, 0, 0, 0, 0, 0, 0, 0, 0, 0, 0, 0, 0, 0, 0],
    [0, 0, 0, 0, 0, 0, 0, 0, 0, 0, 0, 0, 0, 0, 0, 0, 0, 0, 0, 0, 0, 0, 0, 0, 0, 0, 0, 0, 0, 0, 0, 0],
    [0, 0, 0, 0, 0, 0, 0, 0, 0, 0, 0, 0, 0, 0, 0, 0, 0, 0, 0, 0, 0, 0, 0, 0, 0, 0, 0, 0, 0, 0, 0, 0]]

  function TokenChar(b: byte): bool {
    TOKEN_CHAR_MAP[b / 32][b % 32] != 0
  }

  /** The table marks exactly the `tchar`s of section 3.2.6 of RFC 7230. */
  lemma TokenCharIsTchar(b: byte)
    ensures TokenChar(b) == IsTchar(b)
  {
    hide IsTchar, TokenChar;
    if b < 32 || 128 <= b {
      OuterRows(b);
    } else if b < 64 {
      DigitRow(b);
    } else {
      AlphaRows(b);
    }
  }

  lemma OuterRows(b: byte)
    requires b < 32 || 128 <= b
    ensures !TokenChar(b) && !IsTchar(b)
  {
    assert b / 32 == 0 || 4 <= b / 32 <= 7;
  }

  lemma DigitRow(b: byte)
    requires 32 <= b < 64
    ensures TokenChar(b) == IsTchar(b)
  {
    assert b / 32 == 1 && b % 32 == b - 32;
    var row := TOKEN_CHAR_MAP[1];
    assert row[b - 32] != 0 <==> b in {33, 35, 36, 37, 38, 39, 42, 43, 45, 46} || 48 <= b <= 57;
  }

  lemma AlphaRows(b: byte)
    requires 64 <= b < 128
    ensures TokenChar(b) == IsTchar(b)
  {
    if b < 96 {
      assert b / 32 == 2 && b % 32 == b - 64;
      assert TOKEN_CHAR_MAP[2][b - 64] != 0 <==> 65 <= b <= 90 || b == 94 || b == 95;
    } else {
      assert b / 32 == 3 && b % 32 == b - 96;
      assert TOKEN_CHAR_MAP[3][b - 96] != 0 <==> 96 <= b <= 122 || b == 124 || b == 126;
    }
  }

  // Range tables -------------------------------------------------------------------------------------

  /** Pairs of a lowest and a highest byte, as `_mm_cmpestri` takes them. */
  predicate InRanges(ranges: seq<byte>, b: byte) {
    |ranges| >= 2 && (ranges[0] <= b <= ranges[1] || InRanges(ranges[2..], b))
  }

  const EOL_RANGES: seq<byte> := [0, 8, 10, 31, 127, 127]
  const PATH_RANGES: seq<byte> := [0, 32, 127, 127]
  const TOKEN_RANGES: seq<byte> := [0, 32, 34, 34, 40, 41, 44, 44, 47, 47, 58, 64, 91, 93, 123, 255]

  lemma FirstRange(low: byte, high: byte, ranges: seq<byte>, b: byte)
    ensures InRanges([low, high] + ranges, b) <==> low <= b <= high || InRanges(ranges, b)
  {
    assert ([low, high] + ranges)[2..] == ranges;
  }

  lemma EolRangesExact(b: byte)
    ensures InRanges(EOL_RANGES, b) <==> Classify(LineText, b) == Stop
  {
    hide InRanges;
    NoRanges(b);
    assert EOL_RANGES == [0, 8] + ([10, 31] + ([127, 127] + []));
    FirstRange(0, 8, [10, 31] + ([127, 127] + []), b);
    FirstRange(10, 31, [127, 127] + [], b);
    FirstRange(127, 127, [], b);
  }

  lemma NoRanges(b: byte)
    ensures !InRanges([], b)
  {}

  lemma PathRangesSkipOnlyPath(b: byte)
    ensures !InRanges(PATH_RANGES, b) ==> Classify(PathText, b) == Pass
  {
    hide InRanges;
    assert PATH_RANGES == [0, 32] + ([127, 127] + []);
    FirstRange(0, 32, [127, 127] + [], b);
    FirstRange(127, 127, [], b);
  }

  /** What is outside the token ranges is a token byte; `|` and `~` are inside and left to the slow loop. */
  lemma TokenRangesSkipOnlyTokens(b: byte)
    ensures !InRanges(TOKEN_RANGES, b) ==> IsTchar(b) && b != SP && b != COLON
  {
    hide InRanges;
    var r6: seq<byte> := [91, 93] + [123, 255];
    var r5 := [58, 64] + r6;
    var r4 := [47, 47] + r5;
    var r3 := [44, 44] + r4;
    var r2 := [40, 41] + r3;
    var r1 := [34, 34] + r2;
    assert TOKEN_RANGES == [0, 32] + r1;
    FirstRange(0, 32, r1, b);
    FirstRange(34, 34, r2, b);
    FirstRange(40, 41, r3, b);
    FirstRange(44, 44, r4, b);
    FirstRange(47, 47, r5, b);
    FirstRange(58, 64, r6, b);
    FirstRange(91, 93, [123, 255], b);
    assert [123, 255] + [] == [123, 255];
    FirstRange(123, 255, [], b);
  }

  /** `_mm_cmpestri`: the index of the first of sixteen bytes that is in the ranges, or 16. */
  method FirstInBlock(buf: array<byte>, at: nat, ranges: seq<byte>) returns (r: nat)
    requires at + 16 <= buf.Length
    ensures r <= 16
    ensures forall m :: at <= m < at + r ==> !InRanges(ranges, buf[m])
    ensures r < 16 ==> InRanges(ranges, buf[at + r])
  {
    r := 0;
    while r < 16 && !InRanges(ranges, buf[at + r])
      invariant r <= 16
      invariant forall m :: at <= m < at + r ==> !InRanges(ranges, buf[m])
    {
      r := r + 1;
    }
  }

  /** `findchar_fast`: whole blocks are searched with the ranges; without `simd` nothing is. */
  method FindcharFast(simd: bool, buf: array<byte>, cur: nat, end: nat, ranges: seq<byte>) returns (next: nat, found: bool)
    requires cur <= end <= buf.Length
    ensures cur <= next <= end
    ensures forall m :: cur <= m < next ==> !InRanges(ranges, buf[m])
    ensures found ==> next < end && InRanges(ranges, buf[next])
    ensures simd && !found ==> end - next < 16
  {
    next, found := cur, false;
    if simd {
      if end - cur >= 16 {
        var tail := (end - cur) % 16;
        var left := end - cur - tail;
        while left != 0
          invariant cur <= next && 0 <= left && left % 16 == 0 && next + left + tail == end
          invariant forall m :: cur <= m < next ==> !InRanges(ranges, buf[m])
          decreases left
        {
          var r := FirstInBlock(buf, next, ranges);
          if r != 16 {
            next := next + r;
            return next, true;
          }
          next := next + 16;
          left := left - 16;
        }
      }
    }
  }

  // Scans ----------------------------------------------------------------------------------------------

  lemma SkippedBy(k: Kind, s: seq<byte>, ranges: seq<byte>, i: nat, j: nat)
    requires i <= j <= |s|
    requires forall m :: i <= m < j ==> !InRanges(ranges, s[m])
    requires forall b: byte :: !InRanges(ranges, b) ==> Classify(k, b) == Pass
    ensures Find(k, s, i) == Find(k, s, j)
  {
    FindSkips(k, s, i, j);
  }

  /** `parse_token`: the fast scan only knows stops that are in its ranges. */
  method ParseToken(simd: bool, buf: array<byte>, cur: nat, end: nat, stop: byte) returns (r: Parse<(Slice, nat)>)
    requires cur <= end <= buf.Length && (stop == SP || stop == COLON)
    ensures r == match Find(Token(stop), buf[..end], cur)
                 case Done(j) => Done((Slice(cur, j), j))
                 case Bad => Bad
                 case More => More
  {
    hide InRanges, IsTchar, TokenChar;
    ghost var s := buf[..end];
    var next, found := FindcharFast(simd, buf, cur, end, TOKEN_RANGES);
    forall b: byte | !InRanges(TOKEN_RANGES, b) ensures Classify(Token(stop), b) == Pass {
      TokenRangesSkipOnlyTokens(b);
    }
    SkippedBy(Token(stop), s, TOKEN_RANGES, cur, next);
    if !found && next == end {
      return More;
    }
    while true
      invariant cur <= next < end
      invariant Find(Token(stop), s, cur) == Find(Token(stop), s, next)
      decreases end - next
    {
      TokenCharIsTchar(buf[next]);
      if buf[next] == stop {
        break;
      } else if !TokenChar(buf[next]) {
        return Bad;
      }
      next := next + 1;
      if next == end {
        return More;
      }
    }
    r := Done((Slice(cur, next), next));
  }

  /** `ADVANCE_TOKEN`: the path, up to a space. */
  method AdvanceToken(simd: bool, buf: array<byte>, cur: nat, end: nat) returns (r: Parse<(Slice, nat)>)
    requires cur <= end <= buf.Length
    ensures r == match Find(PathText, buf[..end], cur)
                 case Done(j) => Done((Slice(cur, j), j))
                 case Bad => Bad
                 case More => More
  {
    hide InRanges;
    ghost var s := buf[..end];
    var next, found := FindcharFast(simd, buf, cur, end, PATH_RANGES);
    forall b: byte | !InRanges(PATH_RANGES, b) ensures Classify(PathText, b) == Pass {
      PathRangesSkipOnlyPath(b);
    }
    SkippedBy(PathText, s, PATH_RANGES, cur, next);
    if !found && next == end {
      return More;
    }
    while true
      invariant cur <= next < end
      invariant Find(PathText, s, cur) == Find(PathText, s, next)
      decreases end - next
    {
      if buf[next] == SP {
        break;
      } else if !IsPrintableAscii(buf[next]) {
        if buf[next] < SP || buf[next] == DEL {
          return Bad;
        }
      }
      next := next + 1;
      if next == end {
        return More;
      }
    }
    r := Done((Slice(cur, next), next));
  }

  /** `do ++buf while (*buf == ' ')`, or with tabs too: skips blanks from `cur` on. */
  method Skip(k: Kind, buf: array<byte>, cur: nat, end: nat) returns (r: Parse<nat>)
    requires cur <= end <= buf.Length && (k == Spaces || k == Blanks)
    ensures r == Find(k, buf[..end], cur)
  {
    ghost var s := buf[..end];
    var next := cur;
    while true
      invariant cur <= next <= end
      invariant Find(k, s, cur) == Find(k, s, next)
      decreases end - next
    {
      if next == end {
        return More;
      }
      if !(buf[next] == SP || (k == Blanks && buf[next] == HT)) {
        return Done(next);
      }
      next := next + 1;
    }
  }

  predicate StopsLine(b: byte) {
    (b < SP && b != HT) || b == DEL
  }

  /** The 8-way unrolled search for a control character that ends the line. */
  method UnrolledSearch(buf: array<byte>, cur: nat, end: nat) returns (next: nat, found: bool)
    requires cur <= end <= buf.Length
    ensures cur <= next <= end
    ensures Find(LineText, buf[..end], cur) == Find(LineText, buf[..end], next)
    ensures if found then next < end && StopsLine(buf[next]) else end - next < 8
  {
    ghost var s := buf[..end];
    next := cur;
    while end - next >= 8
      invariant cur <= next <= end
      invariant Find(LineText, s, cur) == Find(LineText, s, next)
    {
      var i := 0;
      ghost var start := next;
      while i < 8 && IsPrintableAscii(buf[next])
        invariant 0 <= i <= 8 && next == start + i && next <= end && (i < 8 ==> next < end)
        invariant Find(LineText, s, cur) == Find(LineText, s, next)
      {
        next := next + 1;
        i := i + 1;
      }
      if i < 8 {
        if StopsLine(buf[next]) {
          return next, true;
        }
        next := next + 1;
      }
    }
    found := false;
  }

  /** `get_token_to_eol` */
  method GetTokenToEol(simd: bool, buf: array<byte>, cur: nat, end: nat) returns (r: Parse<(Slice, nat)>)
    requires cur <= end <= buf.Length
    ensures r == ToEol(buf[..end], cur)
  {
    hide InRanges;
    ghost var s := buf[..end];
    var next, found;
    if simd {
      next, found := FindcharFast(simd, buf, cur, end, EOL_RANGES);
      forall b: byte ensures InRanges(EOL_RANGES, b) <==> Classify(LineText, b) == Stop {
        EolRangesExact(b);
      }
      SkippedBy(LineText, s, EOL_RANGES, cur, next);
    } else {
      next, found := UnrolledSearch(buf, cur, end);
    }
    while !found
      invariant cur <= next <= end
      invariant Find(LineText, s, cur) == Find(LineText, s, next)
      invariant found ==> next < end && Classify(LineText, buf[next]) == Stop
      decreases end - next, !found
    {
      if next == end {
        return More;
      }
      if !IsPrintableAscii(buf[next]) && StopsLine(buf[next]) {
        found := true;
      } else {
        next := next + 1;
      }
    }
    assert Find(LineText, s, cur) == Done(next);
    r := EndLine(buf, cur, next, end);
  }

  /** `FOUND_CTL`: the control character at `at` must begin a line break. */
  method EndLine(buf: array<byte>, start: nat, at: nat, end: nat) returns (r: Parse<(Slice, nat)>)
    requires start <= at < end <= buf.Length
    ensures r == match LineBreak(buf[..end], at)
                 case Done(next) => Done((Slice(start, at), next))
                 case Bad => Bad
                 case More => More
  {
    var next := at;
    if buf[next] == CR {
      next := next + 1;
      if next == end {
        return More;
      }
      if buf[next] != LF {
        return Bad;
      }
      next := next + 1;
    } else if buf[next] == LF {
      next := next + 1;
    } else {
      return Bad;
    }
    r := Done((Slice(start, at), next));
  }
}
