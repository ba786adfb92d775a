/**
 The bytes that the parser's names stand for, written out: characters, classes, line breaks, versions and
 status codes, and one whole request and response.
 */
module HttpBytes {
  import opened Bytes
  import opened HttpSyntax
  import opened HttpComplete

  /** A byte in a row of characters. */
  predicate In(b: byte, row: string) {
    exists i :: 0 <= i < |row| && row[i] as int == b
  }

  lemma InRow(b: byte, row: string, low: char)
    requires forall i :: 0 <= i < |row| ==> row[i] as int == low as int + i
    ensures In(b, row) <==> low as int <= b < low as int + |row|
  {
    if low as int <= b < low as int + |row| { assert row[b - low as int] as int == b; }
  }

  lemma MarksAre(b: byte)
    ensures IsTokenMark(b) <==> In(b, "!#$%&'*+-.^_`|~")
  {
    var row := "!#$%&'*+-.^_`|~";
    assert row[0] == '!' && row[1] == '#' && row[2] == '$' && row[3] == '%' && row[4] == '&' && row[5] == '\'' && row[6] == '*'
           && row[7] == '+' && row[8] == '-' && row[9] == '.' && row[10] == '^' && row[11] == '_' && row[12] == '`'
           && row[13] == '|' && row[14] == '~';
  }

  /** The token characters of section 3.2.6 of RFC 7230. */
  lemma TcharsAre(b: byte)
    ensures IsTchar(b) <==>
            || In(b, "!#$%&'*+-.^_`|~") || In(b, "0123456789")
            || In(b, "ABCDEFGHIJKLMNOPQRSTUVWXYZ") || In(b, "abcdefghijklmnopqrstuvwxyz")
  {
    MarksAre(b);
    InRow(b, "0123456789", '0');
    InRow(b, "ABCDEFGHIJKLMNOPQRSTUVWXYZ", 'A');
    InRow(b, "abcdefghijklmnopqrstuvwxyz", 'a');
  }

  /** What each scan passes, stops at and rejects, by number. */
  lemma ClassesAre(b: byte, stop: byte)
    ensures Classify(Token(stop), b) == if b == stop then Stop else if IsTchar(b) then Pass else Fail
    ensures Classify(PathText, b) == if b == 32 then Stop else if 33 <= b <= 126 || 128 <= b then Pass else Fail
    ensures Classify(Spaces, b) == if b == 32 then Pass else Stop
    ensures Classify(Blanks, b) == if b == 32 || b == 9 then Pass else Stop
    ensures Classify(LineText, b) == if b == 9 || 32 <= b <= 126 || 128 <= b then Pass else Stop
  {}

  /** A scan finds the first byte that stops it, having passed every byte before. */
  lemma FindExactly(k: Kind, s: seq<byte>, i: nat, j: nat)
    requires i <= |s|
    ensures Find(k, s, i) == Done(j) <==>
            i <= j < |s| && Classify(k, s[j]) == Stop && forall m :: i <= m < j ==> Classify(k, s[m]) == Pass
  {
    if i <= j < |s| && Classify(k, s[j]) == Stop && forall m :: i <= m < j ==> Classify(k, s[m]) == Pass {
      FindSkips(k, s, i, j);
    } else if Find(k, s, i).Done? {
      FindPasses(k, s, i);
    }
  }

  lemma LineBreakExactly(s: seq<byte>, i: nat, j: nat)
    requires i <= |s|
    ensures LineBreak(s, i) == Done(j) <==>
            || (j == i + 1 <= |s| && s[i] == 10)
            || (j == i + 2 <= |s| && s[i] == 13 && s[i + 1] == 10)
  {}

  /** Nine bytes: seven fixed, a digit, and any. */
  lemma VersionExactly(s: seq<byte>, i: nat, d: nat)
    requires i <= |s|
    ensures ParseVersion(s, i) == Done(d) <==>
            && i + 9 <= |s| && d <= 9 && s[i + 7] == "0123456789"[d] as int
            && forall m :: 0 <= m < 7 ==> s[i + m] == "HTTP/1."[m] as int
  {
    VersionBytes();
    assert d <= 9 ==> "0123456789"[d] as int == '0' as int + d;
    if i + 9 <= |s| {
      var head := s[i..i + 7];
      assert forall m :: 0 <= m < 7 ==> head[m] == s[i + m];
      if forall m :: 0 <= m < 7 ==> s[i + m] == "HTTP/1."[m] as int {
        assert forall m :: 0 <= m < 7 ==> head[m] == HTTP_1[m];
        assert head == HTTP_1;
      }
    }
  }

  lemma VersionBytes()
    ensures |HTTP_1| == 7 && forall m :: 0 <= m < 7 ==> HTTP_1[m] == "HTTP/1."[m] as int
  {
    assert "HTTP/1."[0] == 'H' && "HTTP/1."[1] == 'T' && "HTTP/1."[2] == 'T' && "HTTP/1."[3] == 'P' && "HTTP/1."[4] == '/'
           && "HTTP/1."[5] == '1' && "HTTP/1."[6] == '.';
  }

  /** Three decimal digits and a further byte. */
  lemma StatusExactly(s: seq<byte>, i: nat, n: nat)
    requires i <= |s|
    ensures ParseStatus(s, i) == Done(n) <==>
            && i + 4 <= |s| && n <= 999
            && s[i] == 48 + n / 100 && s[i + 1] == 48 + n / 10 % 10 && s[i + 2] == 48 + n % 10
  {
    if i + 4 <= |s| && IsDigit(s[i]) && IsDigit(s[i + 1]) && IsDigit(s[i + 2]) {
      ThreeDigits(n, s[i] - 48, s[i + 1] - 48, s[i + 2] - 48);
    }
  }

  lemma ThreeDigits(n: nat, a: nat, b: nat, c: nat)
    requires a <= 9 && b <= 9 && c <= 9
    ensures 100 * a + 10 * b + c == n <==> n <= 999 && a == n / 100 && b == n / 10 % 10 && c == n % 10
  {
    var m := 100 * a + 10 * b + c;
    assert m / 100 == a && m / 10 == 10 * a + b && m % 10 == c;
  }

  // Two whole messages -------------------------------------------------------------------------------

  /** The bytes from `i` on are those of a row of ASCII characters. */
  ghost predicate Reads(s: seq<byte>, i: nat, row: string) {
    i + |row| <= |s| && forall k :: 0 <= k < |row| ==> s[i + k] == row[k] as int
  }

  /** A request line, a header, a folded line, and the blank line. */
  ghost predicate IsThisRequest(s: seq<byte>) {
    |s| == 33 && Reads(s, 0, "GET /a HTTP/1.1\r\n") && Reads(s, 17, "Host: b \r\n") && Reads(s, 27, " c\r\n\r\n")
  }

  lemma RequestLineBytes(s: seq<byte>)
    requires Reads(s, 0, "GET /a HTTP/1.1\r\n")
    ensures 17 <= |s|
    ensures s[0] == 71 && s[1] == 69 && s[2] == 84 && s[3] == 32 && s[4] == 47 && s[5] == 97 && s[6] == 32
            && s[7] == 72 && s[8] == 84 && s[9] == 84 && s[10] == 80 && s[11] == 47 && s[12] == 49
            && s[13] == 46 && s[14] == 49 && s[15] == 13 && s[16] == 10
  {
    var row := "GET /a HTTP/1.1\r\n";
    assert row[0] == 'G' && row[1] == 'E' && row[2] == 'T' && row[3] == ' ' && row[4] == '/' && row[5] == 'a'
           && row[6] == ' ' && row[7] == 'H' && row[8] == 'T' && row[9] == 'T' && row[10] == 'P'
           && row[11] == '/' && row[12] == '1' && row[13] == '.' && row[14] == '1' && row[15] == '\r'
           && row[16] == '\n';
  }

  lemma HostBytes(s: seq<byte>)
    requires Reads(s, 17, "Host: b \r\n")
    ensures 27 <= |s|
    ensures s[17] == 72 && s[18] == 111 && s[19] == 115 && s[20] == 116 && s[21] == 58 && s[22] == 32
            && s[23] == 98 && s[24] == 32 && s[25] == 13 && s[26] == 10
  {
    var row := "Host: b \r\n";
    assert row[0] == 'H' && row[1] == 'o' && row[2] == 's' && row[3] == 't' && row[4] == ':' && row[5] == ' '
           && row[6] == 'b' && row[7] == ' ' && row[8] == '\r' && row[9] == '\n';
  }

  lemma FoldedBytes(s: seq<byte>)
    requires Reads(s, 27, " c\r\n\r\n")
    ensures 33 <= |s|
    ensures s[27] == 32 && s[28] == 99 && s[29] == 13 && s[30] == 10 && s[31] == 13 && s[32] == 10
  {
    var row := " c\r\n\r\n";
    assert row[0] == ' ' && row[1] == 'c' && row[2] == '\r' && row[3] == '\n' && row[4] == '\r'
           && row[5] == '\n';
  }

  lemma RequestBytes(s: seq<byte>)
    requires IsThisRequest(s)
    ensures |s| == 33
    ensures s[0] == 71 && s[1] == 69 && s[2] == 84 && s[3] == 32 && s[4] == 47 && s[5] == 97 && s[6] == 32
            && s[7] == 72 && s[8] == 84 && s[9] == 84 && s[10] == 80 && s[11] == 47 && s[12] == 49
            && s[13] == 46 && s[14] == 49 && s[15] == 13 && s[16] == 10 && s[17] == 72 && s[18] == 111
            && s[19] == 115 && s[20] == 116 && s[21] == 58 && s[22] == 32 && s[23] == 98 && s[24] == 32
            && s[25] == 13 && s[26] == 10 && s[27] == 32 && s[28] == 99 && s[29] == 13 && s[30] == 10
            && s[31] == 13 && s[32] == 10
  {
    hide Reads;
    RequestLineBytes(s);
    HostBytes(s);
    FoldedBytes(s);
  }

  lemma RequestScans(s: seq<byte>)
    requires IsThisRequest(s)
    ensures |s| == 33 && s[0] != CR && s[0] != LF && LineBreak(s, 15) == Done(17)
    ensures Find(Token(SP), s, 0) == Done(3) && Find(Spaces, s, 4) == Done(4)
    ensures Find(PathText, s, 4) == Done(6) && Find(Spaces, s, 7) == Done(7)
  {
    hide Find, IsThisRequest;
    RequestBytes(s);
    FindExactly(Token(SP), s, 0, 3);
    FindExactly(Spaces, s, 4, 4);
    FindExactly(PathText, s, 4, 6);
    FindExactly(Spaces, s, 7, 7);
  }

  lemma RequestVersion(s: seq<byte>)
    requires IsThisRequest(s)
    ensures |s| == 33 && ParseVersion(s, 7) == Done(1)
  {
    hide IsThisRequest;
    RequestBytes(s);
    VersionExactly(s, 7, 1);
  }

  /** A request with a header that is continued, field by field. */
  lemma ParsesThisRequest(s: seq<byte>, max: nat)
    requires IsThisRequest(s) && max >= 2
    ensures ParseRequest(s, max) ==
            Done((Request(Slice(0, 3), Slice(4, 6), 1, [Header(Slice(17, 21), Slice(23, 24)), Continuation(Slice(27, 29))]), 33))
  {
    hide Find, ParseHeaders, IsThisRequest, ParseVersion, LineBreak;
    RequestScans(s);
    RequestVersion(s);
    RequestHeaders(s, max);
  }

  lemma FirstHeader(s: seq<byte>)
    requires IsThisRequest(s)
    ensures |s| == 33 && s[17] != CR && s[17] != LF
    ensures ParseHeader(s, 17, true) == Done((Header(Slice(17, 21), Slice(23, 24)), 27))
  {
    hide Find, IsThisRequest;
    RequestBytes(s);
    FindExactly(Token(COLON), s, 17, 21);
    FindExactly(Blanks, s, 22, 23);
    FindExactly(LineText, s, 23, 25);
    assert TrimRight(s, 23, 25) == 24;
  }

  lemma SecondHeader(s: seq<byte>)
    requires IsThisRequest(s)
    ensures |s| == 33 && s[27] != CR && s[27] != LF && s[31] == CR && LineBreak(s, 31) == Done(33)
    ensures ParseHeader(s, 27, false) == Done((Continuation(Slice(27, 29)), 31))
  {
    hide Find, IsThisRequest;
    RequestBytes(s);
    FindExactly(LineText, s, 27, 29);
    assert TrimRight(s, 27, 29) == 29;
  }

  lemma RequestHeaders(s: seq<byte>, max: nat)
    requires IsThisRequest(s) && max >= 2
    ensures |s| == 33
    ensures ParseHeaders(s, 17, max, []) == Done(([Header(Slice(17, 21), Slice(23, 24)), Continuation(Slice(27, 29))], 33))
  {
    hide Find, IsThisRequest, ParseHeader, LineBreak;
    FirstHeader(s);
    SecondHeader(s);
    var first, second := Header(Slice(17, 21), Slice(23, 24)), Continuation(Slice(27, 29));
    assert ParseHeaders(s, 31, max, [first, second]) == Done(([first, second], 33));
    assert [first] + [second] == [first, second] && [] + [first] == [first];
    assert ParseHeaders(s, 27, max, [first]) == Done(([first, second], 33));
  }

  /** A status line, a header without a value, and the blank line. */
  ghost predicate IsThisResponse(s: seq<byte>) {
    |s| == 30 && Reads(s, 0, "HTTP/1.0 302") && Reads(s, 12, "  Found it\r\n") && Reads(s, 24, "A:\r\n\r\n")
  }

  lemma StatusBytes(s: seq<byte>)
    requires Reads(s, 0, "HTTP/1.0 302")
    ensures 12 <= |s|
    ensures s[0] == 72 && s[1] == 84 && s[2] == 84 && s[3] == 80 && s[4] == 47 && s[5] == 49 && s[6] == 46
            && s[7] == 48 && s[8] == 32 && s[9] == 51 && s[10] == 48 && s[11] == 50
  {
    var row := "HTTP/1.0 302";
    assert row[0] == 'H' && row[1] == 'T' && row[2] == 'T' && row[3] == 'P' && row[4] == '/' && row[5] == '1'
           && row[6] == '.' && row[7] == '0' && row[8] == ' ' && row[9] == '3' && row[10] == '0'
           && row[11] == '2';
  }

  lemma ReasonBytes(s: seq<byte>)
    requires Reads(s, 12, "  Found it\r\n")
    ensures 24 <= |s|
    ensures s[12] == 32 && s[13] == 32 && s[14] == 70 && s[15] == 111 && s[16] == 117 && s[17] == 110
            && s[18] == 100 && s[19] == 32 && s[20] == 105 && s[21] == 116 && s[22] == 13 && s[23] == 10
  {
    var row := "  Found it\r\n";
    assert row[0] == ' ' && row[1] == ' ' && row[2] == 'F' && row[3] == 'o' && row[4] == 'u' && row[5] == 'n'
           && row[6] == 'd' && row[7] == ' ' && row[8] == 'i' && row[9] == 't' && row[10] == '\r'
           && row[11] == '\n';
  }

  lemma ValuelessBytes(s: seq<byte>)
    requires Reads(s, 24, "A:\r\n\r\n")
    ensures 30 <= |s|
    ensures s[24] == 65 && s[25] == 58 && s[26] == 13 && s[27] == 10 && s[28] == 13 && s[29] == 10
  {
    var row := "A:\r\n\r\n";
    assert row[0] == 'A' && row[1] == ':' && row[2] == '\r' && row[3] == '\n' && row[4] == '\r'
           && row[5] == '\n';
  }

  lemma ResponseBytes(s: seq<byte>)
    requires IsThisResponse(s)
    ensures |s| == 30
    ensures s[0] == 72 && s[1] == 84 && s[2] == 84 && s[3] == 80 && s[4] == 47 && s[5] == 49 && s[6] == 46
            && s[7] == 48 && s[8] == 32 && s[9] == 51 && s[10] == 48 && s[11] == 50 && s[12] == 32
            && s[13] == 32 && s[14] == 70 && s[15] == 111 && s[16] == 117 && s[17] == 110 && s[18] == 100
            && s[19] == 32 && s[20] == 105 && s[21] == 116 && s[22] == 13 && s[23] == 10 && s[24] == 65
            && s[25] == 58 && s[26] == 13 && s[27] == 10 && s[28] == 13 && s[29] == 10
  {
    hide Reads;
    StatusBytes(s);
    ReasonBytes(s);
    ValuelessBytes(s);
  }

  lemma ResponseScans(s: seq<byte>)
    requires IsThisResponse(s)
    ensures |s| == 30 && s[8] == SP && Find(Spaces, s, 9) == Done(9)
    ensures ParseReason(s, 12) == Done((Slice(14, 22), 24))
  {
    hide Find, IsThisResponse;
    ResponseBytes(s);
    FindExactly(Spaces, s, 9, 9);
    FindExactly(LineText, s, 12, 22);
    FindExactly(Spaces, s, 12, 14);
  }

  lemma ResponseNumbers(s: seq<byte>)
    requires IsThisResponse(s)
    ensures |s| == 30 && ParseVersion(s, 0) == Done(0) && ParseStatus(s, 9) == Done(302)
  {
    hide IsThisResponse;
    ResponseBytes(s);
    VersionExactly(s, 0, 0);
    StatusExactly(s, 9, 302);
  }

  /** A response with two spaces before its reason phrase and a header without a value. */
  lemma ParsesThisResponse(s: seq<byte>, max: nat)
    requires IsThisResponse(s) && max >= 1
    ensures ParseResponse(s, max) == Done((Response(0, 302, Slice(14, 22), [Header(Slice(24, 25), Slice(26, 26))]), 30))
  {
    hide Find, ParseHeaders, IsThisResponse, ParseVersion, ParseStatus, ParseReason;
    ResponseScans(s);
    ResponseNumbers(s);
    ResponseHeaders(s, max);
  }

  lemma ResponseHeaders(s: seq<byte>, max: nat)
    requires IsThisResponse(s) && max >= 1
    ensures |s| == 30
    ensures ParseHeaders(s, 24, max, []) == Done(([Header(Slice(24, 25), Slice(26, 26))], 30))
  {
    hide Find, IsThisResponse;
    ResponseBytes(s);
    var header := Header(Slice(24, 25), Slice(26, 26));
    FindExactly(Token(COLON), s, 24, 25);
    FindExactly(Blanks, s, 26, 26);
    FindExactly(LineText, s, 26, 26);
    assert ParseHeader(s, 24, true) == Done((header, 28));
    assert ParseHeaders(s, 28, max, [header]) == Done(([header], 30));
    assert [] + [header] == [header];
  }
}
