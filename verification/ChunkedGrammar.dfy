/**
 Chunked bodies as text, independently of the decoder: what section 4.1 of RFC 7230 lets a sender
 write, widened by what the decoder tolerates (bare LF, repeated CR, leading zeros). The decoder
 completes on exactly these texts, and gives exactly their data.
 */
module ChunkedGrammar {
  import opened Bytes
  import opened ChunkedAutomaton

  /** `size` are hex digits, `ext` the rest of the size line, `crs` the number of CRs before the last LF. */
  datatype Chunk = Chunk(size: seq<byte>, ext: seq<byte>, data: seq<byte>, crs: nat)
  datatype TrailerLine = TrailerLine(crs: nat, text: seq<byte>)
  datatype Body = Body(chunks: seq<Chunk>, zeros: seq<byte>, ext: seq<byte>, trailers: seq<TrailerLine>, endCrs: nat)

  ghost predicate IsHex(s: seq<byte>) {
    forall i :: 0 <= i < |s| ==> DecodeHex(s[i]) != -1
  }

  /** The number written by hex digits that follow digits worth `acc`. */
  function HexFrom(acc: nat, digits: seq<byte>): nat
    decreases |digits|
  {
    if digits == [] then acc
    else HexFrom(acc * 16 + if DecodeHex(digits[0]) < 0 then 0 else DecodeHex(digits[0]), digits[1..])
  }

  ghost predicate ValidSizeLine(size: seq<byte>, ext: seq<byte>) {
    && 1 <= |size| <= MAX_HEX_DIGITS && IsHex(size)
    && LF !in ext && (ext != [] ==> DecodeHex(ext[0]) == -1)
  }

  ghost predicate ValidChunk(c: Chunk) {
    ValidSizeLine(c.size, c.ext) && HexFrom(0, c.size) == |c.data| && c.data != []
  }

  ghost predicate ValidTrailer(t: TrailerLine) {
    t.text != [] && t.text[0] != CR && LF !in t.text
  }

  ghost predicate ValidBody(trailer: bool, b: Body) {
    && (forall c <- b.chunks :: ValidChunk(c))
    && ValidSizeLine(b.zeros, b.ext) && HexFrom(0, b.zeros) == 0
    && (forall t <- b.trailers :: ValidTrailer(t))
    && (!trailer ==> b.trailers == [] && b.endCrs == 0)
  }

  function LineEnd(crs: nat): seq<byte> {
    Repeat(CR, crs) + [LF]
  }

  function EncodeChunk(c: Chunk): seq<byte> {
    (c.size + c.ext + [LF]) + (c.data + LineEnd(c.crs))
  }

  function EncodeChunks(chunks: seq<Chunk>): seq<byte> {
    if chunks == [] then [] else EncodeChunk(chunks[0]) + EncodeChunks(chunks[1..])
  }

  function EncodeTrailers(lines: seq<TrailerLine>): seq<byte> {
    if lines == [] then []
    else (Repeat(CR, lines[0].crs) + lines[0].text + [LF]) + EncodeTrailers(lines[1..])
  }

  /** Without `trailer` the body ends, for the decoder, right after the zero-size line. */
  function Encode(trailer: bool, b: Body): seq<byte> {
    EncodeChunks(b.chunks) + (b.zeros + b.ext + [LF]) +
    if trailer then EncodeTrailers(b.trailers) + LineEnd(b.endCrs) else []
  }

  function Data(chunks: seq<Chunk>): seq<byte> {
    if chunks == [] then [] else chunks[0].data + Data(chunks[1..])
  }

  /** The decoder when the body has ended. */
  function End(trailer: bool): Config {
    if trailer then Config(TrailersLineHead, 0, 0) else Config(ChunkExt, 0, 0)
  }

  // Reading what the grammar writes --------------------------------------------------------------

  lemma RunOneDigit(trailer: bool, left: nat, hex: nat, s: seq<byte>)
    requires s != [] && DecodeHex(s[0]) != -1 && hex < MAX_HEX_DIGITS
    ensures Run(trailer, Config(ChunkSize, left, hex), s) ==
            Run(trailer, Config(ChunkSize, left * 16 + DecodeHex(s[0]), hex + 1), s[1..]).After([], 1)
  {
  }

  lemma {:induction false} RunDigits(trailer: bool, left: nat, hex: nat, d: seq<byte>, rest: seq<byte>)
    requires IsHex(d) && hex + |d| <= MAX_HEX_DIGITS
    ensures Run(trailer, Config(ChunkSize, left, hex), d + rest) ==
            Run(trailer, Config(ChunkSize, HexFrom(left, d), hex + |d|), rest).After([], |d|)
    decreases |d|
  {
    hide Run;
    if d == [] {
      assert d + rest == rest;
      AfterNothing(Run(trailer, Config(ChunkSize, left, hex), rest));
    } else {
      assert (d + rest)[1..] == d[1..] + rest;
      RunOneDigit(trailer, left, hex, d + rest);
      RunDigits(trailer, left * 16 + DecodeHex(d[0]), hex + 1, d[1..], rest);
      AfterAfter(Run(trailer, Config(ChunkSize, HexFrom(left, d), hex + |d|), rest), [], 1, [], |d| - 1);
    }
  }

  /** Bytes that a configuration idles over, followed by one that moves it. */
  lemma RunIdleThen(trailer: bool, c: Config, idle: seq<byte>, b: byte, rest: seq<byte>)
    requires forall i :: 0 <= i < |idle| ==> Idles(trailer, c, idle[i])
    ensures var m := Step(trailer, c, b);
            Run(trailer, c, idle + [b] + rest) ==
            if m.Next? then Run(trailer, m.config, rest).After(m.emitted, |idle| + 1)
            else if m.Finish? then Outcome(Complete, m.config, [], |idle| + 1)
            else Outcome(Malformed, c, [], |idle|)
  {
    var s := idle + [b] + rest;
    RunIdle(trailer, c, s, |idle|);
    RunFrom(trailer, c, s, |idle|);
    assert s[|idle| + 1..] == rest;
    var m := Step(trailer, c, b);
    if m.Next? { AfterAfter(Run(trailer, m.config, rest), [], |idle|, m.emitted, 1); }
  }

  lemma RunExtLine(trailer: bool, v: nat, ext: seq<byte>, rest: seq<byte>)
    requires LF !in ext
    ensures Run(trailer, Config(ChunkExt, v, 0), ext + [LF] + rest) ==
            if v != 0 then Run(trailer, Config(ChunkData, v, 0), rest).After([], |ext| + 1)
            else if trailer then Run(trailer, End(true), rest).After([], |ext| + 1)
            else Outcome(Complete, End(false), [], |ext| + 1)
  {
    hide Run;
    RunIdleThen(trailer, Config(ChunkExt, v, 0), ext, LF, rest);
  }

  /** The byte that ends the size is read as part of the extension. */
  lemma SizeGivesWay(trailer: bool, v: nat, hex: nat, s: seq<byte>)
    requires hex > 0 && s != [] && DecodeHex(s[0]) == -1
    ensures Run(trailer, Config(ChunkSize, v, hex), s) == Run(trailer, Config(ChunkExt, v, 0), s)
  {
    assert s[0..] == s;
    RunFrom(trailer, Config(ChunkSize, v, hex), s, 0);
    RunFrom(trailer, Config(ChunkExt, v, 0), s, 0);
  }

  lemma RunSizeLine(trailer: bool, size: seq<byte>, ext: seq<byte>, rest: seq<byte>)
    requires ValidSizeLine(size, ext)
    ensures var v, n := HexFrom(0, size), |size| + |ext| + 1;
            Run(trailer, START, (size + ext + [LF]) + rest) ==
            if v != 0 then Run(trailer, Config(ChunkData, v, 0), rest).After([], n)
            else if trailer then Run(trailer, End(true), rest).After([], n)
            else Outcome(Complete, End(false), [], n)
  {
    hide Run, HexFrom;
    var v := HexFrom(0, size);
    var tail := ext + [LF] + rest;
    assert (size + ext + [LF]) + rest == size + tail;
    RunDigits(trailer, 0, 0, size, tail);
    SizeGivesWay(trailer, v, |size|, tail);
    RunExtLine(trailer, v, ext, rest);
    if v != 0 {
      AfterAfter(Run(trailer, Config(ChunkData, v, 0), rest), [], |size|, [], |ext| + 1);
    } else if trailer {
      AfterAfter(Run(trailer, End(true), rest), [], |size|, [], |ext| + 1);
    }
  }

  lemma RunLineEnd(trailer: bool, crs: nat, rest: seq<byte>)
    ensures Run(trailer, Config(ChunkCrlf, 0, 0), LineEnd(crs) + rest) == Run(trailer, START, rest).After([], crs + 1)
  {
    RunIdleThen(trailer, Config(ChunkCrlf, 0, 0), Repeat(CR, crs), LF, rest);
  }

  lemma RunChunk(trailer: bool, c: Chunk, rest: seq<byte>)
    requires ValidChunk(c)
    ensures Run(trailer, START, EncodeChunk(c) + rest) == Run(trailer, START, rest).After(c.data, |EncodeChunk(c)|)
  {
    hide Run;
    var n := |c.data|;
    var afterLine, afterData := c.data + LineEnd(c.crs) + rest, LineEnd(c.crs) + rest;
    assert EncodeChunk(c) + rest == (c.size + c.ext + [LF]) + afterLine;
    RunSizeLine(trailer, c.size, c.ext, afterLine);
    assert afterLine[n..] == afterData && afterLine[..n] == c.data;
    RunData(trailer, Config(ChunkData, n, 0), afterLine, n);
    RunLineEnd(trailer, c.crs, rest);
    var r := Run(trailer, START, rest);
    AfterAfter(r, c.data, n, [], c.crs + 1);
    AfterAfter(r, [], |c.size| + |c.ext| + 1, c.data + [], n + c.crs + 1);
    assert c.data + [] == c.data && [] + c.data == c.data;
  }

  lemma {:induction false} RunChunks(trailer: bool, chunks: seq<Chunk>, rest: seq<byte>)
    requires forall c <- chunks :: ValidChunk(c)
    ensures Run(trailer, START, EncodeChunks(chunks) + rest) ==
            Run(trailer, START, rest).After(Data(chunks), |EncodeChunks(chunks)|)
  {
    hide Run;
    var r := Run(trailer, START, rest);
    if chunks == [] {
      assert EncodeChunks(chunks) + rest == rest;
      AfterNothing(r);
    } else {
      assert EncodeChunks(chunks) + rest == EncodeChunk(chunks[0]) + (EncodeChunks(chunks[1..]) + rest);
      RunChunk(trailer, chunks[0], EncodeChunks(chunks[1..]) + rest);
      RunChunks(trailer, chunks[1..], rest);
      AfterAfter(r, chunks[0].data, |EncodeChunk(chunks[0])|, Data(chunks[1..]), |EncodeChunks(chunks[1..])|);
    }
  }

  lemma RunTrailer(trailer: bool, t: TrailerLine, rest: seq<byte>)
    requires ValidTrailer(t)
    ensures Run(trailer, End(true), (Repeat(CR, t.crs) + t.text + [LF]) + rest) ==
            Run(trailer, End(true), rest).After([], t.crs + |t.text| + 1)
  {
    hide Run;
    var head, middle := End(true), Config(TrailersLineMiddle, 0, 0);
    var afterFirst := t.text[1..] + [LF] + rest;
    assert (Repeat(CR, t.crs) + t.text + [LF]) + rest == Repeat(CR, t.crs) + [t.text[0]] + afterFirst;
    RunIdleThen(trailer, head, Repeat(CR, t.crs), t.text[0], afterFirst);
    forall i | 0 <= i < |t.text[1..]| ensures Idles(trailer, middle, t.text[1..][i]) {
      assert t.text[1..][i] in t.text;
    }
    RunIdleThen(trailer, middle, t.text[1..], LF, rest);
    AfterAfter(Run(trailer, head, rest), [], t.crs + 1, [], |t.text|);
  }

  lemma {:induction false} RunTrailers(trailer: bool, lines: seq<TrailerLine>, endCrs: nat, rest: seq<byte>)
    requires forall t <- lines :: ValidTrailer(t)
    ensures Run(trailer, End(true), EncodeTrailers(lines) + LineEnd(endCrs) + rest) ==
            Outcome(Complete, End(true), [], |EncodeTrailers(lines)| + endCrs + 1)
  {
    hide Run;
    if lines == [] {
      assert EncodeTrailers(lines) + LineEnd(endCrs) + rest == Repeat(CR, endCrs) + [LF] + rest;
      RunIdleThen(trailer, End(true), Repeat(CR, endCrs), LF, rest);
    } else {
      var first := Repeat(CR, lines[0].crs) + lines[0].text + [LF];
      var tail := EncodeTrailers(lines[1..]) + LineEnd(endCrs) + rest;
      assert EncodeTrailers(lines) + LineEnd(endCrs) + rest == first + tail;
      RunTrailer(trailer, lines[0], tail);
      RunTrailers(trailer, lines[1..], endCrs, rest);
    }
  }

  /** Decoding is a left inverse of encoding, whatever follows the body. */
  lemma DecodesEncoding(trailer: bool, b: Body, rest: seq<byte>)
    requires ValidBody(trailer, b)
    ensures Run(trailer, START, Encode(trailer, b) + rest) ==
            Outcome(Complete, End(trailer), Data(b.chunks), |Encode(trailer, b)|)
  {
    hide Run;
    var zero := b.zeros + b.ext + [LF];
    var tail := if trailer then EncodeTrailers(b.trailers) + LineEnd(b.endCrs) + rest else rest;
    assert Encode(trailer, b) + rest == EncodeChunks(b.chunks) + (zero + tail);
    RunChunks(trailer, b.chunks, zero + tail);
    RunSizeLine(trailer, b.zeros, b.ext, tail);
    if trailer {
      RunTrailers(trailer, b.trailers, b.endCrs, rest);
    }
    assert Data(b.chunks) + [] == Data(b.chunks);
  }

  // Every text the decoder accepts is in the grammar -----------------------------------------------

  lemma FirstIndex(s: seq<byte>, b: byte) returns (n: nat)
    requires b in s
    ensures n < |s| && s[n] == b && b !in s[..n]
  {
    n := 0;
    while s[n] != b
      invariant n < |s| && b !in s[..n]
      invariant b in s[n..]
      decreases |s| - n
    {
      assert s[n..] == [s[n]] + s[n + 1..];
      n := n + 1;
    }
  }

  lemma CountCrs(s: seq<byte>) returns (n: nat)
    ensures n <= |s| && s[..n] == Repeat(CR, n) && (n < |s| ==> s[n] != CR)
  {
    n := 0;
    while n < |s| && s[n] == CR
      invariant n <= |s| && s[..n] == Repeat(CR, n)
    {
      n := n + 1;
    }
  }

  lemma SizeMoves(trailer: bool, left: nat, hex: nat, s: seq<byte>)
    requires Run(trailer, Config(ChunkSize, left, hex), s).verdict.Complete?
    ensures s != [] && if DecodeHex(s[0]) == -1 then hex > 0 else hex != MAX_HEX_DIGITS
  {}

  /** A size on which the run does not stop is digits up to a byte that is none. */
  lemma {:induction false} SplitDigits(trailer: bool, left: nat, hex: nat, s: seq<byte>) returns (n: nat)
    requires hex <= MAX_HEX_DIGITS && Run(trailer, Config(ChunkSize, left, hex), s).verdict.Complete?
    ensures n < |s| && IsHex(s[..n]) && DecodeHex(s[n]) == -1
    ensures 1 <= hex + n <= MAX_HEX_DIGITS
    decreases |s|
  {
    hide Run, DecodeHex;
    SizeMoves(trailer, left, hex, s);
    n := 0;
    if DecodeHex(s[0]) != -1 {
      RunOneDigit(trailer, left, hex, s);
      var m := SplitDigits(trailer, left * 16 + DecodeHex(s[0]), hex + 1, s[1..]);
      assert forall i :: 1 <= i < m + 1 ==> s[i] == s[1..][..m][i - 1];
      n := m + 1;
    }
  }

  lemma SplitSizeLine(trailer: bool, s: seq<byte>) returns (size: seq<byte>, ext: seq<byte>, rest: seq<byte>)
    requires Run(trailer, START, s).verdict.Complete?
    ensures ValidSizeLine(size, ext) && s == (size + ext + [LF]) + rest
  {
    hide Run;
    var n := SplitDigits(trailer, 0, 0, s);
    size := s[..n];
    var tail := s[n..];
    assert s == size + tail;
    RunDigits(trailer, 0, 0, size, tail);
    SizeGivesWay(trailer, HexFrom(0, size), n, tail);
    ExtNeedsLf(trailer, HexFrom(0, size), tail);
    var m := FirstIndex(tail, LF);
    ext, rest := tail[..m], tail[m + 1..];
    assert tail == ext + [LF] + rest;
    assert ext != [] ==> ext[0] == s[n];
  }

  lemma ExtNeedsLf(trailer: bool, left: nat, s: seq<byte>)
    requires Run(trailer, Config(ChunkExt, left, 0), s).verdict.Complete?
    ensures LF in s
  {
    if LF !in s { RunIdle(trailer, Config(ChunkExt, left, 0), s, |s|); }
  }

  lemma SplitChunk(trailer: bool, s: seq<byte>) returns (chunk: Chunk, rest: seq<byte>)
    requires Run(trailer, START, s).verdict.Complete?
    ensures match chunk
            case Chunk(size, ext, data, crs) =>
              && ValidSizeLine(size, ext)
              && if HexFrom(0, size) == 0 then s == (size + ext + [LF]) + rest else ValidChunk(chunk) && s == EncodeChunk(chunk) + rest
  {
    hide Run, HexFrom;
    var size, ext, afterLine := SplitSizeLine(trailer, s);
    RunSizeLine(trailer, size, ext, afterLine);
    var n := HexFrom(0, size);
    if n == 0 {
      return Chunk(size, ext, [], 0), afterLine;
    }
    DataFits(trailer, n, afterLine);
    var afterData := afterLine[n..];
    var crs;
    crs, rest := SplitLineEnd(trailer, afterData);
    chunk := Chunk(size, ext, afterLine[..n], crs);
    assert afterLine == chunk.data + afterData;
  }

  lemma DataFits(trailer: bool, n: nat, s: seq<byte>)
    requires n > 0 && Run(trailer, Config(ChunkData, n, 0), s).verdict.Complete?
    ensures n <= |s| && Run(trailer, Config(ChunkCrlf, 0, 0), s[n..]).verdict.Complete?
  {
    hide Run;
    RunData(trailer, Config(ChunkData, n, 0), s, if |s| < n then |s| else n);
  }

  lemma SplitLineEnd(trailer: bool, s: seq<byte>) returns (crs: nat, rest: seq<byte>)
    requires Run(trailer, Config(ChunkCrlf, 0, 0), s).verdict.Complete?
    ensures s == LineEnd(crs) + rest
  {
    hide Run;
    crs := CountCrs(s);
    RunIdle(trailer, Config(ChunkCrlf, 0, 0), s, crs);
    RunFrom(trailer, Config(ChunkCrlf, 0, 0), s, crs);
    rest := s[crs + 1..];
  }

  /** At a line head: the blank line that ends the trailers (no text), or one trailer line. */
  lemma SplitTrailer(trailer: bool, s: seq<byte>) returns (line: TrailerLine, rest: seq<byte>)
    requires Run(trailer, End(true), s).verdict.Complete?
    ensures if line.text == [] then s == LineEnd(line.crs) + rest
            else ValidTrailer(line) && s == (Repeat(CR, line.crs) + line.text + [LF]) + rest
  {
    hide Run;
    var head := End(true);
    var crs := CountCrs(s);
    RunIdle(trailer, head, s, crs);
    RunFrom(trailer, head, s, crs);
    var tail := s[crs + 1..];
    if s[crs] == LF {
      return TrailerLine(crs, []), tail;
    }
    MiddleNeedsLf(trailer, tail);
    var m := FirstIndex(tail, LF);
    line, rest := TrailerLine(crs, [s[crs]] + tail[..m]), tail[m + 1..];
    JoinLine(s, crs, m);
  }

  lemma MiddleNeedsLf(trailer: bool, s: seq<byte>)
    requires Run(trailer, Config(TrailersLineMiddle, 0, 0), s).verdict.Complete?
    ensures LF in s
  {
    if LF !in s { RunIdle(trailer, Config(TrailersLineMiddle, 0, 0), s, |s|); }
  }

  lemma JoinLine(s: seq<byte>, crs: nat, m: nat)
    requires crs + 1 + m < |s| && s[..crs] == Repeat(CR, crs) && s[crs + 1 + m] == LF
    ensures var tail := s[crs + 1..];
            s == (Repeat(CR, crs) + ([s[crs]] + tail[..m]) + [LF]) + tail[m + 1..]
  {
    var tail := s[crs + 1..];
    assert tail == tail[..m] + [LF] + tail[m + 1..];
    assert s == s[..crs] + [s[crs]] + tail;
  }

  lemma {:induction false} SplitTrailers(trailer: bool, s: seq<byte>) returns (lines: seq<TrailerLine>, endCrs: nat, rest: seq<byte>)
    requires Run(trailer, End(true), s).verdict.Complete?
    ensures forall t <- lines :: ValidTrailer(t)
    ensures s == EncodeTrailers(lines) + LineEnd(endCrs) + rest
    decreases |s|
  {
    hide Run, ValidTrailer;
    var line, tail := SplitTrailer(trailer, s);
    if line.text == [] {
      lines, endCrs, rest := [], line.crs, tail;
    } else {
      RunTrailer(trailer, line, tail);
      var more;
      more, endCrs, rest := SplitTrailers(trailer, tail);
      lines := [line] + more;
      assert EncodeTrailers(lines) == (Repeat(CR, line.crs) + line.text + [LF]) + EncodeTrailers(more);
    }
  }

  lemma EncodePrepend(trailer: bool, chunk: Chunk, b: Body)
    requires ValidChunk(chunk) && ValidBody(trailer, b)
    ensures var b' := b.(chunks := [chunk] + b.chunks);
            ValidBody(trailer, b') && Encode(trailer, b') == EncodeChunk(chunk) + Encode(trailer, b)
  {
    hide EncodeChunk, EncodeTrailers, HexFrom;
    assert EncodeChunks([chunk] + b.chunks) == EncodeChunk(chunk) + EncodeChunks(b.chunks);
  }

  lemma SplitLastLine(trailer: bool, chunk: Chunk, tail: seq<byte>) returns (b: Body, rest: seq<byte>)
    requires ValidSizeLine(chunk.size, chunk.ext) && HexFrom(0, chunk.size) == 0
    requires trailer ==> Run(trailer, End(true), tail).verdict.Complete?
    ensures ValidBody(trailer, b) && (chunk.size + chunk.ext + [LF]) + tail == Encode(trailer, b) + rest
  {
    hide Run, HexFrom;
    var line := chunk.size + chunk.ext + [LF];
    if trailer {
      var lines, endCrs;
      lines, endCrs, rest := SplitTrailers(trailer, tail);
      b := Body([], chunk.size, chunk.ext, lines, endCrs);
      assert Encode(trailer, b) == line + (EncodeTrailers(lines) + LineEnd(endCrs));
    } else {
      b, rest := Body([], chunk.size, chunk.ext, [], 0), tail;
      assert Encode(trailer, b) == line;
    }
  }

  lemma {:induction false} SplitBody(trailer: bool, s: seq<byte>) returns (b: Body, rest: seq<byte>)
    requires Run(trailer, START, s).verdict.Complete?
    ensures ValidBody(trailer, b) && s == Encode(trailer, b) + rest
    decreases |s|
  {
    hide Run, HexFrom, Encode, ValidBody;
    var chunk, tail := SplitChunk(trailer, s);
    if HexFrom(0, chunk.size) == 0 {
      RunSizeLine(trailer, chunk.size, chunk.ext, tail);
      b, rest := SplitLastLine(trailer, chunk, tail);
    } else {
      RunChunk(trailer, chunk, tail);
      var b';
      b', rest := SplitBody(trailer, tail);
      EncodePrepend(trailer, chunk, b');
      b := b'.(chunks := [chunk] + b'.chunks);
    }
  }

  /**
   The decoder completes after `n` bytes of `s` with `data` exactly when those bytes are a body of the
   grammar that carries `data`.
   */
  lemma CompletesOnBodiesOnly(trailer: bool, s: seq<byte>, data: seq<byte>, n: nat)
    ensures Run(trailer, START, s) == Outcome(Complete, End(trailer), data, n) <==>
            exists b :: ValidBody(trailer, b) && Encode(trailer, b) <= s && |Encode(trailer, b)| == n && Data(b.chunks) == data
    ensures Run(trailer, START, s).verdict.Complete? ==> Run(trailer, START, s).config == End(trailer)
  {
    hide Run;
    forall b | ValidBody(trailer, b) && Encode(trailer, b) <= s
      ensures Run(trailer, START, s) == Outcome(Complete, End(trailer), Data(b.chunks), |Encode(trailer, b)|)
    {
      var e := Encode(trailer, b);
      assert s == e + s[|e|..];
      DecodesEncoding(trailer, b, s[|e|..]);
    }
    if Run(trailer, START, s).verdict.Complete? {
      var b, rest := SplitBody(trailer, s);
      assert Encode(trailer, b) <= s;
    }
  }

  // What "incomplete" and "malformed" mean -----------------------------------------------------------

  /** Input that completes the body from any configuration. */
  function Completion(c: Config): seq<byte> {
    var end: seq<byte> := ['0' as int, LF, LF];
    match c.phase
    case ChunkSize => if c.hex == 0 then end else [LF] + Repeat(0, c.left) + [LF] + end
    case ChunkExt => [LF] + Repeat(0, c.left) + [LF] + end
    case ChunkData => Repeat(0, c.left) + [LF] + end
    case ChunkCrlf => [LF] + end
    case _ => [LF, LF]
  }

  lemma EndCompletes(trailer: bool)
    ensures Run(trailer, START, ['0' as int, LF, LF]).verdict.Complete?
    ensures Run(trailer, Config(ChunkCrlf, 0, 0), [LF] + ['0' as int, LF, LF]).verdict.Complete?
  {
    var end: seq<byte> := ['0' as int, LF, LF];
    var c1, c2 := Config(ChunkSize, 0, 1), End(true);
    assert end[0..] == end && end[1..][0] == LF && end[2..][0] == LF;
    RunFrom(trailer, START, end, 0);
    RunFrom(trailer, c1, end, 1);
    RunFrom(trailer, c2, end, 2);
    assert ([LF] + end)[1..] == end;
  }

  lemma DataCompletes(trailer: bool, left: nat)
    requires left > 0
    ensures Run(trailer, Config(ChunkData, left, 0), Completion(Config(ChunkData, left, 0))).verdict.Complete?
  {
    hide Run;
    var s := Completion(Config(ChunkData, left, 0));
    RunData(trailer, Config(ChunkData, left, 0), s, left);
    assert s[left..] == [LF] + ['0' as int, LF, LF];
    EndCompletes(trailer);
  }

  lemma ExtCompletes(trailer: bool, left: nat)
    ensures Run(trailer, Config(ChunkExt, left, 0), Completion(Config(ChunkExt, left, 0))).verdict.Complete?
  {
    hide Run;
    var s := Completion(Config(ChunkExt, left, 0));
    assert s[0..] == s;
    RunFrom(trailer, Config(ChunkExt, left, 0), s, 0);
    assert s[1..] == Completion(Config(ChunkData, left, 0));
    if left > 0 {
      DataCompletes(trailer, left);
    } else {
      RunFrom(trailer, End(true), s, 1);
    }
  }

  /** No reachable configuration is stuck. */
  lemma CompletionCompletes(trailer: bool, c: Config)
    requires Valid(c)
    ensures Run(trailer, c, Completion(c)).verdict.Complete?
  {
    match c.phase
    case ChunkSize =>
      EndCompletes(trailer);
      if c.hex > 0 {
        SizeGivesWay(trailer, c.left, c.hex, Completion(c));
        ExtCompletes(trailer, c.left);
      }
    case ChunkExt => ExtCompletes(trailer, c.left);
    case ChunkData => DataCompletes(trailer, c.left);
    case ChunkCrlf => EndCompletes(trailer);
    case TrailersLineHead =>
    case TrailersLineMiddle =>
      assert Completion(c)[1..] == [LF];
      assert Run(trailer, End(true), [LF]).verdict.Complete?;
  }

  /** The error answer is exact: it is given when, and only when, no continuation can complete the body. */
  lemma MalformedMeansHopeless(trailer: bool, s: seq<byte>)
    ensures Run(trailer, START, s).verdict.Malformed? <==> forall t :: !Run(trailer, START, s + t).verdict.Complete?
  {
    hide Run;
    var r := Run(trailer, START, s);
    match r.verdict {
      case Malformed =>
        forall t ensures !Run(trailer, START, s + t).verdict.Complete? { VerdictIsFinal(trailer, START, s, t); }
      case Complete =>
        assert s + [] == s;
        assert Run(trailer, START, s + []).verdict.Complete?;
      case Incomplete =>
        assert Valid(START);
        RunKeepsValid(trailer, START, s);
        CompletionCompletes(trailer, r.config);
        RunSplit(trailer, START, s, Completion(r.config));
        assert Run(trailer, START, s + Completion(r.config)).verdict.Complete?;
    }
  }
}
