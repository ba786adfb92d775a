/** Sizes as numbers in base sixteen, and one whole chunked body byte by byte. */
module ChunkedBytes {
  import opened Bytes
  import opened ChunkedAutomaton
  import opened ChunkedGrammar

  /** Each further digit of a size makes it sixteen times as much, plus the digit. */
  lemma SizesAreHex(digits: seq<byte>, digit: byte, d: nat)
    requires d < 16 && (digit == "0123456789abcdef"[d] as int || digit == "0123456789ABCDEF"[d] as int)
    ensures HexFrom(0, []) == 0 && HexFrom(0, digits + [digit]) == 16 * HexFrom(0, digits) + d
  {
    DecodeHexExactly(digit, d);
    OneDigitMore(0, digits, digit);
  }

  lemma {:induction false} OneDigitMore(acc: nat, digits: seq<byte>, digit: byte)
    requires DecodeHex(digit) != -1
    ensures HexFrom(acc, digits + [digit]) == 16 * HexFrom(acc, digits) + DecodeHex(digit)
    decreases |digits|
  {
    if digits == [] {
      assert [] + [digit] == [digit] && [digit][1..] == [];
    } else {
      assert (digits + [digit])[1..] == digits[1..] + [digit];
      OneDigitMore(acc * 16 + if DecodeHex(digits[0]) < 0 then 0 else DecodeHex(digits[0]), digits[1..], digit);
    }
  }

  /** A size may have sixteen digits and no more, zeros in front included. */
  lemma DigitsFit(trailer: bool, digits: seq<byte>)
    requires IsHex(digits)
    ensures Run(trailer, START, digits).verdict == if |digits| <= 16 then Incomplete else Malformed
  {
    hide Run, HexFrom;
    var n := if |digits| <= 16 then |digits| else 16;
    RunDigits(trailer, 0, 0, digits[..n], digits[n..]);
    assert digits == digits[..n] + digits[n..];
    var c := Config(ChunkSize, HexFrom(0, digits[..n]), n);
    RunStops(trailer, c, digits[n..]);
  }

  lemma RunStops(trailer: bool, c: Config, s: seq<byte>)
    ensures s == [] ==> Run(trailer, c, s).verdict == Incomplete
    ensures s != [] && Step(trailer, c, s[0]) == Reject ==> Run(trailer, c, s).verdict == Malformed
  {}

  /**
   A chunk of 26 bytes, with its size as `1A;x` CR LF, and the last chunk `0` CR LF. Without trailers the
   body ends there; with them it goes on with the line `a:` CR LF and CR LF.
   */
  lemma DecodesThisBody(data: seq<byte>, rest: seq<byte>)
    requires |data| == 26
    ensures var body := [49, 65, 59, 120, 13, 10] + data + [13, 10, 48, 13, 10];
            && Decodes(false, body + rest, data, 37)
            && Decodes(true, body + [97, 58, 13, 10, 13, 10] + rest, data, 43)
  {
    var chunk := Chunk([49, 65], [59, 120, 13], data, 1);
    var plain, full := Body([chunk], [48], [13], [], 0), Body([chunk], [48], [13], [TrailerLine(0, [97, 58, 13])], 1);
    ThisChunk(data);
    ThisText(data);
    DecodesEncoding(false, plain, rest);
    DecodesEncoding(true, full, rest);
    assert Data([chunk]) == data + Data([]) == data;
  }

  ghost predicate Decodes(trailer: bool, s: seq<byte>, data: seq<byte>, n: nat) {
    var r := Run(trailer, START, s);
    r.verdict == Complete && r.data == data && r.used == n
  }

  lemma ThisChunk(data: seq<byte>)
    requires |data| == 26
    ensures ValidChunk(Chunk([49, 65], [59, 120, 13], data, 1)) && HexFrom(0, [48]) == 0
  {
    assert "0123456789ABCDEF"[1] == '1' && "0123456789ABCDEF"[10] == 'A' && "0123456789abcdef"[0] == '0';
    SizesAreHex([], 49, 1);
    SizesAreHex([49], 65, 10);
    SizesAreHex([], 48, 0);
    assert [] + [49] == [49] && [49] + [65] == [49, 65] && [] + [48] == [48];
  }

  lemma ThisText(data: seq<byte>)
    requires |data| == 26
    ensures var chunk := Chunk([49, 65], [59, 120, 13], data, 1);
            var body := [49, 65, 59, 120, 13, 10] + data + [13, 10, 48, 13, 10];
            && Encode(false, Body([chunk], [48], [13], [], 0)) == body
            && Encode(true, Body([chunk], [48], [13], [TrailerLine(0, [97, 58, 13])], 1)) == body + [97, 58, 13, 10, 13, 10]
  {
    var chunk := Chunk([49, 65], [59, 120, 13], data, 1);
    var line := TrailerLine(0, [97, 58, 13]);
    assert LineEnd(1) == [13, 10];
    assert EncodeChunks([chunk]) == EncodeChunk(chunk) + EncodeChunks([]);
    assert Repeat(CR, 0) == [];
    assert EncodeTrailers([line]) == (Repeat(CR, 0) + line.text + [LF]) + EncodeTrailers([]) == [97, 58, 13, 10];
    assert EncodeTrailers([]) == [];
  }
}
