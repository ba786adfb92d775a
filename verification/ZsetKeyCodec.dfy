/**
 How the Rust store writes a sorted set's entries to its ordered byte store: under the set's key, a
 NUL byte and the value, the four little-endian bytes of the score.
 */
module ZsetKeyCodec {
  import opened Bytes
  import opened Values

  const NUL: byte := 0

  function EncodeKey(key: Text, value: Text): Text {
    key + [NUL] + value
  }

  /** A stored key, byte by byte. */
  lemma EncodedBytes(key: Text, value: Text)
    ensures NUL == 0 && |EncodeKey(key, value)| == |key| + 1 + |value|
    ensures forall i :: 0 <= i < |EncodeKey(key, value)| ==>
                          EncodeKey(key, value)[i] ==
                          if i < |key| then key[i] else if i == |key| then 0 else value[i - |key| - 1]
  {}

  function FirstNul(s: Text): (n: nat)
    ensures n <= |s| && NUL !in s[..n] && (n < |s| ==> s[n] == NUL)
  {
    if s == [] || s[0] == NUL then 0
    else
      var n := FirstNul(s[1..]);
      assert s[..n + 1] == [s[0]] + s[1..][..n];
      n + 1
  }

  /** `splitn(2, |c| *c == 0)`; without a NUL byte there is no second part and unwrapping it panics. */
  function DecodeKey(s: Text): Option<(Text, Text)> {
    var n := FirstNul(s);
    if n == |s| then None else Some((s[..n], s[n + 1..]))
  }

  /** A key is read back as it was written exactly if it holds no NUL byte; the value may hold any. */
  lemma KeyRoundTrip(key: Text, value: Text)
    ensures DecodeKey(EncodeKey(key, value)) == Some((key, value)) <==> 0 !in key
  {
    var s := EncodeKey(key, value);
    var n := FirstNul(s);
    assert s[|key|] == NUL;
    assert forall i :: 0 <= i < n ==> s[i] in s[..n];
    assert n <= |key|;
    if n == |key| {
      assert s[..n] == key && s[n + 1..] == value;
    } else {
      assert s[n] == key[n];
      assert |s[..n]| < |key|;
    }
  }

  /** What is read from a stored key is what writes it back. */
  lemma DecodedKey(s: Text)
    ensures DecodeKey(s).None? <==> 0 !in s
    ensures DecodeKey(s).Some? ==>
              var (key, value) := DecodeKey(s).value; 0 !in key && EncodeKey(key, value) == s
  {
    var n := FirstNul(s);
    if n == |s| {
      assert s == s[..n];
    } else {
      assert s == s[..n] + [s[n]] + s[n + 1..];
    }
  }

  function LeBytes(n: u32): Text {
    [n % 256, n / 256 % 256, n / 65536 % 256, n / 16777216]
  }

  /** `copy_from_slice` into four bytes panics for any other length. */
  function FromLeBytes(s: Text): Option<u32> {
    if |s| != 4 then None
    else
      var (a: int, b: int, c: int, d: int) := (s[0] as int, s[1] as int, s[2] as int, s[3] as int);
      Some(a + 256 * b + 65536 * c + 16777216 * d)
  }

  /** A score is stored in four bytes, the lowest first, and read back. */
  lemma ScoreRoundTrip(n: u32)
    ensures FromLeBytes(LeBytes(n)) == Some(n)
    ensures var s := LeBytes(n);
            |s| == 4 && n == s[0] as int + 256 * (s[1] as int) + 65536 * (s[2] as int) + 16777216 * (s[3] as int)
  {
    assert n / 256 == n / 256 % 256 + 256 * (n / 65536);
    assert n / 65536 == n / 65536 % 256 + 256 * (n / 16777216);
  }

  lemma BytesRoundTrip(s: Text)
    requires |s| == 4
    ensures LeBytes(FromLeBytes(s).value) == s
  {
    var n := FromLeBytes(s).value;
    var b: int, c: int, d: int := s[1], s[2], s[3];
    assert n / 256 == b + 256 * c + 65536 * d;
    assert n / 65536 == c + 256 * d;
    assert n / 16777216 == d;
  }
}
