/**
 The chunked transfer coding (section 4.1 of RFC 7230) as the decoder sees it: an automaton that
 reads one byte at a time. `Run` folds the automaton over a byte sequence; it is the specification
 the in-place decoder is proved against, and its own properties are proved here.
 */
module ChunkedAutomaton {
  import opened Bytes

  datatype Phase = ChunkSize | ChunkExt | ChunkData | ChunkCrlf | TrailersLineHead | TrailersLineMiddle

  /** The fields of a decoder that change while it reads. */
  datatype Config = Config(phase: Phase, left: nat, hex: nat)

  /** A zero-filled decoder. */
  const START := Config(ChunkSize, 0, 0)

  /** Two hex digits for each of the eight bytes of a `size_t`. */
  const MAX_HEX_DIGITS: nat := 16
  const SIZE_T_LIMIT: nat := 0x1_0000_0000_0000_0000

  function DecodeHex(b: byte): (v: int)
    ensures -1 <= v < 16
  {
    if '0' as int <= b <= '9' as int then b - '0' as int
    else if 'A' as int <= b <= 'F' as int then b - 'A' as int + 10
    else if 'a' as int <= b <= 'f' as int then b - 'a' as int + 10
    else -1
  }

  /** The digits and their values: `DecodeHex` finds a byte's place in either row, and nothing else's. */
  lemma DecodeHexExactly(b: byte, d: nat)
    requires d < 16
    ensures DecodeHex(b) == d <==> b == "0123456789abcdef"[d] as int || b == "0123456789ABCDEF"[d] as int
  {
    if d < 10 {
      assert "0123456789abcdef"[d] as int == '0' as int + d && "0123456789ABCDEF"[d] as int == '0' as int + d;
    } else {
      assert "0123456789abcdef"[d] as int == 'a' as int + d - 10 && "0123456789ABCDEF"[d] as int == 'A' as int + d - 10;
    }
  }

  function Pow16(n: nat): (p: nat)
    ensures p >= 1
  {
    if n == 0 then 1 else 16 * Pow16(n - 1)
  }

  lemma Pow16Monotone(m: nat, n: nat)
    requires m <= n
    ensures Pow16(m) <= Pow16(n)
  {
    if m < n {
      Pow16Monotone(m, n - 1);
    }
  }

  lemma Pow16Limit()
    ensures Pow16(MAX_HEX_DIGITS) == SIZE_T_LIMIT
  {
    assert Pow16(4) == 0x1_0000;
    assert Pow16(8) == 0x1_0000_0000;
    assert Pow16(12) == 0x1_0000_0000_0000;
  }

  /** What every configuration reachable from `START` satisfies. */
  ghost predicate Valid(c: Config) {
    match c.phase
    case ChunkSize => c.hex <= MAX_HEX_DIGITS && c.left < Pow16(c.hex)
    case ChunkExt => c.hex == 0 && c.left < SIZE_T_LIMIT
    case ChunkData => c.hex == 0 && 0 < c.left < SIZE_T_LIMIT
    case _ => c.hex == 0 && c.left == 0
  }

  /** What reading one byte does. A rejected byte is not consumed and changes nothing. */
  datatype Move = Next(config: Config, emitted: seq<byte>) | Finish(config: Config) | Reject

  function Step(trailer: bool, c: Config, b: byte): Move {
    match c.phase
    case ChunkSize =>
      if DecodeHex(b) == -1 then
        if c.hex == 0 then Reject else StepExt(trailer, c.left, b)
      else if c.hex == MAX_HEX_DIGITS then Reject
      else Next(Config(ChunkSize, c.left * 16 + DecodeHex(b), c.hex + 1), [])
    case ChunkExt => StepExt(trailer, c.left, b)
    case ChunkData =>
      if c.left <= 1 then Next(Config(ChunkCrlf, 0, c.hex), [b])
      else Next(c.(left := c.left - 1), [b])
    case ChunkCrlf =>
      if b == CR then Next(c, [])
      else if b == LF then Next(c.(phase := ChunkSize), [])
      else Reject
    case TrailersLineHead =>
      if b == CR then Next(c, [])
      else if b == LF then Finish(c)
      else Next(c.(phase := TrailersLineMiddle), [])
    case TrailersLineMiddle =>
      if b == LF then Next(c.(phase := TrailersLineHead), []) else Next(c, [])
  }

  function StepExt(trailer: bool, left: nat, b: byte): Move {
    if b != LF then Next(Config(ChunkExt, left, 0), [])
    else if left != 0 then Next(Config(ChunkData, left, 0), [])
    else if trailer then Next(Config(TrailersLineHead, 0, 0), [])
    else Finish(Config(ChunkExt, 0, 0))
  }

  datatype Verdict = Incomplete | Complete | Malformed

  /** The verdict, the decoder afterwards, the bytes decoded and how many bytes were read. */
  datatype Outcome = Outcome(verdict: Verdict, config: Config, data: seq<byte>, used: nat)
  {
    /** This outcome, of a run that started after `n` bytes that decoded to `d`. */
    function After(d: seq<byte>, n: nat): Outcome {
      this.(data := d + data, used := n + used)
    }
  }

  function Run(trailer: bool, c: Config, s: seq<byte>): (r: Outcome)
    ensures r.used <= |s|
    ensures r.verdict.Incomplete? ==> r.used == |s|
    ensures |r.data| <= r.used
    decreases |s|
  {
    if s == [] then Outcome(Incomplete, c, [], 0)
    else
      match Step(trailer, c, s[0])
      case Next(c', e) =>
        assert |e| <= 1;
        Run(trailer, c', s[1..]).After(e, 1)
      case Finish(c') => Outcome(Complete, c', [], 1)
      case Reject => Outcome(Malformed, c, [], 0)
  }

  lemma AfterAfter(r: Outcome, d1: seq<byte>, n1: nat, d2: seq<byte>, n2: nat)
    ensures r.After(d2, n2).After(d1, n1) == r.After(d1 + d2, n1 + n2)
  {
    assert d1 + (d2 + r.data) == (d1 + d2) + r.data;
  }

  lemma AfterNothing(r: Outcome)
    ensures r.After([], 0) == r
  {
    assert [] + r.data == r.data;
  }

  lemma RunFrom(trailer: bool, c: Config, s: seq<byte>, i: nat)
    requires i < |s|
    ensures Run(trailer, c, s[i..]) ==
            match Step(trailer, c, s[i])
            case Next(c', e) => Run(trailer, c', s[i + 1..]).After(e, 1)
            case Finish(c') => Outcome(Complete, c', [], 1)
            case Reject => Outcome(Malformed, c, [], 0)
  {
    assert s[i..][0] == s[i] && s[i..][1..] == s[i + 1..];
  }

  /** The run from `c0` over `s0` has come, after `n` bytes that decoded to `d`, to `c` with `s` to read. */
  ghost predicate Reaches(trailer: bool, c0: Config, s0: seq<byte>, c: Config, s: seq<byte>, d: seq<byte>, n: nat) {
    Run(trailer, c0, s0) == Run(trailer, c, s).After(d, n)
  }

  lemma ReachesSelf(trailer: bool, c: Config, s: seq<byte>)
    ensures Reaches(trailer, c, s, c, s, [], 0)
  {
    AfterNothing(Run(trailer, c, s));
  }

  lemma ReachesNext(trailer: bool, c0: Config, s0: seq<byte>, c: Config, s: seq<byte>, i: nat, d: seq<byte>, n: nat)
    requires i < |s| && Step(trailer, c, s[i]).Next?
    requires Reaches(trailer, c0, s0, c, s[i..], d, n)
    ensures var m := Step(trailer, c, s[i]);
            && Reaches(trailer, c0, s0, m.config, s[i + 1..], d + m.emitted, n + 1)
            && (m.emitted == [] ==> Reaches(trailer, c0, s0, m.config, s[i + 1..], d, n + 1))
  {
    RunFrom(trailer, c, s, i);
    var m := Step(trailer, c, s[i]);
    assert d + [] == d;
    AfterAfter(Run(trailer, m.config, s[i + 1..]), d, n, m.emitted, 1);
  }

  lemma ReachesStop(trailer: bool, c0: Config, s0: seq<byte>, c: Config, s: seq<byte>, i: nat, d: seq<byte>, n: nat)
    requires i <= |s| && Reaches(trailer, c0, s0, c, s[i..], d, n)
    ensures i == |s| ==> Run(trailer, c0, s0) == Outcome(Incomplete, c, d, n)
    ensures i < |s| && Step(trailer, c, s[i]).Reject? ==> Run(trailer, c0, s0) == Outcome(Malformed, c, d, n)
    ensures i < |s| && Step(trailer, c, s[i]).Finish? ==>
              Run(trailer, c0, s0) == Outcome(Complete, Step(trailer, c, s[i]).config, d, n + 1)
  {
    if i < |s| { RunFrom(trailer, c, s, i); }
    assert d + [] == d;
  }

  /** A byte that is no digit ends the size and is read again as part of the extension. */
  lemma ReachesExt(trailer: bool, c0: Config, s0: seq<byte>, c: Config, s: seq<byte>, i: nat, d: seq<byte>, n: nat)
    requires c.phase.ChunkSize? && c.hex > 0 && i < |s| && DecodeHex(s[i]) == -1
    requires Reaches(trailer, c0, s0, c, s[i..], d, n)
    ensures Reaches(trailer, c0, s0, Config(ChunkExt, c.left, 0), s[i..], d, n)
    ensures Valid(c) ==> Valid(Config(ChunkExt, c.left, 0))
  {
    RunFrom(trailer, c, s, i);
    RunFrom(trailer, Config(ChunkExt, c.left, 0), s, i);
    if Valid(c) { SizeFits(c.left, c.hex); }
  }

  // Invariants -------------------------------------------------------------------------------

  /** A size of at most sixteen digits fits in a `size_t`, so the multiply-and-add never wraps. */
  lemma SizeFits(left: nat, hex: nat)
    requires hex <= MAX_HEX_DIGITS && left < Pow16(hex)
    ensures left < SIZE_T_LIMIT
  {
    Pow16Monotone(hex, MAX_HEX_DIGITS);
    Pow16Limit();
  }

  /** One byte keeps the invariant. */
  lemma StepKeepsValid(trailer: bool, c: Config, b: byte)
    requires Valid(c)
    ensures c.left < SIZE_T_LIMIT
    ensures match Step(trailer, c, b)
            case Next(c', e) => Valid(c') && c'.left < SIZE_T_LIMIT
            case Finish(c') => Valid(c')
            case Reject => true
  {
    hide Pow16;
    match c.phase {
      case ChunkSize =>
        SizeFits(c.left, c.hex);
        if DecodeHex(b) != -1 && c.hex < MAX_HEX_DIGITS {
          assert Pow16(c.hex + 1) == 16 * Pow16(c.hex) by { NextPower(c.hex); }
          SizeFits(c.left * 16 + DecodeHex(b), c.hex + 1);
        }
      case ChunkExt =>
      case ChunkCrlf => PowerZero();
      case _ => PowerZero();
    }
  }

  lemma NextPower(n: nat)
    ensures Pow16(n + 1) == 16 * Pow16(n)
  {}

  lemma PowerZero()
    ensures Pow16(0) == 1
  {}

  lemma {:induction false} RunKeepsValid(trailer: bool, c: Config, s: seq<byte>)
    requires Valid(c)
    ensures Valid(Run(trailer, c, s).config)
    ensures Run(trailer, c, s).config.left < SIZE_T_LIMIT
    decreases |s|
  {
    hide Pow16;
    if c.phase.ChunkSize? { SizeFits(c.left, c.hex); }
    if s != [] {
      StepKeepsValid(trailer, c, s[0]);
      match Step(trailer, c, s[0])
      case Next(c', e) => RunKeepsValid(trailer, c', s[1..]);
      case _ =>
    }
  }

  // Fragmentation ----------------------------------------------------------------------------

  /** Reading `a` and then `b` is reading `a + b`. */
  lemma {:induction false} RunSplit(trailer: bool, c: Config, a: seq<byte>, b: seq<byte>)
    ensures var r := Run(trailer, c, a);
            Run(trailer, c, a + b) ==
            if r.verdict.Incomplete? then Run(trailer, r.config, b).After(r.data, |a|) else r
    decreases |a|
  {
    if a == [] {
      assert a + b == b;
      AfterNothing(Run(trailer, c, b));
    } else {
      assert (a + b)[0] == a[0] && (a + b)[1..] == a[1..] + b;
      match Step(trailer, c, a[0])
      case Next(c', e) =>
        RunSplit(trailer, c', a[1..], b);
        var r := Run(trailer, c', a[1..]);
        if r.verdict.Incomplete? {
          AfterAfter(Run(trailer, r.config, b), e, 1, r.data, |a| - 1);
        }
      case _ =>
    }
  }

  /** The documented protocol: feed the fragments in turn until one call does not answer "incomplete". */
  function RunFragments(trailer: bool, c: Config, fragments: seq<seq<byte>>): Outcome
    decreases |fragments|
  {
    if fragments == [] then Outcome(Incomplete, c, [], 0)
    else
      var r := Run(trailer, c, fragments[0]);
      if r.verdict.Incomplete?
      then RunFragments(trailer, r.config, fragments[1..]).After(r.data, r.used)
      else r
  }

  /**
   However a stream is cut into buffers, the verdict, the final decoder, the concatenated data and
   the number of bytes read are those of one call on the whole stream.
   */
  lemma {:induction false} FragmentationDoesNotMatter(trailer: bool, c: Config, fragments: seq<seq<byte>>)
    ensures RunFragments(trailer, c, fragments) == Run(trailer, c, Concat(fragments))
    decreases |fragments|
  {
    if fragments != [] {
      RunSplit(trailer, c, fragments[0], Concat(fragments[1..]));
      var r := Run(trailer, c, fragments[0]);
      if r.verdict.Incomplete? {
        FragmentationDoesNotMatter(trailer, r.config, fragments[1..]);
      }
    }
  }

  /** A verdict other than "incomplete" does not change when more input follows. */
  lemma VerdictIsFinal(trailer: bool, c: Config, s: seq<byte>, more: seq<byte>)
    requires !Run(trailer, c, s).verdict.Incomplete?
    ensures Run(trailer, c, s + more) == Run(trailer, c, s)
  {
    RunSplit(trailer, c, s, more);
  }

  // Runs of bytes the decoder treats in bulk ----------------------------------------------------

  /** Chunk data is copied: `n` bytes of it, not more than are left in the chunk. */
  lemma {:induction false} RunData(trailer: bool, c: Config, s: seq<byte>, n: nat)
    requires c.phase.ChunkData? && 0 < c.left && n <= c.left && n <= |s|
    ensures Run(trailer, c, s) ==
            Run(trailer, if n < c.left then c.(left := c.left - n) else Config(ChunkCrlf, 0, c.hex), s[n..]).After(s[..n], n)
    ensures n == |s| ==> Run(trailer, c, s).verdict.Incomplete?
    decreases n
  {
    if n == 0 {
      assert s[n..] == s && s[..n] == [];
      AfterNothing(Run(trailer, c, s));
    } else {
      var c' := if 1 < c.left then c.(left := c.left - 1) else Config(ChunkCrlf, 0, c.hex);
      assert Step(trailer, c, s[0]) == Next(c', [s[0]]);
      if 1 < c.left {
        RunData(trailer, c', s[1..], n - 1);
      } else {
        assert n == 1 && s[1..][..n - 1] == [];
        AfterNothing(Run(trailer, c', s[1..]));
      }
      assert s[1..][n - 1..] == s[n..];
      assert [s[0]] + s[1..][..n - 1] == s[..n];
      var d := if n < c.left then c.(left := c.left - n) else Config(ChunkCrlf, 0, c.hex);
      AfterAfter(Run(trailer, d, s[n..]), [s[0]], 1, s[1..][..n - 1], n - 1);
    }
  }

  /** A configuration that a byte leaves as it is and from which it emits nothing. */
  ghost predicate Idles(trailer: bool, c: Config, b: byte) {
    Step(trailer, c, b) == Next(c, [])
  }

  lemma {:induction false} RunIdle(trailer: bool, c: Config, s: seq<byte>, n: nat)
    requires n <= |s| && forall i :: 0 <= i < n ==> Idles(trailer, c, s[i])
    ensures Run(trailer, c, s) == Run(trailer, c, s[n..]).After([], n)
    ensures n == |s| ==> Run(trailer, c, s).verdict.Incomplete?
    decreases n
  {
    if n == 0 {
      assert s[n..] == s;
      AfterNothing(Run(trailer, c, s));
    } else {
      assert Idles(trailer, c, s[0]);
      forall i | 0 <= i < n - 1 ensures Idles(trailer, c, s[1..][i]) {
        assert s[1..][i] == s[i + 1];
      }
      RunIdle(trailer, c, s[1..], n - 1);
      assert s[1..][n - 1..] == s[n..];
      AfterAfter(Run(trailer, c, s[n..]), [], 1, [], n - 1);
    }
  }

  lemma ReachesData(trailer: bool, c0: Config, s0: seq<byte>, c: Config, s: seq<byte>, i: nat, d: seq<byte>, n: nat, m: nat)
    requires c.phase.ChunkData? && 0 < c.left && m <= c.left && i + m <= |s|
    requires Reaches(trailer, c0, s0, c, s[i..], d, n)
    ensures Reaches(trailer, c0, s0, if m < c.left then c.(left := c.left - m) else Config(ChunkCrlf, 0, c.hex),
                    s[i + m..], d + s[i..i + m], n + m)
  {
    RunData(trailer, c, s[i..], m);
    assert s[i..][m..] == s[i + m..] && s[i..][..m] == s[i..i + m];
    var c' := if m < c.left then c.(left := c.left - m) else Config(ChunkCrlf, 0, c.hex);
    AfterAfter(Run(trailer, c', s[i + m..]), d, n, s[i..i + m], m);
  }
}
