/**
 The in-place decoder. It is a state machine whose cases fall through, with a read cursor and a
 write cursor in one buffer; decoded bytes are moved down over the framing that was removed.
 */
module ChunkedDecoding {
  import opened Bytes
  import opened ChunkedAutomaton

  /** `memmove` towards lower addresses: `n` bytes at `src` are copied to `dst`. */
  method MoveDown(buf: array<byte>, dst: nat, src: nat, n: nat)
    requires dst <= src && src + n <= buf.Length
    modifies buf
    ensures Moved(old(buf[..]), buf[..], dst, src, n)
  {
    hide Moved;
    ghost var before := buf[..];
    var i := 0;
    MovedNothing(before, dst, src);
    while i < n
      invariant 0 <= i <= n
      invariant forall j :: src + i <= j < buf.Length ==> buf[j] == before[j]
      invariant Moved(before, buf[..], dst, src, i)
    {
      MovedOneMore(before, buf[..], dst, src, i);
      ghost var now := buf[..];
      buf[dst + i] := buf[src + i];
      assert buf[..] == now[dst + i := before[src + i]];
      i := i + 1;
    }
  }

  lemma MovedNothing(before: seq<byte>, dst: nat, src: nat)
    requires dst <= src <= |before|
    ensures Moved(before, before, dst, src, 0)
  {
    assert before == before[..dst] + before[src..src] + before[dst..];
  }

  lemma MovedOneMore(before: seq<byte>, now: seq<byte>, dst: nat, src: nat, i: nat)
    requires dst <= src && src + i < |before| && Moved(before, now, dst, src, i)
    ensures Moved(before, now[dst + i := before[src + i]], dst, src, i + 1)
  {
    assert before[src..src + (i + 1)] == before[src..src + i] + [before[src + i]];
    assert before[dst + i..] == [before[dst + i]] + before[dst + (i + 1)..];
  }

  ghost predicate Moved(before: seq<byte>, after: seq<byte>, dst: nat, src: nat, n: nat)
    requires dst <= src && src + n <= |before|
  {
    after == before[..dst] + before[src..src + n] + before[dst + n..]
  }

  /** How one case of the state machine is left: into the next case, back to the loop, or out of it. */
  datatype Exit = FallThrough | Again | Stop(verdict: Verdict)

  class ChunkedDecoder {
    var bytesLeftInChunk: nat
    var consumeTrailer: bool
    var hexCount: nat
    var state: Phase

    constructor (consumeTrailer: bool)
      ensures Snapshot() == START && this.consumeTrailer == consumeTrailer
      ensures Valid(Snapshot())
    {
      this.consumeTrailer := consumeTrailer;
      bytesLeftInChunk, hexCount, state := 0, 0, ChunkSize;
    }

    function Snapshot(): Config
      reads this
    {
      Config(state, bytesLeftInChunk, hexCount)
    }

    /** In chunk data means exactly that the next byte, whatever it is, is a byte of the body. */
    method IsInData() returns (r: bool)
      ensures r <==> forall b: byte :: EmitsNext(b)
    {
      r := state == ChunkData;
      assert !r ==> !EmitsNext(LF);
    }

    ghost predicate EmitsNext(b: byte)
      reads this
    {
      var m := Step(consumeTrailer, Snapshot(), b);
      m.Next? && m.emitted == [b]
    }

    /**
     A call that began with decoder `c0` and buffer contents `input` has read up to `src`. What it
     decoded lies in `buf[..dst]`; what it has not read is where it was.
     */
    ghost predicate Reading(c0: Config, input: seq<byte>, buf: array<byte>, dst: nat, src: nat)
      reads this, buf
    {
      && dst <= src <= |input| <= buf.Length
      && Valid(Snapshot())
      && buf[src..|input|] == input[src..]
      && Reaches(consumeTrailer, c0, input, Snapshot(), input[src..], buf[..dst], src)
    }

    /** The call stops at `src` with this verdict. */
    ghost predicate Stopped(c0: Config, input: seq<byte>, buf: array<byte>, dst: nat, src: nat, verdict: Verdict)
      reads this, buf
    {
      && dst <= src <= |input| <= buf.Length
      && Valid(Snapshot())
      && buf[src..|input|] == input[src..]
      && Run(consumeTrailer, c0, input) == Outcome(verdict, Snapshot(), buf[..dst], src)
    }

    /** What leaving a case promises: the phases the code may go on with, or the verdict. */
    ghost predicate Left(exit: Exit, next: Phase, again: Phase, c0: Config, input: seq<byte>, buf: array<byte>, dst: nat, src: nat)
      reads this, buf
    {
      match exit
      case FallThrough => state == next && Reading(c0, input, buf, dst, src)
      case Again => state == again && Reading(c0, input, buf, dst, src)
      case Stop(v) => Stopped(c0, input, buf, dst, src, v)
    }

    method ReadSize(buf: array<byte>, bufsz: nat, ghost dst: nat, start: nat, ghost c0: Config, ghost input: seq<byte>)
      returns (src: nat, exit: Exit)
      requires |input| == bufsz && Reading(c0, input, buf, dst, start) && state == ChunkSize
      modifies this`bytesLeftInChunk, this`hexCount, this`state
      ensures start <= src && !exit.Again? && Left(exit, ChunkExt, ChunkExt, c0, input, buf, dst, src)
    {
      hide Run, Reaches, Valid, Step;
      src := start;
      while true
        invariant start <= src && state == ChunkSize && Reading(c0, input, buf, dst, src)
        decreases bufsz - src
      {
        ReachesStop(consumeTrailer, c0, input, Snapshot(), input, src, buf[..dst], src);
        if src == bufsz {
          return src, Stop(Incomplete);
        }
        NextSlice(buf[..], input, src);
        SizeStep(consumeTrailer, Snapshot(), buf[src]);
        var v := DecodeHex(buf[src]);
        if v == -1 {
          if hexCount == 0 {
            return src, Stop(Malformed);
          }
          break;
        }
        if hexCount == MAX_HEX_DIGITS {
          return src, Stop(Malformed);
        }
        ReachesNext(consumeTrailer, c0, input, Snapshot(), input, src, buf[..dst], src);
        bytesLeftInChunk := (bytesLeftInChunk * 16 + v) % SIZE_T_LIMIT;
        hexCount := hexCount + 1;
        src := src + 1;
      }
      ReachesExt(consumeTrailer, c0, input, Snapshot(), input, src, buf[..dst], src);
      hexCount := 0;
      state := ChunkExt;
      exit := FallThrough;
    }

    method SkipExt(buf: array<byte>, bufsz: nat, ghost dst: nat, start: nat, ghost c0: Config, ghost input: seq<byte>)
      returns (src: nat, exit: Exit)
      requires |input| == bufsz && Reading(c0, input, buf, dst, start) && state == ChunkExt
      modifies this`state
      ensures start <= src && Left(exit, ChunkData, TrailersLineHead, c0, input, buf, dst, src)
      ensures exit.Again? ==> start < src
    {
      hide Run, Reaches, Valid, Step;
      src := start;
      while true
        invariant start <= src && state == ChunkExt && Reading(c0, input, buf, dst, src)
        decreases bufsz - src
      {
        ReachesStop(consumeTrailer, c0, input, Snapshot(), input, src, buf[..dst], src);
        if src == bufsz {
          return src, Stop(Incomplete);
        }
        NextSlice(buf[..], input, src);
        ExtStep(consumeTrailer, Snapshot(), buf[src]);
        if buf[src] == LF {
          break;
        }
        ReachesNext(consumeTrailer, c0, input, Snapshot(), input, src, buf[..dst], src);
        src := src + 1;
      }
      if Step(consumeTrailer, Snapshot(), input[src]).Next? {
        ReachesNext(consumeTrailer, c0, input, Snapshot(), input, src, buf[..dst], src);
      }
      src := src + 1;
      if bytesLeftInChunk == 0 {
        if consumeTrailer {
          state := TrailersLineHead;
          return src, Again;
        } else {
          return src, Stop(Complete);
        }
      }
      state := ChunkData;
      exit := FallThrough;
    }

    method CopyData(buf: array<byte>, bufsz: nat, start: nat, from: nat, ghost c0: Config, ghost input: seq<byte>)
      returns (dst: nat, src: nat, exit: Exit)
      requires |input| == bufsz && Reading(c0, input, buf, start, from) && state == ChunkData
      modifies this`bytesLeftInChunk, this`state, buf
      ensures from <= src && !exit.Again? && Left(exit, ChunkCrlf, ChunkCrlf, c0, input, buf, dst, src)
      ensures buf[bufsz..] == old(buf[bufsz..])
    {
      hide Run, Reaches, Step, Moved;
      dst, src := start, from;
      var avail := bufsz - src;
      var n := if avail < bytesLeftInChunk then avail else bytesLeftInChunk;
      ReachesData(consumeTrailer, c0, input, Snapshot(), input, src, buf[..dst], src, n);
      if dst != src {
        MoveDown(buf, dst, src, n);
      } else {
        MovedInPlace(buf[..], src, n);
      }
      MovedKeepsRest(old(buf[..]), buf[..], input, dst, src, n);
      src := src + n;
      dst := dst + n;
      if avail < bytesLeftInChunk {
        bytesLeftInChunk := bytesLeftInChunk - avail;
        ReachesStop(consumeTrailer, c0, input, Snapshot(), input, src, buf[..dst], src);
        exit := Stop(Incomplete);
      } else {
        bytesLeftInChunk := 0;
        state := ChunkCrlf;
        exit := FallThrough;
      }
    }

    method ReadCrlf(buf: array<byte>, bufsz: nat, ghost dst: nat, start: nat, ghost c0: Config, ghost input: seq<byte>)
      returns (src: nat, exit: Exit)
      requires |input| == bufsz && Reading(c0, input, buf, dst, start) && state == ChunkCrlf
      modifies this`state
      ensures start <= src && !exit.FallThrough? && Left(exit, ChunkSize, ChunkSize, c0, input, buf, dst, src)
      ensures exit.Again? ==> start < src
    {
      hide Run, Reaches, Valid;
      src := start;
      while true
        invariant start <= src && state == ChunkCrlf && Reading(c0, input, buf, dst, src)
        decreases bufsz - src
      {
        ReachesStop(consumeTrailer, c0, input, Snapshot(), input, src, buf[..dst], src);
        if src == bufsz {
          return src, Stop(Incomplete);
        }
        NextSlice(buf[..], input, src);
        if buf[src] != CR {
          break;
        }
        ReachesNext(consumeTrailer, c0, input, Snapshot(), input, src, buf[..dst], src);
        src := src + 1;
      }
      if buf[src] != LF {
        return src, Stop(Malformed);
      }
      StepKeepsValid(consumeTrailer, Snapshot(), buf[src]);
      ReachesNext(consumeTrailer, c0, input, Snapshot(), input, src, buf[..dst], src);
      src := src + 1;
      state := ChunkSize;
      exit := Again;
    }

    method ReadLineHead(buf: array<byte>, bufsz: nat, ghost dst: nat, start: nat, ghost c0: Config, ghost input: seq<byte>)
      returns (src: nat, exit: Exit)
      requires |input| == bufsz && Reading(c0, input, buf, dst, start) && state == TrailersLineHead
      modifies this`state
      ensures start <= src && !exit.Again? && Left(exit, TrailersLineMiddle, TrailersLineMiddle, c0, input, buf, dst, src)
    {
      hide Run, Reaches, Valid;
      src := start;
      while true
        invariant start <= src && state == TrailersLineHead && Reading(c0, input, buf, dst, src)
        decreases bufsz - src
      {
        ReachesStop(consumeTrailer, c0, input, Snapshot(), input, src, buf[..dst], src);
        if src == bufsz {
          return src, Stop(Incomplete);
        }
        NextSlice(buf[..], input, src);
        if buf[src] != CR {
          break;
        }
        ReachesNext(consumeTrailer, c0, input, Snapshot(), input, src, buf[..dst], src);
        src := src + 1;
      }
      src := src + 1;
      if buf[src - 1] == LF {
        return src, Stop(Complete);
      }
      StepKeepsValid(consumeTrailer, Snapshot(), buf[src - 1]);
      ReachesNext(consumeTrailer, c0, input, Snapshot(), input, src - 1, buf[..dst], src - 1);
      state := TrailersLineMiddle;
      exit := FallThrough;
    }

    method ReadLineMiddle(buf: array<byte>, bufsz: nat, ghost dst: nat, start: nat, ghost c0: Config, ghost input: seq<byte>)
      returns (src: nat, exit: Exit)
      requires |input| == bufsz && Reading(c0, input, buf, dst, start) && state == TrailersLineMiddle
      modifies this`state
      ensures start <= src && !exit.FallThrough? && Left(exit, TrailersLineHead, TrailersLineHead, c0, input, buf, dst, src)
      ensures exit.Again? ==> start < src
    {
      hide Run, Reaches, Valid;
      src := start;
      while true
        invariant start <= src && state == TrailersLineMiddle && Reading(c0, input, buf, dst, src)
        decreases bufsz - src
      {
        ReachesStop(consumeTrailer, c0, input, Snapshot(), input, src, buf[..dst], src);
        if src == bufsz {
          return src, Stop(Incomplete);
        }
        NextSlice(buf[..], input, src);
        if buf[src] == LF {
          break;
        }
        ReachesNext(consumeTrailer, c0, input, Snapshot(), input, src, buf[..dst], src);
        src := src + 1;
      }
      StepKeepsValid(consumeTrailer, Snapshot(), buf[src]);
      ReachesNext(consumeTrailer, c0, input, Snapshot(), input, src, buf[..dst], src);
      src := src + 1;
      state := TrailersLineHead;
      exit := Again;
    }

    /** One pass of the outer loop: it consumes a byte and goes round again, or it stops. */
    method Round(buf: array<byte>, bufsz: nat, dst0: nat, src0: nat, ghost c0: Config, ghost input: seq<byte>)
      returns (dst: nat, src: nat, exit: Exit)
      requires |input| == bufsz && Reading(c0, input, buf, dst0, src0)
      modifies this`bytesLeftInChunk, this`hexCount, this`state, buf
      ensures match exit
              case FallThrough => false
              case Again => src0 < src && Reading(c0, input, buf, dst, src)
              case Stop(v) => Stopped(c0, input, buf, dst, src, v)
      ensures buf[bufsz..] == old(buf[bufsz..])
    {
      hide Reading, Stopped;
      dst, src, exit := dst0, src0, FallThrough;
      if state == ChunkSize {
        src, exit := ReadSize(buf, bufsz, dst, src, c0, input);
        if exit != FallThrough { return; }
      }
      if state == ChunkExt {
        src, exit := SkipExt(buf, bufsz, dst, src, c0, input);
        if exit != FallThrough { return; }
      }
      if state == ChunkData {
        dst, src, exit := CopyData(buf, bufsz, dst, src, c0, input);
        if exit != FallThrough { return; }
      }
      if state == ChunkCrlf {
        src, exit := ReadCrlf(buf, bufsz, dst, src, c0, input);
        return;
      }
      if state == TrailersLineHead {
        src, exit := ReadLineHead(buf, bufsz, dst, src, c0, input);
        if exit != FallThrough { return; }
      }
      src, exit := ReadLineMiddle(buf, bufsz, dst, src, c0, input);
    }

    /**
     `phr_decode_chunked`. The answer, the decoder, the bytes in front of `newsz` and the bytes that
     follow them are those of the automaton; memory past `bufsz` is left alone. (`bufsz` is below
     half of the `size_t` range because the leftover count is returned as a signed size.)
     */
    method Decode(buf: array<byte>, bufsz: nat) returns (ret: int, newsz: nat)
      requires Valid(Snapshot())
      requires bufsz <= buf.Length && bufsz < SIZE_T_LIMIT / 2
      modifies this`bytesLeftInChunk, this`hexCount, this`state, buf
      ensures var r := Run(consumeTrailer, old(Snapshot()), old(buf[..bufsz]));
              && Snapshot() == r.config
              && ret == ReturnValue(r, bufsz)
              && newsz == |r.data|
              && buf[..newsz] == r.data
              && buf[newsz..newsz + (bufsz - r.used)] == old(buf[..bufsz])[r.used..]
      ensures Valid(Snapshot())
      ensures buf[bufsz..] == old(buf[bufsz..])
    {
      hide Run, Reaches, Valid, Step, Moved;
      var dst: nat, src: nat, exit := 0, 0, Again;
      ret := -2;
      ghost var c0, input := Snapshot(), buf[..bufsz];
      ReachesSelf(consumeTrailer, c0, input);
      assert input[0..] == input && buf[..0] == [];
      while exit == Again
        invariant match exit
                  case FallThrough => false
                  case Again => Reading(c0, input, buf, dst, src)
                  case Stop(v) => Stopped(c0, input, buf, dst, src, v)
        invariant buf[bufsz..] == old(buf[bufsz..])
        decreases if exit == Again then bufsz + 1 - src else 0
      {
        dst, src, exit := Round(buf, bufsz, dst, src, c0, input);
      }
      if exit == Stop(Complete) {
        ret := bufsz - src;
      } else if exit == Stop(Malformed) {
        ret := -1;
      }
      Compact(buf, bufsz, dst, src, input);
      newsz := dst;
    }

    /** On every way out, the unread bytes are moved up to the decoded ones. */
    static method Compact(buf: array<byte>, bufsz: nat, dst: nat, src: nat, ghost input: seq<byte>)
      requires dst <= src <= |input| == bufsz <= buf.Length && buf[src..bufsz] == input[src..]
      modifies buf
      ensures buf[..dst] == old(buf[..dst])
      ensures buf[dst..dst + (bufsz - src)] == input[src..]
      ensures buf[bufsz..] == old(buf[bufsz..])
    {
      hide Moved;
      if dst != src {
        MoveDown(buf, dst, src, bufsz - src);
      } else {
        MovedInPlace(buf[..], dst, bufsz - src);
      }
      MovedRest(old(buf[..]), buf[..], input, dst, src);
    }
  }

  /** Unread input stays unread input after its first byte. */
  lemma NextSlice(buf: seq<byte>, input: seq<byte>, src: nat)
    requires src < |input| <= |buf| && buf[src..|input|] == input[src..]
    ensures buf[src] == input[src] && buf[src + 1..|input|] == input[src + 1..]
  {
    assert buf[src..|input|][0] == input[src..][0];
    assert buf[src + 1..|input|] == buf[src..|input|][1..];
    assert input[src + 1..] == input[src..][1..];
  }

  lemma SizeStep(trailer: bool, c: Config, b: byte)
    requires Valid(c) && c.phase.ChunkSize?
    ensures var v := DecodeHex(b);
            if v == -1 then c.hex == 0 ==> Step(trailer, c, b).Reject?
            else if c.hex == MAX_HEX_DIGITS then Step(trailer, c, b).Reject?
            else var n := Config(ChunkSize, (c.left * 16 + v) % SIZE_T_LIMIT, c.hex + 1);
                 Step(trailer, c, b) == Next(n, []) && Valid(n)
  {
    hide Pow16, Valid;
    StepKeepsValid(trailer, c, b);
  }

  lemma ExtStep(trailer: bool, c: Config, b: byte)
    requires Valid(c) && c.phase.ChunkExt?
    ensures c.hex == 0
    ensures Step(trailer, c, b) ==
            if b != LF then Next(c, [])
            else if c.left != 0 then Next(c.(phase := ChunkData), [])
            else if trailer then Next(c.(phase := TrailersLineHead), [])
            else Finish(c)
    ensures var m := Step(trailer, c, b); m.Next? ==> Valid(m.config)
  {
    StepKeepsValid(trailer, c, b);
  }

  lemma MovedInPlace(buf: seq<byte>, at: nat, n: nat)
    requires at + n <= |buf|
    ensures Moved(buf, buf, at, at, n)
  {
    assert buf == buf[..at] + buf[at..at + n] + buf[at + n..];
  }

  /** Compaction appends the moved bytes to the decoded ones and overwrites no unread byte. */
  lemma MovedKeepsRest(before: seq<byte>, after: seq<byte>, input: seq<byte>, dst: nat, src: nat, n: nat)
    requires dst <= src && src + n <= |input| <= |before|
    requires before[src..|input|] == input[src..] && Moved(before, after, dst, src, n)
    ensures |after| == |before|
    ensures after[..dst + n] == before[..dst] + input[src..src + n]
    ensures after[src + n..|input|] == input[src + n..]
    ensures after[|input|..] == before[|input|..]
  {
    assert before[src..src + n] == before[src..|input|][..n] == input[src..][..n] == input[src..src + n];
    assert before[src + n..|input|] == before[src..|input|][n..] == input[src..][n..] == input[src + n..];
    assert after[..dst + n] == before[..dst] + before[src..src + n];
    assert after[src + n..|input|] == before[src + n..|input|];
  }

  /** -2 for incomplete, -1 for malformed, otherwise how many bytes follow the end of the body. */
  function ReturnValue(r: Outcome, bufsz: nat): int {
    match r.verdict
    case Incomplete => -2
    case Malformed => -1
    case Complete => bufsz - r.used
  }

  lemma MovedRest(before: seq<byte>, after: seq<byte>, input: seq<byte>, dst: nat, src: nat)
    requires dst <= src <= |input| <= |before|
    requires before[src..|input|] == input[src..] && Moved(before, after, dst, src, |input| - src)
    ensures |after| == |before|
    ensures after[..dst] == before[..dst]
    ensures after[dst..dst + (|input| - src)] == input[src..]
    ensures after[|input|..] == before[|input|..]
  {
  }

  /** One call on a buffer filled with `f`: the decoded bytes and, on completion, what follows the body. */
  method Feed(decoder: ChunkedDecoder, f: seq<byte>) returns (ret: int, data: seq<byte>, leftover: seq<byte>)
    requires Valid(decoder.Snapshot()) && |f| < SIZE_T_LIMIT / 2
    modifies decoder
    ensures Valid(decoder.Snapshot()) && decoder.consumeTrailer == old(decoder.consumeTrailer)
    ensures var r := Run(decoder.consumeTrailer, old(decoder.Snapshot()), f);
            && decoder.Snapshot() == r.config && data == r.data && ret == ReturnValue(r, |f|)
            && (r.verdict.Complete? ==> leftover == f[r.used..])
  {
    hide Run, Valid, Step;
    var buf := new byte[|f|](i requires 0 <= i < |f| => f[i]);
    assert buf[..|f|] == f;
    var newsz;
    ret, newsz := decoder.Decode(buf, |f|);
    data := buf[..newsz];
    leftover := if ret < 0 then [] else buf[newsz..newsz + ret];
  }

  /**
   The documented use: supply the fragments of a stream one by one while the answer is "incomplete".
   Whatever the fragments, the outcome is the automaton's on the whole stream. On completion
   `leftover`, the undecoded end of the buffer that completed the body, and the fragments that were
   not fed are exactly what follows the body.
   */
  method DecodeStream(trailer: bool, fragments: seq<seq<byte>>) returns (ret: int, data: seq<byte>, leftover: seq<byte>, fed: nat)
    requires forall f <- fragments :: |f| < SIZE_T_LIMIT / 2
    ensures fed <= |fragments|
    ensures var r := Run(trailer, START, Concat(fragments));
            && data == r.data
            && (ret == -2 <==> r.verdict.Incomplete?)
            && (ret == -1 <==> r.verdict.Malformed?)
            && (r.verdict.Incomplete? ==> fed == |fragments|)
            && (r.verdict.Complete? ==> ret == |leftover| && leftover + Concat(fragments[fed..]) == Concat(fragments)[r.used..])
  {
    hide Run, RunFragments, Valid, Step;
    var decoder := new ChunkedDecoder(trailer);
    data, leftover, fed, ret := [], [], 0, -2;
    ghost var n: nat := 0;
    FragmentationDoesNotMatter(trailer, START, fragments);
    assert fragments[0..] == fragments;
    AfterNothing(RunFragments(trailer, START, fragments));
    while fed < |fragments|
      invariant fed <= |fragments| && ret == -2
      invariant Valid(decoder.Snapshot()) && decoder.consumeTrailer == trailer && fresh(decoder)
      invariant FedSoFar(trailer, fragments, fed, decoder.Snapshot(), data, n)
    {
      FeedOne(trailer, fragments, fed, decoder.Snapshot(), data, n);
      ghost var r := Run(trailer, decoder.Snapshot(), fragments[fed]);
      var d;
      ret, d, leftover := Feed(decoder, fragments[fed]);
      data := data + d;
      fed := fed + 1;
      if ret != -2 {
        return;
      }
      n := n + r.used;
    }
    FedAll(trailer, fragments, decoder.Snapshot(), data, n);
  }

  /** After `fed` fragments, `n` bytes, the decoder is at `c` and `data` has come out. */
  ghost predicate FedSoFar(trailer: bool, fragments: seq<seq<byte>>, fed: nat, c: Config, data: seq<byte>, n: nat)
    requires fed <= |fragments|
  {
    && RunFragments(trailer, START, fragments) == RunFragments(trailer, c, fragments[fed..]).After(data, n)
    && n <= |Concat(fragments)|
    && Concat(fragments)[n..] == Concat(fragments[fed..])
  }

  lemma FedAll(trailer: bool, fragments: seq<seq<byte>>, c: Config, data: seq<byte>, n: nat)
    requires FedSoFar(trailer, fragments, |fragments|, c, data, n)
    ensures RunFragments(trailer, START, fragments).verdict.Incomplete?
    ensures RunFragments(trailer, START, fragments).data == data
  {
    assert data + [] == data;
  }

  lemma FeedOne(trailer: bool, fragments: seq<seq<byte>>, fed: nat, c: Config, data: seq<byte>, n: nat)
    requires fed < |fragments| && FedSoFar(trailer, fragments, fed, c, data, n)
    ensures var r := Run(trailer, c, fragments[fed]);
            if r.verdict.Incomplete?
            then FedSoFar(trailer, fragments, fed + 1, r.config, data + r.data, n + r.used)
            else
              && RunFragments(trailer, START, fragments) == r.After(data, n)
              && n + r.used <= |Concat(fragments)|
              && fragments[fed][r.used..] + Concat(fragments[fed + 1..]) == Concat(fragments)[n + r.used..]
  {
    hide Run;
    var f, all := fragments[fed], Concat(fragments);
    var r := Run(trailer, c, f);
    assert fragments[fed..][1..] == fragments[fed + 1..] && fragments[fed..][0] == f;
    assert all[n + r.used..] == all[n..][r.used..] == (f + Concat(fragments[fed + 1..]))[r.used..];
    assert (f + Concat(fragments[fed + 1..]))[r.used..] == f[r.used..] + Concat(fragments[fed + 1..]);
    if r.verdict.Incomplete? {
      AfterAfter(RunFragments(trailer, r.config, fragments[fed + 1..]), data, n, r.data, r.used);
      assert f[r.used..] == [];
    }
  }
}
