/** Incremental decoders as deterministic transducers, and the contract of section
    "IncrementalDecoder Objects" of Doc/library/codecs.rst that the text layer relies on. */
module Codecs {
  import opened RawStreams

  /** What getstate returns: the undecoded input, and an integer for all other state. */
  datatype DecState = DecState(buf: seq<Byte>, flags: nat)

  datatype Decoded = Decoded(state: DecState, out: string)

  /** `step(s, x, final)` is decode(x, final) from state `s`; `ok` holds of the states the decoder can be in. */
  datatype Codec = Codec(step: (DecState, seq<Byte>, bool) -> Decoded, ok: DecState -> bool)

  const FRESH := DecState([], 0)

  predicate IsSuffix(a: seq<Byte>, b: seq<Byte>)
  {
    |a| <= |b| && b[|b| - |a|..] == a
  }

  /** Feeding x then y is feeding x + y. */
  ghost predicate SplitsAt(c: Codec, s: DecState, x: seq<Byte>, y: seq<Byte>, final: bool)
  {
    var first := c.step(s, x, false);
    var second := c.step(first.state, y, final);
    c.step(s, x + y, final) == Decoded(second.state, first.out + second.out)
  }

  /** State (b, f) is reached silently by feeding b from (b'', f), and feeding nothing does nothing. */
  ghost predicate Replays(c: Codec, s: DecState)
  {
    && c.ok(DecState([], s.flags))
    && c.step(DecState([], s.flags), s.buf, false) == Decoded(s, "")
    && c.step(s, [], false) == Decoded(s, "")
  }

  /** The buffered bytes are the last bytes fed, and a final call flushes: nothing comes after it. */
  ghost predicate StepsWell(c: Codec, s: DecState, x: seq<Byte>, final: bool)
  {
    var d := c.step(s, x, final);
    && c.ok(d.state)
    && IsSuffix(d.state.buf, s.buf + x)
    && (final ==> Drained(c, d.state))
  }

  ghost predicate Drained(c: Codec, s: DecState)
  {
    c.step(s, [], true).out == ""
  }

  ghost predicate GoodCodec(c: Codec)
  {
    && c.ok(FRESH)
    && Drained(c, FRESH)
    && (forall s :: c.ok(s) ==> Replays(c, s))
    && (forall s, x, final :: c.ok(s) ==> StepsWell(c, s, x, final))
    && (forall s, x, y, final :: c.ok(s) ==> SplitsAt(c, s, x, y, final))
  }

  /** A codec under which CR LF never straddles two outputs. */
  ghost predicate KeepsCRLF(c: Codec)
  {
    forall s, x, y, final :: c.ok(s) ==> !SplitsCRLF(c, s, x, y, final)
  }

  ghost predicate SplitsCRLF(c: Codec, s: DecState, x: seq<Byte>, y: seq<Byte>, final: bool)
  {
    var first := c.step(s, x, false);
    EndsWithCR(first.out) && StartsWithLF(c.step(first.state, y, final).out)
  }

  predicate EndsWithCR(t: string) { t != "" && t[|t| - 1] == '\r' }

  predicate StartsWithLF(t: string) { t != "" && t[0] == '\n' }

  /** A codec whose outputs hold no CR at all. */
  ghost predicate NeverCR(c: Codec)
  {
    forall s, x, final :: c.ok(s) ==> '\r' !in c.step(s, x, final).out
  }

  /** The incremental decoder object: getstate and setstate are reading and assigning `state`. */
  class Decoder {
    const codec: Codec
    var state: DecState

    constructor (codec: Codec)
      ensures this.codec == codec && state == FRESH
    {
      this.codec, state := codec, FRESH;
    }

    method Decode(input: seq<Byte>, final: bool) returns (out: string)
      modifies this
      ensures codec.step(old(state), input, final) == Decoded(state, out)
    {
      var d := codec.step(state, input, final);
      state, out := d.state, d.out;
    }

    method Reset()
      modifies this
      ensures state == FRESH
    {
      state := FRESH;
    }
  }

  // Two codecs that meet the contract: one byte per character, and a two-byte big-endian one
  // that has to buffer (and replaces a byte left over at the end).

  function Latin1Text(x: seq<Byte>): string
  {
    seq(|x|, i requires 0 <= i < |x| => x[i] as char)
  }

  const LATIN1 := Codec((s: DecState, x: seq<Byte>, final: bool) => Decoded(s, Latin1Text(x)),
                        (s: DecState) => s == FRESH)

  lemma Latin1IsGood()
    ensures GoodCodec(LATIN1)
  {
    forall s, x, y, final | LATIN1.ok(s)
      ensures SplitsAt(LATIN1, s, x, y, final)
    {
      assert Latin1Text(x + y) == Latin1Text(x) + Latin1Text(y);
    }
  }

  /** Pairs of bytes, up to the last whole pair; surrogate halves read as U+FFFD. */
  function PairText(x: seq<Byte>): string
  {
    if |x| < 2 then "" else [PairChar(x[0], x[1])] + PairText(x[2..])
  }

  function PairChar(hi: Byte, lo: Byte): char
  {
    var n := hi * 256 + lo;
    if 0xD800 <= n < 0xE000 then '\U{FFFD}' else n as char
  }

  /** The byte without a partner, if there is one. */
  function Leftover(x: seq<Byte>): (r: seq<Byte>)
    ensures |r| < 2 && IsSuffix(r, x)
  {
    if |x| < 2 then x else Leftover(x[2..])
  }

  function PairStep(s: DecState, x: seq<Byte>, final: bool): Decoded
  {
    var all := s.buf + x;
    if final then Decoded(FRESH, PairText(all) + (if Leftover(all) == [] then "" else "\U{FFFD}"))
    else Decoded(DecState(Leftover(all), 0), PairText(all))
  }

  const PAIRS := Codec(PairStep, (s: DecState) => |s.buf| < 2 && s.flags == 0)

  lemma PairTextUnrolled(x: seq<Byte>)
    ensures |x| < 2 ==> PairText(x) == "" && Leftover(x) == x
    ensures |x| >= 2 ==> PairText(x) == [PairChar(x[0], x[1])] + PairText(x[2..])
                         && Leftover(x) == Leftover(x[2..])
  {
  }

  lemma {:induction false} PairTextSplit(x: seq<Byte>, y: seq<Byte>)
    ensures PairText(x + y) == PairText(x) + PairText(Leftover(x) + y)
    ensures Leftover(x + y) == Leftover(Leftover(x) + y)
  {
    hide PairText, PairChar, Leftover;
    PairTextUnrolled(x);
    if |x| >= 2 {
      PairTextSplit(x[2..], y);
      PairTextUnrolled(x + y);
      assert (x + y)[2..] == x[2..] + y;
    }
  }

  lemma PairsSplit(s: DecState, x: seq<Byte>, y: seq<Byte>, final: bool)
    requires PAIRS.ok(s)
    ensures SplitsAt(PAIRS, s, x, y, final)
  {
    hide PairText, Leftover;
    PairTextSplit(s.buf + x, y);
    assert s.buf + (x + y) == s.buf + x + y;
  }

  lemma PairsReplay(s: DecState)
    requires PAIRS.ok(s)
    ensures Replays(PAIRS, s)
  {
    assert [] + s.buf == s.buf && s.buf + [] == s.buf;
  }

  lemma PairsStepWell(s: DecState, x: seq<Byte>, final: bool)
    requires PAIRS.ok(s)
    ensures StepsWell(PAIRS, s, x, final)
  {
  }

  lemma PairsIsGood()
    ensures GoodCodec(PAIRS)
  {
    forall s | PAIRS.ok(s) ensures Replays(PAIRS, s) {
      PairsReplay(s);
    }
    forall s, x, y, final | PAIRS.ok(s) ensures SplitsAt(PAIRS, s, x, y, final) {
      PairsSplit(s, x, y, final);
    }
    forall s, x, final | PAIRS.ok(s) ensures StepsWell(PAIRS, s, x, final) {
      PairsStepWell(s, x, final);
    }
  }
}
