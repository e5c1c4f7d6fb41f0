/** Compressed formats and files, a decompressor that only goes forward, and what the turns of the
    read loop do with it. */
module Decompressors {
  import opened Basics
  import opened RawStreams

  const BUFFER_SIZE := DEFAULT_BUFFER_SIZE

  /** What input fed from the start of a stream amounts to: all output it determines so far, a
      complete stream that used up some of it, or input the decompressor rejects. */
  datatype Outcome = Partial(out: seq<Byte>) | Done(out: seq<Byte>, used: nat) | Broken

  datatype Format = Format(parse: seq<Byte> -> Outcome)

  /** More input only adds output; complete and rejected stay so; a stream is not empty. */
  ghost predicate Extends(f: Format, x: seq<Byte>, y: seq<Byte>)
  {
    match f.parse(x)
    case Partial(out) =>
      var r := f.parse(y);
      r.Broken? || (out <= r.out && (r.Done? ==> |x| < r.used <= |y|))
    case Done(out, used) => 0 < used <= |x| && f.parse(y) == f.parse(x)
    case Broken => f.parse(y).Broken?
  }

  ghost predicate GoodFormat(f: Format)
  {
    f.parse([]) == Partial([]) && forall x, y :: x <= y ==> Extends(f, x, y)
  }

  // ----- The file as one text

  function Rest(f: Format, x: seq<Byte>): seq<Byte>
    requires f.parse(x).Done?
  {
    if f.parse(x).used <= |x| then x[f.parse(x).used..] else []
  }

  /** The output of all streams, and what a last, incomplete one determines. */
  function Text(f: Format, x: seq<Byte>): seq<Byte>
    decreases |x|
  {
    match f.parse(x)
    case Done(out, used) => if 0 < used <= |x| then out + Text(f, Rest(f, x)) else out
    case Partial(out) => out
    case Broken => []
  }

  /** A stream and nothing but streams behind it, then the end of the file or, if such errors are
      ignored, bytes of which already the first is rejected. With `cut` the last stream may be
      incomplete. */
  ghost predicate GoodFile(f: Format, ignore: bool, cut: bool, x: seq<Byte>)
    decreases |x|, 0
  {
    match f.parse(x)
    case Done(_, used) => 0 < used <= |x| && Trail(f, ignore, cut, Rest(f, x))
    case Partial(_) => cut
    case Broken => false
  }

  /** What may stand behind a stream. */
  ghost predicate Trail(f: Format, ignore: bool, cut: bool, x: seq<Byte>)
    decreases |x|, 1
  {
    x == [] || (ignore && f.parse(x[..1]).Broken?) || GoodFile(f, ignore, cut, x)
  }

  lemma {:induction false} UncutIsGood(f: Format, ignore: bool, x: seq<Byte>)
    requires GoodFile(f, ignore, false, x)
    ensures GoodFile(f, ignore, true, x)
    decreases |x|
  {
    var rest := Rest(f, x);
    if rest != [] && !(ignore && f.parse(rest[..1]).Broken?) {
      UncutIsGood(f, ignore, rest);
    }
  }

  // ----- The decompressor

  /** How far a call goes: at most `n` bytes out, and possibly one call late in noticing that it
      is done or needs input. With no steps left it goes as far as it can. */
  datatype Step = Step(n: nat, linger: bool)

  datatype Decompressor = Decompressor(fed: seq<Byte>, delivered: nat, eof: bool, needsInput: bool, steps: seq<Step>)

  datatype Fed = Fail | Got(next: Decompressor, data: seq<Byte>)

  function NewDecompressor(steps: seq<Step>): Decompressor
  {
    Decompressor([], 0, false, true, steps)
  }

  function NextPlan(plans: seq<seq<Step>>): seq<Step>
  {
    if plans == [] then [] else plans[0]
  }

  ghost predicate Sane(f: Format, d: Decompressor)
  {
    && !f.parse(d.fed).Broken? && d.delivered <= |f.parse(d.fed).out|
    && (d.eof ==> f.parse(d.fed).Done? && d.delivered == |f.parse(d.fed).out|)
    && (d.needsInput ==> f.parse(d.fed).Partial? && d.delivered == |f.parse(d.fed).out|)
  }

  /** unused_data, once the end of the stream is seen. */
  function Unused(f: Format, d: Decompressor): seq<Byte>
    requires f.parse(d.fed).Done?
  {
    Rest(f, d.fed)
  }

  /** decompress(block, size) */
  function Decompress(f: Format, d: Decompressor, block: seq<Byte>, size: nat): Fed
  {
    var fed := d.fed + block;
    var r := f.parse(fed);
    if r.Broken? then Fail
    else
      var avail := if d.delivered <= |r.out| then r.out[d.delivered..] else [];
      var step := if d.steps == [] then Step(|avail|, false) else d.steps[0];
      var k := Min(Min(|avail|, size), step.n);
      var settled := k == |avail| && !step.linger;
      Got(Decompressor(fed, d.delivered + k, settled && r.Done?, settled && r.Partial?,
                       if d.steps == [] then [] else d.steps[1..]),
          avail[..k])
  }

  /** A call keeps the decompressor sane, gives the next bytes of its output, and if it gives none
      then it has seen the end, asks for input, or has used up one of finitely many idle steps. */
  lemma DecompressStep(f: Format, d: Decompressor, block: seq<Byte>, size: nat)
    requires GoodFormat(f) && Sane(f, d) && size > 0 && Decompress(f, d, block, size).Got?
    ensures var g := Decompress(f, d, block, size);
            && Sane(f, g.next) && g.next.fed == d.fed + block
            && |g.data| <= size && g.next.delivered == d.delivered + |g.data|
            && g.data == f.parse(g.next.fed).out[d.delivered..g.next.delivered]
            && (g.data == [] && !g.next.eof && !g.next.needsInput ==> |g.next.steps| < |d.steps|)
  {
    assert Extends(f, d.fed, d.fed + block);
  }

  // ----- Streams in the file

  /** Once the end of a stream is seen, the rest of the file is what matters. */
  lemma StreamDone(f: Format, ignore: bool, x: seq<Byte>, fed: seq<Byte>)
    requires GoodFormat(f) && fed <= x && f.parse(fed).Done?
    ensures var u := f.parse(fed).used;
            && f.parse(x) == f.parse(fed) && 0 < u <= |fed|
            && Rest(f, fed) == fed[u..]
            && Text(f, x) == f.parse(fed).out + Text(f, x[u..])
            && (GoodFile(f, ignore, true, x) <==> Trail(f, ignore, true, x[u..]))
            && (GoodFile(f, ignore, false, x) <==> Trail(f, ignore, false, x[u..]))
  {
    hide Trail;
    assert Extends(f, fed, x);
    assert Rest(f, x) == x[f.parse(x).used..];
  }

  /** What follows a stream in a good file: the first block of it is accepted and another stream
      begins, or it is rejected, ignorably, and no more text comes. */
  lemma NextBlock(f: Format, ignore: bool, y: seq<Byte>, block: seq<Byte>)
    requires GoodFormat(f) && Trail(f, ignore, true, y) && block <= y && block != []
    ensures if f.parse(block).Broken? then ignore && Text(f, y) == [] && Trail(f, ignore, false, y)
            else GoodFile(f, ignore, true, y) && (Trail(f, ignore, false, y) <==> GoodFile(f, ignore, false, y))
  {
    assert Extends(f, block, y);
    assert y[..1] == block[..1] <= block;
    assert Extends(f, y[..1], block);
  }

  /** Inside a good file nothing is rejected, and the output so far is a part of the text; if the
      file ends there, inside a stream, it is all of it. */
  lemma InStream(f: Format, ignore: bool, x: seq<Byte>, fed: seq<Byte>)
    requires GoodFormat(f) && fed <= x && GoodFile(f, ignore, true, x)
    ensures !f.parse(fed).Broken? && f.parse(fed).out <= Text(f, x)
    ensures fed == x && f.parse(fed).Partial? ==> Text(f, x) == f.parse(fed).out && !GoodFile(f, ignore, false, x)
  {
    assert Extends(f, fed, x);
    assert Extends(f, x, x);
  }

  /** Bytes of the current stream's output are bytes of the whole text. */
  lemma OutputInText(total: seq<Byte>, before: seq<Byte>, text: seq<Byte>, out: seq<Byte>, d: nat, e: nat)
    requires total == before + text && out <= text && d <= e <= |out|
    ensures |before| + e <= |total| && out[d..e] == total[|before| + d..|before| + e]
    ensures out[d..e] <= From(total, |before| + d)
  {
    assert out[d..e] == text[d..e];
  }

  /** Calls without data a decompressor may still make before it ends or asks for input. */
  function Idle(d: Decompressor): nat
  {
    if d.eof || d.needsInput then 0 else 1 + |d.steps|
  }

  lemma AsksForInput(f: Format, d: Decompressor)
    requires Sane(f, d) && d.needsInput
    ensures f.parse(d.fed).Partial?
  {
  }

  lemma SeenEnd(f: Format, d: Decompressor)
    requires Sane(f, d) && d.eof
    ensures f.parse(d.fed).Done? && d.delivered == |f.parse(d.fed).out|
  {
  }

  lemma DecompressFails(f: Format, d: Decompressor, block: seq<Byte>, size: nat)
    ensures Decompress(f, d, block, size).Fail? <==> f.parse(d.fed + block).Broken?
  {
  }

  lemma FreshIsSane(f: Format, d: Decompressor)
    requires GoodFormat(f) && d == NewDecompressor(d.steps)
    ensures Sane(f, d)
  {
  }

  lemma EndOfFile(f: Format)
    requires GoodFormat(f)
    ensures Text(f, []) == []
  {
  }

  /** The first call of a new decompressor. */
  lemma NewStream(f: Format, d: Decompressor, y: seq<Byte>, block: seq<Byte>, size: nat)
    requires GoodFormat(f) && d == NewDecompressor(d.steps) && block <= y && block != [] && size > 0
    ensures var g := Decompress(f, d, block, size);
            && (g.Fail? <==> f.parse(block).Broken?)
            && (g.Got? ==>
                  && Sane(f, g.next) && g.next.fed == block
                  && |g.data| <= size && g.next.delivered == |g.data| <= |f.parse(block).out|
                  && g.data == f.parse(block).out[0..|g.data|])
  {
    hide Decompress, Text, Trail, GoodFormat;
    FreshIsSane(f, d);
    assert [] + block == block;
    DecompressFails(f, d, block, size);
    if Decompress(f, d, block, size).Got? {
      DecompressStep(f, d, block, size);
    }
  }

  // ----- Where a reader stands

  datatype ReadResult = Data(bytes: seq<Byte>) | EndedEarly | Corrupt

  /** One turn: data, possibly empty; the end of the text; or an error. */
  datatype Turn = Out(data: seq<Byte>) | End | Failed(error: ReadResult)

  /** The position in the file, the decompressor, where the current stream starts, and the output of
      the streams before it. */
  datatype Spot = Spot(at: nat, dec: Decompressor, base: nat, before: seq<Byte>)

  /** Output handed out so far. */
  function Handed(s: Spot): nat
  {
    |s.before| + s.dec.delivered
  }

  /** The decompressor got the file from `base` up to here; the text goes on from there; and the file
      is as good as the part of it from there on. */
  ghost predicate Held(f: Format, ignore: bool, content: seq<Byte>, s: Spot)
  {
    && Sane(f, s.dec)
    && s.base <= s.at <= |content| && s.dec.fed == content[s.base..s.at]
    && Text(f, content) == s.before + Text(f, From(content, s.base))
    && (GoodFile(f, ignore, true, content) <==> GoodFile(f, ignore, true, From(content, s.base)))
    && (GoodFile(f, ignore, false, content) <==> GoodFile(f, ignore, false, From(content, s.base)))
  }

  /** Output of the current stream that is determined but not yet handed out. */
  function Undelivered(f: Format, d: Decompressor): nat
  {
    var r := f.parse(d.fed);
    if r.Broken? then 0 else Max(0, |r.out| - d.delivered)
  }

  lemma AtStart(f: Format, ignore: bool, content: seq<Byte>, d: Decompressor)
    requires GoodFormat(f) && d == NewDecompressor(d.steps)
    ensures Held(f, ignore, content, Spot(0, d, 0, [])) && Handed(Spot(0, d, 0, [])) == 0
  {
    FreshIsSane(f, d);
    assert content[0..] == content;
  }

  lemma HandedInText(f: Format, ignore: bool, content: seq<Byte>, s: Spot)
    requires GoodFormat(f) && Held(f, ignore, content, s) && GoodFile(f, ignore, true, content)
    ensures Handed(s) <= |Text(f, content)|
  {
    hide GoodFile, Text;
    InStream(f, ignore, From(content, s.base), s.dec.fed);
  }

  /** The file ends inside a stream of which all output is out. */
  lemma CutShort(f: Format, ignore: bool, content: seq<Byte>, s: Spot)
    requires GoodFormat(f) && Held(f, ignore, content, s) && s.dec.needsInput && s.at == |content|
    ensures f.parse(From(content, s.base)).Partial? && !GoodFile(f, ignore, false, content)
    ensures GoodFile(f, ignore, true, content) ==> Handed(s) == |Text(f, content)|
  {
    hide Text;
    assert s.dec.fed == From(content, s.base);
    if GoodFile(f, ignore, true, content) {
      InStream(f, ignore, From(content, s.base), s.dec.fed);
    }
  }

  /** A call in a stream that goes on, with the next block if there is one. */
  lemma SameStep(f: Format, ignore: bool, content: seq<Byte>, s: Spot, block: seq<Byte>, size: nat)
    requires GoodFormat(f) && Held(f, ignore, content, s) && !s.dec.eof && size > 0
    requires s.at + |block| <= |content| && block == content[s.at..s.at + |block|]
    ensures var g := Decompress(f, s.dec, block, size);
            var u := Spot(s.at + |block|, if g.Got? then g.next else s.dec, s.base, s.before);
            && (g.Fail? ==> f.parse(content[s.base..u.at]).Broken? && !GoodFile(f, ignore, true, content))
            && (g.Got? ==> Held(f, ignore, content, u) && Handed(u) == Handed(s) + |g.data| && |g.data| <= size)
            && (g.Got? && GoodFile(f, ignore, true, content) ==> g.data <= From(Text(f, content), Handed(s)))
            && (g.Got? && block == [] ==> Undelivered(f, u.dec) + |g.data| == Undelivered(f, s.dec))
            && (g.Got? && block == [] && g.data == [] && !s.dec.needsInput ==> Idle(u.dec) < Idle(s.dec))
  {
    hide Decompress, Text, GoodFile, GoodFormat, Sane;
    var here := From(content, s.base);
    var fed := s.dec.fed + block;
    assert fed == content[s.base..s.at + |block|] && fed <= here;
    DecompressFails(f, s.dec, block, size);
    if GoodFile(f, ignore, true, content) {
      InStream(f, ignore, here, fed);
    }
    var g := Decompress(f, s.dec, block, size);
    if g.Got? {
      DecompressStep(f, s.dec, block, size);
      assert block == [] ==> fed == s.dec.fed;
      SaneBounds(f, s.dec);
      SaneBounds(f, g.next);
      if GoodFile(f, ignore, true, content) {
        OutputInText(Text(f, content), s.before, Text(f, here), f.parse(fed).out, s.dec.delivered, g.next.delivered);
      }
    }
  }

  lemma SaneBounds(f: Format, d: Decompressor)
    requires Sane(f, d)
    ensures !f.parse(d.fed).Broken? && d.delivered <= |f.parse(d.fed).out|
    ensures d.eof ==> f.parse(d.fed).Done? && d.delivered == |f.parse(d.fed).out|
    ensures d.needsInput ==> f.parse(d.fed).Partial?
  {
  }

  /** At the end of a stream: where the next one starts, and what the text and the file are from
      there on. */
  lemma BetweenStreams(f: Format, ignore: bool, content: seq<Byte>, s: Spot)
    requires GoodFormat(f) && Held(f, ignore, content, s) && s.dec.eof
    ensures f.parse(s.dec.fed).Done?
    ensures var start, y := s.base + f.parse(s.dec.fed).used, From(content, s.base + f.parse(s.dec.fed).used);
            && s.base < start <= s.at && Unused(f, s.dec) == content[start..s.at]
            && |s.before + f.parse(s.dec.fed).out| == Handed(s)
            && Text(f, content) == s.before + f.parse(s.dec.fed).out + Text(f, y)
            && (GoodFile(f, ignore, true, content) <==> Trail(f, ignore, true, y))
            && (GoodFile(f, ignore, false, content) <==> Trail(f, ignore, false, y))
  {
    hide Text, GoodFile, Trail, GoodFormat, From, Sane;
    SaneBounds(f, s.dec);
    FedSplits(content, s.base, s.at, s.dec.fed, 0);
    StreamDone(f, ignore, From(content, s.base), s.dec.fed);
    FedSplits(content, s.base, s.at, s.dec.fed, f.parse(s.dec.fed).used);
  }

  lemma FedSplits(content: seq<Byte>, base: nat, at: nat, fed: seq<Byte>, used: nat)
    requires base <= at <= |content| && fed == content[base..at] && used <= |fed|
    ensures fed <= From(content, base) && fed[used..] == content[base + used..at]
    ensures used <= |From(content, base)| && From(content, base)[used..] == From(content, base + used)
  {
  }

  /** The file ends behind a stream. */
  lemma EndStep(f: Format, ignore: bool, content: seq<Byte>, s: Spot)
    requires GoodFormat(f) && Held(f, ignore, content, s) && s.dec.eof
    requires f.parse(s.dec.fed).Done? && From(content, s.base + f.parse(s.dec.fed).used) == []
    ensures GoodFile(f, ignore, false, content) && Handed(s) == |Text(f, content)|
  {
    hide Text, GoodFile, GoodFormat, Held;
    BetweenStreams(f, ignore, content, s);
    EndOfFile(f);
  }

  /** The first call for the next stream. */
  lemma NextStep(f: Format, ignore: bool, content: seq<Byte>, s: Spot, d: Decompressor, block: seq<Byte>, size: nat)
    requires GoodFormat(f) && Held(f, ignore, content, s) && s.dec.eof && size > 0
    requires d == NewDecompressor(d.steps) && f.parse(s.dec.fed).Done?
    requires block <= From(content, s.base + f.parse(s.dec.fed).used) && block != []
    ensures var g := Decompress(f, d, block, size);
            var start := s.base + f.parse(s.dec.fed).used;
            var u := Spot(start + |block|, if g.Got? then g.next else d, start, s.before + f.parse(s.dec.fed).out);
            && (g.Fail? <==> f.parse(block).Broken?)
            && u.at <= |content| && block == content[start..u.at]
            && (g.Fail? && GoodFile(f, ignore, true, content) ==>
                  ignore && GoodFile(f, ignore, false, content) && Handed(s) == |Text(f, content)|)
            && (g.Got? ==> Held(f, ignore, content, u) && Handed(u) == Handed(s) + |g.data| && |g.data| <= size)
            && (g.Got? && GoodFile(f, ignore, true, content) ==> g.data <= From(Text(f, content), Handed(s)))
  {
    hide Text, GoodFile, GoodFormat, Decompress, Trail, Sane;
    BetweenStreams(f, ignore, content, s);
    var start, y := s.base + f.parse(s.dec.fed).used, From(content, s.base + f.parse(s.dec.fed).used);
    NewStream(f, d, y, block, size);
    if f.parse(block).Broken? {
      if Trail(f, ignore, true, y) {
        NextBlock(f, ignore, y, block);
      }
    } else {
      TrailIsFile(f, ignore, y, block);
      var g := Decompress(f, d, block, size);
      if Trail(f, ignore, true, y) {
        InStream(f, ignore, y, block);
        OutputInText(Text(f, content), s.before + f.parse(s.dec.fed).out, Text(f, y), f.parse(block).out, 0,
                     g.next.delivered);
      }
    }
  }

  /** Where a first block is accepted another stream stands. */
  lemma TrailIsFile(f: Format, ignore: bool, y: seq<Byte>, block: seq<Byte>)
    requires GoodFormat(f) && block <= y && block != [] && !f.parse(block).Broken?
    ensures Trail(f, ignore, true, y) <==> GoodFile(f, ignore, true, y)
    ensures Trail(f, ignore, false, y) <==> GoodFile(f, ignore, false, y)
  {
    hide GoodFile;
    assert y[..1] == block[..1] <= block;
    assert Extends(f, y[..1], block);
  }

  /** What a turn from `s` to `u` means: in a readable file the data are the next bytes of the text,
      and an end or an EOFError comes only behind all of it; an error is blamed on a file that ends
      inside a stream, or on bytes that the decompressor rejects. */
  ghost predicate GoodTurn(f: Format, ignore: bool, content: seq<Byte>, s: Spot, t: Turn, u: Spot)
  {
    match t
    case Out(data) =>
      && Held(f, ignore, content, u) && Handed(u) == Handed(s) + |data|
      && (GoodFile(f, ignore, true, content) ==> data <= From(Text(f, content), Handed(s)))
    case End =>
      GoodFile(f, ignore, true, content) ==> GoodFile(f, ignore, false, content) && Handed(s) == |Text(f, content)|
    case Failed(EndedEarly) =>
      && Held(f, ignore, content, u) && Handed(u) == Handed(s)
      && f.parse(From(content, u.base)).Partial? && !GoodFile(f, ignore, false, content)
      && (GoodFile(f, ignore, true, content) ==> Handed(s) == |Text(f, content)|)
    case Failed(Corrupt) =>
      && u.base <= u.at <= |content| && f.parse(content[u.base..u.at]).Broken?
      && !GoodFile(f, ignore, true, content)
    case Failed(_) => false
  }

  /** A turn with data or without goes on in the file, or gets output out, or uses up an idle step. */
  ghost predicate Onward(f: Format, s: Spot, t: Turn, u: Spot)
  {
    t.Out? ==>
      || u.base > s.base
      || (u.base == s.base && u.at > s.at)
      || (u.base == s.base && u.at == s.at && Undelivered(f, u.dec) + |t.data| == Undelivered(f, s.dec)
          && (t.data == [] ==> Idle(u.dec) < Idle(s.dec)))
  }

  /** `u` is where `s` is, or onward from there. */
  ghost predicate NotBefore(f: Format, s: Spot, u: Spot)
  {
    u == s || Onward(f, s, Out([]), u)
  }

  lemma NotBeforeItself(f: Format, s: Spot)
    ensures NotBefore(f, s, s)
  {
  }

  /** An empty turn, or several, before a turn add nothing to what it means. */
  lemma AfterIdling(f: Format, ignore: bool, content: seq<Byte>, s: Spot, m: Spot, t: Turn, u: Spot)
    requires Handed(m) == Handed(s) && NotBefore(f, s, m)
    requires GoodTurn(f, ignore, content, m, t, u) && Onward(f, m, t, u)
    ensures GoodTurn(f, ignore, content, s, t, u) && Onward(f, s, t, u)
    ensures t == Out([]) ==> Handed(u) == Handed(s) && NotBefore(f, s, u) && Held(f, ignore, content, u)
  {
    hide Held, GoodFile, Text, Handed;
  }

  lemma CutShortTurn(f: Format, ignore: bool, content: seq<Byte>, s: Spot)
    requires GoodFormat(f) && Held(f, ignore, content, s) && s.dec.needsInput && s.at == |content|
    ensures GoodTurn(f, ignore, content, s, Failed(EndedEarly), s)
    ensures Onward(f, s, Failed(EndedEarly), s)
  {
    CutShort(f, ignore, content, s);
  }

  lemma SameStepTurn(f: Format, ignore: bool, content: seq<Byte>, s: Spot, block: seq<Byte>, size: nat)
    requires GoodFormat(f) && Held(f, ignore, content, s) && !s.dec.eof && size > 0
    requires s.at + |block| <= |content| && block == content[s.at..s.at + |block|]
    requires s.dec.needsInput ==> block != []
    ensures var g := Decompress(f, s.dec, block, size);
            var u := Spot(s.at + |block|, if g.Got? then g.next else s.dec, s.base, s.before);
            var t := if g.Got? then Out(g.data) else Failed(Corrupt);
            GoodTurn(f, ignore, content, s, t, u) && Onward(f, s, t, u) && (g.Got? ==> |g.data| <= size)
  {
    SameStep(f, ignore, content, s, block, size);
    HeldBounds(f, ignore, content, s);
    hide Decompress, Held, GoodFile, Text, Handed, GoodFormat;
  }

  lemma EndStepTurn(f: Format, ignore: bool, content: seq<Byte>, s: Spot, u: Spot)
    requires GoodFormat(f) && Held(f, ignore, content, s) && s.dec.eof
    requires f.parse(s.dec.fed).Done? && From(content, s.base + f.parse(s.dec.fed).used) == []
    ensures GoodTurn(f, ignore, content, s, End, u)
  {
    hide Held, GoodFile, Text, Handed, GoodFormat;
    EndStep(f, ignore, content, s);
  }

  lemma NextStepTurn(f: Format, ignore: bool, content: seq<Byte>, s: Spot, d: Decompressor, block: seq<Byte>, size: nat)
    requires GoodFormat(f) && Held(f, ignore, content, s) && s.dec.eof && size > 0
    requires d == NewDecompressor(d.steps) && f.parse(s.dec.fed).Done?
    requires block <= From(content, s.base + f.parse(s.dec.fed).used) && block != []
    ensures var g := Decompress(f, d, block, size);
            var start := s.base + f.parse(s.dec.fed).used;
            var u := Spot(start + |block|, if g.Got? then g.next else d, start, s.before + f.parse(s.dec.fed).out);
            var t := if g.Got? then Out(g.data) else if ignore then End else Failed(Corrupt);
            GoodTurn(f, ignore, content, s, t, u) && start > s.base && (g.Got? ==> |g.data| <= size)
  {
    NextStep(f, ignore, content, s, d, block, size);
    BetweenStreams(f, ignore, content, s);
    hide Decompress, Held, GoodFile, Text, Handed, GoodFormat;
  }

  lemma HeldBounds(f: Format, ignore: bool, content: seq<Byte>, s: Spot)
    requires Held(f, ignore, content, s)
    ensures s.base <= s.at <= |content|
    ensures s.dec.eof ==> f.parse(s.dec.fed).Done?
  {
  }

  // ----- The turns of the read loop, as functions

  /** What the turns depend on and change: the raw stream, the decompressor, and how the decompressors
      still to be made will behave. */
  datatype Reading = Reading(pos: nat, replies: seq<Reply>, dec: Decompressor, plans: seq<seq<Step>>)

  datatype Stop = Stop(now: Reading, turn: Turn)

  function Popped<T>(s: seq<T>): seq<T>
  {
    if s == [] then [] else s[1..]
  }

  /** fp.read(BUFFER_SIZE) */
  function RawBlock(content: seq<Byte>, pos: nat, replies: seq<Reply>): seq<Byte>
  {
    From(content, pos)[..Granted(replies, BUFFER_SIZE, |From(content, pos)|)]
  }

  /** The bytes to start the next stream with: what the last one left over, or else a block. */
  function FirstBlock(f: Format, content: seq<Byte>, c: Reading): seq<Byte>
    requires f.parse(c.dec.fed).Done?
  {
    if Unused(f, c.dec) != [] then Unused(f, c.dec) else RawBlock(content, c.pos, c.replies)
  }

  /** The turn at the end of a stream. */
  function NextTurn(f: Format, ignore: bool, content: seq<Byte>, c: Reading, size: nat): Stop
    requires f.parse(c.dec.fed).Done?
  {
    var block := FirstBlock(f, content, c);
    var c1 := if Unused(f, c.dec) != [] then c else c.(pos := c.pos + |block|, replies := Popped(c.replies));
    if block == [] then Stop(c1, End)
    else
      var c2 := c1.(dec := NewDecompressor(NextPlan(c.plans)), plans := Popped(c.plans));
      match Decompress(f, c2.dec, block, size)
      case Fail => Stop(c2, if ignore then End else Failed(Corrupt))
      case Got(next, data) => Stop(c2.(dec := next), Out(data))
  }

  /** The turn in a stream that has not ended. */
  function SameTurn(f: Format, content: seq<Byte>, c: Reading, size: nat): Stop
  {
    var block := if c.dec.needsInput then RawBlock(content, c.pos, c.replies) else [];
    var c1 := if c.dec.needsInput then c.(pos := c.pos + |block|, replies := Popped(c.replies)) else c;
    if c.dec.needsInput && block == [] then Stop(c1, Failed(EndedEarly))
    else match Decompress(f, c.dec, block, size)
      case Fail => Stop(c1, Failed(Corrupt))
      case Got(next, data) => Stop(c1.(dec := next), Out(data))
  }

  function TurnOf(f: Format, ignore: bool, content: seq<Byte>, c: Reading, size: nat): Stop
  {
    if c.dec.eof && f.parse(c.dec.fed).Done? then NextTurn(f, ignore, content, c, size)
    else SameTurn(f, content, c, size)
  }

  /** At most `n` turns, up to the first that does not come out empty. */
  function Runs(f: Format, ignore: bool, content: seq<Byte>, c: Reading, size: nat, n: nat): Option<Stop>
    decreases n
  {
    if n == 0 then None
    else
      var s := TurnOf(f, ignore, content, c, size);
      if s.turn == Out([]) then Runs(f, ignore, content, s.now, size, n - 1) else Some(s)
  }

  /** More turns do not change where a read stops. */
  lemma {:induction false} RunsAgree(f: Format, ignore: bool, content: seq<Byte>, c: Reading, size: nat, m: nat, n: nat)
    requires Runs(f, ignore, content, c, size, m).Some? && Runs(f, ignore, content, c, size, n).Some?
    ensures Runs(f, ignore, content, c, size, m) == Runs(f, ignore, content, c, size, n)
    decreases m
  {
    hide TurnOf;
    var s := TurnOf(f, ignore, content, c, size);
    if s.turn == Out([]) {
      RunsAgree(f, ignore, content, s.now, size, m - 1, n - 1);
    }
  }

  /** `n` turns, all empty, lead from `c` to `d`. */
  ghost predicate Idles(f: Format, ignore: bool, content: seq<Byte>, c: Reading, size: nat, n: nat, d: Reading)
    decreases n
  {
    if n == 0 then c == d
    else
      var s := TurnOf(f, ignore, content, c, size);
      s.turn == Out([]) && Idles(f, ignore, content, s.now, size, n - 1, d)
  }

  lemma {:induction false} IdlesThen(f: Format, ignore: bool, content: seq<Byte>, c: Reading, size: nat,
                                     n: nat, d: Reading)
    requires Idles(f, ignore, content, c, size, n, d)
    ensures var s := TurnOf(f, ignore, content, d, size);
            if s.turn == Out([]) then Idles(f, ignore, content, c, size, n + 1, s.now)
            else Runs(f, ignore, content, c, size, n + 1) == Some(s)
    decreases n
  {
    hide TurnOf;
    if n > 0 {
      IdlesThen(f, ignore, content, TurnOf(f, ignore, content, c, size).now, size, n - 1, d);
    }
  }

  function ResultOf(t: Turn): ReadResult
  {
    match t
    case Out(data) => Data(data)
    case End => Data([])
    case Failed(error) => error
  }

  /** read(size) turns `c` into `d` and gives `r`. */
  ghost predicate Reads(f: Format, ignore: bool, content: seq<Byte>, c: Reading, size: nat, d: Reading, r: ReadResult)
  {
    exists n: nat, t: Turn :: Runs(f, ignore, content, c, size, n) == Some(Stop(d, t)) && r == ResultOf(t)
  }

  /** read is a function of the file, the answers of the raw stream, and the decompressors. */
  lemma ReadsOnce(f: Format, ignore: bool, content: seq<Byte>, c: Reading, size: nat,
                  d: Reading, r: ReadResult, n: nat)
    requires Reads(f, ignore, content, c, size, d, r) && Runs(f, ignore, content, c, size, n).Some?
    ensures var s := Runs(f, ignore, content, c, size, n).value; d == s.now && r == ResultOf(s.turn)
  {
    hide Runs;
    var m: nat, t: Turn :| Runs(f, ignore, content, c, size, m) == Some(Stop(d, t)) && r == ResultOf(t);
    RunsAgree(f, ignore, content, c, size, m, n);
  }

  /** The turn at the end of a stream, in terms of the block it starts with. */
  lemma NextTurnExactly(f: Format, ignore: bool, content: seq<Byte>, c: Reading, size: nat)
    requires f.parse(c.dec.fed).Done?
    ensures var block, t := FirstBlock(f, content, c), NextTurn(f, ignore, content, c, size).turn;
            && (t.End? <==> block == [] || (ignore && f.parse(block).Broken?))
            && (t.Failed? <==> block != [] && !ignore && f.parse(block).Broken?)
            && (t.Failed? ==> t.error == Corrupt)
  {
    var block := FirstBlock(f, content, c);
    assert [] + block == block;
  }

  /** The turn in a stream: EOFError for want of input, an error exactly over rejected bytes, and
      otherwise data, possibly none. */
  lemma SameTurnExactly(f: Format, content: seq<Byte>, c: Reading, size: nat)
    ensures var block := if c.dec.needsInput then RawBlock(content, c.pos, c.replies) else [];
            var t := SameTurn(f, content, c, size).turn;
            && !t.End?
            && (t == Failed(EndedEarly) <==> c.dec.needsInput && block == [])
            && (t == Failed(Corrupt) <==> !(c.dec.needsInput && block == []) && f.parse(c.dec.fed + block).Broken?)
            && (t.Failed? ==> !t.error.Data?)
  {
    hide RawBlock;
  }

  // ----- Ignored trailing bytes

  /** Behind `p`, the last stream `x` of a file has been read to its end; `y` follows it, of which the
      decompressor may hold some bytes. */
  ghost predicate AtEndOf(f: Format, p: seq<Byte>, x: seq<Byte>, y: seq<Byte>, c: Reading)
  {
    && c.dec.eof && x <= c.dec.fed <= x + y
    && c.pos == |p| + |c.dec.fed|
    && forall i :: 0 <= i < |c.replies| ==> c.replies[i].Short?
  }

  /** Trailing bytes are ignored in all these states, however the file is cut into blocks, exactly
      when their first byte alone is rejected. */
  lemma IgnoredHoweverCut(f: Format, p: seq<Byte>, x: seq<Byte>, y: seq<Byte>, size: nat)
    requires GoodFormat(f) && f.parse(x).Done? && f.parse(x).used == |x| && y != [] && size > 0
    ensures (forall c :: AtEndOf(f, p, x, y, c) ==> TurnOf(f, true, p + x + y, c, size).turn.End?)
            <==> f.parse(y[..1]).Broken?
  {
    hide TurnOf, GoodFormat, RawBlock;
    if f.parse(y[..1]).Broken? {
      forall c | AtEndOf(f, p, x, y, c) ensures TurnOf(f, true, p + x + y, c, size).turn.End? {
        BlockAtEnd(f, p, x, y, c);
        FirstByteDecides(f, y, FirstBlock(f, p + x + y, c));
        TurnAtEnd(f, p + x + y, c, size);
      }
    } else {
      var c := Reading(|p| + |x|, [Short(1)], Decompressor(x, |f.parse(x).out|, true, false, []), []);
      BlockAtEnd(f, p, x, y, c);
      TurnAtEnd(f, p + x + y, c, size);
      assert AtEndOf(f, p, x, y, c);
    }
  }

  lemma TurnAtEnd(f: Format, content: seq<Byte>, c: Reading, size: nat)
    requires c.dec.eof && f.parse(c.dec.fed).Done?
    ensures var block := FirstBlock(f, content, c);
            TurnOf(f, true, content, c, size).turn.End? <==> block == [] || f.parse(block).Broken?
  {
    hide NextTurn, FirstBlock;
    NextTurnExactly(f, true, content, c, size);
  }

  /** The next stream would start with the first of the trailing bytes; with one of them if the
      decompressor holds none and the raw stream gives one. */
  lemma BlockAtEnd(f: Format, p: seq<Byte>, x: seq<Byte>, y: seq<Byte>, c: Reading)
    requires GoodFormat(f) && f.parse(x).Done? && f.parse(x).used == |x| && y != [] && AtEndOf(f, p, x, y, c)
    ensures f.parse(c.dec.fed).Done?
    ensures var block := FirstBlock(f, p + x + y, c);
            block <= y && block != [] && (c.dec.fed == x && c.replies == [Short(1)] ==> block == y[..1])
  {
    assert Extends(f, x, c.dec.fed);
    var held := c.dec.fed[|x|..];
    assert c.dec.fed == x + held;
    assert held <= y by {
      assert (x + y)[..|c.dec.fed|] == c.dec.fed;
      assert y[..|held|] == held;
    }
    if held == [] {
      assert (p + x + y)[|p| + |x|..] == y;
    }
  }

  lemma FirstByteDecides(f: Format, y: seq<Byte>, block: seq<Byte>)
    requires GoodFormat(f) && block <= y && block != [] && f.parse(y[..1]).Broken?
    ensures f.parse(block).Broken?
  {
    assert y[..1] == block[..1] <= block;
    assert Extends(f, y[..1], block);
  }

  // ----- A format

  /** Two magic bytes, a length, and that many bytes of output. */
  function MagicParse(x: seq<Byte>): Outcome
  {
    if (|x| >= 1 && x[0] != 66) || (|x| >= 2 && x[1] != 90) then Broken
    else if |x| < 3 then Partial([])
    else
      var len: int := x[2];
      if |x| < len + 3 then Partial(x[3..]) else Done(x[3..len + 3], len + 3)
  }

  const MAGIC := Format(MagicParse)

  lemma MagicIsGood()
    ensures GoodFormat(MAGIC)
  {
    forall x, y | x <= y ensures Extends(MAGIC, x, y) {
      if MagicParse(x).Partial? && MagicParse(y).Done? && |x| >= 3 {
        var len: int := y[2];
        assert x[3..] <= y[3..len + 3];
      } else if MagicParse(x).Done? {
        var len: int := x[2];
        assert x[3..len + 3] == y[3..len + 3];
      }
    }
  }

  /** One stream with the output [7], and two bytes behind it. */
  const STREAM: seq<Byte> := [66, 90, 1, 7]
  const TWO_MORE: seq<Byte> := [66, 65]

  function AfterStream(replies: seq<Reply>): Reading
  {
    Reading(4, replies, Decompressor(STREAM, 1, true, false, []), [])
  }

  /** The first read: the raw stream gives just the first stream. */
  lemma FirstRead(more: seq<Reply>)
    ensures Runs(MAGIC, true, STREAM + TWO_MORE, Reading(0, [Short(4)] + more, NewDecompressor([]), []), 9, 1)
            == Some(Stop(AfterStream(more), Out([7])))
  {
    var c := Reading(0, [Short(4)] + more, NewDecompressor([]), []);
    assert RawBlock(STREAM + TWO_MORE, 0, c.replies) == STREAM;
    assert Popped(c.replies) == more;
    assert [] + STREAM == STREAM;
    assert MagicParse(STREAM) == Done([7], 4);
    assert Decompress(MAGIC, c.dec, STREAM, 9) == Got(Decompressor(STREAM, 1, true, false, []), [7]);
  }

  /** The second read, when both bytes come in one block: they are rejected, and ignored. */
  lemma BothAtOnce()
    ensures Runs(MAGIC, true, STREAM + TWO_MORE, AfterStream([]), 9, 1).Some?
    ensures Runs(MAGIC, true, STREAM + TWO_MORE, AfterStream([]), 9, 1).value.turn == End
  {
    var c := AfterStream([]);
    assert MagicParse(STREAM) == Done([7], 4);
    assert Unused(MAGIC, c.dec) == [];
    assert RawBlock(STREAM + TWO_MORE, 4, []) == TWO_MORE;
    NextTurnExactly(MAGIC, true, STREAM + TWO_MORE, c, 9);
  }

  /** The second read, when they come one by one: the first is accepted as the start of a stream, and
      the second raises the error. */
  lemma OneByOne()
    ensures Runs(MAGIC, true, STREAM + TWO_MORE, AfterStream([Short(1)]), 9, 2).Some?
    ensures Runs(MAGIC, true, STREAM + TWO_MORE, AfterStream([Short(1)]), 9, 2).value.turn == Failed(Corrupt)
  {
    var c, d := AfterStream([Short(1)]), NewDecompressor([]);
    assert MagicParse(STREAM) == Done([7], 4);
    assert Unused(MAGIC, c.dec) == [];
    assert RawBlock(STREAM + TWO_MORE, 4, c.replies) == [66];
    assert d.fed + [66] == [66];
    var e := Decompressor([66], 0, false, true, []);
    assert Decompress(MAGIC, d, [66], 9) == Got(e, []);
    var s := TurnOf(MAGIC, true, STREAM + TWO_MORE, c, 9);
    assert s == Stop(Reading(5, [], e, []), Out([]));
    assert RawBlock(STREAM + TWO_MORE, 5, []) == [65];
    assert e.fed + [65] == TWO_MORE;
    assert Decompress(MAGIC, e, [65], 9) == Fail;
  }
}
