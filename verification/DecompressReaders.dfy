/** DecompressReader: a seekable view of the concatenated streams of a compressed file. */
module DecompressReaders {
  import opened Basics
  import opened RawStreams
  import opened Decompressors

  const MAXSIZE := 0x7FFF_FFFF_FFFF_FFFF

  datatype SeekResult = At(pos: nat) | ReadFailed | BadWhence

  class DecompressReader {
    const fp: RawStream
    const format: Format
    const ignoreTrailing: bool           // trailing_error is not empty
    var eof: bool
    var pos: nat
    var size: int                        // -1 until known
    var decompressor: Decompressor
    var plans: seq<seq<Step>>            // how the decompressors still to be made will behave
    ghost var base: nat                  // where in the file the current stream starts
    ghost var before: seq<Byte>          // output of the streams before it

    constructor (fp: RawStream, format: Format, ignoreTrailing: bool, plans: seq<seq<Step>>)
      requires fp.Polite() && fp.pos == 0 && GoodFormat(format)
      ensures Valid() && this.fp == fp && this.format == format && this.ignoreTrailing == ignoreTrailing
      ensures pos == 0 && !eof && base == 0 && before == []
      ensures Now() == Reading(0, fp.replies, NewDecompressor(NextPlan(plans)), Popped(plans))
    {
      this.fp, this.format, this.ignoreTrailing := fp, format, ignoreTrailing;
      AtStart(format, ignoreTrailing, fp.content, NewDecompressor(NextPlan(plans)));
      eof, pos, size, base, before := false, 0, -1, 0, [];
      decompressor, this.plans := NewDecompressor(NextPlan(plans)), Popped(plans);
    }

    ghost function Total(): seq<Byte>
      reads this, fp
    {
      Text(format, fp.content)
    }

    /** Complete streams, then nothing or ignorable bytes. */
    ghost predicate Intact()
      reads fp
    {
      GoodFile(format, ignoreTrailing, false, fp.content)
    }

    /** The same, except that the last stream may be cut short. */
    ghost predicate Readable()
      reads fp
    {
      GoodFile(format, ignoreTrailing, true, fp.content)
    }

    lemma IntactIsReadable()
      ensures Intact() ==> Readable()
    {
      if Intact() {
        UncutIsGood(format, ignoreTrailing, fp.content);
      }
    }

    function Now(): Reading
      reads this, fp
    {
      Reading(fp.pos, fp.replies, decompressor, plans)
    }

    ghost function Here(): Spot
      reads this, fp
    {
      Spot(fp.pos, decompressor, base, before)
    }

    ghost predicate Standing()
      reads this, fp
    {
      Held(format, ignoreTrailing, fp.content, Here())
    }

    /** At the end of a readable file the size is known, and before that a known size is right. */
    ghost predicate Valid()
      reads this, fp
    {
      && GoodFormat(format) && fp.Polite()
      && (size >= 0 && Readable() ==> Intact() && size == |Total()|)
      && if eof then size == pos else Standing() && pos == Handed(Here()) && base <= fp.pos <= |fp.content|
    }

    lemma WithinText()
      requires Valid() && Readable()
      ensures pos <= |Total()|
    {
      if !eof {
        HandedInText(format, ignoreTrailing, fp.content, Here());
      }
    }

    method NextDecompressor()
      modifies this`decompressor, this`plans
      ensures decompressor == NewDecompressor(NextPlan(old(plans))) && plans == Popped(old(plans))
    {
      decompressor := NewDecompressor(NextPlan(plans));
      plans := Popped(plans);
    }

    /** The reader is past an earlier state: a later stream, a later block, or more of it out. */
    ghost predicate Further(base0: nat, pos0: nat, undelivered0: nat)
      reads this, fp
    {
      base > base0
      || (base == base0 && (fp.pos > pos0 || (fp.pos == pos0 && Undelivered(format, decompressor) < undelivered0)))
    }

    /** An error is blamed on the right thing: the file ends inside a stream, or holds bytes that
        the decompressor rejects. */
    ghost predicate Blamed(r: ReadResult)
      reads this, fp
    {
      match r
      case Data(_) => true
      case EndedEarly => format.parse(From(fp.content, base)).Partial?
      case Corrupt => base <= fp.pos <= |fp.content| && format.parse(fp.content[base..fp.pos]).Broken?
    }

    /** read(size) for size >= 0. In a readable file: the next bytes, none only at the end, and an
        EOFError only after all of them, if the last stream is cut short. What happens is a function
        of the file, the answers of the raw stream, and the decompressors. */
    method ReadSome(size: nat) returns (r: ReadResult)
      requires Valid()
      modifies this, fp
      ensures !r.Corrupt? ==> Valid()
      ensures fp.content == old(fp.content)
      ensures Blamed(r) && (Readable() ==> !r.Corrupt?) && (Intact() ==> r.Data?)
      ensures r.Data? ==> |r.bytes| <= size && pos == old(pos) + |r.bytes|
      ensures r.Data? && Readable() ==> r.bytes <= From(Total(), old(pos))
      ensures r.Data? && Readable() && size > 0 ==> (r.bytes == [] <==> From(Total(), old(pos)) == [])
      ensures r == Data([]) && size > 0 ==> eof && this.size == pos
      ensures r.EndedEarly? ==> pos == old(pos) && !eof && (Readable() ==> pos == |Total()|)
      ensures r.Data? && r.bytes != []
              ==> !old(eof) && !eof && Further(old(base), old(fp.pos), old(Undelivered(format, decompressor)))
      ensures !old(eof) && size > 0 ==> Reads(format, ignoreTrailing, fp.content, old(Now()), size, Now(), r)
    {
      hide Text, GoodFile, GoodFormat, Held, Reads, Handed;
      if size == 0 || eof {
        return Data([]);
      }
      IntactIsReadable();
      HeldBounds(format, ignoreTrailing, fp.content, Here());
      var t := TakeTurns(size);
      if t.Failed? {
        if t.error.EndedEarly? {
          HeldBounds(format, ignoreTrailing, fp.content, Here());
        }
        return t.error;
      } else if t.End? {
        eof := true;
        this.size := pos;
        return Data([]);
      }
      HeldBounds(format, ignoreTrailing, fp.content, Here());
      pos := pos + |t.data|;
      r := Data(t.data);
    }

    /** The loop of read: turns until one does not come out empty. */
    method TakeTurns(size: nat) returns (t: Turn)
      requires GoodFormat(format) && fp.Polite() && Standing() && size > 0
      modifies this`decompressor, this`plans, this`base, this`before, fp
      ensures fp.content == old(fp.content) && fp.Polite() && t != Out([])
      ensures GoodTurn(format, ignoreTrailing, fp.content, old(Here()), t, Here())
      ensures Onward(format, old(Here()), t, Here()) && (t.Out? ==> |t.data| <= size)
      ensures Reads(format, ignoreTrailing, fp.content, old(Now()), size, Now(), ResultOf(t))
    {
      hide GoodFormat, Held, TurnOf, Runs, Idles, Reads, Handed, GoodTurn, Onward, NotBefore;
      ghost var n := 0;
      NotBeforeItself(format, Here());
      StartIdle(format, ignoreTrailing, fp.content, Now(), size);
      while true
        invariant fp.content == old(fp.content) && fp.Polite() && Standing()
        invariant Handed(Here()) == old(Handed(Here())) && NotBefore(format, old(Here()), Here())
        invariant Idles(format, ignoreTrailing, fp.content, old(Now()), size, n, Now())
        decreases |fp.content| - base, |fp.content| - fp.pos, Idle(decompressor)
      {
        ghost var s, now := Here(), Now();
        HeldBounds(format, ignoreTrailing, fp.content, s);
        t := TakeTurn(size);
        AfterIdling(format, ignoreTrailing, fp.content, old(Here()), s, t, Here());
        IdlesThen(format, ignoreTrailing, fp.content, old(Now()), size, n, now);
        if t != Out([]) {
          StopsHere(format, ignoreTrailing, fp.content, old(Now()), size, n + 1, Now(), t);
          return;
        }
        GoesOn(format, ignoreTrailing, fp.content, s, Here());
        n := n + 1;
      }
    }

    /** One turn of the loop. */
    method TakeTurn(size: nat) returns (t: Turn)
      requires GoodFormat(format) && fp.Polite() && Standing() && size > 0
      modifies this`decompressor, this`plans, this`base, this`before, fp
      ensures fp.content == old(fp.content) && fp.Polite()
      ensures Stop(Now(), t) == TurnOf(format, ignoreTrailing, fp.content, old(Now()), size)
      ensures GoodTurn(format, ignoreTrailing, fp.content, old(Here()), t, Here())
      ensures Onward(format, old(Here()), t, Here()) && (t.Out? ==> |t.data| <= size)
    {
      hide GoodFormat, Held, NextTurn, SameTurn, GoodTurn;
      HeldBounds(format, ignoreTrailing, fp.content, Here());
      if decompressor.eof {
        t := NextStream(size);
      } else {
        t := SameStream(size);
      }
    }

    /** The turn in a stream that has not ended. */
    method SameStream(size: nat) returns (t: Turn)
      requires GoodFormat(format) && fp.Polite() && Standing() && size > 0 && !decompressor.eof
      modifies this`decompressor, fp
      ensures fp.content == old(fp.content) && fp.Polite() && !t.End?
      ensures Stop(Now(), t) == SameTurn(format, fp.content, old(Now()), size)
      ensures var block := old(if decompressor.needsInput then RawBlock(fp.content, fp.pos, fp.replies) else []);
              && (t == Failed(EndedEarly) <==> old(decompressor.needsInput) && block == [])
              && (t == Failed(Corrupt) <==> t != Failed(EndedEarly) && format.parse(old(decompressor.fed) + block).Broken?)
      ensures GoodTurn(format, ignoreTrailing, fp.content, old(Here()), t, Here())
      ensures Onward(format, old(Here()), t, Here()) && (t.Out? ==> |t.data| <= size)
    {
      hide GoodFormat, Held, Decompress, From, RawBlock, GoodTurn, Onward;
      ghost var s := Here();
      HeldBounds(format, ignoreTrailing, fp.content, s);
      SameTurnExactly(format, fp.content, Now(), size);
      var block: seq<Byte> := [];
      if decompressor.needsInput {
        block := ReadBlock();
        if block == [] {
          CutShortTurn(format, ignoreTrailing, fp.content, s);
          return Failed(EndedEarly);
        }
      }
      SameStepTurn(format, ignoreTrailing, fp.content, s, block, size);
      var g := Decompress(format, decompressor, block, size);
      if g.Fail? {
        return Failed(Corrupt);
      }
      decompressor := g.next;
      t := Out(g.data);
    }

    /** fp.read(BUFFER_SIZE) */
    method ReadBlock() returns (block: seq<Byte>)
      requires fp.Polite() && fp.pos <= |fp.content|
      modifies fp
      ensures fp.content == old(fp.content) && fp.Polite()
      ensures block == RawBlock(fp.content, old(fp.pos), old(fp.replies))
      ensures fp.pos == old(fp.pos) + |block| <= |fp.content| && fp.replies == Popped(old(fp.replies))
      ensures block == fp.content[old(fp.pos)..fp.pos] && (block == [] ==> fp.pos == |fp.content|)
    {
      var b := fp.Read(BUFFER_SIZE);
      block := b.value;
    }

    /** The turn at the end of a stream: the file ends, ignorable bytes follow, or a new stream
        begins. Which of them depends on the block it starts with. */
    method NextStream(size: nat) returns (t: Turn)
      requires GoodFormat(format) && fp.Polite() && Standing() && size > 0
      requires decompressor.eof && format.parse(decompressor.fed).Done?
      modifies this`decompressor, this`plans, this`base, this`before, fp
      ensures fp.content == old(fp.content) && fp.Polite()
      ensures Stop(Now(), t) == NextTurn(format, ignoreTrailing, fp.content, old(Now()), size)
      ensures var block := old(FirstBlock(format, fp.content, Now()));
              && (t.End? <==> block == [] || (ignoreTrailing && format.parse(block).Broken?))
              && (t.Failed? <==> block != [] && !ignoreTrailing && format.parse(block).Broken?)
      ensures GoodTurn(format, ignoreTrailing, fp.content, old(Here()), t, Here())
      ensures Onward(format, old(Here()), t, Here()) && (t.Out? ==> |t.data| <= size)
    {
      hide GoodFormat, Held, Decompress, From, FirstBlock, GoodTurn, Text, GoodFile, Trail, Handed;
      ghost var s, now, used := Here(), Now(), format.parse(decompressor.fed).used;
      HeldBounds(format, ignoreTrailing, fp.content, s);
      BetweenStreams(format, ignoreTrailing, fp.content, s);
      NextTurnExactly(format, ignoreTrailing, fp.content, now, size);
      var block := NextRaw();
      if block == [] {
        EndStepTurn(format, ignoreTrailing, fp.content, s, Here());
        return End;
      }
      before, base := before + format.parse(decompressor.fed).out, base + used;
      NextDecompressor();
      NextStepTurn(format, ignoreTrailing, fp.content, s, decompressor, block, size);
      var g := Decompress(format, decompressor, block, size);
      if g.Fail? {
        return if ignoreTrailing then End else Failed(Corrupt);
      }
      decompressor := g.next;
      t := Out(g.data);
    }

    /** The bytes to start the next stream with: what the last one left over, or else a block. */
    method NextRaw() returns (block: seq<Byte>)
      requires fp.Polite() && format.parse(decompressor.fed).Done?
      requires base + format.parse(decompressor.fed).used <= fp.pos <= |fp.content|
      requires Unused(format, decompressor) == fp.content[base + format.parse(decompressor.fed).used..fp.pos]
      modifies fp
      ensures fp.content == old(fp.content) && fp.Polite()
      ensures block == old(FirstBlock(format, fp.content, Now()))
      ensures var start := base + format.parse(decompressor.fed).used;
              && fp.pos == start + |block| && block <= From(fp.content, start)
              && (block == [] ==> From(fp.content, start) == [])
      ensures fp.pos == old(fp.pos) + (if Unused(format, decompressor) == [] then |block| else 0)
      ensures fp.replies == if Unused(format, decompressor) == [] then Popped(old(fp.replies)) else old(fp.replies)
    {
      block := Unused(format, decompressor);
      if block == [] {
        block := ReadBlock();
      }
    }

    /** readall(): all that is left, or an EOFError if the last stream is cut short. */
    method ReadAll() returns (r: ReadResult)
      requires Valid()
      modifies this, fp
      ensures fp.content == old(fp.content)
      ensures !r.Corrupt? ==> Valid()
      ensures r.Data? ==> eof && pos == old(pos) + |r.bytes|
      ensures Blamed(r)
      ensures Readable() ==> !r.Corrupt? && pos == |Total()| && (r.Data? <==> Intact())
      ensures r.Data? && Readable() ==> r.bytes == From(Total(), old(pos))
    {
      hide Text, GoodFile, GoodFormat, Held, Handed, From, Undelivered, Reads;
      var all: seq<Byte> := [];
      while true
        invariant Valid() && fp.content == old(fp.content) && pos == old(pos) + |all|
        invariant Readable() ==> From(Total(), old(pos)) == all + From(Total(), pos)
        decreases !eof, |fp.content| - base, |fp.content| - fp.pos, Undelivered(format, decompressor)
      {
        ghost var p := pos;
        IntactIsReadable();
        r := ReadSome(MAXSIZE);
        if !r.Data? {
          return;
        }
        if r.bytes == [] {
          return Data(all);
        }
        if Readable() {
          FromFrom(Total(), p, |r.bytes|);
        }
        all := all + r.bytes;
      }
    }

    method Read(size: int) returns (r: ReadResult)
      requires Valid()
      modifies this, fp
      ensures fp.content == old(fp.content)
      ensures !r.Corrupt? ==> Valid()
      ensures r.Data? ==> pos == old(pos) + |r.bytes| && (size >= 0 ==> |r.bytes| <= size)
      ensures Blamed(r) && (Readable() ==> !r.Corrupt?) && (Intact() ==> r.Data?)
      ensures r.Data? && Readable() ==> r.bytes <= From(Total(), old(pos))
      ensures r.Data? && Readable() && size > 0 ==> (r.bytes == [] <==> From(Total(), old(pos)) == [])
      ensures r.Data? && Readable() && size < 0 ==> r.bytes == From(Total(), old(pos))
      ensures r.EndedEarly? && Readable() ==> pos == |Total()| && (size >= 0 ==> pos == old(pos))
    {
      hide Text, GoodFile, GoodFormat, Held, Handed, From, Undelivered, Reads;
      IntactIsReadable();
      if size < 0 {
        r := ReadAll();
      } else {
        r := ReadSome(size);
      }
    }

    method Rewind()
      requires GoodFormat(format) && fp.Polite()
      requires size >= 0 && Readable() ==> Intact() && size == |Total()|
      modifies this, fp
      ensures Valid() && pos == 0 && !eof && size == old(size) && fp.content == old(fp.content)
    {
      hide Text, GoodFile, GoodFormat, Held, Handed;
      var _ := fp.Seek(0, 0);
      eof, pos := false, 0;
      NextDecompressor();
      base, before := 0, [];
      AtStart(format, ignoreTrailing, fp.content, decompressor);
    }

    /** Reads and discards `offset` bytes; in a file that is cut short a read behind its end fails. */
    method SkipForward(offset: int) returns (ok: bool)
      requires Valid()
      modifies this, fp
      ensures fp.content == old(fp.content) && (ok || Readable() ==> Valid())
      ensures Readable() ==> (ok <==> Intact() || offset <= 0 || old(pos) + offset <= |Total()|)
      ensures Readable() ==> pos == Max(old(pos), Min(old(pos) + offset, |Total()|))
    {
      hide Text, GoodFile, GoodFormat, Held, Handed, Reads;
      IntactIsReadable();
      if Readable() {
        WithinText();
      }
      var left := offset;
      while left > 0
        invariant Valid() && fp.content == old(fp.content)
        invariant pos == old(pos) + offset - left && (offset >= 0 ==> left >= 0) && (offset < 0 ==> left == offset)
        decreases left
      {
        var r := ReadSome(Min(DEFAULT_BUFFER_SIZE, left));
        if !r.Data? {
          return false;
        }
        if r.bytes == [] {
          break;
        }
        left := left - |r.bytes|;
      }
      if Readable() {
        WithinText();
      }
      ok := true;
    }

    /** Reads on to the end, to learn the size. */
    method FindSize() returns (ok: bool)
      requires Valid()
      modifies this, fp
      ensures fp.content == old(fp.content) && (ok || Readable() ==> Valid()) && (ok ==> size >= 0)
      ensures Readable() ==> (ok <==> Intact()) && pos == |Total()|
    {
      hide Text, GoodFile, GoodFormat, Held, Handed, From, Undelivered, Reads;
      while true
        invariant Valid() && fp.content == old(fp.content)
        decreases !eof, |fp.content| - base, |fp.content| - fp.pos, Undelivered(format, decompressor)
      {
        IntactIsReadable();
        var r := ReadSome(DEFAULT_BUFFER_SIZE);
        if !r.Data? {
          return false;
        }
        if r.bytes == [] {
          return true;
        }
      }
    }

    /** seek: in a readable file it goes to the target, clamped to the text; if the last stream is cut
        short, a seek from the end or beyond the end fails there with EOFError. */
    method Seek(offset: int, whence: int) returns (r: SeekResult)
      requires Valid()
      modifies this, fp
      ensures fp.content == old(fp.content)
      ensures r.At? || Readable() ==> Valid()
      ensures r.At? ==> r.pos == pos
      ensures r.BadWhence? <==> !(0 <= whence <= 2)
      ensures r.BadWhence? ==> pos == old(pos)
      ensures Readable() && !r.BadWhence? ==>
                var target := offset + (if whence == 0 then 0 else if whence == 1 then old(pos) else |Total()|);
                && (r.ReadFailed? <==> !Intact() && (whence == 2 || target > |Total()|))
                && pos == if r.ReadFailed? then |Total()| else Max(0, Min(target, |Total()|))
    {
      hide Text, GoodFile, GoodFormat, Held, Handed, From;
      if !(0 <= whence <= 2) {
        return BadWhence;
      }
      IntactIsReadable();
      if Readable() {
        WithinText();
      }
      var target := offset;
      if whence == 1 {
        target := pos + offset;
      } else if whence == 2 {
        if size < 0 {
          var ok := FindSize();
          if !ok {
            return ReadFailed;
          }
        }
        target := size + offset;
      }
      if target < pos {
        Rewind();
      } else {
        target := target - pos;
      }
      var ok := SkipForward(target);
      r := if ok then At(pos) else ReadFailed;
    }

    method Tell() returns (p: nat)
      ensures p == pos
    {
      p := pos;
    }
  }

  // ----- What the methods use, on values

  /** An empty turn makes the loop's measure smaller. */
  lemma GoesOn(f: Format, ignore: bool, content: seq<Byte>, s: Spot, u: Spot)
    requires Held(f, ignore, content, s) && Held(f, ignore, content, u) && Onward(f, s, Out([]), u)
    ensures u.base > s.base || (u.base == s.base && (u.at > s.at || (u.at == s.at && Idle(u.dec) < Idle(s.dec))))
    ensures s.base <= s.at <= |content| && u.base <= u.at <= |content|
  {
  }

  lemma StartIdle(f: Format, ignore: bool, content: seq<Byte>, c: Reading, size: nat)
    ensures Idles(f, ignore, content, c, size, 0, c)
  {
  }

  lemma StopsHere(f: Format, ignore: bool, content: seq<Byte>, c: Reading, size: nat, n: nat, now: Reading, t: Turn)
    requires Runs(f, ignore, content, c, size, n) == Some(Stop(now, t))
    ensures Reads(f, ignore, content, c, size, now, ResultOf(t))
  {
  }

  // ----- Trailing bytes, cut in two

  /** A reader of one stream and two bytes behind it that are to be ignored, and its first read. */
  method ReaderBehindStream(more: seq<Reply>) returns (d: DecompressReader, first: ReadResult)
    requires forall i :: 0 <= i < |more| ==> more[i].Short?
    ensures fresh(d) && fresh(d.fp) && d.Valid() && !d.eof && d.pos == 1 && first == Data([7])
    ensures d.format == MAGIC && d.ignoreTrailing && d.fp.content == STREAM + TWO_MORE && d.Now() == AfterStream(more)
  {
    hide Reads, Runs, GoodFormat, MagicParse, Decompress, Held;
    MagicIsGood();
    var fp := new RawStream(STREAM + TWO_MORE, [Short(4)] + more, true);
    d := new DecompressReader(fp, MAGIC, true, []);
    ghost var now := d.Now();
    first := d.ReadSome(9);
    FirstRead(more);
    ReadsOnce(MAGIC, true, STREAM + TWO_MORE, now, 9, d.Now(), first, 1);
  }

  /** Two readers over the same file, which differ only in how the raw stream cuts the two bytes behind
      the stream: one ignores them and is at the end, the other raises the error. */
  method TrailingBytesCutInTwo() returns (a: DecompressReader, b: DecompressReader, ra: ReadResult, rb: ReadResult)
    ensures a.fp.content == b.fp.content == STREAM + TWO_MORE && a.format == b.format == MAGIC
    ensures a.ignoreTrailing && b.ignoreTrailing
    ensures a.Valid() && a.eof && a.pos == 1 && ra == Data([])
    ensures rb == Corrupt && b.Blamed(rb)
  {
    hide Reads, Runs, GoodFormat, MagicParse, Decompress, Held, DecompressReader.Valid;
    var first;
    a, first := ReaderBehindStream([]);
    ghost var nowA := a.Now();
    ra := a.ReadSome(9);
    BothAtOnce();
    ReadsOnce(MAGIC, true, STREAM + TWO_MORE, nowA, 9, a.Now(), ra, 1);
    b, first := ReaderBehindStream([Short(1)]);
    ghost var nowB := b.Now();
    rb := b.ReadSome(9);
    OneByOne();
    ReadsOnce(MAGIC, true, STREAM + TWO_MORE, nowB, 9, b.Now(), rb, 2);
  }
}
