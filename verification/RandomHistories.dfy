/** Whole histories: a BufferedRandom and a BytesIO driven by the same calls answer alike. */
module RandomHistories {
  import opened RawStreams
  import opened BufferedReaders
  import opened BufferedRandoms

  datatype Op =
    | Read(size: int)
    | Read1(size: int)
    | Peek(size: int)
    | Write(b: seq<Byte>)
    | Flush
    | Tell
    | Seek(offset: int, whence: int)

  datatype Answer = Bytes(b: seq<Byte>) | Number(n: int)

  /** `x` is what the buffered file answered. `y` is what the reference answers; for read1 and
      peek, which the reference lacks or serves in full, it is all the bytes still to come. */
  ghost predicate Agrees(op: Op, bufferSize: nat, x: Answer, y: Answer)
  {
    match op
    case Read1(size) =>
      && x.Bytes? && y.Bytes? && x.b <= y.b
      && |x.b| <= (if size < 0 then bufferSize else size)
      && (x.b == [] ==> size == 0 || y.b == [])
    case Peek(_) =>
      x.Bytes? && y.Bytes? && x.b <= y.b && (x.b == [] ==> y.b == [])
    case _ =>
      x == y
  }

  /** Calls on which the two are promised to agree: no size below -1, no unknown whence, no
      seek to a negative position. */
  ghost predicate InScope(f: BufferedRandom, op: Op)
    reads f, f.reader, f.writer, f.raw
  {
    match op
    case Read(size) => size >= -1
    case Seek(offset, whence) => 0 <= whence <= 2 && f.Target(offset, whence) >= 0
    case _ => true
  }

  ghost predicate InStep(f: BufferedRandom, m: BytesIO)
    reads f, f.reader, f.writer, f.raw, m
  {
    f.Valid() && f.Contents() == m.buffer && f.Position() == m.pos
  }

  method Both(f: BufferedRandom, m: BytesIO, op: Op) returns (x: Answer, y: Answer)
    requires InStep(f, m) && InScope(f, op)
    modifies f.reader, f.writer, f.raw, m
    ensures InStep(f, m)
    ensures Agrees(op, f.reader.bufferSize, x, y)
  {
    if op.Read? || op.Read1? || op.Peek? {
      x, y := BothRead(f, m, op);
    } else {
      x, y := BothOther(f, m, op);
    }
  }

  method BothRead(f: BufferedRandom, m: BytesIO, op: Op) returns (x: Answer, y: Answer)
    requires InStep(f, m) && InScope(f, op)
    requires op.Read? || op.Read1? || op.Peek?
    modifies f.reader, f.writer, f.raw, m
    ensures InStep(f, m)
    ensures Agrees(op, f.reader.bufferSize, x, y)
  {
    hide Overlay, From, BufferedReader.Unread, BufferedReader.InBuffer, BufferedRandom.Shaped;
    match op {
      case Read(size) =>
        var r := f.Read(size);
        var b := m.Read(size);
        x, y := Bytes(r.bytes), Bytes(b);
      case Read1(size) =>
        y := Bytes(From(m.buffer, m.pos));
        var b := f.Read1(size);
        var _ := m.Read(|b|);
        x := Bytes(b);
      case Peek(size) =>
        var b := f.Peek(size);
        x, y := Bytes(b), Bytes(From(m.buffer, m.pos));
    }
  }

  method BothOther(f: BufferedRandom, m: BytesIO, op: Op) returns (x: Answer, y: Answer)
    requires InStep(f, m) && InScope(f, op)
    requires op.Write? || op.Flush? || op.Tell? || op.Seek?
    modifies f.reader, f.writer, f.raw, m
    ensures InStep(f, m)
    ensures Agrees(op, f.reader.bufferSize, x, y)
  {
    hide Overlay, From;
    match op {
      case Write(b) =>
        var n := f.Write(b);
        var k := m.Write(b);
        x, y := Number(n), Number(k);
      case Flush =>
        f.Flush();
        x, y := Number(0), Number(0);
      case Tell =>
        var p := f.Tell();
        var q := m.Tell();
        x, y := Number(p), Number(q);
      case Seek(offset, whence) =>
        var p := f.Seek(offset, whence);
        var q := m.Seek(offset, whence);
        x, y := Number(p.pos), Number(q.value);
    }
  }

  /** The same condition on a call, as the reference sees it. */
  predicate Permitted(m: BytesIO, op: Op)
    reads m
  {
    match op
    case Read(size) => size >= -1
    case Seek(offset, whence) =>
      0 <= whence <= 2 && offset + (if whence == 0 then 0 else if whence == 1 then m.pos else |m.buffer|) >= 0
    case _ => true
  }

  lemma SameScope(f: BufferedRandom, m: BytesIO, op: Op)
    requires InStep(f, m)
    ensures InScope(f, op) <==> Permitted(m, op)
  {
    hide Overlay;
  }

  /** Every history, over every polite raw stream: answers agree call by call, up to the first
      call out of scope if there is one. */
  method RunBoth(f: BufferedRandom, m: BytesIO, ops: seq<Op>) returns (xs: seq<Answer>, ys: seq<Answer>)
    requires InStep(f, m)
    modifies f.reader, f.writer, f.raw, m
    ensures InStep(f, m) && |xs| == |ys| <= |ops|
    ensures |xs| < |ops| ==> !InScope(f, ops[|xs|])
    ensures forall i :: 0 <= i < |xs| ==> Agrees(ops[i], f.reader.bufferSize, xs[i], ys[i])
  {
    hide InStep, InScope, Permitted, Agrees;
    xs, ys := [], [];
    while |xs| < |ops|
      invariant InStep(f, m) && |xs| == |ys| <= |ops|
      invariant forall i :: 0 <= i < |xs| ==> Agrees(ops[i], f.reader.bufferSize, xs[i], ys[i])
    {
      var op := ops[|xs|];
      SameScope(f, m, op);
      if !Permitted(m, op) {
        return;
      }
      var x, y := Both(f, m, op);
      xs, ys := xs + [x], ys + [y];
    }
  }

  /** A file of six bytes, one of which has been read. */
  method OneByteRead() returns (f: BufferedRandom)
    ensures fresh(f.reader) && fresh(f.writer) && fresh(f.raw)
    ensures f.Valid() && f.Contents() == [1, 2, 3, 4, 5, 6] && f.Position() == 1 && |f.reader.Unread()| == 3
    ensures f.writer.writeBuf == []
  {
    var raw := new RawStream([1, 2, 3, 4, 5, 6], [], true);
    f := new BufferedRandom(raw, 4);
    var _ := f.Read(1);
  }

  /** After any failed seek to a position the unread bytes are read twice: once more from the
      buffer, and then again from the raw stream. Before that, tell gives a position that is short
      by their number. */
  method FailedSeekRereads(f: BufferedRandom, offset: int, whence: int)
    returns (r: SeekResult, where: int, first: seq<Byte>, again: seq<Byte>)
    requires f.Valid() && 0 <= whence <= 2 && f.Target(offset, whence) < 0
    modifies f.reader, f.writer, f.raw
    ensures r.Failed? && f.Valid() && f.Contents() == old(f.Contents())
    ensures where == old(f.Position()) - |old(f.reader.Unread())|
    ensures first == again == old(f.reader.Unread())
    ensures f.Position() == old(f.Position()) + |old(f.reader.Unread())|
  {
    hide Overlay, From, Backed;
    r := f.Seek(offset, whence);
    where := f.Tell();
    var unread := f.reader.Unread();
    var one := f.Read(|unread|);
    first := one.bytes;
    NothingBacked(f.raw.content, f.raw.pos);
    OverlayNothing(f.raw.content, f.raw.pos);
    var second := f.Read(|first|);
    again := second.bytes;
  }

  /** One byte is read with a four-byte buffer and a seek to -1 fails: the next three bytes are read
      twice. */
  method ReadTwice() returns (f: BufferedRandom, where: int, first: seq<Byte>, again: seq<Byte>)
    ensures f.Valid() && f.Contents() == [1, 2, 3, 4, 5, 6] && f.Position() == 4
    ensures where == -2 && first == again == f.Contents()[1..4]
  {
    hide Overlay;
    f := OneByteRead();
    UnreadOfThree(f);
    var r;
    r, where, first, again := FailedSeekRereads(f, -1, 0);
  }

  lemma UnreadOfThree(f: BufferedRandom)
    requires f.Valid() && f.writer.writeBuf == [] && f.Position() == 1 && |f.reader.Unread()| == 3
    ensures |f.Contents()| >= 4 && f.reader.Unread() == f.Contents()[1..4]
  {
  }
}
