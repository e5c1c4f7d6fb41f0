/** BytesIO, the simple in-memory file, and BufferedRandom, which must behave like it. */
module BufferedRandoms {
  import opened Basics
  import opened RawStreams
  import opened BufferedReaders
  import opened BufferedWriters

  class BytesIO {
    var buffer: seq<Byte>
    var pos: nat

    constructor (initial: seq<Byte>)
      ensures buffer == initial && pos == 0
    {
      buffer, pos := initial, 0;
    }

    method Read(size: int) returns (b: seq<Byte>)
      modifies this`pos
      ensures b == UpTo(size, From(buffer, old(pos)))
      ensures pos == old(pos) + |b|
    {
      var n := if size < 0 then |buffer| else size;
      if |buffer| <= pos {
        return [];
      }
      var newpos := Min(|buffer|, pos + n);
      b := buffer[pos..newpos];
      pos := newpos;
    }

    method Write(b: seq<Byte>) returns (n: nat)
      modifies this
      ensures n == |b| && pos == old(pos) + n && buffer == Overlay(old(buffer), old(pos), b)
    {
      n := |b|;
      if n == 0 {
        return;
      }
      var base := buffer;
      if pos > |buffer| {
        base := buffer + Zeros(pos - |buffer|);
      }
      buffer := base[..pos] + b + base[Min(pos + n, |base|)..];
      pos := pos + n;
    }

    /** None is the ValueError of a negative absolute position or an unknown whence. */
    method Seek(offset: int, whence: int) returns (r: Option<nat>)
      modifies this`pos
      ensures var target := offset + (if whence == 0 then 0 else if whence == 1 then old(pos) else |buffer|);
              r == (if !(0 <= whence <= 2) || (whence == 0 && offset < 0) then None else Some(Max(0, target)))
      ensures pos == if r.Some? then r.value else old(pos)
    {
      if whence == 0 {
        if offset < 0 {
          return None;
        }
        pos := offset;
      } else if whence == 1 {
        pos := Max(0, pos + offset);
      } else if whence == 2 {
        pos := Max(0, |buffer| + offset);
      } else {
        return None;
      }
      r := Some(pos);
    }

    method Tell() returns (p: nat)
      ensures p == pos
    {
      p := pos;
    }
  }

  /** Going back over the unread bytes puts them ahead of the position again. */
  lemma UnreadIsAhead(content: seq<Byte>, pos: nat, unread: seq<Byte>)
    requires |unread| <= pos && Backed(content, pos, unread)
    ensures unread <= From(content, pos - |unread|)
  {
  }

  /** A BufferedReader and a BufferedWriter over one raw stream. The raw stream may read and
      write short but never refuses (`Polite`). */
  class BufferedRandom {
    const reader: BufferedReader
    const writer: BufferedWriter
    const raw: RawStream

    constructor (raw: RawStream, bufferSize: nat)
      requires bufferSize > 0 && raw.Polite()
      ensures this.raw == raw && reader.bufferSize == bufferSize
      ensures fresh(reader) && fresh(writer) && Valid()
      ensures Contents() == raw.content && Position() == raw.pos
    {
      this.raw := raw;
      reader := new BufferedReader(raw, bufferSize);
      writer := new BufferedWriter(raw, bufferSize);
    }

    ghost predicate Wired()
    {
      reader.raw == raw && writer.raw == raw
    }

    /** All that is left of the invariant after a failed seek. */
    ghost predicate Shaped()
      reads this, reader, writer
    {
      && Wired()
      && reader.readPos <= |reader.readBuf|
      && (reader.readBuf == [] || writer.writeBuf == [])
    }

    /** Read-ahead and write-behind are never both in use. */
    ghost predicate Valid()
      reads this, reader, writer, raw
    {
      && Wired()
      && reader.Valid()
      && raw.Polite()
      && (reader.readBuf == [] || writer.writeBuf == [])
    }

    /** The file the user sees: raw content overlaid with the bytes not yet written. */
    ghost function Contents(): seq<Byte>
      reads this, writer, raw
    {
      Overlay(raw.content, raw.pos, writer.writeBuf)
    }

    ghost function Position(): int
      reads this, reader, writer, raw
    {
      raw.pos + |writer.writeBuf| - |reader.Unread()|
    }

    method Flush()
      requires Shaped() && raw.Polite()
      modifies writer, raw
      ensures old(Valid()) ==> Valid()
      ensures Shaped() && raw.Polite() && writer.writeBuf == []
      ensures Contents() == old(Contents()) && Position() == old(Position())
      ensures raw.content == Contents()
      ensures old(writer.writeBuf) == [] ==>
                raw.pos == old(raw.pos) && raw.replies == old(raw.replies) && raw.content == old(raw.content)
    {
      hide Overlay;
      var _ := writer.FlushUnlocked();
      OverlayNothing(raw.content, raw.pos);
    }

    /** What is in the read buffer is read even after a failed seek. */
    method Read(size: int) returns (r: ReadResult)
      requires Valid() || (Shaped() && raw.Polite() && writer.writeBuf == [] && reader.InBuffer(size))
      modifies reader, writer, raw
      ensures old(Valid()) ==> Valid()
      ensures Contents() == old(Contents())
      ensures r.BadSize? <==> size < -1
      ensures !r.NoData?
      ensures r.BadSize? ==> Position() == old(Position())
      ensures r.Data? ==> Position() == old(Position()) + |r.bytes|
      ensures old(Valid()) ==> old(Position()) >= 0
      ensures old(Valid()) && r.Data? ==> r.bytes == UpTo(size, From(Contents(), old(Position())))
      ensures old(writer.writeBuf) == [] && size > |old(reader.Unread())| ==>
                raw.pos == old(raw.pos) + old(reader.FetchedFor(size))
      ensures old(writer.writeBuf) == [] && old(reader.InBuffer(size)) ==>
                && r == Data(old(reader.Unread())[..size]) && reader.Unread() == old(reader.Unread())[size..]
                && raw.pos == old(raw.pos) && Shaped() && raw.Polite() && writer.writeBuf == []
    {
      hide Overlay, From, Backed, Fetched, RawStream.Honest, RawStream.Polite, Max;
      Flush();
      r := ReadFlushed(size);
    }

    /** The part of read behind the flush. */
    method ReadFlushed(size: int) returns (r: ReadResult)
      requires Shaped() && raw.Polite() && writer.writeBuf == [] && (reader.Valid() || reader.InBuffer(size))
      modifies reader, raw
      ensures old(reader.Valid()) ==> reader.Valid()
      ensures Shaped() && raw.Polite() && raw.content == old(raw.content) && Contents() == old(Contents())
      ensures r.BadSize? <==> size < -1
      ensures !r.NoData?
      ensures r.BadSize? ==> Position() == old(Position())
      ensures r.Data? ==> Position() == old(Position()) + |r.bytes|
      ensures old(reader.Valid()) ==> old(Position()) >= 0
      ensures old(reader.Valid()) && r.Data? ==> r.bytes == UpTo(size, From(Contents(), old(Position())))
      ensures size > |old(reader.Unread())| ==> raw.pos == old(raw.pos) + old(reader.FetchedFor(size))
      ensures old(reader.InBuffer(size)) ==>
                && r == Data(old(reader.Unread())[..size]) && reader.Unread() == old(reader.Unread())[size..]
                && raw.pos == old(raw.pos)
    {
      hide Overlay, From, Backed, Fetched, RawStream.Honest, RawStream.Polite, BufferedReader.FetchedFor;
      OverlayNothing(raw.content, raw.pos);
      r := reader.Read(size);
      OverlayNothing(raw.content, raw.pos);
    }

    method Read1(size: int) returns (b: seq<Byte>)
      requires Valid()
      modifies reader, writer, raw
      ensures Valid() && Contents() == old(Contents())
      ensures old(Position()) >= 0 && Position() == old(Position()) + |b|
      ensures |b| <= (if size < 0 then reader.bufferSize else size)
      ensures b <= From(Contents(), old(Position()))
      ensures b == [] ==> size == 0 || From(Contents(), old(Position())) == []
      // bytes that are read ahead if there are any, and all that is at hand up to the limit
      ensures old(reader.Unread()) != [] ==>
                b == UpTo(if size < 0 then reader.bufferSize else size, old(reader.Unread()))
      ensures |b| < (if size < 0 then reader.bufferSize else size) ==> reader.Unread() == []
    {
      hide Overlay;
      Flush();
      b := reader.Read1(size);
      OverlayNothing(raw.content, raw.pos);
    }

    /** Moves nothing, and shows a prefix of what the next reads return. */
    method Peek(size: int) returns (b: seq<Byte>)
      requires Valid()
      modifies reader, writer, raw
      ensures Valid() && Contents() == old(Contents()) && Position() == old(Position())
      ensures Position() >= 0 && b <= From(Contents(), Position())
      ensures b == [] ==> From(Contents(), Position()) == []
      ensures b == reader.Unread() && old(reader.Unread()) <= b
      ensures old(reader.Unread()) != [] && |old(reader.Unread())| >= Min(size, reader.bufferSize) ==>
                b == old(reader.Unread())
    {
      hide Overlay;
      Flush();
      b := reader.Peek(size);
      OverlayNothing(raw.content, raw.pos);
    }

    method Write(b: seq<Byte>) returns (n: int)
      requires Valid()
      modifies reader, writer, raw
      ensures Valid() && n == |b|
      ensures old(Position()) >= 0 && Position() == old(Position()) + |b|
      ensures Contents() == Overlay(old(Contents()), old(Position()), b)
    {
      hide Overlay, From, Backed, RawStream.Honest;
      OverlayNothing(raw.content, raw.pos);
      if reader.readBuf != [] {
        // undo read-ahead
        var _ := raw.Seek(reader.readPos - |reader.readBuf|, 1);
        reader.ResetReadBuf();
        OverlayNothing(raw.content, raw.pos);
      }
      var r := writer.Write(b);
      NothingBacked(raw.content, raw.pos);
      n := r.n;
      assert b[..n] == b;
    }

    method Tell() returns (pos: int)
      requires Shaped()
      ensures pos == Position()
    {
      if writer.writeBuf != [] {
        pos := writer.Tell();
      } else {
        pos := reader.Tell();
      }
    }

    /** Where a seek to (offset, whence) should land. */
    ghost function Target(offset: int, whence: int): int
      reads this, reader, writer, raw
    {
      offset + (if whence == 0 then 0 else if whence == 1 then Position() else |Contents()|)
    }

    /** A seek that lands keeps the file and moves to its target. A seek that fails has already
        undone the read-ahead on the raw stream but still holds it in the buffer, so the
        position slips back by the number of unread bytes: it is kept exactly when there are none. */
    method Seek(offset: int, whence: int) returns (r: SeekResult)
      requires Valid()
      modifies reader, writer, raw
      ensures Contents() == old(Contents())
      ensures r.BadWhence? <==> !(0 <= whence <= 2)
      ensures r.Failed? <==> 0 <= whence <= 2 && old(Target(offset, whence)) < 0
      ensures r.At? ==> Valid() && r.pos == Position() == old(Target(offset, whence))
      ensures r.BadWhence? ==> Valid() && Position() == old(Position())
      ensures r.Failed? ==> Position() == old(Position()) - |old(reader.Unread())|
      ensures r.Failed? ==> (Position() == old(Position()) <==> old(reader.Unread()) == [])
      // the unread bytes are then both buffered and the next ones raw would give
      ensures r.Failed? ==> writer.writeBuf == [] && reader.Unread() == old(reader.Unread())
                            && reader.Unread() <= raw.Remaining() && raw.content == Contents()
      ensures r.Failed? && old(reader.Unread()) == [] ==> Valid()
      ensures Shaped() && raw.Polite()
    {
      hide Overlay, From, Backed;
      if !(0 <= whence <= 2) {
        return BadWhence;
      }
      Flush();
      UnreadIsAhead(raw.content, raw.pos, reader.Unread());
      if reader.readBuf != [] {
        var _ := raw.Seek(reader.readPos - |reader.readBuf|, 1);
      }
      OverlayNothing(raw.content, raw.pos);
      var landed := raw.Seek(offset, whence);
      OverlayNothing(raw.content, raw.pos);
      if landed.None? {
        return Failed;
      }
      NothingBacked(raw.content, raw.pos);
      reader.ResetReadBuf();
      r := At(landed.value);
    }
  }
}
