/** BufferedReader: a read-ahead buffer over a raw stream. */
module BufferedReaders {
  import opened Basics
  import opened RawStreams

  /** A read gives bytes, or None ("would block" with nothing at hand), or ValueError. */
  datatype ReadResult = Data(bytes: seq<Byte>) | NoData | BadSize

  datatype SeekResult = At(pos: nat) | Failed | BadWhence

  /** How many bytes the slow path of a read pulls from the raw stream. */
  function Fetched(replies: seq<Reply>, need: int, wanted: nat, avail: nat): (total: nat)
    requires need > 0 ==> wanted > 0
    ensures total <= avail
    decreases need
  {
    if need <= 0 || (replies != [] && replies[0].Block?) then 0
    else
      var k := Granted(replies, wanted, avail);
      if k == 0 then 0
      else k + Fetched(if replies == [] then [] else replies[1..], need - k, wanted, avail - k)
  }

  lemma FetchedStep(replies: seq<Reply>, need: int, wanted: nat, avail: nat)
    requires need > 0 ==> wanted > 0
    ensures need <= 0 || avail == 0 || (replies != [] && replies[0].Block?) ==>
              Fetched(replies, need, wanted, avail) == 0
    ensures need > 0 && avail > 0 && !(replies != [] && replies[0].Block?) ==>
              var k := Granted(replies, wanted, avail);
              && k > 0
              && Fetched(replies, need, wanted, avail)
                 == k + Fetched(if replies == [] then [] else replies[1..], need - k, wanted, avail - k)
  {
  }

  /** `unread` is the content just before position `pos`. */
  ghost predicate Backed(content: seq<Byte>, pos: nat, unread: seq<Byte>)
  {
    unread != [] ==> |unread| <= pos <= |content| && content[pos - |unread|..pos] == unread
  }

  lemma NothingBacked(content: seq<Byte>, pos: nat)
    ensures Backed(content, pos, [])
  {
  }

  /** The unread bytes come first in what is ahead, and the rest of the raw content behind them. */
  lemma BackedMeans(content: seq<Byte>, pos: nat, unread: seq<Byte>)
    requires |unread| <= pos
    ensures Backed(content, pos, unread) <==> From(content, pos - |unread|) == unread + From(content, pos)
  {
    var p := pos - |unread|;
    if unread == [] {
      assert unread + From(content, pos) == From(content, pos);
    } else if pos <= |content| {
      assert content[p..] == content[p..pos] + content[pos..];
      assert content[p..][..|unread|] == content[p..pos];
    }
  }

  /** Handing out unread bytes. */
  lemma TakenFromBuffer(content: seq<Byte>, pos: nat, unread: seq<Byte>, n: nat)
    requires n <= |unread| <= pos && Backed(content, pos, unread)
    ensures Backed(content, pos, unread[n..])
    ensures unread[..n] <= From(content, pos - |unread|)
    ensures From(content, pos - |unread| + n) == From(content, pos - |unread|)[n..]
  {
    hide From, Backed;
    var rest := From(content, pos);
    BackedMeans(content, pos, unread);
    FromFrom(content, pos - |unread|, n);
    assert (unread + rest)[n..] == unread[n..] + rest;
    BackedMeans(content, pos, unread[n..]);
    assert unread[..n] <= unread + rest;
  }

  /** Bytes read at the position join the unread ones. */
  lemma MoreIsBacked(content: seq<Byte>, pos: nat, unread: seq<Byte>, chunk: seq<Byte>)
    requires |unread| <= pos && Backed(content, pos, unread) && chunk <= From(content, pos)
    ensures Backed(content, pos + |chunk|, unread + chunk)
  {
    hide From, Backed;
    BackedMeans(content, pos, unread);
    FromFrom(content, pos, |chunk|);
    var rest := From(content, pos + |chunk|);
    assert From(content, pos) == chunk + rest;
    assert unread + (chunk + rest) == (unread + chunk) + rest;
    BackedMeans(content, pos + |chunk|, unread + chunk);
  }

  /** After the bytes `out` were fetched from position `p` on and the first `k` handed out, the
      rest is the content just before the new raw position. */
  lemma TailIsBacked(content: seq<Byte>, p: nat, out: seq<Byte>, k: nat)
    requires k <= |out| && out <= From(content, p)
    ensures Backed(content, p + |out|, out[k..])
    ensures From(content, p + k) == From(content, p)[k..]
    ensures From(content, p)[k..] == out[k..] + From(content, p + |out|)
  {
    hide From, Backed;
    FromFrom(content, p, |out|);
    assert From(content, p) == out + From(content, p + |out|);
    BackedMeans(content, p + |out|, out);
    TakenFromBuffer(content, p + |out|, out, k);
  }

  /** What a read of `n` bytes hands out when `out` was fetched. */
  lemma SlowResult(ahead: seq<Byte>, out: seq<Byte>, rest: seq<Byte>, n: nat)
    requires ahead == out + rest
    ensures var r := out[..Min(n, |out|)]; r <= ahead && (|out| >= n || rest == [] ==> r == UpTo(n, ahead))
  {
  }

  lemma UpToShown(limit: nat, shown: seq<Byte>)
    ensures UpTo(limit, shown) == shown[..Min(limit, |shown|)]
    ensures limit > 0 ==> (UpTo(limit, shown) == [] <==> shown == [])
  {
  }

  class BufferedReader {
    const raw: RawStream
    const bufferSize: nat
    var readBuf: seq<Byte>
    var readPos: nat

    constructor (raw: RawStream, bufferSize: nat)
      requires bufferSize > 0
      ensures this.raw == raw && this.bufferSize == bufferSize
      ensures Valid() && readBuf == [] && readPos == 0
    {
      this.raw, this.bufferSize := raw, bufferSize;
      readBuf, readPos := [], 0;
    }

    /** The bytes read ahead but not yet handed out. */
    function Unread(): seq<Byte>
      reads this
    {
      if readPos <= |readBuf| then readBuf[readPos..] else []
    }

    /** The unread bytes are the raw content just before the raw position. */
    ghost predicate Valid()
      reads this, raw
    {
      && bufferSize > 0
      && readPos <= |readBuf|
      && |Unread()| <= raw.pos
      && Backed(raw.content, raw.pos, Unread())
    }

    /** The position the user sees; meaningful (not negative) in a valid state. */
    function Position(): int
      reads this, raw
    {
      raw.pos - |Unread()|
    }

    /** All the bytes a user has still to read. */
    ghost function Ahead(): seq<Byte>
      requires Valid()
      reads this, raw
    {
      From(raw.content, Position())
    }

    /** How far a slow-path read of `n` moves the raw stream. */
    function FetchedFor(n: int): nat
      requires bufferSize > 0
      reads this, raw
    {
      Fetched(raw.replies, n - |Unread()|, Max(bufferSize, n), |raw.Remaining()|)
    }

    lemma AheadIsUnreadThenRaw()
      requires Valid()
      ensures Ahead() == Unread() + raw.Remaining()
    {
    }

    method ResetReadBuf()
      modifies this
      ensures readBuf == [] && readPos == 0
    {
      readBuf, readPos := [], 0;
    }

    /** The bytes asked for are all in the buffer. */
    predicate InBuffer(size: int)
      reads this
    {
      readPos <= |readBuf| && 0 <= size <= |Unread()|
    }

    /** What is in the buffer is read even if the invariant is broken. */
    method Read(size: int) returns (r: ReadResult)
      requires Valid() || InBuffer(size)
      modifies this, raw
      ensures raw.content == old(raw.content) && raw.taken == old(raw.taken)
      ensures old(raw.Polite()) ==> raw.Polite() && raw.blocks == old(raw.blocks)
      ensures raw.blocks >= old(raw.blocks)
      ensures r.BadSize? <==> size < -1
      // None exactly if nothing is at hand and the first raw read is refused; no bytes only at end of file
      ensures old(Valid()) ==> (r.NoData? <==> size >= -1 && size != 0 && old(Unread()) == [] && old(raw.Refuses()))
      ensures r.NoData? ==> raw.blocks > old(raw.blocks) && Unread() == []
      ensures old(Valid()) && r == Data([]) && size != 0 ==> old(Ahead()) == []
      ensures Asked(old(raw.replies), old(raw.blocks), raw.replies, raw.blocks)
      ensures old(Valid()) ==> Valid()
      ensures old(Valid()) && !r.Data? ==> Position() == old(Position())
      ensures old(Valid()) && r.Data? ==> r.bytes <= old(Ahead()) && Position() == old(Position()) + |r.bytes|
                                          && Ahead() == old(Ahead())[|r.bytes|..]
      // short of the request only at end of file or after a refusal
      ensures r.Data? && size >= 0 ==> |r.bytes| <= size
      ensures old(Valid()) && r.Data? ==> r.bytes == UpTo(size, old(Ahead())) || raw.blocks > old(raw.blocks)
      // what a slow-path read leaves in the buffer
      ensures size > |old(Unread())| ==> |Unread()| < Max(bufferSize, size)
      ensures size > |old(Unread())| ==> raw.pos == old(raw.pos) + old(FetchedFor(size))
      ensures size > |old(Unread())| && r.Data? ==> |r.bytes| == Min(size, |old(Unread())| + old(FetchedFor(size)))
      ensures size == -1 ==> Unread() == []
      // the fast path
      ensures old(InBuffer(size)) ==> r == Data(old(Unread())[..size]) && Unread() == old(Unread())[size..]
                                      && readPos <= |readBuf|
      ensures old(InBuffer(size)) ==> raw.readCalls == old(raw.readCalls) && raw.pos == old(raw.pos)
                                      && raw.replies == old(raw.replies)
    {
      if size < -1 {
        return BadSize;
      }
      r := ReadUnlocked(size);
    }

    method ReadUnlocked(n: int) returns (r: ReadResult)
      requires n >= -1 && (Valid() || InBuffer(n))
      modifies this, raw
      ensures raw.content == old(raw.content) && raw.taken == old(raw.taken)
      ensures old(raw.Polite()) ==> raw.Polite() && raw.blocks == old(raw.blocks)
      ensures raw.blocks >= old(raw.blocks)
      ensures !r.BadSize?
      ensures old(Valid()) ==> (r.NoData? <==> n != 0 && old(Unread()) == [] && old(raw.Refuses()))
      ensures r.NoData? ==> raw.blocks > old(raw.blocks) && Unread() == []
      ensures old(Valid()) && r == Data([]) && n != 0 ==> old(Ahead()) == []
      ensures Asked(old(raw.replies), old(raw.blocks), raw.replies, raw.blocks)
      ensures old(Valid()) ==> Valid()
      ensures old(Valid()) && !r.Data? ==> Position() == old(Position())
      ensures old(Valid()) && r.Data? ==> r.bytes <= old(Ahead()) && Position() == old(Position()) + |r.bytes|
                                          && Ahead() == old(Ahead())[|r.bytes|..]
      ensures r.Data? && n >= 0 ==> |r.bytes| <= n
      ensures old(Valid()) && r.Data? ==> r.bytes == UpTo(n, old(Ahead())) || raw.blocks > old(raw.blocks)
      ensures n > |old(Unread())| ==> |Unread()| < Max(bufferSize, n)
      ensures n > |old(Unread())| ==> raw.pos == old(raw.pos) + old(FetchedFor(n))
      ensures n > |old(Unread())| && r.Data? ==> |r.bytes| == Min(n, |old(Unread())| + old(FetchedFor(n)))
      ensures n == -1 ==> Unread() == []
      ensures old(InBuffer(n)) ==> r == Data(old(Unread())[..n]) && Unread() == old(Unread())[n..]
                                   && readPos <= |readBuf|
      ensures old(InBuffer(n)) ==> raw.readCalls == old(raw.readCalls) && raw.pos == old(raw.pos)
                                   && raw.replies == old(raw.replies)
    {
      hide From, Backed, Fetched, Asked;
      NothingAsked(raw.replies, raw.blocks);
      if n == -1 {
        r := ReadToEnd();
      } else if n <= |readBuf| - readPos {
        if Valid() {
          TakenFromBuffer(raw.content, raw.pos, Unread(), n);
        }
        var bytes := TakeBuffered(n);
        r := Data(bytes);
      } else {
        r := ReadSlow(n);
      }
    }

    /** The fast path: the bytes asked for are all in the buffer. */
    method TakeBuffered(n: nat) returns (bytes: seq<Byte>)
      requires readPos <= |readBuf| && n <= |Unread()|
      modifies this`readPos
      ensures bytes == old(Unread())[..n] && Unread() == old(Unread())[n..] && readPos <= |readBuf|
    {
      bytes := readBuf[readPos..readPos + n];
      readPos := readPos + n;
    }

    method ReadToEnd() returns (r: ReadResult)
      requires Valid()
      modifies this, raw
      ensures Valid() && Unread() == [] && raw.content == old(raw.content) && raw.taken == old(raw.taken)
      ensures old(raw.Polite()) ==> raw.Polite() && raw.blocks == old(raw.blocks)
      ensures raw.blocks >= old(raw.blocks)
      ensures !r.BadSize?
      ensures r.NoData? <==> old(Unread()) == [] && old(raw.Refuses())
      ensures r.NoData? ==> Position() == old(Position()) && raw.blocks > old(raw.blocks)
      ensures r == Data([]) ==> old(Ahead()) == []
      ensures Asked(old(raw.replies), old(raw.blocks), raw.replies, raw.blocks)
      ensures r.Data? ==> r.bytes <= old(Ahead()) && Position() == old(Position()) + |r.bytes|
                          && Ahead() == old(Ahead())[|r.bytes|..]
      ensures r.Data? ==> r.bytes == old(Ahead()) || raw.blocks > old(raw.blocks)
    {
      hide From, Asked;
      AheadIsUnreadThenRaw();
      var unread := Unread();
      ResetReadBuf();
      if raw.hasReadall {
        var chunk := raw.ReadAll();
        if chunk.None? {
          r := if unread != [] then Data(unread) else NoData;
        } else {
          r := Data(unread + chunk.value);
        }
        return;
      }
      var out, nodata := ReadChunks(unread);
      r := if out != [] then Data(out) else nodata;
    }

    /** Raw reads behind `start` until end of file or a refusal. */
    method ReadChunks(start: seq<Byte>) returns (out: seq<Byte>, nodata: ReadResult)
      requires !raw.hasReadall
      modifies raw
      ensures raw.content == old(raw.content) && raw.taken == old(raw.taken)
      ensures old(raw.Polite()) ==> raw.Polite() && raw.blocks == old(raw.blocks)
      ensures raw.blocks >= old(raw.blocks)
      ensures start + old(raw.Remaining()) == out + raw.Remaining()
      ensures start <= out && raw.pos == old(raw.pos) + |out| - |start|
      ensures !nodata.BadSize? && (nodata.NoData? ==> raw.blocks > old(raw.blocks))
      ensures nodata.Data? ==> nodata.bytes == [] && raw.Remaining() == []
      ensures nodata.NoData? <==> raw.blocks > old(raw.blocks)
      ensures out == start ==> (nodata.NoData? <==> old(raw.Refuses()))
      ensures out != start ==> !old(raw.Refuses())
      ensures Asked(old(raw.replies), old(raw.blocks), raw.replies, raw.blocks)
    {
      hide From, Asked;
      NothingAsked(raw.replies, raw.blocks);
      out, nodata := start, Data([]);
      while true
        invariant raw.content == old(raw.content) && raw.taken == old(raw.taken)
        invariant old(raw.Polite()) ==> raw.Polite() && raw.blocks == old(raw.blocks)
        invariant start + old(raw.Remaining()) == out + raw.Remaining()
        invariant start <= out && raw.pos == old(raw.pos) + |out| - |start|
        invariant Asked(old(raw.replies), old(raw.blocks), raw.replies, old(raw.blocks))
                  && raw.blocks == old(raw.blocks)
        invariant if out == start then raw.replies == old(raw.replies) else !old(raw.Refuses())
        decreases |raw.Remaining()|
      {
        ghost var mid := raw.replies;
        var chunk := raw.ReadAll();
        AskedMore(old(raw.replies), old(raw.blocks), mid, raw.replies, raw.blocks);
        if chunk.None? || chunk.value == [] {
          nodata := if chunk.None? then NoData else Data([]);
          break;
        }
        out := out + chunk.value;
      }
    }

    /** The loop of the slow path: raw reads behind `start` until `n` bytes are at hand, end of
        file, or a refusal. */
    method FetchUntil(n: int, wanted: nat, start: seq<Byte>) returns (out: seq<Byte>, nodata: ReadResult)
      requires wanted > 0 && |start| <= n
      modifies raw
      ensures raw.content == old(raw.content) && raw.taken == old(raw.taken)
      ensures old(raw.Polite()) ==> raw.Polite() && raw.blocks == old(raw.blocks)
      ensures raw.blocks >= old(raw.blocks)
      ensures start + old(raw.Remaining()) == out + raw.Remaining()
      ensures start <= out && raw.pos == old(raw.pos) + |out| - |start|
      ensures |out| < n + wanted
      ensures !nodata.BadSize? && (nodata.NoData? ==> raw.blocks > old(raw.blocks))
      ensures |out| < n ==> raw.Remaining() == [] || raw.blocks > old(raw.blocks)
      ensures nodata.Data? ==> nodata.bytes == []
      ensures |out| < n ==> (nodata.NoData? <==> raw.blocks > old(raw.blocks))
      ensures |out| < n && nodata.Data? ==> raw.Remaining() == []
      ensures |start| < n && out == start ==> (nodata.NoData? <==> old(raw.Refuses()))
      ensures out != start ==> !old(raw.Refuses())
      ensures Asked(old(raw.replies), old(raw.blocks), raw.replies, raw.blocks)
      ensures raw.pos == old(raw.pos) + old(Fetched(raw.replies, n - |start|, wanted, |raw.Remaining()|))
    {
      hide From, Granted, Asked, Fetched;
      NothingAsked(raw.replies, raw.blocks);
      out, nodata := start, Data([]);
      while |out| < n
        invariant raw.content == old(raw.content) && raw.taken == old(raw.taken)
        invariant old(raw.Polite()) ==> raw.Polite() && raw.blocks == old(raw.blocks)
        invariant start + old(raw.Remaining()) == out + raw.Remaining()
        invariant start <= out && raw.pos == old(raw.pos) + |out| - |start|
        invariant |out| < n + wanted
        invariant Asked(old(raw.replies), old(raw.blocks), raw.replies, old(raw.blocks))
                  && raw.blocks == old(raw.blocks)
        invariant if out == start then raw.replies == old(raw.replies) else !old(raw.Refuses())
        invariant raw.pos + Fetched(raw.replies, n - |out|, wanted, |raw.Remaining()|)
                  == old(raw.pos) + old(Fetched(raw.replies, n - |start|, wanted, |raw.Remaining()|))
        decreases n - |out|
      {
        ghost var mid := raw.replies;
        FetchedStep(mid, n - |out|, wanted, |raw.Remaining()|);
        var chunk := raw.Read(wanted);
        AskedMore(old(raw.replies), old(raw.blocks), mid, raw.replies, raw.blocks);
        if chunk.None? || chunk.value == [] {
          nodata := if chunk.None? then NoData else Data([]);
          return;
        }
        out := out + chunk.value;
      }
      FetchedStep(raw.replies, n - |out|, wanted, |raw.Remaining()|);
    }

    method ReadSlow(n: int) returns (r: ReadResult)
      requires Valid() && n > |Unread()|
      modifies this, raw
      ensures Valid() && raw.content == old(raw.content) && raw.taken == old(raw.taken)
      ensures old(raw.Polite()) ==> raw.Polite() && raw.blocks == old(raw.blocks)
      ensures raw.blocks >= old(raw.blocks)
      ensures !r.BadSize?
      ensures r.NoData? <==> old(Unread()) == [] && old(raw.Refuses())
      ensures r.NoData? ==> Position() == old(Position()) && raw.blocks > old(raw.blocks) && Unread() == []
      ensures r == Data([]) ==> old(Ahead()) == []
      ensures Asked(old(raw.replies), old(raw.blocks), raw.replies, raw.blocks)
      ensures r.Data? ==> |r.bytes| == Min(n, |old(Unread())| + old(FetchedFor(n)))
      ensures r.Data? ==> r.bytes <= old(Ahead()) && Position() == old(Position()) + |r.bytes|
                          && Ahead() == old(Ahead())[|r.bytes|..] && |r.bytes| <= n
      ensures r.Data? ==> r.bytes == UpTo(n, old(Ahead())) || raw.blocks > old(raw.blocks)
      ensures |Unread()| < Max(bufferSize, n)
      ensures raw.pos == old(raw.pos) + old(FetchedFor(n))
      ensures raw.pos == old(raw.pos)
              + old(Fetched(raw.replies, n - |Unread()|, Max(bufferSize, n), |raw.Remaining()|))
    {
      hide From, Fetched, Backed, Asked, UpTo;
      AheadIsUnreadThenRaw();
      ghost var p, ahead, unread := Position(), Ahead(), Unread();
      var out, nodata := FetchUntil(n, Max(bufferSize, n), Unread());
      assert ahead == out + raw.Remaining();
      assert raw.pos == p + |out|;
      var k := Min(n, |out|);
      TailIsBacked(raw.content, p, out, k);
      readBuf, readPos := out[k..], 0;
      assert Unread() == out[k..];
      SlowResult(ahead, out, raw.Remaining(), n);
      r := if out != [] then Data(out[..k]) else nodata;
    }

    /** What one raw read of `size` brings, nothing if it is refused. */
    function Chunk(size: nat): seq<Byte>
      reads this, raw
    {
      if raw.Refuses() then [] else raw.Remaining()[..Granted(raw.replies, size, |raw.Remaining()|)]
    }

    /** peek(n) reads on: less than n bytes are at hand, as far as the buffer goes, or none. */
    predicate AsksFor(n: int)
      reads this
    {
      |Unread()| < Min(n, bufferSize) || Unread() == []
    }

    /** Looks ahead with at most one raw read, moving nothing. The documented bound (never
        more than buffer_size bytes) holds exactly when no more than that was buffered. */
    method Peek(n: int) returns (r: seq<Byte>)
      requires Valid()
      modifies this, raw
      ensures Valid() && raw.content == old(raw.content) && raw.taken == old(raw.taken)
      ensures old(raw.Polite()) ==> raw.Polite() && raw.blocks == old(raw.blocks)
      ensures raw.blocks >= old(raw.blocks)
      ensures Position() == old(Position()) && Ahead() == old(Ahead())
      ensures r == Unread() && r <= Ahead() && old(Unread()) <= r
      ensures raw.readCalls <= old(raw.readCalls) + 1
      ensures r == [] ==> Ahead() == [] || raw.blocks > old(raw.blocks)
      ensures |r| <= bufferSize <==> |old(Unread())| <= bufferSize
      // one raw read exactly if less than asked for is at hand
      ensures r == old(Unread()) + if old(AsksFor(n)) then old(Chunk(bufferSize - |Unread()|)) else []
      ensures raw.readCalls == old(raw.readCalls) + if old(AsksFor(n)) then 1 else 0
    {
      var want := Min(n, bufferSize);
      var have := |readBuf| - readPos;
      if have < want || have <= 0 {
        ReadMore(bufferSize - have);
      }
      r := readBuf[readPos..];
      AheadIsUnreadThenRaw();
    }

    /** One raw read appended to the unread bytes. */
    method ReadMore(toRead: int)
      requires Valid() && toRead > 0
      modifies this, raw
      ensures Valid() && raw.content == old(raw.content) && raw.taken == old(raw.taken)
      ensures old(raw.Polite()) ==> raw.Polite() && raw.blocks == old(raw.blocks)
      ensures raw.blocks >= old(raw.blocks)
      ensures Position() == old(Position())
      ensures old(Unread()) <= Unread() && |Unread()| <= |old(Unread())| + toRead
      ensures raw.readCalls == old(raw.readCalls) + 1
      ensures Unread() == old(Unread()) ==> raw.Remaining() == [] || raw.blocks > old(raw.blocks)
      ensures Unread() == old(Unread()) + old(Chunk(toRead))
    {
      hide From, Backed;
      ghost var pos, unread := raw.pos, Unread();
      var current := raw.Read(toRead);
      if current.Some? && current.value != [] {
        MoreIsBacked(raw.content, pos, unread, current.value);
        readBuf, readPos := readBuf[readPos..] + current.value, 0;
        assert Unread() == readBuf;
      }
    }

    /** `_read_unlocked` for bytes that are all in the buffer. */
    method ReadBuffered(n: nat) returns (r: seq<Byte>)
      requires Valid() && InBuffer(n)
      modifies this, raw
      ensures Valid() && r == old(Unread())[..n] && r <= old(Ahead()) && Unread() == old(Unread())[n..]
      ensures Position() == old(Position()) + n && Ahead() == old(Ahead())[n..]
      ensures raw.content == old(raw.content) && raw.taken == old(raw.taken)
      ensures old(raw.Polite()) ==> raw.Polite()
      ensures raw.blocks == old(raw.blocks) && raw.readCalls == old(raw.readCalls)
    {
      hide From, Backed, Granted, Fetched, BufferedReader.Valid;
      var res := ReadUnlocked(n);
      r := res.bytes;
      assert Asked(old(raw.replies), old(raw.blocks), raw.replies, raw.blocks);
    }

    /** The unread bytes, or what one raw read brings if there are none. */
    function AtHand(): seq<Byte>
      reads this, raw
    {
      if Unread() != [] then Unread() else Chunk(bufferSize)
    }

    lemma NoneAtHand()
      requires Valid()
      ensures AsksFor(1) <==> Unread() == []
      ensures AtHand() == Unread() + if AsksFor(1) then Chunk(bufferSize - |Unread()|) else []
    {
    }

    /** At most one raw read; empty only for size 0, at end of file, or after a refusal. */
    method Read1(size: int) returns (r: seq<Byte>)
      requires Valid()
      modifies this, raw
      ensures Valid() && raw.content == old(raw.content) && raw.taken == old(raw.taken)
      ensures old(raw.Polite()) ==> raw.Polite() && raw.blocks == old(raw.blocks)
      ensures raw.blocks >= old(raw.blocks)
      ensures r <= old(Ahead()) && |r| <= (if size < 0 then bufferSize else size)
      ensures Position() == old(Position()) + |r| && Ahead() == old(Ahead())[|r|..]
      ensures raw.readCalls <= old(raw.readCalls) + 1
      ensures r == [] ==> size == 0 || old(Ahead()) == [] || raw.blocks > old(raw.blocks)
      ensures r == UpTo(if size < 0 then bufferSize else size, old(AtHand()))
      ensures |r| < (if size < 0 then bufferSize else size) ==> Unread() == []
      ensures raw.readCalls == old(raw.readCalls) + if size != 0 && old(Unread()) == [] then 1 else 0
    {
      var limit := if size < 0 then bufferSize else size;
      if limit == 0 {
        return [];
      }
      NoneAtHand();
      var shown := Peek(1);
      hide From, Backed, Granted, Asked, Fetched, BufferedReader.Chunk, BufferedReader.Valid;
      UpToShown(limit, shown);
      r := ReadBuffered(Min(limit, |readBuf| - readPos));
    }

    method Tell() returns (pos: int)
      requires readPos <= |readBuf|
      ensures pos == Position()
    {
      pos := raw.pos - |readBuf| + readPos;
    }

    /** Where a seek to (offset, whence) lands; it may be negative. */
    function Target(offset: int, whence: int): int
      reads this, raw
    {
      offset + (if whence == 0 then 0 else if whence == 1 then Position() else |raw.content|)
    }

    method Seek(offset: int, whence: int) returns (r: SeekResult)
      requires Valid()
      modifies this, raw
      ensures Valid() && raw.content == old(raw.content) && raw.taken == old(raw.taken)
      ensures raw.replies == old(raw.replies) && raw.blocks == old(raw.blocks)
      ensures old(raw.Polite()) ==> raw.Polite()
      ensures r.BadWhence? <==> !(0 <= whence <= 2)
      ensures r.At? ==> r.pos == old(Target(offset, whence)) == Position() && Unread() == []
      ensures r.Failed? <==> || (whence == 0 && offset < 0) || (whence == 1 && old(Position()) + offset < 0)
                             || (whence == 2 && |raw.content| + offset < 0)
      ensures r.At? && whence == 0 ==> r.pos == offset
      ensures r.At? && whence == 1 ==> r.pos == old(Position()) + offset
      ensures r.At? && whence == 2 ==> r.pos == |raw.content| + offset
      ensures !r.At? ==> Position() == old(Position()) && Unread() == old(Unread())
      ensures r.Failed? <==> 0 <= whence <= 2 && old(Target(offset, whence)) < 0
    {
      if !(0 <= whence <= 2) {
        return BadWhence;
      }
      var off := if whence == 1 then offset - (|readBuf| - readPos) else offset;
      var landed := raw.Seek(off, whence);
      if landed.None? {
        return Failed;
      }
      ResetReadBuf();
      r := At(landed.value);
    }
  }

  /** Five bytes are read with a one-byte buffer, and the first raw read is short: the second one
      leaves four bytes unread. */
  method ShortRead() returns (f: BufferedReader)
    ensures fresh(f) && fresh(f.raw) && f.Valid() && f.raw.content == [1, 2, 3, 4, 5, 6, 7, 8, 9]
    ensures f.bufferSize == 1 && |f.Unread()| == 4
  {
    hide Fetched, Granted, Backed, From;
    FourThenFive([1, 2, 3, 4, 5, 6, 7, 8, 9]);
    var raw := new RawStream([1, 2, 3, 4, 5, 6, 7, 8, 9], [Short(4)], true);
    f := new BufferedReader(raw, 1);
    var _ := f.Read(5);
  }

  lemma FourThenFive(content: seq<Byte>)
    requires |content| == 9
    ensures |From(content, 0)| == 9 && Fetched([Short(4)], 5, 5, 9) == 9
  {
    assert Granted([Short(4)], 5, 9) == 4 && Granted([], 5, 5) == 5;
  }

  /** Peek then shows them all, more than buffer_size: its documented bound is not kept. */
  method PeekExceedsBufferSize() returns (f: BufferedReader, shown: seq<Byte>)
    ensures fresh(f) && fresh(f.raw) && f.Valid()
    ensures shown == f.Unread() && |shown| > f.bufferSize
  {
    f := ShortRead();
    shown := f.Peek(0);
  }
}
