/** BufferedWriter: a write-behind buffer over a raw stream. */
module BufferedWriters {
  import opened RawStreams

  /** `Wrote` is a normal return; `Blocked` is BlockingIOError with its characters_written;
      `BadCount` is the OSError for a raw count out of range. */
  datatype WriteResult = Wrote(n: int) | Blocked(n: int) | BadCount

  datatype FlushResult = Flushed | WouldBlock | BadReport

  /** From the state (c0, p0, t0, buf0) to (c, p, t, buf) raw took a prefix of buf0, at its
      position and in order. */
  ghost predicate Sent(c0: seq<Byte>, p0: nat, t0: seq<Byte>, buf0: seq<Byte>,
                       c: seq<Byte>, p: nat, t: seq<Byte>, buf: seq<Byte>)
  {
    && |buf| <= |buf0|
    && var k := |buf0| - |buf|;
    && buf == buf0[k..]
    && t == t0 + buf0[..k]
    && c == Overlay(c0, p0, buf0[..k])
    && p == p0 + k
  }

  lemma SentNothing(c: seq<Byte>, p: nat, t: seq<Byte>, buf: seq<Byte>)
    ensures Sent(c, p, t, buf, c, p, t, buf)
  {
    OverlayNothing(c, p);
  }

  lemma SendMore(c0: seq<Byte>, p0: nat, t0: seq<Byte>, buf0: seq<Byte>,
                 c: seq<Byte>, p: nat, t: seq<Byte>, buf: seq<Byte>, n: nat)
    requires Sent(c0, p0, t0, buf0, c, p, t, buf) && n <= |buf|
    ensures Sent(c0, p0, t0, buf0, Overlay(c, p, buf[..n]), p + n, t + buf[..n], buf[n..])
  {
    hide Overlay;
    var k := |buf0| - |buf|;
    OverlaySplit(c0, p0, buf0[..k], buf[..n]);
    assert buf0[..k] + buf[..n] == buf0[..k + n];
  }

  lemma SentKeepsContents(c0: seq<Byte>, p0: nat, t0: seq<Byte>, buf0: seq<Byte>,
                          c: seq<Byte>, p: nat, t: seq<Byte>, buf: seq<Byte>)
    requires Sent(c0, p0, t0, buf0, c, p, t, buf)
    ensures Overlay(c, p, buf) == Overlay(c0, p0, buf0)
    ensures t + buf == t0 + buf0
  {
    hide Overlay;
    var k := |buf0| - |buf|;
    OverlaySplit(c0, p0, buf0[..k], buf);
    assert buf0[..k] + buf == buf0;
  }

  /** Bytes put behind the buffered ones will be written behind them. */
  lemma Extended(c: seq<Byte>, p: nat, t: seq<Byte>, held: seq<Byte>, b: seq<Byte>)
    ensures Overlay(c, p, held + b) == Overlay(Overlay(c, p, held), p + |held|, b)
    ensures t + (held + b) == t + held + b
  {
    OverlaySplit(c, p, held, b);
  }

  /** The first k bytes and the next `size` ones are `held` and some of `b`. */
  lemma CutBehind(held: seq<Byte>, b: seq<Byte>, k: nat, size: nat)
    requires k + size <= |held + b| && |held| <= k + size
    ensures (held + b)[..k] + (held + b)[k..][..size] == held + b[..k + size - |held|]
  {
    var all := held + b;
    assert all[..k] + all[k..][..size] == all[..k + size];
  }

  /** Cutting the unsent rest of `held + b` back to `size` bytes leaves what accepting only a
      prefix of `b` would have left. */
  lemma SentThenCut(c0: seq<Byte>, p0: nat, t0: seq<Byte>, held: seq<Byte>, b: seq<Byte>,
                    c: seq<Byte>, p: nat, t: seq<Byte>, buf: seq<Byte>, size: nat)
    requires Sent(c0, p0, t0, held + b, c, p, t, buf)
    requires |held| <= size < |buf|
    ensures var written := |b| - (|buf| - size);
            && 0 <= written <= |b|
            && t + buf[..size] == t0 + held + b[..written]
            && Overlay(c, p, buf[..size]) == Overlay(Overlay(c0, p0, held), p0 + |held|, b[..written])
            && p + size == p0 + |held| + written
  {
    hide Overlay;
    var all, written := held + b, |b| - (|buf| - size);
    var k := |all| - |buf|;
    assert buf == all[k..] && t == t0 + all[..k];
    CutBehind(held, b, k, size);
    OverlaySplit(c0, p0, all[..k], buf[..size]);
    OverlaySplit(c0, p0, held, b[..written]);
    Regroup(t0, all[..k], buf[..size]);
    Regroup(t0, held, b[..written]);
  }

  class BufferedWriter {
    const raw: RawStream
    const bufferSize: nat
    var writeBuf: seq<Byte>

    constructor (raw: RawStream, bufferSize: nat)
      requires bufferSize > 0
      ensures this.raw == raw && this.bufferSize == bufferSize && writeBuf == []
    {
      this.raw, this.bufferSize, writeBuf := raw, bufferSize, [];
    }

    /** Everything accepted so far, in order: what raw took, then what is still buffered. */
    ghost function Accepted(): seq<Byte>
      reads this, raw
    {
      raw.taken + writeBuf
    }

    /** The file as it will be once the buffer is flushed. */
    ghost function Contents(): seq<Byte>
      reads this, raw
    {
      Overlay(raw.content, raw.pos, writeBuf)
    }

    method FlushUnlocked() returns (r: FlushResult)
      modifies this, raw
      ensures SentPrefix(old(raw.content), old(raw.pos), old(raw.taken), old(writeBuf))
      ensures Contents() == old(Contents()) && Accepted() == old(Accepted())
      ensures r.Flushed? ==> writeBuf == []
      ensures r.WouldBlock? ==> writeBuf != [] && raw.blocks > old(raw.blocks)
      ensures !r.WouldBlock? ==> raw.blocks == old(raw.blocks)
      ensures old(raw.Polite()) ==> raw.Polite() && r.Flushed?
      ensures old(raw.Honest()) ==> raw.Honest() && !r.BadReport?
      ensures old(writeBuf) == [] ==> raw.content == old(raw.content) && raw.pos == old(raw.pos)
                                      && raw.replies == old(raw.replies) && r.Flushed?
    {
      hide Overlay, Sent;
      r := WouldBlock;
      SentNothing(raw.content, raw.pos, raw.taken, writeBuf);
      while writeBuf != []
        invariant SentPrefix(old(raw.content), old(raw.pos), old(raw.taken), old(writeBuf))
        invariant raw.blocks == old(raw.blocks)
        invariant old(raw.Polite()) ==> raw.Polite()
        invariant old(raw.Honest()) ==> raw.Honest()
        invariant old(writeBuf) == [] ==> raw.content == old(raw.content) && raw.pos == old(raw.pos)
                                          && raw.replies == old(raw.replies)
        decreases |raw.replies| + |writeBuf|
      {
        ghost var content, pos, taken, held := raw.content, raw.pos, raw.taken, writeBuf;
        var n := raw.Write(writeBuf);
        if n.None? {
          break;
        }
        if n.value > |writeBuf| || n.value < 0 {
          r := BadReport;
          break;
        }
        SendMore(old(raw.content), old(raw.pos), old(raw.taken), old(writeBuf), content, pos, taken, held, n.value);
        writeBuf := writeBuf[n.value..];
      }
      if writeBuf == [] {
        r := Flushed;
      }
      SentKeepsContents(old(raw.content), old(raw.pos), old(raw.taken), old(writeBuf),
                        raw.content, raw.pos, raw.taken, writeBuf);
    }

    /** Compared with an earlier state (content, pos, taken, buffered), a prefix of the bytes
        buffered then has gone to raw, and the rest is still buffered. */
    ghost predicate SentPrefix(content: seq<Byte>, pos: nat, taken: seq<Byte>, buffered: seq<Byte>)
      reads this, raw
    {
      Sent(content, pos, taken, buffered, raw.content, raw.pos, raw.taken, writeBuf)
    }

    /** Nothing is lost, duplicated or reordered, whatever raw answers: the caller learns how
        long a prefix of `b` was accepted. */
    method Write(b: seq<Byte>) returns (r: WriteResult)
      modifies this, raw
      ensures r.Wrote? ==> r.n == |b|
      ensures r.Blocked? ==> 0 <= r.n <= |b| && raw.blocks > old(raw.blocks)
      ensures !r.BadCount? ==>
                && Accepted() == old(Accepted()) + b[..r.n]
                && Contents() == Overlay(old(Contents()), old(raw.pos + |writeBuf|), b[..r.n])
                && raw.pos + |writeBuf| == old(raw.pos + |writeBuf|) + r.n
      // after a misreported count the whole of b is buffered, or none of it
      ensures r.BadCount? ==> Accepted() == old(Accepted()) + b || Accepted() == old(Accepted())
      ensures r.BadCount? && |old(writeBuf)| <= bufferSize ==> Accepted() == old(Accepted()) + b
      // a part of b is refused only when the buffer is full
      ensures r.Blocked? && |old(writeBuf)| <= bufferSize ==> |writeBuf| == bufferSize
      ensures r.Blocked? ==> r.n < |b| || (b == [] && |old(writeBuf)| > bufferSize)
      // raw is left alone while the buffer holds all, and otherwise gets all unless it refuses
      ensures |old(writeBuf)| + |b| <= bufferSize ==>
                && r == Wrote(|b|) && writeBuf == old(writeBuf) + b
                && raw.replies == old(raw.replies) && raw.content == old(raw.content) && raw.pos == old(raw.pos)
      ensures |old(writeBuf)| + |b| > bufferSize && r.Wrote? && raw.blocks == old(raw.blocks) ==>
                writeBuf == [] || |old(writeBuf)| > bufferSize
      ensures !r.BadCount? ==> |writeBuf| <= bufferSize || (r.Blocked? && r.n == 0)
      ensures !r.BadCount? && |old(writeBuf)| <= bufferSize ==> |writeBuf| <= bufferSize
      ensures old(raw.Polite()) ==> raw.Polite() && r == Wrote(|b|) && raw.blocks == old(raw.blocks)
      ensures old(raw.Honest()) ==> raw.Honest() && !r.BadCount?
    {
      hide Overlay;
      if |writeBuf| > bufferSize {
        var f := FlushUnlocked();
        if f.WouldBlock? {
          OverlayNothing(Contents(), raw.pos + |writeBuf|);
          return Blocked(0);
        } else if f.BadReport? {
          return BadCount;
        }
      }
      ghost var content, pos, taken, held := raw.content, raw.pos, raw.taken, writeBuf;
      var before := |writeBuf|;
      writeBuf := writeBuf + b;
      var written := |writeBuf| - before;
      Extended(content, pos, taken, held, b);
      if |writeBuf| > bufferSize {
        var f := FlushUnlocked();
        if f.WouldBlock? {
          if |writeBuf| > bufferSize {
            // full: accept a part of b only and cut the buffer back
            var overage := |writeBuf| - bufferSize;
            written := written - overage;
            SentThenCut(content, pos, taken, held, b, raw.content, raw.pos, raw.taken, writeBuf, bufferSize);
            writeBuf := writeBuf[..bufferSize];
            return Blocked(written);
          }
        } else if f.BadReport? {
          return BadCount;
        }
      }
      assert b[..written] == b;
      return Wrote(written);
    }

    method Tell() returns (pos: int)
      ensures pos == raw.pos + |writeBuf|
    {
      pos := raw.pos + |writeBuf|;
    }
  }

  datatype Call = Put(b: seq<Byte>) | Flush

  function Payload(c: Call): seq<Byte>
  {
    if c.Put? then c.b else []
  }

  /** The bytes accepted over a run of calls, from the counts the caller was told. */
  function AcceptedPrefixes(calls: seq<Call>, counts: seq<nat>): seq<Byte>
    requires |calls| == |counts|
    requires forall i :: 0 <= i < |calls| ==> counts[i] <= |Payload(calls[i])|
  {
    if calls == [] then []
    else Payload(calls[0])[..counts[0]] + AcceptedPrefixes(calls[1..], counts[1..])
  }

  method RunCall(f: BufferedWriter, call: Call) returns (count: nat, bad: bool)
    requires |f.writeBuf| <= f.bufferSize
    modifies f, f.raw
    ensures count <= |Payload(call)|
    ensures old(f.raw.Honest()) ==> f.raw.Honest() && !bad
    ensures !bad ==> f.Accepted() == old(f.Accepted()) + Payload(call)[..count]
    ensures !bad ==> |f.writeBuf| <= f.bufferSize
  {
    hide Overlay;
    if call.Put? {
      var r := f.Write(call.b);
      bad := r.BadCount?;
      count := if bad then 0 else r.n;
    } else {
      var r := f.FlushUnlocked();
      bad := r.BadReport?;
      count := 0;
    }
  }

  /** A whole run over a raw stream that may write short, refuse, or take nothing: the bytes raw
      holds followed by the buffer are the accepted prefixes, end to end. A run stops at a
      misreported count. */
  method RunCalls(f: BufferedWriter, calls: seq<Call>) returns (counts: seq<nat>, bad: bool)
    requires |f.writeBuf| <= f.bufferSize
    modifies f, f.raw
    ensures |counts| <= |calls| && (!bad ==> |counts| == |calls|)
    ensures old(f.raw.Honest()) ==> f.raw.Honest() && !bad
    ensures forall i :: 0 <= i < |counts| ==> counts[i] <= |Payload(calls[i])|
    ensures !bad ==> f.Accepted() == old(f.Accepted()) + AcceptedPrefixes(calls, counts)
    ensures !bad ==> |f.writeBuf| <= f.bufferSize
    decreases |calls|
  {
    if calls == [] {
      return [], false;
    }
    var count, stop := RunCall(f, calls[0]);
    if stop {
      return [], true;
    }
    var rest;
    rest, bad := RunCalls(f, calls[1..]);
    counts := [count] + rest;
    assert counts[1..] == rest;
  }
}
