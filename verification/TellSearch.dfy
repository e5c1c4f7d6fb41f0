/** The mathematics of tell and seek on text: safe start points and what a cookie means. */
module TellSearch {
  import opened RawStreams
  import opened BufferedReaders
  import opened Codecs
  import opened TextCookies

  function Bare(flags: nat): DecState { DecState([], flags) }

  function Drop(t: string, n: nat): string
  {
    if n <= |t| then t[n..] else ""
  }

  /** All the text that `bytes`, up to end of file, gives from decoder state `s`. */
  ghost function TextFrom(c: Codec, s: DecState, bytes: seq<Byte>): string
  {
    c.step(s, bytes, true).out
  }

  /** The text a cookie stands for, in terms of the file alone. */
  ghost function Meaning(c: Codec, content: seq<Byte>, k: Cookie): string
  {
    Drop(TextFrom(c, Bare(k.decFlags), From(content, k.position)), k.charsToSkip)
  }

  /** The bytes that seek feeds to the decoder. */
  function Feed(content: seq<Byte>, k: Cookie): seq<Byte>
  {
    UpTo(k.bytesToFeed, From(content, k.position))
  }

  lemma FeedIsAhead(content: seq<Byte>, k: Cookie)
    ensures Feed(content, k) <= From(content, k.position)
  {
  }

  /** seek can follow the cookie: the decoder can be put in its state, and eof is signalled only at
      the end of the file. */
  ghost predicate Followable(c: Codec, content: seq<Byte>, k: Cookie)
  {
    && c.ok(Bare(k.decFlags))
    && (k.charsToSkip > 0 && k.needEof ==> From(content, k.position + |Feed(content, k)|) == [])
  }

  /** The bytes fed give the characters to skip. */
  ghost predicate Enough(c: Codec, content: seq<Byte>, k: Cookie)
  {
    |c.step(Bare(k.decFlags), Feed(content, k), k.needEof).out| >= k.charsToSkip
  }

  /** seek succeeds. */
  ghost predicate Replayable(c: Codec, content: seq<Byte>, k: Cookie)
  {
    Followable(c, content, k) && (k.charsToSkip > 0 ==> Enough(c, content, k))
  }

  /** Decoding up to `skip` from the snapshot gives all but `left` of the `want` characters and
      leaves nothing buffered: seek can start there. */
  ghost predicate SafePoint(c: Codec, flags: nat, input: seq<Byte>, want: nat, skip: nat, f: nat, left: nat)
  {
    && skip <= |input| && left <= want
    && var d := c.step(Bare(flags), input[..skip], false);
    && d.state == Bare(f) && |d.out| == want - left
  }

  lemma SnapshotIsSafe(c: Codec, flags: nat, input: seq<Byte>, want: nat)
    requires GoodCodec(c) && c.ok(Bare(flags))
    ensures SafePoint(c, flags, input, want, 0, flags, want)
  {
    assert Replays(c, Bare(flags));
    assert input[..0] == [];
  }

  lemma SafeIsOk(c: Codec, flags: nat, input: seq<Byte>, want: nat, skip: nat, f: nat, left: nat)
    requires GoodCodec(c) && c.ok(Bare(flags)) && SafePoint(c, flags, input, want, skip, f, left)
    ensures c.ok(Bare(f))
  {
    assert StepsWell(c, Bare(flags), input[..skip], false);
  }

  /** From a safe point on, decoding further reaches another one whenever nothing is buffered
      and no more than the wanted characters are out. */
  lemma SafeNext(c: Codec, flags: nat, input: seq<Byte>, want: nat, skip: nat, f: nat, left: nat, i: nat)
    requires GoodCodec(c) && c.ok(Bare(flags)) && SafePoint(c, flags, input, want, skip, f, left)
    requires skip <= i <= |input|
    ensures var d := c.step(Bare(f), input[skip..i], false);
            var all := c.step(Bare(flags), input[..i], false);
            && all.state == d.state && |all.out| == want - left + |d.out|
            && (d.state.buf == [] && |d.out| <= left ==>
                  SafePoint(c, flags, input, want, i, d.state.flags, left - |d.out|))
  {
    assert SplitsAt(c, Bare(flags), input[..skip], input[skip..i], false);
    assert input[..skip] + input[skip..i] == input[..i];
  }

  /** A safe point stands for the same remaining text as the snapshot. */
  lemma SafeMeaning(c: Codec, flags: nat, input: seq<Byte>, want: nat, skip: nat, f: nat, left: nat, ahead: seq<Byte>)
    requires GoodCodec(c) && c.ok(Bare(flags)) && SafePoint(c, flags, input, want, skip, f, left)
    ensures Drop(TextFrom(c, Bare(f), input[skip..] + ahead), left)
         == Drop(TextFrom(c, Bare(flags), input + ahead), want)
  {
    assert SplitsAt(c, Bare(flags), input[..skip], input[skip..] + ahead, true);
    assert input[..skip] + (input[skip..] + ahead) == input + ahead;
    var o := c.step(Bare(flags), input[..skip], false).out;
    var t := TextFrom(c, Bare(f), input[skip..] + ahead);
    assert TextFrom(c, Bare(flags), input + ahead) == o + t;
    if left <= |t| {
      assert (o + t)[want..] == t[left..];
    }
  }

  /** If bytewise decoding from a safe point runs out of input short of the wanted characters,
      then the snapshot's chunk was the last one, and the final call makes up for them. */
  lemma EnoughAtEof(c: Codec, flags: nat, input: seq<Byte>, final: bool, want: nat, skip: nat, f: nat, left: nat)
    requires GoodCodec(c) && c.ok(Bare(flags)) && SafePoint(c, flags, input, want, skip, f, left)
    requires |c.step(Bare(flags), input, final).out| >= want
    requires |c.step(Bare(f), input[skip..], false).out| < left
    ensures final
    ensures var d := c.step(Bare(f), input[skip..], false);
            var last := c.step(d.state, [], true);
            && c.step(Bare(f), input[skip..], true) == Decoded(last.state, d.out + last.out)
            && |d.out + last.out| >= left
  {
    SafeIsOk(c, flags, input, want, skip, f, left);
    assert SplitsAt(c, Bare(f), input[skip..], [], true);
    assert input[skip..] + [] == input[skip..];
    assert SplitsAt(c, Bare(flags), input[..skip], input[skip..], final);
    assert input[..skip] + input[skip..] == input;
  }

  /** Feeding what a cookie says keeps all the text from its start point; skipping what it says
      lands on its meaning. */
  lemma FollowCookie(c: Codec, content: seq<Byte>, k: Cookie)
    requires GoodCodec(c) && Followable(c, content, k) && k.charsToSkip > 0
    ensures var d := c.step(Bare(k.decFlags), Feed(content, k), k.needEof);
            var text := TextFrom(c, d.state, From(content, k.position + |Feed(content, k)|));
            && d.out + text == TextFrom(c, Bare(k.decFlags), From(content, k.position))
            && (Enough(c, content, k) ==> d.out[k.charsToSkip..] + text == Meaning(c, content, k))
  {
    var s, rest := Bare(k.decFlags), From(content, k.position);
    var feed := Feed(content, k);
    FromFrom(content, k.position, |feed|);
    var tail := rest[|feed|..];
    assert feed + tail == rest;
    var d := c.step(s, feed, k.needEof);
    TextAfter(c, s, feed, tail, k.needEof);
    assert TextFrom(c, s, rest) == d.out + TextFrom(c, d.state, tail);
  }

  /** seek(0) needs no cookie of tell: it stands for all the text of the file. */
  lemma ZeroMeansAll(c: Codec, content: seq<Byte>)
    requires GoodCodec(c)
    ensures Replayable(c, content, Unpack(0)) && Meaning(c, content, Unpack(0)) == TextFrom(c, FRESH, content)
  {
    UnpackZero();
    assert content[0..] == content;
  }

  /** Text decoded in two parts; the first may be final if nothing follows. */
  lemma TextAfter(c: Codec, s: DecState, x: seq<Byte>, y: seq<Byte>, final: bool)
    requires GoodCodec(c) && c.ok(s) && (final ==> y == [])
    ensures var d := c.step(s, x, final);
            TextFrom(c, s, x + y) == d.out + TextFrom(c, d.state, y)
  {
    if final {
      assert x + y == x;
      assert StepsWell(c, s, x, true);
    } else {
      assert SplitsAt(c, s, x, y, true);
    }
  }

  /** The bytes before a raw position, continued by those behind it. */
  lemma FromBacked(content: seq<Byte>, pos: nat, input: seq<Byte>, skip: nat)
    requires Backed(content, pos, input) && skip <= |input| <= pos
    ensures From(content, pos - |input| + skip) == input[skip..] + From(content, pos)
  {
  }

  /** The snapshot taken by reading a chunk: the undecoded bytes and the chunk, replayed from the
      decoder flags alone, give what the decoder gave. */
  lemma ChunkReplays(c: Codec, s: DecState, chunk: seq<Byte>, final: bool)
    requires GoodCodec(c) && c.ok(s)
    ensures c.ok(Bare(s.flags)) && c.step(Bare(s.flags), s.buf + chunk, final) == c.step(s, chunk, final)
  {
    assert Replays(c, s);
    assert SplitsAt(c, Bare(s.flags), s.buf, chunk, final);
  }
}
