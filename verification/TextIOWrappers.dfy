/** TextIOWrapper, reading side: decoded characters and a decoder snapshot over a BufferedReader. */
module TextIOWrappers {
  import opened Basics
  import opened Bits
  import opened RawStreams
  import opened BufferedReaders
  import opened Codecs
  import opened NewlineDecoders
  import opened TextCookies
  import opened TellSearch
  import opened Lines

  /** Decoder flags at a point where nothing was buffered, and the input decoded since. */
  datatype Snapshot = Snapshot(flags: nat, input: seq<Byte>)

  /** `_get_decoder`: universal newlines go through the newline decoder. */
  function CodecFor(base: Codec, newline: Newline): Codec
  {
    match newline
    case Translated => NewlineCodec(base, true)
    case Untranslated => NewlineCodec(base, false)
    case Exactly(_) => base
  }

  lemma CodecForIsGood(base: Codec, newline: Newline)
    requires GoodCodec(base)
    ensures GoodCodec(CodecFor(base, newline))
    ensures newline.Untranslated? ==> KeepsCRLF(CodecFor(base, newline))
  {
    if !newline.Exactly? {
      NewlineKeepsContract(base, newline.Translated?);
      NewlineKeepsCRLF(base, newline.Translated?);
    }
  }

  /** What is read from a file in each newline mode: universal newlines are translated if the argument
      is None, and otherwise the decoded text stays as it is. */
  lemma ModeText(base: Codec, newline: Newline, bytes: seq<Byte>)
    requires GoodCodec(base)
    ensures var t := base.step(FRESH, bytes, true).out;
            TextFrom(CodecFor(base, newline), FRESH, bytes) == if newline.Translated? then Universal(t) else t
  {
    hide Universal;
  }

  /** The decoder state `dec` and the decoded text `chars` came from the snapshot; `final` says
      whether the last decode was final, which happens only at the end of the file. */
  ghost predicate SnapOk(c: Codec, content: seq<Byte>, pos: nat, dec: DecState, chars: string, snap: Snapshot, final: bool)
  {
    && c.ok(Bare(snap.flags))
    && |snap.input| <= pos
    && Backed(content, pos, snap.input)
    && c.step(Bare(snap.flags), snap.input, final) == Decoded(dec, chars)
    && (final ==> From(content, pos) == [])
  }

  /** Without a snapshot no decoded text is pending, and the decoder is fresh or has run dry. */
  ghost predicate NoSnapOk(c: Codec, content: seq<Byte>, pos: nat, dec: DecState, chars: string)
  {
    chars == "" && (dec == FRESH || (From(content, pos) == [] && Drained(c, dec)))
  }

  /** What holds between calls: the undecoded bytes are those before the position, the snapshot
      explains the rest, and under newline='' no CR LF is cut behind the decoded text. */
  ghost predicate StateOk(c: Codec, kept: bool, content: seq<Byte>, pos: nat, dec: DecState, chars: string,
                          snapshot: Option<Snapshot>, final: bool)
  {
    && c.ok(dec)
    && |dec.buf| <= pos
    && Backed(content, pos, dec.buf)
    && (match snapshot
        case None => NoSnapOk(c, content, pos, dec, chars)
        case Some(snap) => SnapOk(c, content, pos, dec, chars, snap, final))
    && (kept ==> CleanSeam(chars, TextFrom(c, dec, From(content, pos))))
  }

  lemma FreshOk(c: Codec, kept: bool, content: seq<Byte>, pos: nat, final: bool)
    requires GoodCodec(c)
    ensures StateOk(c, kept, content, pos, FRESH, "", None, final)
    ensures TextFrom(c, FRESH, []) == ""
  {
  }

  /** A decode of the bytes behind a position keeps the undecoded bytes backed by the file. */
  lemma StepBacked(c: Codec, content: seq<Byte>, pos: nat, dec: DecState, chunk: seq<Byte>, final: bool)
    requires GoodCodec(c) && c.ok(dec)
    requires |dec.buf| <= pos && Backed(content, pos, dec.buf)
    requires chunk <= From(content, pos)
    ensures var d := c.step(dec, chunk, final);
            && c.ok(d.state) && |d.state.buf| <= pos + |chunk| && Backed(content, pos + |chunk|, d.state.buf)
            && (final ==> Drained(c, d.state))
    ensures |dec.buf + chunk| <= pos + |chunk| && Backed(content, pos + |chunk|, dec.buf + chunk)
  {
    assert StepsWell(c, dec, chunk, final);
    var d := c.step(dec, chunk, final);
    var all := dec.buf + chunk;
    if chunk != [] {
      assert content[pos..pos + |chunk|] == chunk;
      assert dec.buf != [] ==> content[pos - |dec.buf|..pos] == dec.buf;
      assert content[pos - |dec.buf|..pos + |chunk|] == all;
    } else {
      assert all == dec.buf;
    }
  }

  /** Reading a chunk keeps the state consistent and the remaining text the same. */
  lemma ChunkStep(c: Codec, kept: bool, content: seq<Byte>, pos: nat, dec: DecState, chars: string,
                  snapshot: Option<Snapshot>, last: bool, chunk: seq<Byte>)
    requires GoodCodec(c) && (kept ==> KeepsCRLF(c))
    requires StateOk(c, kept, content, pos, dec, chars, snapshot, last)
    requires chunk <= From(content, pos) && (chunk == [] ==> From(content, pos) == [])
    ensures var d := c.step(dec, chunk, chunk == []);
            && StateOk(c, kept, content, pos + |chunk|, d.state, d.out,
                       Some(Snapshot(dec.flags, dec.buf + chunk)), chunk == [])
            && TextFrom(c, dec, From(content, pos)) == d.out + TextFrom(c, d.state, From(content, pos + |chunk|))
            && (chunk == [] ==> TextFrom(c, d.state, []) == "")
  {
    hide GoodCodec;
    var final := chunk == [];
    var d := c.step(dec, chunk, final);
    StepBacked(c, content, pos, dec, chunk, final);
    ChunkReplays(c, dec, chunk, final);
    FromFrom(content, pos, |chunk|);
    var ahead := From(content, pos + |chunk|);
    assert chunk + ahead == From(content, pos);
    TextAfter(c, dec, chunk, ahead, final);
    SeamAfter(c, dec, chunk, ahead, final);
  }

  /** Reading to the end leaves a decoder that has run dry, and no snapshot. */
  lemma DryStep(c: Codec, kept: bool, content: seq<Byte>, pos: nat, dec: DecState, chars: string,
                snapshot: Option<Snapshot>, last: bool, rest: seq<Byte>)
    requires GoodCodec(c) && StateOk(c, kept, content, pos, dec, chars, snapshot, last)
    requires rest == From(content, pos)
    ensures var d := c.step(dec, rest, true);
            && StateOk(c, kept, content, pos + |rest|, d.state, "", None, true)
            && d.out == TextFrom(c, dec, From(content, pos))
            && TextFrom(c, d.state, From(content, pos + |rest|)) == ""
  {
    StepBacked(c, content, pos, dec, rest, true);
    FromFrom(content, pos, |rest|);
  }

  /** Without a snapshot the byte position alone stands for the remaining text. */
  lemma PlainCookie(c: Codec, kept: bool, content: seq<Byte>, pos: nat, dec: DecState, chars: string, last: bool)
    requires GoodCodec(c) && StateOk(c, kept, content, pos, dec, chars, None, last)
    ensures chars == ""
    ensures var k := Cookie(pos, 0, 0, false, 0);
            Replayable(c, content, k) && Meaning(c, content, k) == TextFrom(c, dec, From(content, pos))
  {
  }

  /** A cookie that skips nothing is followed by setting the decoder state alone. */
  lemma BareStart(c: Codec, kept: bool, content: seq<Byte>, k: Cookie)
    requires GoodCodec(c) && Followable(c, content, k) && k.charsToSkip == 0
    ensures StateOk(c, kept, content, k.position, Bare(k.decFlags), "", Some(Snapshot(k.decFlags, [])), false)
    ensures TextFrom(c, Bare(k.decFlags), From(content, k.position)) == Meaning(c, content, k)
  {
    assert Replays(c, Bare(k.decFlags));
  }

  lemma SeamAfter(c: Codec, s: DecState, x: seq<Byte>, y: seq<Byte>, final: bool)
    requires GoodCodec(c) && c.ok(s) && (final ==> y == [])
    ensures KeepsCRLF(c) ==> var d := c.step(s, x, final); CleanSeam(d.out, TextFrom(c, d.state, y))
  {
    if final {
      assert StepsWell(c, s, x, true);
    } else if KeepsCRLF(c) {
      assert !SplitsCRLF(c, s, x, y, true);
    }
  }

  /** Decoding the next bytes from a bare state leaves the stream consistent, with the snapshot there. */
  lemma FedOk(c: Codec, kept: bool, content: seq<Byte>, pos: nat, flags: nat, feed: seq<Byte>, final: bool)
    requires GoodCodec(c) && c.ok(Bare(flags)) && (kept ==> KeepsCRLF(c))
    requires feed <= From(content, pos) && (final ==> From(content, pos + |feed|) == [])
    ensures var d := c.step(Bare(flags), feed, final);
            StateOk(c, kept, content, pos + |feed|, d.state, d.out, Some(Snapshot(flags, feed)), final)
  {
    hide GoodCodec, Backed, TextFrom, KeepsCRLF, From;
    NothingBacked(content, pos);
    StepBacked(c, content, pos, Bare(flags), feed, final);
    assert [] + feed == feed;
    SeamAfter(c, Bare(flags), feed, From(content, pos + |feed|), final);
  }

  /** Any other cookie is followed by feeding the bytes it names. */
  lemma FedStart(c: Codec, kept: bool, content: seq<Byte>, k: Cookie)
    requires GoodCodec(c) && (kept ==> KeepsCRLF(c)) && Followable(c, content, k) && k.charsToSkip > 0
    ensures var feed := Feed(content, k);
            var d := c.step(Bare(k.decFlags), feed, k.needEof);
            var text := TextFrom(c, d.state, From(content, k.position + |feed|));
            && StateOk(c, kept, content, k.position + |feed|, d.state, d.out,
                       Some(Snapshot(k.decFlags, feed)), k.needEof)
            && d.out + text == TextFrom(c, Bare(k.decFlags), From(content, k.position))
            && (Enough(c, content, k) ==> d.out[k.charsToSkip..] + text == Meaning(c, content, k))
  {
    hide GoodCodec, Backed, Meaning, TextFrom, KeepsCRLF, From, UpTo, Feed, StateOk;
    FollowCookie(c, content, k);
    FeedIsAhead(content, k);
    FedOk(c, kept, content, k.position, k.decFlags, Feed(content, k), k.needEof);
  }

  /** A snapshot stands for the decoded text and all that follows. */
  lemma SnapMeaning(c: Codec, content: seq<Byte>, pos: nat, dec: DecState, chars: string, snap: Snapshot, final: bool)
    requires GoodCodec(c) && c.ok(dec) && SnapOk(c, content, pos, dec, chars, snap, final)
    ensures TextFrom(c, Bare(snap.flags), snap.input + From(content, pos)) == chars + TextFrom(c, dec, From(content, pos))
  {
    TextAfter(c, Bare(snap.flags), snap.input, From(content, pos), final);
  }

  /** A cookie for a safe point of the snapshot means what is left behind the used characters. */
  lemma SafeCookieMeans(c: Codec, content: seq<Byte>, pos: nat, dec: DecState, chars: string, snap: Snapshot, final: bool,
                        used: nat, skip: nat, k: Cookie)
    requires GoodCodec(c) && c.ok(dec) && SnapOk(c, content, pos, dec, chars, snap, final) && used <= |chars|
    requires SafePoint(c, snap.flags, snap.input, used, skip, k.decFlags, k.charsToSkip)
    requires k.position == pos - |snap.input| + skip
    ensures Meaning(c, content, k) == chars[used..] + TextFrom(c, dec, From(content, pos))
    ensures From(content, k.position) == snap.input[skip..] + From(content, pos)
    ensures c.ok(Bare(k.decFlags))
  {
    SafeIsOk(c, snap.flags, snap.input, used, skip, k.decFlags, k.charsToSkip);
    FromBacked(content, pos, snap.input, skip);
    SafeMeaning(c, snap.flags, snap.input, used, skip, k.decFlags, k.charsToSkip, From(content, pos));
    SnapMeaning(c, content, pos, dec, chars, snap, final);
  }

  /** How seek ends: normally, with ValueError, or with OSError. */
  datatype SeekOutcome = Sought | NegativeCookie | CannotRestore

  /** seek can follow such a cookie: the bytes it names are there and give the characters to skip. */
  lemma SafeCookieReplays(c: Codec, content: seq<Byte>, pos: nat, input: seq<Byte>, final: bool, skip: nat, k: Cookie)
    requires c.ok(Bare(k.decFlags)) && skip + k.bytesToFeed <= |input| && k.position == pos - |input| + skip
    requires From(content, k.position) == input[skip..] + From(content, pos) && (final ==> From(content, pos) == [])
    requires k.charsToSkip > 0 ==>
               |c.step(Bare(k.decFlags), input[skip..skip + k.bytesToFeed], k.needEof).out| >= k.charsToSkip
    requires k.needEof ==> final && skip + k.bytesToFeed == |input|
    ensures Replayable(c, content, k)
  {
    hide From;
    Fed(input, skip, k.bytesToFeed, From(content, pos));
  }

  class TextIOWrapper {
    const buffer: BufferedReader
    const newline: Newline
    const codec: Codec
    const chunkSize: nat
    const hasRead1: bool
    var decoder: Option<DecState>          // None until the decoder is made
    var decodedChars: string
    var decodedCharsUsed: nat
    var snapshot: Option<Snapshot>
    ghost var lastFinal: bool              // whether the last decode was final

    constructor (buffer: BufferedReader, base: Codec, newline: Newline, chunkSize: nat, hasRead1: bool)
      requires buffer.Valid() && buffer.raw.Polite() && GoodCodec(base) && chunkSize > 0
      requires Proper(newline)
      ensures Valid() && this.buffer == buffer && codec == CodecFor(base, newline)
      ensures Rest() == TextFrom(codec, FRESH, buffer.Ahead())
      ensures var t := base.step(FRESH, buffer.Ahead(), true).out;
              Rest() == if newline.Translated? then Universal(t) else t
    {
      CodecForIsGood(base, newline);
      ModeText(base, newline, buffer.Ahead());
      FreshOk(CodecFor(base, newline), newline.Untranslated?, buffer.raw.content, buffer.Position(), false);
      this.buffer, this.newline, codec := buffer, newline, CodecFor(base, newline);
      this.chunkSize, this.hasRead1 := chunkSize, hasRead1;
      decoder, decodedChars, decodedCharsUsed, snapshot := None, "", 0, None;
      lastFinal := false;
    }

    function Dec(): DecState
      reads this
    {
      if decoder.None? then FRESH else decoder.value
    }

    /** The buffer is at a position, and a newline terminator is not empty. */
    ghost predicate Placed()
      reads buffer, buffer.raw
    {
      buffer.Valid() && buffer.Position() >= 0 && Proper(newline)
    }

    /** The raw stream never refuses, and the decoder meets its contract. */
    ghost predicate Configured()
      reads buffer, buffer.raw
    {
      && buffer.raw.Polite() && chunkSize > 0
      && GoodCodec(codec)
      && (newline.Untranslated? ==> KeepsCRLF(codec))
    }

    ghost predicate Wired()
      reads buffer, buffer.raw
    {
      Placed() && Configured()
    }

    ghost predicate Valid()
      reads this, buffer, buffer.raw
    {
      && Wired()
      && decodedCharsUsed <= |decodedChars|
      && (decoder.None? ==> snapshot.None?)
      && StateOk(codec, newline.Untranslated?, buffer.raw.content, buffer.Position(), Dec(), decodedChars,
                 snapshot, lastFinal)
    }

    /** The remaining text: what is decoded and unused, then all the rest of the file decodes to. */
    ghost function Rest(): string
      requires buffer.Valid() && decodedCharsUsed <= |decodedChars|
      reads this, buffer, buffer.raw
    {
      decodedChars[decodedCharsUsed..] + TextFrom(codec, Dec(), buffer.Ahead())
    }

    method GetDecoder()
      requires Valid()
      modifies this`decoder
      ensures Valid() && decoder.Some? && Dec() == old(Dec()) && Rest() == old(Rest())
    {
      if decoder.None? {
        decoder := Some(FRESH);
      }
    }

    method SetDecodedChars(chars: string)
      modifies this`decodedChars, this`decodedCharsUsed
      ensures decodedChars == chars && decodedCharsUsed == 0
    {
      decodedChars, decodedCharsUsed := chars, 0;
    }

    /** Advance into the decoded text; a negative `n` stands for None. */
    method GetDecodedChars(n: int) returns (chars: string)
      requires Valid()
      modifies this`decodedCharsUsed
      ensures Valid() && old(Rest()) == chars + Rest()
      ensures var all := old(decodedChars[decodedCharsUsed..]);
              chars == if 0 <= n < |all| then all[..n] else all
      ensures n < 0 || |chars| < n ==> decodedCharsUsed == |decodedChars|
      ensures decodedCharsUsed == old(decodedCharsUsed) + |chars|
    {
      hide Configured, BufferedReader.Valid, StateOk, GoodCodec, KeepsCRLF, From, Backed, TextFrom;
      var offset := decodedCharsUsed;
      chars := decodedChars[offset..];
      if 0 <= n < |chars| {
        chars := chars[..n];
      }
      decodedCharsUsed := decodedCharsUsed + |chars|;
      assert decodedChars[offset..] == chars + decodedChars[decodedCharsUsed..];
    }

    /** The `AssertionError` of the source is the precondition here: callers never reach it. */
    method RewindDecodedChars(n: nat)
      requires n <= decodedCharsUsed
      modifies this`decodedCharsUsed
      ensures decodedCharsUsed == old(decodedCharsUsed) - n
    {
      decodedCharsUsed := decodedCharsUsed - n;
    }

    method Decode(input: seq<Byte>, final: bool) returns (out: string)
      requires decoder.Some?
      modifies this`decoder
      ensures decoder.Some? && codec.step(old(Dec()), input, final) == Decoded(Dec(), out)
    {
      var d := codec.step(decoder.value, input, final);
      decoder, out := Some(d.state), d.out;
    }

    /** The next chunk of bytes, empty only at the end of the file. */
    method NextBytes() returns (chunk: seq<Byte>)
      requires Wired()
      modifies buffer, buffer.raw
      ensures Wired() && buffer.raw.content == old(buffer.raw.content)
      ensures chunk <= old(buffer.Ahead()) && buffer.Position() == old(buffer.Position()) + |chunk|
      ensures buffer.Ahead() == old(buffer.Ahead())[|chunk|..] && (chunk == [] ==> old(buffer.Ahead()) == [])
    {
      hide GoodCodec, KeepsCRLF, From, Backed;
      if hasRead1 {
        chunk := buffer.Read1(chunkSize);
      } else {
        var r := buffer.Read(chunkSize);
        chunk := r.bytes;
      }
    }

    /** All the bytes behind the position. */
    method LastBytes() returns (bytes: seq<Byte>)
      requires Wired()
      modifies buffer, buffer.raw
      ensures Wired() && buffer.raw.content == old(buffer.raw.content)
      ensures bytes == old(buffer.Ahead()) && buffer.Position() == old(buffer.Position()) + |bytes|
    {
      hide GoodCodec, KeepsCRLF, From, Backed;
      var r := buffer.Read(-1);
      bytes := r.bytes;
    }

    /** Decodes the next chunk; false at end of file. The text decoded before must be used up. */
    method ReadChunk() returns (more: bool)
      requires Valid() && decoder.Some? && decodedCharsUsed == |decodedChars|
      modifies this, buffer, buffer.raw
      ensures Valid() && decoder.Some? && Rest() == old(Rest()) && decodedCharsUsed == 0
      ensures buffer.raw.content == old(buffer.raw.content)
      ensures more ==> |buffer.Ahead()| < |old(buffer.Ahead())|
      ensures !more ==> buffer.Ahead() == old(buffer.Ahead()) == [] && TextFrom(codec, Dec(), []) == ""
    {
      hide BufferedReader.Valid, StateOk, GoodCodec, KeepsCRLF, From, Backed, TextFrom;
      ghost var pos, dec := buffer.Position(), Dec();
      var snapState := decoder.value;
      var inputChunk := NextBytes();
      var eof := inputChunk == [];
      ChunkStep(codec, newline.Untranslated?, buffer.raw.content, pos, dec, decodedChars, snapshot, lastFinal, inputChunk);
      var chars := Decode(inputChunk, eof);
      lastFinal := eof;
      SetDecodedChars(chars);
      snapshot := Some(Snapshot(snapState.flags, snapState.buf + inputChunk));
      more := !eof;
    }

    /** read(): everything that is left. */
    method ReadAll() returns (result: string)
      requires Valid()
      modifies this, buffer, buffer.raw
      ensures Valid() && result == old(Rest()) && Rest() == ""
      ensures buffer.raw.content == old(buffer.raw.content)
    {
      hide Configured, BufferedReader.Valid, StateOk, GoodCodec, KeepsCRLF, From, Backed, TextFrom, TextIOWrapper.Rest;
      GetDecoder();
      result := GetDecodedChars(-1);
      var last := DecodeRest();
      result := result + last;
    }

    /** The final decode of all the bytes left, behind text that is used up. */
    method DecodeRest() returns (last: string)
      requires Valid() && decoder.Some? && decodedCharsUsed == |decodedChars|
      modifies this, buffer, buffer.raw
      ensures Valid() && last == old(Rest()) && Rest() == ""
      ensures buffer.raw.content == old(buffer.raw.content)
    {
      hide BufferedReader.Valid, StateOk, GoodCodec, KeepsCRLF, From, Backed, TextFrom;
      ghost var pos, dec := buffer.Position(), Dec();
      var bytes := LastBytes();
      DryStep(codec, newline.Untranslated?, buffer.raw.content, pos, dec, decodedChars, snapshot, lastFinal, bytes);
      last := Decode(bytes, true);
      lastFinal := true;
      SetDecodedChars("");
      snapshot := None;
    }

    /** read(size) for a size that is not negative: the next characters, fewer only at the end. */
    method Read(size: nat) returns (result: string)
      requires Valid()
      modifies this, buffer, buffer.raw
      ensures Valid() && buffer.raw.content == old(buffer.raw.content)
      ensures old(Rest()) == result + Rest()
      ensures |result| == Min(size, |old(Rest())|)
    {
      hide Configured, BufferedReader.Valid, StateOk, GoodCodec, KeepsCRLF, From, Backed, TextFrom;
      GetDecoder();
      var eof := false;
      result := GetDecodedChars(size);
      while |result| < size && !eof
        invariant Valid() && decoder.Some? && buffer.raw.content == old(buffer.raw.content)
        invariant old(Rest()) == result + Rest() && |result| <= size
        invariant |result| < size ==> decodedCharsUsed == |decodedChars|
        invariant eof && |result| < size ==> Rest() == ""
        decreases !eof, |buffer.Ahead()|
      {
        var more := ReadChunk();
        eof := !more;
        ghost var rest := Rest();
        var chars := GetDecodedChars(size - |result|);
        TakenFurther(result, rest, chars, Rest());
        result := result + chars;
      }
    }

    // ----- readline

    /** readline(size): exactly the first line of the remaining text, cut at `size` characters
        if that is not negative. */
    method ReadLine(size: int) returns (line: string)
      requires Valid()
      modifies this, buffer, buffer.raw
      ensures Valid() && buffer.raw.content == old(buffer.raw.content)
      ensures old(Rest()) == line + Rest()
      ensures |line| == LineLength(newline, size, old(Rest()))
    {
      hide Configured, BufferedReader.Valid, StateOk, GoodCodec, KeepsCRLF, From, Backed, TextFrom, TextIOWrapper.Rest,
           EndOf, SearchedTo, LineLength;
      ghost var whole := Rest();
      ghost var part: nat := |decodedChars| - decodedCharsUsed;
      line := GetDecodedChars(-1);
      var start: nat := 0;
      GetDecoder();
      var endpos: int;
      StartSearch(newline, line);
      while true
        invariant Valid() && decoder.Some? && buffer.raw.content == old(buffer.raw.content)
        invariant whole == line + Rest() && decodedCharsUsed == |decodedChars|
        invariant TailOf(line, decodedChars, part) && (part == 0 ==> line == "")
        invariant EndOf(newline, line[..|line| - part]).None? && (size < 0 || |line| - part < size || |line| == part)
        invariant start <= |line| && SearchedTo(newline, line, start)
        invariant newline.Exactly? ==> start == 0
        decreases |whole| - |line|
      {
        endpos := SearchLine(newline, line, start);
        if endpos >= 0 {
          break;
        }
        if !newline.Exactly? {
          start := |line|;
        }
        if 0 <= size <= |line| {
          endpos := size;
          break;
        }
        var found := NextText();
        if !found {
          LineAtEof(newline, size, line);
          assert whole == line;
          return;
        }
        ghost var before, rest := line, Rest();
        var chars := GetDecodedChars(-1);
        TakenFurther(line, rest, chars, Rest());
        line := line + chars;
        part := |chars|;
        assert line[..|line| - part] == before;
        SearchedFurther(newline, before, chars, start);
      }
      line := FinishLine(line, endpos, size, part);
    }

    /** Gives back what was taken beyond the end of the line. */
    method FinishLine(line: string, endpos: nat, size: int, ghost part: nat) returns (cut: string)
      requires Valid() && decodedCharsUsed == |decodedChars|
      requires TailOf(line, decodedChars, part) && (part == 0 ==> line == "")
      requires EndOf(newline, line[..|line| - part]).None? && (size < 0 || |line| - part < size || |line| == part)
      requires EndOf(newline, line) == Some(endpos) || (EndOf(newline, line).None? && 0 <= size <= |line| && endpos == size)
      modifies this
      ensures Valid()
      ensures cut + Rest() == line + old(Rest())
      ensures |cut| == LineLength(newline, size, line + old(Rest()))
    {
      hide Configured, BufferedReader.Valid, StateOk, GoodCodec, KeepsCRLF, From, Backed, TextFrom, EndOf, LineLength, TailOf;
      if newline.Untranslated? {
        SeamHolds();
      }
      SameSeam(line, decodedChars, part, Rest());
      FoundEnd(newline, size, line, Rest(), endpos, part);
      var end := endpos;
      if size >= 0 && end > size {
        end := size;
      }
      GiveBack(line, decodedChars, part, end, TextFrom(codec, Dec(), buffer.Ahead()));
      RewindDecodedChars(|line| - end);
      cut := line[..end];
    }

    /** Chunks until some text comes out; at end of file pending text and snapshot are dropped. */
    method NextText() returns (found: bool)
      requires Valid() && decoder.Some? && decodedCharsUsed == |decodedChars|
      modifies this, buffer, buffer.raw
      ensures Valid() && decoder.Some? && Rest() == old(Rest()) && decodedCharsUsed == 0
      ensures buffer.raw.content == old(buffer.raw.content)
      ensures found ==> decodedChars != ""
      ensures !found ==> Rest() == ""
    {
      hide Configured, BufferedReader.Valid, StateOk, GoodCodec, KeepsCRLF, From, Backed, TextFrom;
      var more := true;
      while more
        invariant Valid() && decoder.Some? && Rest() == old(Rest())
        invariant buffer.raw.content == old(buffer.raw.content)
        invariant more ==> decodedCharsUsed == |decodedChars|
        invariant !more ==> decodedCharsUsed == 0
        invariant !more ==> buffer.Ahead() == [] && TextFrom(codec, Dec(), []) == ""
        decreases more, |buffer.Ahead()|
      {
        more := ReadChunk();
        if decodedChars != "" {
          break;
        }
      }
      found := decodedChars != "";
      if !found {
        DropSnapshot();
      }
    }

    method DropSnapshot()
      requires Valid() && buffer.Ahead() == [] && TextFrom(codec, Dec(), []) == "" && decodedChars == ""
      modifies this
      ensures Valid() && Rest() == "" && decoder == old(decoder) && decodedCharsUsed == 0
    {
      SetDecodedChars("");
      snapshot := None;
    }

    lemma SeamHolds()
      requires Valid() && decodedCharsUsed == |decodedChars| && newline.Untranslated?
      ensures CleanSeam(decodedChars, Rest())
    {
    }

    // ----- tell and seek

    /** The fast search: any guess in range leads to a safe start point. */
    method FastSearch(flags: nat, input: seq<Byte>, want: nat, guess: nat) returns (skip: nat, f: nat, left: nat)
      requires GoodCodec(codec) && codec.ok(Bare(flags)) && decoder.Some? && guess <= |input|
      modifies this`decoder
      ensures SafePoint(codec, flags, input, want, skip, f, left)
      ensures decoder == Some(Bare(f))
    {
      var skipBytes: int := guess;
      var skipBack: int := 1;
      while skipBytes > 0
        invariant skipBytes <= |input| && skipBack >= 1 && decoder.Some?
        decreases skipBytes
      {
        decoder := Some(Bare(flags));
        var text := Decode(input[..skipBytes], false);
        if |text| <= want {
          if decoder.value.buf == [] {
            return skipBytes, decoder.value.flags, want - |text|;
          }
          assert StepsWell(codec, Bare(flags), input[..skipBytes], false);
          skipBytes := skipBytes - |decoder.value.buf|;
          skipBack := 1;
        } else {
          skipBytes := skipBytes - skipBack;
          skipBack := skipBack * 2;
        }
      }
      decoder := Some(Bare(flags));
      SnapshotIsSafe(codec, flags, input, want);
      return 0, flags, want;
    }

    /** Decoding on from a safe point, one byte at a time: ends with the last safe point passed and
        how much to feed from there. The OSError is not reached. */
    method WalkBytes(flags: nat, input: seq<Byte>, ghost final: bool, want: nat, skip0: nat, f0: nat, left0: nat)
      returns (skip: nat, f: nat, fed: nat, needEof: bool, left: nat)
      requires GoodCodec(codec) && codec.ok(Bare(flags))
      requires SafePoint(codec, flags, input, want, skip0, f0, left0) && decoder == Some(Bare(f0))
      requires |codec.step(Bare(flags), input, final).out| >= want
      requires left0 > 0
      modifies this`decoder
      ensures SafePoint(codec, flags, input, want, skip, f, left)
      ensures skip + fed <= |input|
      ensures left > 0 ==> |codec.step(Bare(f), input[skip..skip + fed], needEof).out| >= left
      ensures needEof ==> final && skip + fed == |input|
      ensures decoder.Some?
    {
      skip, f, left := skip0, f0, left0;
      fed, needEof := 0, false;
      var charsDecoded: nat := 0;
      SafeIsOk(codec, flags, input, want, skip, f, left);
      assert Replays(codec, Bare(f));
      assert input[skip..skip] == [];
      var i := skip0;
      while i < |input|
        invariant skip0 <= i <= |input| && i == skip + fed
        invariant decoder.Some? && !needEof
        invariant SafePoint(codec, flags, input, want, skip, f, left) && codec.ok(Bare(f))
        invariant codec.step(Bare(f), input[skip..i], false).state == decoder.value
        invariant |codec.step(Bare(f), input[skip..i], false).out| == charsDecoded
        invariant charsDecoded < left
      {
        fed := fed + 1;
        WalkOne(codec, f, input, skip, i);
        var text := Decode(input[i..i + 1], false);
        charsDecoded := charsDecoded + |text|;
        i := i + 1;
        SafeNext(codec, flags, input, want, skip, f, left, i);
        if decoder.value.buf == [] && charsDecoded <= left {
          // another safe point
          skip, f, left := skip + fed, decoder.value.flags, left - charsDecoded;
          fed, charsDecoded := 0, 0;
          SafeIsOk(codec, flags, input, want, skip, f, left);
          assert Replays(codec, Bare(f));
          assert input[skip..skip] == [];
        }
        if charsDecoded >= left {
          return;
        }
      }
      // the input is used up; a final call gives the rest
      assert input[skip..i] == input[skip..];
      EnoughAtEof(codec, flags, input, final, want, skip, f, left);
      var text := Decode([], true);
      charsDecoded := charsDecoded + |text|;
      needEof := true;
      assert charsDecoded >= left;
    }

    /** tell(): `guess` is the fast search's estimate, any number up to the length of the
        snapshot's input. Nothing changes, and the cookie stands for the remaining text. */
    method Tell(guess: nat) returns (cookie: nat, ghost k: Cookie)
      requires Valid()
      requires snapshot.Some? ==> guess <= |snapshot.value.input|
      modifies this`decoder
      ensures decoder == old(decoder) && Valid() && Rest() == old(Rest())
      ensures cookie == Pack(k)
      ensures Replayable(codec, buffer.raw.content, k)
      ensures Meaning(codec, buffer.raw.content, k) == Rest()
      ensures k.position <= buffer.Position() && k.charsToSkip <= |decodedChars| && k.bytesToFeed <= buffer.Position()
    {
      hide GoodCodec, KeepsCRLF, From, Backed, Pack, SafePoint, Replayable, Meaning, TextFrom, Feed;
      ghost var content, pos, dec := buffer.raw.content, buffer.Position(), Dec();
      var position := buffer.Tell();
      if decoder.None? || snapshot.None? {
        // the AssertionError for pending text is not reached
        PlainCookie(codec, newline.Untranslated?, content, pos, dec, decodedChars, lastFinal);
        assert decodedChars == "";
        k := Cookie(position, 0, 0, false, 0);
        PackPlain(position);
        return position, k;
      }
      var Snapshot(flags, nextInput) := snapshot.value;
      position := position - |nextInput|;
      var charsToSkip := decodedCharsUsed;
      if charsToSkip == 0 {
        k := Cookie(position, flags, 0, false, 0);
        SnapshotIsSafe(codec, flags, nextInput, 0);
        SafeCookieMeans(codec, content, pos, dec, decodedChars, snapshot.value, lastFinal, 0, 0, k);
        SafeCookieReplays(codec, content, pos, nextInput, lastFinal, 0, k);
        return Pack(Cookie(position, flags, 0, false, 0)), k;
      }
      var saved := decoder;
      var skip, f, left := FastSearch(flags, nextInput, charsToSkip, guess);
      var fed, needEof := 0, false;
      if left != 0 {
        skip, f, fed, needEof, left := WalkBytes(flags, nextInput, lastFinal, charsToSkip, skip, f, left);
      }
      decoder := saved;
      k := Cookie(position + skip, f, fed, needEof, left);
      SafeCookieMeans(codec, content, pos, dec, decodedChars, snapshot.value, lastFinal, charsToSkip, skip, k);
      SafeCookieReplays(codec, content, pos, nextInput, lastFinal, skip, k);
      cookie := Pack(Cookie(position + skip, f, fed, needEof, left));
    }

    /** seek(cookie): to what the cookie stands for. A cookie whose bytes do not give the characters
        to skip is the OSError, and leaves the stream at the start point; the cookies of tell
        never do that. */
    method Seek(cookie: int) returns (r: SeekOutcome)
      requires Valid()
      requires cookie >= 0 ==> Followable(codec, buffer.raw.content, Unpack(cookie))
      modifies this, buffer, buffer.raw
      ensures Valid() && buffer.raw.content == old(buffer.raw.content)
      ensures r.NegativeCookie? <==> cookie < 0
      ensures r.Sought? <==> cookie >= 0 && Replayable(codec, buffer.raw.content, Unpack(cookie))
      ensures r.Sought? ==> Rest() == Meaning(codec, buffer.raw.content, Unpack(cookie))
      ensures r.CannotRestore? ==>
                var k := Unpack(cookie); Rest() == TextFrom(codec, Bare(k.decFlags), From(buffer.raw.content, k.position))
      ensures r.NegativeCookie? ==> Rest() == old(Rest())
    {
      if cookie < 0 {
        return NegativeCookie;
      }
      hide Configured, BufferedReader.Valid, StateOk, GoodCodec, KeepsCRLF, From, Backed, Unpack, Followable, Enough,
           Meaning, TextFrom;
      var k := Unpack(cookie);
      ghost var content := buffer.raw.content;
      var _ := buffer.Seek(k.position, 0);
      SetDecodedChars("");
      snapshot := None;
      RestoreDecoder(cookie, k);
      r := Sought;
      if k.charsToSkip != 0 {
        var enough := FeedCookie(k);
        if !enough {
          r := CannotRestore;
        }
      }
    }

    /** The part of seek that puts the decoder in its state at the safe start point. */
    method RestoreDecoder(cookie: nat, k: Cookie)
      requires Wired() && k == Unpack(cookie) && decodedChars == "" && decodedCharsUsed == 0 && snapshot == None
      requires buffer.Position() == k.position && Followable(codec, buffer.raw.content, k)
      modifies this`decoder, this`snapshot, this`lastFinal
      ensures k.charsToSkip > 0 ==> decoder == Some(Bare(k.decFlags))
      ensures k.charsToSkip == 0 ==> Valid() && Rest() == Meaning(codec, buffer.raw.content, k)
    {
      hide BufferedReader.Valid, StateOk, GoodCodec, KeepsCRLF, From, Backed, Unpack, Replayable, Meaning, TextFrom;
      if k.charsToSkip == 0 {
        BareStart(codec, newline.Untranslated?, buffer.raw.content, k);
      }
      FreshOk(codec, newline.Untranslated?, buffer.raw.content, k.position, false);
      UnpackZero();
      lastFinal := false;
      if cookie == 0 && decoder.Some? {
        decoder := Some(FRESH);
      } else if decoder.Some? || k.decFlags != 0 || k.charsToSkip != 0 {
        decoder := Some(Bare(k.decFlags));
        snapshot := Some(Snapshot(k.decFlags, []));
      }
    }

    /** The part of seek that feeds the decoder and skips characters, if there are enough. */
    method FeedCookie(k: Cookie) returns (enough: bool)
      requires Wired() && decoder == Some(Bare(k.decFlags))
      requires buffer.Position() == k.position && k.charsToSkip > 0
      requires Followable(codec, buffer.raw.content, k)
      modifies this, buffer, buffer.raw
      ensures Valid() && buffer.raw.content == old(buffer.raw.content)
      ensures enough <==> Enough(codec, buffer.raw.content, k)
      ensures Rest() == if enough then Meaning(codec, buffer.raw.content, k)
                        else TextFrom(codec, Bare(k.decFlags), From(buffer.raw.content, k.position))
    {
      hide BufferedReader.Valid, StateOk, GoodCodec, KeepsCRLF, Backed, Meaning, TextFrom, Followable, From;
      FedStart(codec, newline.Untranslated?, buffer.raw.content, k);
      var inputChunk := FedBytes(k);
      var chars := Decode(inputChunk, k.needEof);
      SetDecodedChars(chars);
      snapshot := Some(Snapshot(k.decFlags, inputChunk));
      lastFinal := k.needEof;
      enough := |decodedChars| >= k.charsToSkip;
      if enough {
        decodedCharsUsed := k.charsToSkip;
      }
    }

    method FedBytes(k: Cookie) returns (bytes: seq<Byte>)
      requires Wired() && buffer.Position() == k.position
      modifies buffer, buffer.raw
      ensures Wired() && buffer.raw.content == old(buffer.raw.content)
      ensures bytes == Feed(buffer.raw.content, k) && buffer.Position() == k.position + |bytes|
    {
      hide GoodCodec, KeepsCRLF, From, Backed;
      var r := buffer.Read(k.bytesToFeed);
      bytes := r.bytes;
    }

    /** seek(0, 2): to the end of the file. */
    method SeekEnd() returns (position: nat)
      requires Valid()
      modifies this, buffer, buffer.raw
      ensures Valid() && buffer.raw.content == old(buffer.raw.content)
      ensures Rest() == "" && position == |buffer.raw.content|
    {
      hide BufferedReader.Valid, StateOk, GoodCodec, KeepsCRLF, Backed;
      var r := buffer.Seek(0, 2);
      position := r.pos;
      FreshOk(codec, newline.Untranslated?, buffer.raw.content, position, lastFinal);
      assert buffer.Ahead() == [];
      SetDecodedChars("");
      snapshot := None;
      if decoder.Some? {
        decoder := Some(FRESH);
      }
    }

    /** seek(0, 1), that is seek(tell()): from every reading state the remaining text is the
        same. The conditions keep the cookie's numbers in their 64-bit slots. */
    method SeekCurrent(guess: nat)
      requires Valid()
      requires snapshot.Some? ==> guess <= |snapshot.value.input|
      requires buffer.Position() < Pow2(64) && |decodedChars| < Pow2(64)
      requires forall s :: codec.ok(s) ==> s.flags < Pow2(64)
      modifies this, buffer, buffer.raw
      ensures Valid() && buffer.raw.content == old(buffer.raw.content)
      ensures Rest() == old(Rest())
    {
      hide Pow2;
      var cookie, k := Tell(guess);
      assert codec.ok(Bare(k.decFlags));
      UnpackPack(k);
      var _ := Seek(cookie);
    }
  }

  lemma Fed(input: seq<Byte>, skip: nat, fed: nat, ahead: seq<Byte>)
    requires skip + fed <= |input|
    ensures fed <= |input[skip..] + ahead| && (input[skip..] + ahead)[..fed] == input[skip..skip + fed]
  {
  }

  /** The last `part` characters of the line are the last ones decoded. */
  ghost predicate TailOf(line: string, decoded: string, part: nat)
  {
    part <= |line| && part <= |decoded| && line[|line| - part..] == decoded[|decoded| - part..]
  }

  /** Text taken from the front of what is left joins the text already taken. */
  lemma TakenFurther(taken: string, rest: string, chars: string, left: string)
    requires rest == chars + left
    ensures taken + rest == (taken + chars) + left
  {
  }

  /** The line ends as the decoded text does. */
  lemma SameSeam(line: string, decoded: string, part: nat, rest: string)
    requires TailOf(line, decoded, part) && (part == 0 ==> line == "")
    ensures part <= |line|
    ensures CleanSeam(decoded, rest) ==> CleanSeam(line, rest)
  {
    if part > 0 {
      assert line[|line| - part..][part - 1] == decoded[|decoded| - part..][part - 1];
    }
  }

  /** What is given back comes before what is still to be decoded. */
  lemma GiveBack(line: string, decoded: string, part: nat, end: nat, text: string)
    requires TailOf(line, decoded, part) && end <= |line| && |line| - end <= part
    ensures var n := |line| - end;
            && n <= |decoded|
            && line[..end] + (decoded[|decoded| - n..] + text) == line + (decoded[|decoded|..] + text)
  {
    var n := |line| - end;
    assert line[end..] == line[|line| - part..][part - n..];
    assert decoded[|decoded| - n..] == decoded[|decoded| - part..][part - n..];
    assert line == line[..end] + line[end..];
  }

  lemma StartSearch(n: Newline, line: string)
    ensures SearchedTo(n, line, 0) && EndOf(n, line[..0]).None?
  {
  }

  lemma SearchedFurther(n: Newline, line: string, more: string, start: nat)
    requires start <= |line| && SearchedTo(n, line, start)
    ensures SearchedTo(n, line + more, start)
  {
    assert (line + more)[..start] == line[..start];
  }

  lemma LineAtEof(n: Newline, size: int, line: string)
    requires Proper(n) && EndOf(n, line).None? && (size < 0 || size > |line|)
    ensures LineLength(n, size, line) == |line|
  {
  }

  /** The end found in the characters read so far is the end of the line, and lies in the last
      piece of decoded text: the rewind stays in bounds. */
  lemma FoundEnd(n: Newline, size: int, line: string, rest: string, endpos: int, part: nat)
    requires Proper(n) && part <= |line| && (part == 0 ==> line == "")
    requires EndOf(n, line[..|line| - part]).None?
    requires size < 0 || |line| - part < size || |line| == part
    requires EndOf(n, line) == Some(endpos) || (EndOf(n, line).None? && 0 <= size <= |line| && endpos == size)
    requires n.Untranslated? ==> CleanSeam(line, rest)
    ensures 0 <= endpos <= |line|
    ensures var e := if size >= 0 && endpos > size then size else endpos;
            e == LineLength(n, size, line + rest) && |line| - e <= part
  {
    assert line == line[..|line| - part] + line[|line| - part..];
    EndBeyond(n, line[..|line| - part], line[|line| - part..]);
    if EndOf(n, line).Some? {
      EndStable(n, line, rest);
    } else {
      EndBeyond(n, line, rest);
    }
  }

  lemma WalkOne(c: Codec, f: nat, input: seq<Byte>, skip: nat, i: nat)
    requires GoodCodec(c) && c.ok(Bare(f)) && skip <= i < |input|
    ensures var d := c.step(Bare(f), input[skip..i], false);
            var e := c.step(d.state, input[i..i + 1], false);
            c.step(Bare(f), input[skip..i + 1], false) == Decoded(e.state, d.out + e.out)
  {
    assert SplitsAt(c, Bare(f), input[skip..i], input[i..i + 1], false);
    assert input[skip..i] + input[i..i + 1] == input[skip..i + 1];
  }

  /** Unlimited readline until the empty string: the lines are those of the remaining text. */
  method ReadLines(f: TextIOWrapper) returns (lines: seq<string>)
    requires f.Valid()
    modifies f, f.buffer, f.buffer.raw
    ensures f.Valid() && f.Rest() == ""
    ensures lines == SplitLines(f.newline, old(f.Rest()))
    decreases |f.Rest()|
  {
    hide LineLength;
    var line := f.ReadLine(-1);
    LineLengthNotZero(f.newline, old(f.Rest()));
    if line == "" {
      return [];
    }
    assert old(f.Rest())[..|line|] == line && old(f.Rest())[|line|..] == f.Rest();
    var rest := ReadLines(f);
    lines := [line] + rest;
  }

  lemma LineLengthNotZero(n: Newline, t: string)
    requires Proper(n)
    ensures LineLength(n, -1, t) == 0 <==> t == ""
  {
  }
}
