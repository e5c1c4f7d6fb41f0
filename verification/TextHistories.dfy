/** Runs of calls on a text stream: cookies stay good while the file does. */
module TextHistories {
  import opened Basics
  import opened Bits
  import opened RawStreams
  import opened BufferedReaders
  import opened Codecs
  import opened NewlineDecoders
  import opened TextCookies
  import opened TellSearch
  import opened TextIOWrappers
  import opened Lines

  /** Calls of a history. `Mark` is tell, keeping the cookie; `Back(i)` is seek to the i-th cookie
      kept, and nothing if there is none; `Here` is seek(0, 1), that is seek(tell()); `Start` is
      seek(0). */
  datatype Op = Chars(n: nat) | Line(size: int) | All | ToEnd | Start | Here(guess: nat) | Mark(guess: nat) | Back(i: nat)

  predicate Reads(op: Op)
  {
    op.Chars? || op.Line? || op.All?
  }

  /** How much of the remaining text a reading call takes. */
  function Taken(n: Newline, op: Op, t: string): (k: nat)
    requires Proper(n)
    ensures k <= |t|
  {
    match op
    case Chars(m) => Min(m, |t|)
    case Line(size) => LineLength(n, size, t)
    case All => |t|
    case _ => 0
  }

  /** The text left after a call, when `t` was left before, `whole` is the text of the file and
      `marks` was left at the times of the cookies kept. */
  function Left(n: Newline, whole: string, op: Op, t: string, marks: seq<string>): string
    requires Proper(n)
  {
    match op
    case ToEnd => ""
    case Start => whole
    case Back(i) => if i < |marks| then marks[i] else t
    case _ => t[Taken(n, op, t)..]
  }

  function Marked(op: Op, t: string, marks: seq<string>): seq<string>
  {
    if op.Mark? then marks + [t] else marks
  }

  /** What the calls of a run return, in terms of texts alone: each reading call gives the next piece,
      and seeking goes back to where the text was. */
  function Pieces(n: Newline, whole: string, ops: seq<Op>, t: string, marks: seq<string>): (texts: seq<string>)
    requires Proper(n)
    ensures |texts| == |ops|
  {
    if ops == [] then []
    else
      [t[..Taken(n, ops[0], t)]]
      + Pieces(n, whole, ops[1..], Left(n, whole, ops[0], t, marks), Marked(ops[0], t, marks))
  }

  lemma FirstPiece(n: Newline, whole: string, ops: seq<Op>, t: string, marks: seq<string>)
    requires Proper(n)
    ensures ops == [] ==> Pieces(n, whole, ops, t, marks) == []
    ensures ops != [] ==>
              Pieces(n, whole, ops, t, marks)
              == [t[..Taken(n, ops[0], t)]]
                 + Pieces(n, whole, ops[1..], Left(n, whole, ops[0], t, marks), Marked(ops[0], t, marks))
  {
  }

  /** The cookies kept stand for the texts left when they were taken. */
  ghost predicate Stand(c: Codec, content: seq<Byte>, cookies: seq<nat>, marks: seq<string>)
  {
    && |cookies| == |marks|
    && forall i :: 0 <= i < |cookies| ==> StandsFor(c, content, cookies[i], marks[i])
  }

  ghost predicate StandsFor(c: Codec, content: seq<Byte>, cookie: nat, text: string)
  {
    Replayable(c, content, Unpack(cookie)) && Meaning(c, content, Unpack(cookie)) == text
  }

  /** The numbers a cookie is made of fit their slots. */
  predicate Small(f: TextIOWrapper)
    reads f, f.buffer, f.buffer.raw
  {
    f.buffer.Position() < Pow2(64) && |f.decodedChars| < Pow2(64)
  }

  ghost predicate SmallFlags(c: Codec)
  {
    forall s :: c.ok(s) ==> s.flags < Pow2(64)
  }

  function InRange(f: TextIOWrapper, guess: nat): (g: nat)
    reads f
    ensures f.snapshot.Some? ==> g <= |f.snapshot.value.input|
  {
    if f.snapshot.None? then guess else Min(guess, |f.snapshot.value.input|)
  }

  /** tell, and what its cookie stands for. */
  method TakeCookie(f: TextIOWrapper, guess: nat) returns (cookie: nat)
    requires f.Valid() && Small(f) && SmallFlags(f.codec)
    modifies f
    ensures f.Valid() && f.Rest() == old(f.Rest())
    ensures StandsFor(f.codec, f.buffer.raw.content, cookie, f.Rest())
  {
    hide Pow2, StateOk, GoodCodec, KeepsCRLF, Meaning, Replayable;
    ghost var k;
    cookie, k := f.Tell(InRange(f, guess));
    FlagsFit(f.codec, f.buffer.raw.content, k);
    UnpackPack(k);
  }

  lemma FlagsFit(c: Codec, content: seq<Byte>, k: Cookie)
    requires Replayable(c, content, k) && SmallFlags(c)
    ensures k.decFlags < Pow2(64)
  {
    assert c.ok(Bare(k.decFlags));
  }

  method Read(f: TextIOWrapper, op: Op) returns (text: string)
    requires f.Valid() && Reads(op)
    modifies f, f.buffer, f.buffer.raw
    ensures f.Valid() && f.buffer.raw.content == old(f.buffer.raw.content)
    ensures var t := old(f.Rest()); var k := Taken(f.newline, op, t); text == t[..k] && f.Rest() == t[k..]
  {
    hide StateOk, GoodCodec, KeepsCRLF, LineLength, TextIOWrapper.Rest;
    match op {
      case Chars(n) => text := f.Read(n);
      case Line(size) => text := f.ReadLine(size);
      case All => text := f.ReadAll();
    }
  }

  /** The calls that return no text; cookies may be kept and followed. */
  method Move(f: TextIOWrapper, op: Op, cookies: seq<nat>, ghost whole: string, ghost marks: seq<string>)
    returns (kept: seq<nat>)
    requires f.Valid() && !Reads(op) && (op.Here? || op.Mark? ==> Small(f)) && SmallFlags(f.codec)
    requires whole == TextFrom(f.codec, FRESH, f.buffer.raw.content)
    requires Stand(f.codec, f.buffer.raw.content, cookies, marks)
    modifies f, f.buffer, f.buffer.raw
    ensures f.Valid() && f.buffer.raw.content == old(f.buffer.raw.content)
    ensures f.Rest() == Left(f.newline, whole, op, old(f.Rest()), marks)
    ensures Stand(f.codec, f.buffer.raw.content, kept, Marked(op, old(f.Rest()), marks))
  {
    hide StateOk, GoodCodec, KeepsCRLF, TextIOWrapper.Rest, TextIOWrapper.Configured, BufferedReader.Valid, Followable,
         Enough, Meaning, TextFrom, Small, SmallFlags, Unpack, From;
    kept := cookies;
    match op {
      case ToEnd =>
        var _ := f.SeekEnd();
      case Start =>
        ZeroStands(f, whole);
        FollowableFirst(f.codec, f.buffer.raw.content, Unpack(0));
        var _ := f.Seek(0);
      case Here(guess) =>
        var cookie := TakeCookie(f, guess);
        FollowableFirst(f.codec, f.buffer.raw.content, Unpack(cookie));
        var _ := f.Seek(cookie);
      case Mark(guess) =>
        var cookie := TakeCookie(f, guess);
        kept := cookies + [cookie];
      case Back(i) =>
        if i < |cookies| {
          assert StandsFor(f.codec, f.buffer.raw.content, cookies[i], marks[i]);
          FollowableFirst(f.codec, f.buffer.raw.content, Unpack(cookies[i]));
          var _ := f.Seek(cookies[i]);
        }
    }
  }

  lemma ZeroStands(f: TextIOWrapper, whole: string)
    requires f.Valid() && whole == TextFrom(f.codec, FRESH, f.buffer.raw.content)
    ensures StandsFor(f.codec, f.buffer.raw.content, 0, whole)
  {
    ZeroMeansAll(f.codec, f.buffer.raw.content);
  }

  lemma FollowableFirst(c: Codec, content: seq<Byte>, k: Cookie)
    requires Replayable(c, content, k)
    ensures Followable(c, content, k)
  {
  }

  /** Any history of reading, telling and seeking returns the pieces of the text that it should:
      cookies lead back to where they were taken, as often as they are followed, and whatever is
      read, told or sought in between. It stops at a tell whose numbers do not fit their slots. */
  method Roam(f: TextIOWrapper, ops: seq<Op>, cookies: seq<nat>, ghost whole: string, ghost marks: seq<string>)
    returns (texts: seq<string>)
    requires f.Valid() && SmallFlags(f.codec)
    requires whole == TextFrom(f.codec, FRESH, f.buffer.raw.content)
    requires Stand(f.codec, f.buffer.raw.content, cookies, marks)
    modifies f, f.buffer, f.buffer.raw
    ensures f.Valid() && f.buffer.raw.content == old(f.buffer.raw.content)
    ensures texts <= Pieces(f.newline, whole, ops, old(f.Rest()), marks)
    ensures |texts| < |ops| ==> (ops[|texts|].Here? || ops[|texts|].Mark?) && !Small(f)
    decreases |ops|
  {
    hide StateOk, GoodCodec, KeepsCRLF, Taken, Small, Pieces, SmallFlags, TextFrom, Stand, Left, Marked,
         TextIOWrapper.Rest, TextIOWrapper.Configured, BufferedReader.Valid;
    ghost var t := f.Rest();
    FirstPiece(f.newline, whole, ops, t, marks);
    if ops == [] || ((ops[0].Here? || ops[0].Mark?) && !Small(f)) {
      return [];
    }
    var text, kept := Step(f, ops[0], cookies, whole, marks);
    var rest := Roam(f, ops[1..], kept, whole, Marked(ops[0], t, marks));
    texts := [text] + rest;
  }

  /** One call of a history. */
  method Step(f: TextIOWrapper, op: Op, cookies: seq<nat>, ghost whole: string, ghost marks: seq<string>)
    returns (text: string, kept: seq<nat>)
    requires f.Valid() && (op.Here? || op.Mark? ==> Small(f)) && SmallFlags(f.codec)
    requires whole == TextFrom(f.codec, FRESH, f.buffer.raw.content)
    requires Stand(f.codec, f.buffer.raw.content, cookies, marks)
    modifies f, f.buffer, f.buffer.raw
    ensures f.Valid() && f.buffer.raw.content == old(f.buffer.raw.content)
    ensures text == old(f.Rest())[..Taken(f.newline, op, old(f.Rest()))]
    ensures f.Rest() == Left(f.newline, whole, op, old(f.Rest()), marks)
    ensures Stand(f.codec, f.buffer.raw.content, kept, Marked(op, old(f.Rest()), marks))
  {
    hide StateOk, GoodCodec, KeepsCRLF, LineLength, Small, SmallFlags, TextFrom, Stand, TextIOWrapper.Rest,
         TextIOWrapper.Configured, BufferedReader.Valid;
    if Reads(op) {
      text := Read(f, op);
      kept := cookies;
    } else {
      text := "";
      kept := Move(f, op, cookies, whole, marks);
    }
  }

  /** A cookie taken at any reading state leads back to the same remaining text after any further
      calls, as long as its numbers fit their slots. */
  method Bookmark(f: TextIOWrapper, guess: nat, ops: seq<Op>)
    requires f.Valid() && Small(f) && SmallFlags(f.codec)
    modifies f, f.buffer, f.buffer.raw
    ensures f.Valid() && f.Rest() == old(f.Rest())
  {
    hide StateOk, GoodCodec, KeepsCRLF, Followable, Enough, Meaning, TextFrom, Small, SmallFlags, Unpack, TextIOWrapper.Rest,
         TextIOWrapper.Configured, BufferedReader.Valid;
    var cookie := TakeCookie(f, guess);
    var _ := Roam(f, ops, [], TextFrom(f.codec, FRESH, f.buffer.raw.content), []);
    FollowableFirst(f.codec, f.buffer.raw.content, Unpack(cookie));
    var _ := f.Seek(cookie);
  }

  /** The whole stack: what is read from a file, over a raw stream that reads short, is all of it,
      decoded, and translated if the newline argument is None. */
  method ReadWholeText(content: seq<Byte>, replies: seq<Reply>, bufferSize: nat, chunkSize: nat, base: Codec,
                       newline: Newline)
    returns (text: string)
    requires bufferSize > 0 && chunkSize > 0 && GoodCodec(base) && Proper(newline)
    requires forall i :: 0 <= i < |replies| ==> replies[i].Short?
    ensures var t := base.step(FRESH, content, true).out; text == if newline.Translated? then Universal(t) else t
  {
    hide StateOk, GoodCodec, KeepsCRLF, Backed, Universal, CodecFor;
    var raw := new RawStream(content, replies, true);
    var buffer := new BufferedReader(raw, bufferSize);
    assert buffer.Ahead() == content;
    var f := new TextIOWrapper(buffer, base, newline, chunkSize, true);
    text := f.ReadAll();
  }

  /** Sixteen-bit text, with the newline characters as they are. */
  method ReadWideText(content: seq<Byte>, replies: seq<Reply>) returns (text: string)
    requires forall i :: 0 <= i < |replies| ==> replies[i].Short?
    ensures text == PAIRS.step(FRESH, content, true).out
  {
    PairsIsGood();
    text := ReadWholeText(content, replies, 16, 8, PAIRS, Untranslated);
  }
}
