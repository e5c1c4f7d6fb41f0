/** IncrementalNewlineDecoder: universal newlines on top of another decoder. */
module NewlineDecoders {
  import opened RawStreams
  import opened Codecs

  // ----- What one-shot decoding means

  /** The text behind its first unit, where CR LF counts as one unit. */
  function Tail(t: string): (r: string)
    requires t != ""
    ensures |r| < |t|
  {
    if t[0] == '\r' && StartsWithLF(t[1..]) then t[2..] else t[1..]
  }

  /** Universal newline translation: CR LF and lone CR both become LF. */
  function Universal(t: string): string
    decreases |t|
  {
    if t == "" then "" else [if t[0] == '\r' then '\n' else t[0]] + Universal(Tail(t))
  }

  /** Which of the three newline kinds a text holds. */
  datatype Kinds = Kinds(lf: bool, cr: bool, crlf: bool)

  function Union(a: Kinds, b: Kinds): Kinds
  {
    Kinds(a.lf || b.lf, a.cr || b.cr, a.crlf || b.crlf)
  }

  function FirstKind(t: string): Kinds
    requires t != ""
  {
    var pair := t[0] == '\r' && StartsWithLF(t[1..]);
    Kinds(t[0] == '\n', t[0] == '\r' && !pair, pair)
  }

  function KindsIn(t: string): Kinds
    decreases |t|
  {
    if t == "" then Kinds(false, false, false) else Union(FirstKind(t), KindsIn(Tail(t)))
  }

  /** The seam between two texts does not cut a CR LF. */
  predicate CleanSeam(a: string, b: string)
  {
    !(EndsWithCR(a) && StartsWithLF(b))
  }

  lemma TailSplit(a: string, b: string)
    requires CleanSeam(a, b) && a != ""
    ensures Tail(a + b) == Tail(a) + b && FirstKind(a + b) == FirstKind(a) && (a + b)[0] == a[0]
    ensures CleanSeam(Tail(a), b)
  {
    assert (a + b)[1..] == a[1..] + b;
  }

  lemma {:induction false} UniversalSplit(a: string, b: string)
    requires CleanSeam(a, b)
    ensures Universal(a + b) == Universal(a) + Universal(b)
    ensures KindsIn(a + b) == Union(KindsIn(a), KindsIn(b))
    decreases |a|
  {
    hide Tail, FirstKind;
    if a == "" {
      assert a + b == b;
    } else {
      TailSplit(a, b);
      UniversalSplit(Tail(a), b);
    }
  }

  /** What the translation does with the first CR of a text and the CR LF it may begin; text
      without a CR stays as it is. */
  lemma UniversalMeans(a: string, b: string)
    requires '\r' !in a
    ensures Universal(a) == a
    ensures Universal(a + ("\r\n" + b)) == a + ("\n" + Universal(b))
    ensures !StartsWithLF(b) ==> Universal(a + ("\r" + b)) == a + ("\n" + Universal(b))
  {
    UniversalIdle(a);
    UniversalSplit(a, "\r\n" + b);
    UniversalSplit(a, "\r" + b);
    assert ("\r\n" + b)[1..][1..] == b && ("\r\n" + b)[2..] == b;
    assert ("\r" + b)[1..] == b;
  }

  lemma {:induction false} UniversalIdle(a: string)
    requires '\r' !in a
    ensures Universal(a) == a
  {
    if a != "" {
      assert Tail(a) == a[1..];
      UniversalIdle(a[1..]);
      assert a == [a[0]] + a[1..];
    }
  }

  /** The unit that starts at index i holds this kind: a CR LF counts where its CR stands. */
  function KindAt(t: string, i: nat): Kinds
    requires i < |t|
  {
    Kinds(t[i] == '\n' && (i == 0 || t[i - 1] != '\r'),
          t[i] == '\r' && (i == |t| - 1 || t[i + 1] != '\n'),
          t[i] == '\r' && i < |t| - 1 && t[i + 1] == '\n')
  }

  lemma KindAtStart(t: string)
    requires t != ""
    ensures KindAt(t, 0) == FirstKind(t)
    ensures |t| - |Tail(t)| == 1 || (|t| - |Tail(t)| == 2 && KindAt(t, 1) == Kinds(false, false, false))
    ensures KindsIn(t) == Union(FirstKind(t), KindsIn(Tail(t)))
  {
  }

  lemma KindAtLater(t: string, i: nat)
    requires t != "" && |t| - |Tail(t)| <= i < |t|
    ensures KindAt(t, i) == KindAt(Tail(t), i - (|t| - |Tail(t)|))
  {
    assert forall n :: 0 <= n < |Tail(t)| ==> Tail(t)[n] == t[n + (|t| - |Tail(t)|)];
  }

  /** Which kinds a text holds, by where its CR and LF stand. */
  lemma {:induction false} KindsMean(t: string)
    ensures KindsIn(t).lf <==> exists i :: 0 <= i < |t| && KindAt(t, i).lf
    ensures KindsIn(t).cr <==> exists i :: 0 <= i < |t| && KindAt(t, i).cr
    ensures KindsIn(t).crlf <==> exists i :: 0 <= i < |t| && KindAt(t, i).crlf
    decreases |t|
  {
    if t != "" {
      hide KindsIn, Tail, FirstKind, KindAt;
      var k := |t| - |Tail(t)|;
      KindsMean(Tail(t));
      KindAtStart(t);
      forall i | k <= i < |t| ensures KindAt(t, i) == KindAt(Tail(t), i - k) {
        KindAtLater(t, i);
      }
      assert forall i :: 0 <= i < |Tail(t)| ==> KindAt(Tail(t), i) == KindAt(t, i + k);
    }
  }

  // ----- str.count and str.replace as the decoder uses them

  function Count(t: string, c: char): nat
  {
    if t == "" then 0 else (if t[0] == c then 1 else 0) + Count(t[1..], c)
  }

  function CountCRLF(t: string): nat
  {
    if |t| < 2 then 0
    else if t[0] == '\r' && t[1] == '\n' then 1 + CountCRLF(t[2..])
    else CountCRLF(t[1..])
  }

  function ReplaceCRLF(t: string): string
  {
    if |t| < 2 then t
    else if t[0] == '\r' && t[1] == '\n' then "\n" + ReplaceCRLF(t[2..])
    else [t[0]] + ReplaceCRLF(t[1..])
  }

  function ReplaceCR(t: string): string
  {
    if t == "" then "" else [if t[0] == '\r' then '\n' else t[0]] + ReplaceCR(t[1..])
  }

  lemma {:induction false} CountsAgree(t: string)
    ensures CountCRLF(t) <= Count(t, '\r') && CountCRLF(t) <= Count(t, '\n')
    ensures KindsIn(t) == Kinds(Count(t, '\n') - CountCRLF(t) > 0, Count(t, '\r') - CountCRLF(t) > 0,
                                CountCRLF(t) > 0)
    decreases |t|
  {
    if |t| == 1 {
      assert t[1..] == "";
    } else if |t| > 1 {
      if t[0] == '\r' && t[1] == '\n' {
        CountsAgree(t[2..]);
        assert t[1..][1..] == t[2..];
      } else {
        CountsAgree(t[1..]);
      }
    }
  }

  /** The two guarded replacements are the one-pass translation. */
  function TranslateAsCoded(t: string): string
  {
    var crlf := CountCRLF(t);
    var cr := Count(t, '\r') - crlf;
    var once := if crlf != 0 then ReplaceCRLF(t) else t;
    if cr != 0 then ReplaceCR(once) else once
  }

  lemma {:induction false} TwoPasses(t: string)
    ensures ReplaceCR(ReplaceCRLF(t)) == Universal(t)
    ensures CountCRLF(t) == 0 ==> ReplaceCRLF(t) == t
    ensures CountCRLF(t) <= Count(t, '\r')
    ensures Count(t, '\r') == CountCRLF(t) ==> '\r' !in ReplaceCRLF(t)
    decreases |t|
  {
    if |t| == 1 {
      assert t[1..] == "";
      assert t == [t[0]];
    } else if |t| > 1 {
      if t[0] == '\r' && t[1] == '\n' {
        TwoPasses(t[2..]);
        assert t[1..][1..] == t[2..];
        var rest := ReplaceCRLF(t[2..]);
        assert ("\n" + rest)[1..] == rest;
      } else {
        TwoPasses(t[1..]);
        var rest := ReplaceCRLF(t[1..]);
        assert ([t[0]] + rest)[1..] == rest;
        assert t == [t[0]] + t[1..];
      }
    }
  }

  lemma {:induction false} ReplaceCRIdle(t: string)
    requires '\r' !in t
    ensures ReplaceCR(t) == t
  {
    if t != "" {
      ReplaceCRIdle(t[1..]);
      assert t == [t[0]] + t[1..];
    }
  }

  lemma TranslateIsUniversal(t: string)
    ensures TranslateAsCoded(t) == Universal(t)
  {
    TwoPasses(t);
    if Count(t, '\r') == CountCRLF(t) {
      ReplaceCRIdle(ReplaceCRLF(t));
    }
  }

  lemma {:induction false} UniversalHasNoCR(t: string)
    ensures '\r' !in Universal(t)
    decreases |t|
  {
    if t != "" {
      UniversalHasNoCR(Tail(t));
    }
  }

  // ----- One step of the decoder on the text its inner decoder produced

  datatype Held = Held(pending: bool, text: string)

  /** A trailing CR is held back until the next text or the end; `text` is what is let through. */
  function Hold(pending: bool, output: string, final: bool): Held
  {
    var release := pending && (output != "" || final);
    var full := if release then "\r" + output else output;
    if EndsWithCR(full) && !final then Held(true, full[..|full| - 1])
    else Held(pending && !release, full)
  }

  function CR(pending: bool): string { if pending then "\r" else "" }

  /** Text let through plus the CR held back is all the text so far; what is let through never
      ends between CR and LF. */
  lemma HoldKeepsText(pending: bool, output: string, final: bool)
    ensures var h := Hold(pending, output, final);
            && h.text + CR(h.pending) == CR(pending) + output
            && (final ==> !h.pending)
            && (EndsWithCR(h.text) && !final ==> h.pending)
            && (pending && h.text != "" ==> h.text[0] == '\r')
            && (pending && h.text == "" && !final ==> h.pending)
  {
  }

  /** Holding over two texts is holding over their concatenation. */
  lemma HoldSplit(pending: bool, a: string, b: string, final: bool)
    ensures var h := Hold(pending, a, false);
            var k := Hold(h.pending, b, final);
            && Hold(pending, a + b, final) == Held(k.pending, h.text + k.text)
            && CleanSeam(h.text, k.text)
  {
    var h := Hold(pending, a, false);
    var k := Hold(h.pending, b, final);
    var whole := Hold(pending, a + b, final);
    HoldKeepsText(pending, a, false);
    HoldKeepsText(h.pending, b, final);
    HoldKeepsText(pending, a + b, final);
    HoldPending(pending, a, b, final);
    hide Hold;
    assert CR(pending) + (a + b) == CR(pending) + a + b == h.text + CR(h.pending) + b;
    assert h.text + k.text + CR(k.pending) == h.text + (k.text + CR(k.pending)) == h.text + (CR(h.pending) + b);
    Unappend(h.text + k.text, whole.text, CR(k.pending));
  }

  lemma HoldPending(pending: bool, a: string, b: string, final: bool)
    ensures Hold(pending, a + b, final).pending == Hold(Hold(pending, a, false).pending, b, final).pending
  {
    if b == "" {
      assert a + b == a;
    } else {
      assert EndsWithCR(a + b) == EndsWithCR(b);
    }
  }

  lemma Unappend(x: string, y: string, z: string)
    requires x + z == y + z
    ensures x == y
  {
    assert x == (x + z)[..|x|];
    assert y == (y + z)[..|y|];
  }

  function Shown(translate: bool, text: string): string
  {
    if translate then Universal(text) else text
  }

  // ----- The decoder as a codec over its inner codec

  /** Flags carry the held CR in the lowest bit. */
  function NewlineStep(inner: Codec, translate: bool, s: DecState, input: seq<Byte>, final: bool): Decoded
  {
    var d := inner.step(DecState(s.buf, s.flags / 2), input, final);
    var h := Hold(s.flags % 2 == 1, d.out, final);
    Decoded(DecState(d.state.buf, 2 * d.state.flags + if h.pending then 1 else 0), Shown(translate, h.text))
  }

  function NewlineCodec(inner: Codec, translate: bool): Codec
  {
    Codec((s: DecState, input: seq<Byte>, final: bool) => NewlineStep(inner, translate, s, input, final),
          (s: DecState) => inner.ok(DecState(s.buf, s.flags / 2)))
  }

  lemma NewlineSplits(inner: Codec, translate: bool, s: DecState, x: seq<Byte>, y: seq<Byte>, final: bool)
    requires GoodCodec(inner) && NewlineCodec(inner, translate).ok(s)
    ensures SplitsAt(NewlineCodec(inner, translate), s, x, y, final)
    ensures !translate ==> !SplitsCRLF(NewlineCodec(inner, translate), s, x, y, final)
  {
    hide Hold, Universal, KindsIn, Replays, StepsWell, Drained;
    var c, i := NewlineCodec(inner, translate), DecState(s.buf, s.flags / 2);
    assert SplitsAt(inner, i, x, y, final);
    var first := inner.step(i, x, false);
    var second := inner.step(first.state, y, final);
    HoldSplit(s.flags % 2 == 1, first.out, second.out, final);
    var h := Hold(s.flags % 2 == 1, first.out, false);
    var k := Hold(h.pending, second.out, final);
    UniversalSplit(h.text, k.text);
    assert c.step(s, x, false).out == Shown(translate, h.text);
    assert c.step(c.step(s, x, false).state, y, final)
        == Decoded(DecState(second.state.buf, 2 * second.state.flags + if k.pending then 1 else 0), Shown(translate, k.text));
  }

  lemma NewlineReplays(inner: Codec, translate: bool, s: DecState)
    requires GoodCodec(inner) && NewlineCodec(inner, translate).ok(s)
    ensures Replays(NewlineCodec(inner, translate), s)
  {
    assert Replays(inner, DecState(s.buf, s.flags / 2));
  }

  lemma NewlineFresh(inner: Codec, translate: bool)
    requires GoodCodec(inner)
    ensures NewlineCodec(inner, translate).ok(FRESH) && Drained(NewlineCodec(inner, translate), FRESH)
  {
  }

  lemma NewlineStepsWell(inner: Codec, translate: bool, s: DecState, x: seq<Byte>, final: bool)
    requires GoodCodec(inner) && NewlineCodec(inner, translate).ok(s)
    ensures StepsWell(NewlineCodec(inner, translate), s, x, final)
  {
    assert StepsWell(inner, DecState(s.buf, s.flags / 2), x, final);
  }

  /** The wrapper meets the decoder contract whenever its inner decoder does. */
  lemma NewlineKeepsContract(inner: Codec, translate: bool)
    requires GoodCodec(inner)
    ensures GoodCodec(NewlineCodec(inner, translate))
  {
    hide NewlineStep, Replays, StepsWell, SplitsAt;
    var c := NewlineCodec(inner, translate);
    NewlineFresh(inner, translate);
    forall s | c.ok(s) ensures Replays(c, s) {
      NewlineReplays(inner, translate, s);
    }
    forall s, x, final | c.ok(s) ensures StepsWell(c, s, x, final) {
      NewlineStepsWell(inner, translate, s, x, final);
    }
    forall s, x, y, final | c.ok(s) ensures SplitsAt(c, s, x, y, final) {
      NewlineSplits(inner, translate, s, x, y, final);
    }
  }

  /** Under the wrapper CR LF stays in one piece, and a translating one lets no CR through. */
  lemma NewlineKeepsCRLF(inner: Codec, translate: bool)
    requires GoodCodec(inner)
    ensures KeepsCRLF(NewlineCodec(inner, translate))
    ensures translate ==> NeverCR(NewlineCodec(inner, translate))
  {
    hide Hold, Universal;
    var c := NewlineCodec(inner, translate);
    forall s, x, final | c.ok(s) && translate ensures '\r' !in c.step(s, x, final).out {
      NewlineNeverCR(inner, s, x, final);
    }
    forall s, x, y, final | c.ok(s) ensures !SplitsCRLF(c, s, x, y, final) {
      NewlineSplits(inner, translate, s, x, y, final);
      NewlineNeverCR(inner, s, x, false);
    }
  }

  lemma NewlineNeverCR(inner: Codec, s: DecState, x: seq<Byte>, final: bool)
    ensures '\r' !in NewlineStep(inner, true, s, x, final).out
  {
    var d := inner.step(DecState(s.buf, s.flags / 2), x, final);
    UniversalHasNoCR(Hold(s.flags % 2 == 1, d.out, final).text);
  }

  // ----- The class

  class IncrementalNewlineDecoder {
    const translate: bool
    const decoder: Decoder?
    var seennl: Kinds
    var pendingcr: bool

    constructor (decoder: Decoder?, translate: bool)
      ensures this.decoder == decoder && this.translate == translate
      ensures !pendingcr && seennl == Kinds(false, false, false)
    {
      this.decoder, this.translate := decoder, translate;
      seennl, pendingcr := Kinds(false, false, false), false;
    }

    /** getstate: the inner buffer, and the inner flags shifted to make room for pendingcr. */
    function GetState(): DecState
      reads this, decoder
    {
      var inner := if decoder == null then FRESH else decoder.state;
      DecState(inner.buf, 2 * inner.flags + if pendingcr then 1 else 0)
    }

    method SetState(state: DecState)
      modifies this`pendingcr, decoder
      ensures decoder != null ==> GetState() == state
      ensures pendingcr == (state.flags % 2 == 1)
    {
      pendingcr := state.flags % 2 == 1;
      if decoder != null {
        decoder.state := DecState(state.buf, state.flags / 2);
      }
    }

    method Reset()
      modifies this`seennl, this`pendingcr, decoder
      ensures GetState() == FRESH && seennl == Kinds(false, false, false)
    {
      seennl, pendingcr := Kinds(false, false, false), false;
      if decoder != null {
        decoder.Reset();
      }
    }

    /** decode, when there is an inner decoder: one step of NewlineCodec. */
    method Decode(input: seq<Byte>, final: bool) returns (out: string)
      requires decoder != null
      modifies this`seennl, this`pendingcr, decoder
      ensures NewlineStep(decoder.codec, translate, old(GetState()), input, final) == Decoded(GetState(), out)
      ensures var inner := decoder.codec.step(old(decoder.state), input, final).out;
              seennl == Union(old(seennl), KindsIn(Hold(old(pendingcr), inner, final).text))
    {
      var output := decoder.Decode(input, final);
      out := DecodeText(output, final);
    }

    /** decode on text: all of it when there is no inner decoder. */
    method DecodeText(input: string, final: bool) returns (output: string)
      modifies this`seennl, this`pendingcr
      ensures var h := old(Hold(pendingcr, input, final));
              && output == (if translate then Universal(h.text) else h.text)
              && pendingcr == h.pending
              && seennl == Union(old(seennl), KindsIn(h.text))
    {
      hide Universal, KindsIn, Count, CountCRLF, ReplaceCRLF, ReplaceCR;
      output := input;
      if pendingcr && (output != "" || final) {
        output := "\r" + output;
        pendingcr := false;
      }
      // a CR at the end may be half of a CR LF, so it waits for what comes next
      if EndsWithCR(output) && !final {
        output := output[..|output| - 1];
        pendingcr := true;
      }
      var crlf := CountCRLF(output);
      var cr := Count(output, '\r') - crlf;
      var lf := Count(output, '\n') - crlf;
      CountsAgree(output);
      seennl := Union(seennl, Kinds(lf != 0, cr != 0, crlf != 0));
      if translate {
        TranslateIsUniversal(output);
        if crlf != 0 {
          output := ReplaceCRLF(output);
        }
        if cr != 0 {
          output := ReplaceCR(output);
        }
      }
    }
  }

  function Concat(parts: seq<string>): string
  {
    if parts == [] then "" else Concat(parts[..|parts| - 1]) + parts[|parts| - 1]
  }

  lemma ConcatSnoc(parts: seq<string>, last: string)
    ensures Concat(parts + [last]) == Concat(parts) + last
  {
    assert (parts + [last])[..|parts|] == parts;
  }

  lemma NothingYet()
    ensures Concat([]) == "" && Universal("") == "" && KindsIn("") == Kinds(false, false, false)
  {
  }

  /** What one more chunk does to the text let through so far. */
  lemma NextChunk(text: string, pending: bool, chunk: string, final: bool)
    requires EndsWithCR(text) ==> pending
    ensures var h := Hold(pending, chunk, final);
            && text + h.text + CR(h.pending) == text + CR(pending) + chunk
            && (EndsWithCR(text + h.text) && !final ==> h.pending)
            && (final ==> !h.pending)
            && CleanSeam(text, h.text)
            && Universal(text + h.text) == Universal(text) + Universal(h.text)
            && KindsIn(text + h.text) == Union(KindsIn(text), KindsIn(h.text))
  {
    hide Universal, KindsIn, Hold;
    var h := Hold(pending, chunk, final);
    HoldKeepsText(pending, chunk, final);
    UniversalSplit(text, h.text);
    assert text + h.text + CR(h.pending) == text + (h.text + CR(h.pending)) == text + (CR(pending) + chunk);
  }

  /** Chunking does not matter: from a fresh decoder, for every way to cut a text into chunks
      (the last one final), the outputs concatenate to the one-shot result, the recorded kinds
      are those of the whole text, and no CR LF is cut between two outputs. */
  method DecodeChunks(chunks: seq<string>, translate: bool) returns (outs: seq<string>, seen: Kinds)
    requires chunks != []
    ensures |outs| == |chunks|
    ensures Concat(outs) == if translate then Universal(Concat(chunks)) else Concat(chunks)
    ensures seen == KindsIn(Concat(chunks))
    ensures !translate ==> forall i :: 0 < i < |outs| ==> CleanSeam(Concat(outs[..i]), outs[i])
  {
    hide Hold, Universal, KindsIn, Concat;
    NothingYet();
    var d := new IncrementalNewlineDecoder(null, translate);
    outs := [];
    ghost var text := "";          // let through so far, before translation
    for n := 0 to |chunks|
      invariant d.translate == translate && d.decoder == null && fresh(d)
      invariant |outs| == n
      invariant text + CR(d.pendingcr) == Concat(chunks[..n])
      invariant n < |chunks| ==> EndsWithCR(text) ==> d.pendingcr
      invariant n == |chunks| ==> !d.pendingcr
      invariant Concat(outs) == Shown(translate, text)
      invariant d.seennl == KindsIn(text)
      invariant !translate ==> forall i :: 0 < i < n ==> CleanSeam(Concat(outs[..i]), outs[i])
    {
      NextChunk(text, d.pendingcr, chunks[n], n + 1 == |chunks|);
      ConcatSnoc(chunks[..n], chunks[n]);
      assert chunks[..n] + [chunks[n]] == chunks[..n + 1];
      ghost var h := Hold(d.pendingcr, chunks[n], n + 1 == |chunks|);
      var out := d.DecodeText(chunks[n], n + 1 == |chunks|);
      assert out == Shown(translate, h.text);
      ConcatSnoc(outs, out);
      ghost var before := outs;
      outs := outs + [out];
      text := text + h.text;
      forall i | 0 < i < n + 1 && !translate
        ensures CleanSeam(Concat(outs[..i]), outs[i])
      {
        assert outs[..i] == before[..i];
        assert before[..n] == before;
      }
    }
    assert chunks[..|chunks|] == chunks && text + "" == text;
    seen := d.seennl;
  }
}
