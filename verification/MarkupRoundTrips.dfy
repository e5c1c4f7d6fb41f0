/** Well-formed comments and marked sections, written out as text, and the proof that the scanners
    accept each in full, whatever follows it. */
module MarkupRoundTrips {
  import opened Basics
  import opened MarkupSpec

  /** `p` stands at index j of s. */
  predicate Stands(s: string, j: nat, p: string)
  {
    j <= |s| && p <= s[j..]
  }

  lemma StandsSplit(s: string, j: nat, a: string, b: string)
    requires Stands(s, j, a + b)
    ensures Stands(s, j, a) && Stands(s, j + |a|, b)
    ensures forall i :: 0 <= i < |a| ==> s[j + i] == a[i]
  {
    assert s[j..][..|a|] == a;
    assert forall i :: 0 <= i < |a + b| ==> s[j..][i] == (a + b)[i];
    assert s[j + |a|..][..|b|] == b;
  }

  lemma StandsChar(s: string, j: nat, c: char, more: string)
    requires Stands(s, j, [c] + more)
    ensures j < |s| && s[j] == c && Stands(s, j + 1, more)
  {
    StandsSplit(s, j, [c], more);
    assert s[j] == s[j + 0];
  }

  lemma StandsFirst(s: string, j: nat, p: string)
    requires Stands(s, j, p) && p != ""
    ensures j < |s| && s[j] == p[0]
  {
    assert s[j] == s[j..][0];
  }

  // ----- Whitespace, letters and words

  /** The characters of names, and those of whitespace among the ASCII ones. */
  lemma Characters(c: char)
    ensures IsLetter(c) <==> c in "abcdefghijklmnopqrstuvwxyz" || c in "ABCDEFGHIJKLMNOPQRSTUVWXYZ"
    ensures IsNameChar(c) <==> IsLetter(c) || c in "0123456789" || c in "-_."
    ensures c as int < 128 ==> (IsSpace(c) <==> c in " \t\n\r\U{b}\U{c}" || c in "\U{1c}\U{1d}\U{1e}\U{1f}")
    ensures IsQuote(c) <==> c in "'\""
  {
  }

  /** Lower case, letter by letter. */
  lemma LowerMeans(t: string)
    ensures |Lower(t)| == |t|
    ensures forall i :: 0 <= i < |t| ==>
              Lower(t)[i] as int == t[i] as int + if 'A' <= t[i] <= 'Z' then 'a' as int - 'A' as int else 0
    ensures Lower("DOCTYPE") == Lower("DocType") == "doctype" && Lower("CDATA") == "cdata"
  {
  }

  predicate Blank(w: string)
  {
    forall i :: 0 <= i < |w| ==> IsSpace(w[i])
  }

  lemma {:induction false} SkipSpaceMeans(s: string, j: nat, k: nat)
    requires j <= |s|
    ensures SkipSpace(s, j) == k <==> j <= k <= |s| && Blank(s[j..k]) && (k < |s| ==> !IsSpace(s[k]))
    decreases |s| - j
  {
    if j < |s| && IsSpace(s[j]) {
      SkipSpaceMeans(s, j + 1, k);
      if j < k <= |s| {
        assert s[j..k] == [s[j]] + s[j + 1..k];
      }
    }
  }

  /** Whitespace, and then something else. */
  predicate Closed(gap: string, more: string)
  {
    Blank(gap) && more != "" && !IsSpace(more[0])
  }

  lemma GapScanned(s: string, j: nat, gap: string, more: string)
    requires Closed(gap, more) && Stands(s, j, gap + more)
    ensures SkipSpace(s, j) == j + |gap| && Stands(s, j + |gap|, more)
    ensures j + |gap| < |s| && s[j + |gap|] == more[0]
  {
    StandsSplit(s, j, gap, more);
    StandsFirst(s, j + |gap|, more);
    assert s[j..j + |gap|] == s[j..][..|gap|] == gap;
    SkipSpaceMeans(s, j, j + |gap|);
  }

  predicate IsWord(w: string)
  {
    w != "" && IsLetter(w[0]) && forall i :: 0 <= i < |w| ==> IsNameChar(w[i])
  }

  /** What may stand behind a word: whitespace or not, and then something that does not go on with it. */
  predicate Ends(gap: string, more: string)
  {
    Closed(gap, more) && (gap == "" ==> !IsNameChar(more[0]))
  }

  lemma {:induction false} SkipNameStops(s: string, j: nat, w: string)
    requires Stands(s, j, w) && (forall i :: 0 <= i < |w| ==> IsNameChar(w[i]))
    requires j + |w| < |s| && !IsNameChar(s[j + |w|])
    ensures SkipName(s, j) == j + |w|
    decreases |w|
  {
    if w != "" {
      assert s[j] == s[j..][0] == w[0];
      assert s[j + 1..] == s[j..][1..];
      SkipNameStops(s, j + 1, w[1..]);
    }
  }

  lemma SpaceIsNoNameChar(c: char)
    requires IsSpace(c)
    ensures !IsNameChar(c)
  {
  }

  lemma WordEnds(s: string, j: nat, w: string)
    requires IsWord(w) && Stands(s, j, w) && j + |w| < |s| && !IsNameChar(s[j + |w|])
    ensures IsLetter(s[j]) && SkipName(s, j + 1) == j + |w| && s[j..j + |w|] == w
  {
    assert s[j] == s[j..][0] == w[0];
    assert Stands(s, j + 1, w[1..]) by {
      assert s[j + 1..] == s[j..][1..];
    }
    SkipNameStops(s, j + 1, w[1..]);
    assert s[j..j + |w|] == s[j..][..|w|] == w;
  }

  /** A word is scanned up to what stands behind it and its whitespace. */
  lemma WordScanned(s: string, j: nat, w: string, gap: string, more: string)
    requires IsWord(w) && Ends(gap, more) && Stands(s, j, w + (gap + more))
    ensures ScanName(s, j) == Name(Lower(w), j + |w| + |gap|)
    ensures Stands(s, j + |w| + |gap|, more) && j + |w| + |gap| < |s| && s[j + |w| + |gap|] == more[0]
    ensures j < |s| && IsLetter(s[j])
  {
    hide SkipName, SkipSpace, IsLetter, IsNameChar, IsSpace;
    StandsSplit(s, j, w, gap + more);
    var k := j + |w|;
    GapScanned(s, k, gap, more);
    StandsFirst(s, k, gap + more);
    if gap != "" {
      SpaceIsNoNameChar(gap[0]);
    }
    WordEnds(s, j, w);
  }

  /** What a scan finds depends on the text from its start on. */
  lemma {:induction false} SkipSpaceShift(s: string, j: nat, k: nat)
    requires j + k <= |s|
    ensures SkipSpace(s, j + k) == j + SkipSpace(s[j..], k)
    decreases |s| - k
  {
    if j + k < |s| && IsSpace(s[j + k]) {
      SkipSpaceShift(s, j, k + 1);
    }
  }

  lemma {:induction false} MatchShift(s: string, j: nat, k: nat, pat: seq<Tok>)
    requires j + k <= |s|
    ensures MatchAt(s[j..], k, pat).None? <==> MatchAt(s, j + k, pat).None?
    ensures MatchAt(s[j..], k, pat).Some? ==> MatchAt(s, j + k, pat) == Some(j + MatchAt(s[j..], k, pat).value)
    decreases |pat|
  {
    hide SkipSpace;
    if pat != [] {
      SkipSpaceShift(s, j, k);
      if pat[0].Ws? {
        MatchShift(s, j, SkipSpace(s[j..], k), pat[1..]);
      } else if j + k < |s| {
        MatchShift(s, j, k + 1, pat[1..]);
      }
    }
  }

  lemma {:induction false} SearchShift(s: string, j: nat, k: nat, pat: seq<Tok>)
    requires j + k <= |s|
    ensures Search(s[j..], k, pat).None? <==> Search(s, j + k, pat).None?
    ensures var m := Search(s[j..], k, pat);
            m.Some? ==> Search(s, j + k, pat) == Some(Span(j + m.value.start, j + m.value.end))
    decreases |s| - k
  {
    hide MatchAt;
    MatchShift(s, j, k, pat);
    if j + k < |s| {
      SearchShift(s, j, k + 1, pat);
    }
  }

  // ----- The first match in a text that ends in a match

  lemma {:induction false} SpaceRun(s: string, j: nat)
    requires j <= |s|
    ensures forall i :: j <= i < SkipSpace(s, j) ==> IsSpace(s[i])
    decreases |s| - j
  {
    if j < |s| && IsSpace(s[j]) {
      SpaceRun(s, j + 1);
    }
  }

  /** search finds the place where the match starts if none starts before. */
  lemma {:induction false} SearchFinds(s: string, k: nat, pat: seq<Tok>, start: nat, end: nat)
    requires k <= start <= |s| && MatchAt(s, start, pat) == Some(end)
    requires forall i :: k <= i < start ==> MatchAt(s, i, pat).None?
    ensures Search(s, k, pat) == Some(Span(start, end))
    decreases start - k
  {
    hide MatchAt;
    if k < start {
      SearchFinds(s, k + 1, pat, start, end);
    }
  }

  lemma {:induction false} NothingFound(s: string, k: nat, pat: seq<Tok>, i: nat)
    requires k <= i <= |s| && Search(s, k, pat).None?
    ensures MatchAt(s, i, pat).None?
    decreases i - k
  {
    hide MatchAt;
    if k < i {
      NothingFound(s, k + 1, pat, i);
    }
  }

  /** A match starts at the end of the body, and none runs into it from the body. */
  ghost predicate ClosedAt(t: string, start: nat, pat: seq<Tok>, end: nat)
  {
    && start <= |t| && MatchAt(t, start, pat) == Some(end)
    && forall k :: 0 <= k < start && MatchAt(t, k, pat).Some? ==> MatchAt(t, k, pat).value <= start
  }

  /** The first match is the first one within the body, and the one behind it if the body holds none. */
  lemma FirstClose(body: string, t: string, pat: seq<Tok>, end: nat)
    requires body <= t && Closing(pat) && ClosedAt(t, |body|, pat, end)
    ensures Search(t, 0, pat)
         == if Search(body, 0, pat).Some? then Search(body, 0, pat) else Some(Span(|body|, end))
  {
    hide MatchAt, Search;
    if Search(body, 0, pat).Some? {
      SearchStable(body, t, 0, pat);
    } else {
      forall k | 0 <= k < |body| ensures MatchAt(t, k, pat).None? {
        NothingFound(body, 0, pat, k);
        MatchStable(body, t, k, pat);
      }
      SearchFinds(t, 0, pat, |body|, end);
    }
  }

  /** Where the first end is found in a text that stands at k in front of `n` closing characters:
      inside the text if it holds one, else these characters. */
  function FirstEnd(body: string, k: nat, n: nat, pat: seq<Tok>): (m: Span)
    requires n > 0
    ensures m.end <= k + |body| + n
    ensures m.end == k + |body| + n <==> Search(body, 0, pat).None?
    ensures m.end == k + |body| + n ==> m.start == k + |body|
  {
    match Search(body, 0, pat)
    case None => Span(k + |body|, k + |body| + n)
    case Some(m) => Span(k + m.start, k + m.end)
  }

  lemma FirstCloseAt(s: string, k: nat, body: string, n: nat, pat: seq<Tok>)
    requires n > 0 && Stands(s, k, body) && Closing(pat) && ClosedAt(s[k..], |body|, pat, |body| + n)
    ensures Search(s, k, pat) == Some(FirstEnd(body, k, n, pat))
  {
    hide MatchAt, Search, ClosedAt;
    FirstClose(body, s[k..], pat, |body| + n);
    SearchShift(s, k, 0, pat);
  }

  /** A text without ">" holds no end. */
  lemma NoGtNoEnd(body: string, pat: seq<Tok>)
    requires Closing(pat) && '>' !in body
    ensures Search(body, 0, pat).None?
  {
    if Search(body, 0, pat).Some? {
      SearchEndsAtGt(body, 0, pat);
    }
  }

  /** Two texts, one behind the other, seen from where the first starts. */
  lemma StandsBehind(s: string, j: nat, a: string, b: string)
    requires Stands(s, j, a + b)
    ensures Stands(s, j, a) && j + |a| + |b| <= |s| && s[j..j + |a|] == a && Stands(s[j..], |a|, b)
  {
    StandsSplit(s, j, a, b);
    assert s[j..][|a|..] == s[j + |a|..];
    assert s[j..j + |a|] == s[j..][..|a|];
  }

  lemma OpenerStands(s: string, i: nat, opener: string, more: string)
    requires Stands(s, i, opener + more)
    ensures i + |opener| <= |s| && opener <= s[i..] && Stands(s, i + |opener|, more)
  {
    StandsSplit(s, i, opener, more);
  }

  // ----- The three ends

  /** How a comment or section ends, with whitespace where the patterns allow it. */
  datatype Close = Hyphens(w: string) | Brackets(v: string, w: string) | Bracket(w: string)

  predicate GoodClose(c: Close)
  {
    Blank(c.w) && (c.Brackets? ==> Blank(c.v))
  }

  function RenderClose(c: Close): (r: string)
    ensures r != ""
  {
    match c
    case Hyphens(w) => "-" + ("-" + (w + ">"))
    case Brackets(v, w) => "]" + (v + ("]" + (w + ">")))
    case Bracket(w) => "]" + (w + ">")
  }

  function Pattern(c: Close): (pat: seq<Tok>)
    ensures Closing(pat)
  {
    match c
    case Hyphens(_) => COMMENT_CLOSE
    case Brackets(_, _) => SECTION_CLOSE
    case Bracket(_) => MS_SECTION_CLOSE
  }

  /** What the pattern of comment ends matches. */
  lemma CommentMatch(s: string, k: nat)
    requires k <= |s|
    ensures var m := MatchAt(s, k, COMMENT_CLOSE);
            m.Some? <==> k + 2 <= |s| && s[k] == '-' && s[k + 1] == '-'
                         && SkipSpace(s, k + 2) < |s| && s[SkipSpace(s, k + 2)] == '>'
    ensures var m := MatchAt(s, k, COMMENT_CLOSE);
            m.Some? ==> m.value == SkipSpace(s, k + 2) + 1
  {
    hide SkipSpace;
    var t1, t2, t3 := COMMENT_CLOSE[1..], COMMENT_CLOSE[2..], COMMENT_CLOSE[3..];
    assert t1[1..] == t2 && t2[1..] == t3 && t3[1..] == [];
    if k + 2 <= |s| {
      var e := SkipSpace(s, k + 2);
      assert MatchAt(s, k + 2, t2) == MatchAt(s, e, t3);
    }
  }

  /** A ">" behind whitespace from k on. */
  predicate GtBehind(s: string, k: nat)
    requires k <= |s|
  {
    SkipSpace(s, k) < |s| && s[SkipSpace(s, k)] == '>'
  }

  /** What the pattern of section ends matches. */
  lemma SectionMatch(s: string, k: nat)
    requires k <= |s|
    ensures var m := MatchAt(s, k, SECTION_CLOSE);
            m.Some? <==> k < |s| && s[k] == ']'
                         && var e := SkipSpace(s, k + 1); e < |s| && s[e] == ']' && GtBehind(s, e + 1)
    ensures var m := MatchAt(s, k, SECTION_CLOSE);
            m.Some? ==> m.value == SkipSpace(s, SkipSpace(s, k + 1) + 1) + 1
  {
    hide SkipSpace;
    var t1, t2, t3, t4 := SECTION_CLOSE[1..], SECTION_CLOSE[2..], SECTION_CLOSE[3..], SECTION_CLOSE[4..];
    assert t1[1..] == t2 && t2[1..] == t3 && t3[1..] == t4 && t4[1..] == [];
    if k < |s| {
      var e := SkipSpace(s, k + 1);
      assert MatchAt(s, k + 1, t1) == MatchAt(s, e, t2);
      if e < |s| {
        assert MatchAt(s, e + 1, t3) == MatchAt(s, SkipSpace(s, e + 1), t4);
      }
    }
  }

  /** What the pattern of Microsoft's section ends matches. */
  lemma MsSectionMatch(s: string, k: nat)
    requires k <= |s|
    ensures var m := MatchAt(s, k, MS_SECTION_CLOSE);
            m.Some? <==> k < |s| && s[k] == ']' && GtBehind(s, k + 1)
    ensures var m := MatchAt(s, k, MS_SECTION_CLOSE);
            m.Some? ==> m.value == SkipSpace(s, k + 1) + 1
  {
    hide SkipSpace;
    var t1, t2 := MS_SECTION_CLOSE[1..], MS_SECTION_CLOSE[2..];
    assert t1[1..] == t2 && t2[1..] == [];
    if k < |s| {
      assert MatchAt(s, k + 1, t1) == MatchAt(s, SkipSpace(s, k + 1), t2);
    }
  }

  /** Whitespace does not run over a character that is none. */
  lemma NoSpaceOver(s: string, j: nat, k: nat)
    requires j <= k < |s| && !IsSpace(s[k])
    ensures SkipSpace(s, j) <= k
  {
    SpaceRun(s, j);
  }

  lemma GtCloses(w: string)
    requires Blank(w)
    ensures Closed(w, ">")
  {
  }

  lemma CommentHere(t: string, start: nat, w: string)
    requires Blank(w) && Stands(t, start, RenderClose(Hyphens(w)))
    ensures MatchAt(t, start, COMMENT_CLOSE) == Some(start + |w| + 3)
    ensures start + 1 < |t| && t[start] == '-' && t[start + 1] == '-'
  {
    hide MatchAt, SkipSpace, Stands, Blank;
    GtCloses(w);
    StandsChar(t, start, '-', "-" + (w + ">"));
    StandsChar(t, start + 1, '-', w + ">");
    GapScanned(t, start + 2, w, ">");
    CommentMatch(t, start);
  }

  lemma NoEarlierComment(t: string, k: nat, start: nat)
    requires k < start && start + 1 < |t| && t[start] == '-' && t[start + 1] == '-'
    ensures MatchAt(t, k, COMMENT_CLOSE).Some? ==> MatchAt(t, k, COMMENT_CLOSE).value <= start
  {
    hide MatchAt, SkipSpace;
    CommentMatch(t, k);
    if k + 2 <= start {
      NoSpaceOver(t, k + 2, start);
    } else {
      NoSpaceOver(t, k + 2, start + 1);
    }
  }

  /** The rendered end is a match, and no other runs into it from before. */
  lemma CommentCloses(t: string, start: nat, w: string)
    requires Blank(w) && Stands(t, start, RenderClose(Hyphens(w)))
    ensures ClosedAt(t, start, COMMENT_CLOSE, start + |w| + 3)
  {
    hide MatchAt, SkipSpace, Stands;
    CommentHere(t, start, w);
    forall k | 0 <= k < start && MatchAt(t, k, COMMENT_CLOSE).Some?
      ensures MatchAt(t, k, COMMENT_CLOSE).value <= start
    {
      NoEarlierComment(t, k, start);
    }
  }

  /** A bracket, whitespace, and then something else. */
  lemma BracketThen(t: string, start: nat, v: string, more: string)
    requires Closed(v, more) && Stands(t, start, "]" + (v + more))
    ensures start < |t| && t[start] == ']' && SkipSpace(t, start + 1) == start + 1 + |v| < |t|
    ensures t[start + 1 + |v|] == more[0] && Stands(t, start + 1 + |v|, more)
  {
    hide SkipSpace, Stands, Closed;
    StandsChar(t, start, ']', v + more);
    GapScanned(t, start + 1, v, more);
  }

  lemma SectionAt(t: string, start: nat, second: nat, last: nat)
    requires start < |t| && t[start] == ']' && SkipSpace(t, start + 1) == second < |t| && t[second] == ']'
    requires SkipSpace(t, second + 1) == last < |t| && t[last] == '>'
    ensures MatchAt(t, start, SECTION_CLOSE) == Some(last + 1)
  {
    hide MatchAt, SkipSpace;
    SectionMatch(t, start);
  }

  lemma SectionHere(t: string, start: nat, v: string, w: string)
    requires Blank(v) && Blank(w) && Stands(t, start, RenderClose(Brackets(v, w)))
    ensures MatchAt(t, start, SECTION_CLOSE) == Some(start + |v| + |w| + 3)
    ensures start < |t| && t[start] == ']' && start + 1 + |v| < |t| && t[start + 1 + |v|] == ']'
    ensures SkipSpace(t, start + 1) == start + 1 + |v|
  {
    hide MatchAt, SkipSpace, Stands, Blank;
    var second := start + 1 + |v|;
    BracketThen(t, start, v, "]" + (w + ">"));
    BracketThen(t, second, w, ">");
    SectionAt(t, start, second, second + 1 + |w|);
  }

  /** No match from before reaches into the two brackets. */
  lemma NoEarlierSection(t: string, k: nat, start: nat, second: nat)
    requires k < start < second < |t| && t[start] == ']' && t[second] == ']' && SkipSpace(t, start + 1) == second
    ensures MatchAt(t, k, SECTION_CLOSE).Some? ==> MatchAt(t, k, SECTION_CLOSE).value <= start
  {
    hide MatchAt, SkipSpace;
    SectionMatch(t, k);
    NoSpaceOver(t, k + 1, start);
    var m := SkipSpace(t, k + 1);
    if m < start {
      NoSpaceOver(t, m + 1, start);
    }
  }

  lemma SectionCloses(t: string, start: nat, v: string, w: string)
    requires Blank(v) && Blank(w) && Stands(t, start, RenderClose(Brackets(v, w)))
    ensures ClosedAt(t, start, SECTION_CLOSE, start + |v| + |w| + 3)
  {
    hide MatchAt, SkipSpace, Stands;
    SectionHere(t, start, v, w);
    forall k | 0 <= k < start && MatchAt(t, k, SECTION_CLOSE).Some?
      ensures MatchAt(t, k, SECTION_CLOSE).value <= start
    {
      NoEarlierSection(t, k, start, start + 1 + |v|);
    }
  }

  lemma MsSectionCloses(t: string, start: nat, w: string)
    requires Blank(w) && Stands(t, start, RenderClose(Bracket(w)))
    ensures ClosedAt(t, start, MS_SECTION_CLOSE, start + |w| + 2)
  {
    hide MatchAt, SkipSpace, Stands, Blank;
    BracketThen(t, start, w, ">");
    MsSectionMatch(t, start);
    forall k | 0 <= k < start && MatchAt(t, k, MS_SECTION_CLOSE).Some?
      ensures MatchAt(t, k, MS_SECTION_CLOSE).value <= start
    {
      MsSectionMatch(t, k);
      NoSpaceOver(t, k + 1, start);
    }
  }

  lemma Closes(t: string, start: nat, c: Close)
    requires GoodClose(c) && Stands(t, start, RenderClose(c))
    ensures ClosedAt(t, start, Pattern(c), start + |RenderClose(c)|)
  {
    hide ClosedAt, Stands, Blank, Closing;
    match c {
      case Hyphens(w) => CommentCloses(t, start, w);
      case Brackets(v, w) => SectionCloses(t, start, v, w);
      case Bracket(w) => MsSectionCloses(t, start, w);
    }
  }

  /** Where the end behind a text is found. */
  lemma EndFound(s: string, j: nat, body: string, c: Close)
    requires GoodClose(c) && Stands(s, j, body + RenderClose(c))
    ensures j + |body| + |RenderClose(c)| <= |s| && s[j..j + |body|] == body
    ensures Search(s, j, Pattern(c)) == Some(FirstEnd(body, j, |RenderClose(c)|, Pattern(c)))
  {
    hide MatchAt, Search, ClosedAt, Stands, Closing, GoodClose, RenderClose, Pattern;
    StandsBehind(s, j, body, RenderClose(c));
    Closes(s[j..], |body|, c);
    FirstCloseAt(s, j, body, |RenderClose(c)|, Pattern(c));
  }

  // ----- Comments

  /** A comment as text. */
  function RenderComment(body: string, w: string): string
  {
    "<!--" + (body + RenderClose(Hyphens(w)))
  }

  /** A comment is scanned in full exactly when its text holds no end of a comment; otherwise the
      scan stops behind the first one. */
  lemma CommentRoundTrip(s: string, i: nat, body: string, w: string)
    requires Blank(w) && Stands(s, i, RenderComment(body, w))
    ensures ParseComment(s, i) == At(FirstEnd(body, i + 4, |w| + 3, COMMENT_CLOSE).end)
    ensures ParseComment(s, i) == At(i + |RenderComment(body, w)|) <==> Search(body, 0, COMMENT_CLOSE).None?
    ensures i + 4 + |body| <= |s| && s[i + 4..i + 4 + |body|] == body
  {
    hide MatchAt, Search, Stands, Closing;
    OpenerStands(s, i, "<!--", body + RenderClose(Hyphens(w)));
    EndFound(s, i + 4, body, Hyphens(w));
  }

  // ----- Marked sections

  /** The status keywords that go with an end, in either case of letters. */
  predicate IsStatus(name: string, c: Close)
  {
    match c
    case Hyphens(_) => false
    case Brackets(_, _) => Lower(name) in {"temp", "cdata", "ignore", "include", "rcdata"}
    case Bracket(_) => Lower(name) in {"if", "else", "endif"}
  }

  lemma StatusWords(name: string, c: Close)
    requires IsStatus(name, c)
    ensures IsWord(name) && ']' !in name && SectionClose(Lower(name)) == Some(Pattern(c)) && !c.Hyphens?
  {
    var low := Lower(name);
    forall i | 0 <= i < |name| ensures IsLetter(name[i]) {
      assert low[i] == LowerChar(name[i]);
      assert IsLetter(low[i]);
    }
  }

  lemma NoBracketNoMatch(s: string, k: nat, c: Close)
    requires k < |s| && s[k] != ']' && !c.Hyphens?
    ensures MatchAt(s, k, Pattern(c)).None?
  {
  }

  /** A search passes over a text without "]". */
  lemma {:induction false} SearchSkips(s: string, k: nat, j: nat, c: Close)
    requires k <= j <= |s| && !c.Hyphens? && forall n :: k <= n < j ==> s[n] != ']'
    ensures Search(s, k, Pattern(c)) == Search(s, j, Pattern(c))
    decreases j - k
  {
    hide MatchAt, SkipSpace, Pattern;
    if k < j {
      NoBracketNoMatch(s, k, c);
      SearchSkips(s, k + 1, j, c);
    }
  }

  /** A marked section as text; standard ones have a "[" in front of their content. */
  function RenderSection(name: string, body: string, c: Close): string
  {
    "<![" + (name + (body + RenderClose(c)))
  }

  /** What may stand behind the keyword. */
  predicate Apart(body: string)
  {
    body != "" ==> !IsNameChar(body[0])
  }

  /** The keyword is scanned, up to the content or its end, whichever does not start with whitespace. */
  lemma {:induction false} KeywordScanned(s: string, j: nat, w: string, more: string)
    requires IsWord(w) && Stands(s, j, w + more) && more != "" && !IsNameChar(more[0])
    requires exists k :: 0 <= k < |more| && !IsSpace(more[k])
    ensures ScanName(s, j).Name? && ScanName(s, j).text == Lower(w)
  {
    hide SkipName, IsLetter, IsNameChar, IsSpace;
    StandsSplit(s, j, w, more);
    StandsFirst(s, j + |w|, more);
    WordEnds(s, j, w);
    var k :| 0 <= k < |more| && !IsSpace(more[k]);
    assert s[j + |w| + k] == s[j + |w|..][k] == more[k];
    NoSpaceOver(s, j + |w|, j + |w| + k);
  }

  lemma EndsVisibly(body: string, c: Close)
    requires !c.Hyphens? && Apart(body)
    ensures var more := body + RenderClose(c);
            && more != "" && !IsNameChar(more[0])
            && more[|more| - 1] == '>' && !IsSpace('>')
  {
  }

  lemma SectionByKeyword(s: string, i: nat, keyword: string, pat: seq<Tok>)
    requires i + 3 <= |s| && "<![" <= s[i..]
    requires ScanName(s, i + 3).Name? && ScanName(s, i + 3).text == keyword && SectionClose(keyword) == Some(pat)
    ensures MarkedSectionSpan(s, i) == Search(s, i + 3, pat)
    ensures Search(s, i + 3, pat).Some? ==> ParseMarkedSection(s, i) == At(Search(s, i + 3, pat).value.end)
    ensures Search(s, i + 3, pat).None? ==> ParseMarkedSection(s, i) == More
  {
    hide Search, ScanName, SectionClose;
  }

  /** Where the end marker of a rendered section is found. */
  lemma SectionFound(s: string, j: nat, name: string, body: string, c: Close)
    requires GoodClose(c) && IsStatus(name, c) && Stands(s, j, name + (body + RenderClose(c)))
    ensures j + |name| + |body| + |RenderClose(c)| <= |s| && s[j..j + |name| + |body|] == name + body
    ensures Search(s, j, Pattern(c)) == Some(FirstEnd(body, j + |name|, |RenderClose(c)|, Pattern(c)))
  {
    hide MatchAt, Search, RenderClose, Pattern, GoodClose, IsStatus, FirstEnd, IsWord, SectionClose;
    StatusWords(name, c);
    var k := j + |name|;
    StandsSplit(s, j, name, body + RenderClose(c));
    forall n | j <= n < k ensures s[n] != ']' {
      assert s[n] == s[j + (n - j)] == name[n - j];
    }
    SearchSkips(s, j, k, c);
    EndFound(s, k, body, c);
    assert s[j..k] == s[j..][..|name|];
    assert s[j..k + |body|] == s[j..k] + s[k..k + |body|];
  }

  lemma SectionScanned(s: string, i: nat, name: string, body: string, c: Close)
    requires GoodClose(c) && IsStatus(name, c) && Apart(body) && Stands(s, i, RenderSection(name, body, c))
    ensures var n := |RenderClose(c)|;
            && MarkedSectionSpan(s, i) == Some(FirstEnd(body, i + 3 + |name|, n, Pattern(c)))
            && ParseMarkedSection(s, i) == At(FirstEnd(body, i + 3 + |name|, n, Pattern(c)).end)
    ensures i + 3 + |name| + |body| <= |s| && s[i + 3..i + 3 + |name| + |body|] == name + body
  {
    hide Search, ScanName, IsWord, Lower, IsStatus, SectionClose, Stands, ParseMarkedSection, MarkedSectionSpan,
         FirstEnd, RenderClose, Pattern, GoodClose, Apart;
    OpenerStands(s, i, "<![", name + (body + RenderClose(c)));
    StatusWords(name, c);
    EndsVisibly(body, c);
    KeywordScanned(s, i + 3, name, body + RenderClose(c));
    SectionByKeyword(s, i, Lower(name), Pattern(c));
    SectionFound(s, i + 3, name, body, c);
  }

  /** A marked section with one of the standard keywords, or one of Microsoft's, is scanned in full
      exactly when its text holds no such end, and what is reported then is keyword and text;
      otherwise the scan stops at the first end in the text. */
  lemma SectionRoundTrip(s: string, i: nat, name: string, body: string, c: Close)
    requires GoodClose(c) && IsStatus(name, c) && Apart(body) && Stands(s, i, RenderSection(name, body, c))
    ensures var first := FirstEnd(body, i + 3 + |name|, |RenderClose(c)|, Pattern(c));
            ParseMarkedSection(s, i) == At(first.end) && MarkedSectionSpan(s, i) == Some(first)
    ensures ParseMarkedSection(s, i) == At(i + |RenderSection(name, body, c)|)
            <==> Search(body, 0, Pattern(c)).None?
    ensures i + 3 + |name| + |body| <= |s| && s[i + 3..i + 3 + |name| + |body|] == name + body
  {
    hide Search, IsStatus, Stands, ParseMarkedSection, MarkedSectionSpan, FirstEnd, RenderClose, Pattern;
    SectionScanned(s, i, name, body, c);
  }

  // ----- Text that breaks off

  lemma CommentIncomplete(s: string, i: nat, body: string, w: string)
    requires Blank(w) && Search(body, 0, COMMENT_CLOSE).None?
    requires i + 4 <= |s| && s[i..] < RenderComment(body, w)
    ensures ParseComment(s, i) == More
  {
    hide RenderComment, ParseComment, Search;
    var text := RenderComment(body, w);
    var t := s[..i] + text;
    assert t[i..] == text;
    CommentRoundTrip(t, i, body, w);
    assert s == s[..i] + s[i..];
    ParseCommentStable(s, t, i);
  }

  lemma SectionIncomplete(s: string, i: nat, name: string, body: string, c: Close)
    requires GoodClose(c) && IsStatus(name, c) && Apart(body) && Search(body, 0, Pattern(c)).None?
    requires i + 3 <= |s| && s[i..] < RenderSection(name, body, c)
    ensures ParseMarkedSection(s, i) == More
  {
    hide RenderSection, ParseMarkedSection, Search, Pattern, IsStatus, GoodClose;
    var text := RenderSection(name, body, c);
    var t := s[..i] + text;
    assert t[i..] == text;
    SectionRoundTrip(t, i, name, body, c);
    assert s == s[..i] + s[i..];
    ParseMarkedSectionStable(s, t, i);
  }
}
