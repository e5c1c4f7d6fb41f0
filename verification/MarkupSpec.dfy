/** What each declaration scanner of Lib/_markupbase.py computes, as functions of the buffer and
    an index, and the proof that complete scans do not depend on what follows. */
module MarkupSpec {
  import opened Basics

  /** A scan ends at an index, needs more input (-1), or raises AssertionError. */
  datatype Scan = At(j: nat) | More | Bad

  datatype NameScan = Name(text: string, j: nat) | NameMore | NameBad

  // ----- Characters

  predicate IsLetter(c: char) { 'a' <= c <= 'z' || 'A' <= c <= 'Z' }

  predicate IsNameChar(c: char) { IsLetter(c) || '0' <= c <= '9' || c == '-' || c == '_' || c == '.' }

  predicate IsQuote(c: char) { c == '\'' || c == '"' }

  /** Unicode whitespace, as both `\s` and str.isspace see it. */
  predicate IsSpace(c: char)
  {
    var n := c as int;
    9 <= n <= 13 || 28 <= n <= 32 || n == 0x85 || n == 0xA0 || n == 0x1680 || 0x2000 <= n <= 0x200A
    || n == 0x2028 || n == 0x2029 || n == 0x202F || n == 0x205F || n == 0x3000
  }

  function LowerChar(c: char): char
  {
    if 'A' <= c <= 'Z' then (c as int + 32) as char else c
  }

  function Lower(t: string): (r: string)
    ensures |r| == |t|
  {
    seq(|t|, i requires 0 <= i < |t| => LowerChar(t[i]))
  }

  // ----- The four regular expressions

  /** `\s*` */
  function SkipSpace(s: string, j: nat): (k: nat)
    requires j <= |s|
    ensures j <= k <= |s| && (k < |s| ==> !IsSpace(s[k]))
    decreases |s| - j
  {
    if j < |s| && IsSpace(s[j]) then SkipSpace(s, j + 1) else j
  }

  /** `[-_.a-zA-Z0-9]*` */
  function SkipName(s: string, j: nat): (k: nat)
    requires j <= |s|
    ensures j <= k <= |s|
    decreases |s| - j
  {
    if j < |s| && IsNameChar(s[j]) then SkipName(s, j + 1) else j
  }

  function FindChar(s: string, c: char, j: nat): (k: Option<nat>)
    requires j <= |s|
    ensures k.Some? ==> j <= k.value < |s| && s[k.value] == c
    decreases |s| - j
  {
    if j == |s| then None else if s[j] == c then Some(j) else FindChar(s, c, j + 1)
  }

  /** `('[^']*'|"[^"]*")\s*` where a quote stands: the end of the match. */
  function StringLit(s: string, j: nat): (k: Option<nat>)
    requires j < |s|
    ensures k.Some? ==> j + 1 < k.value <= |s|
  {
    match FindChar(s, s[j], j + 1)
    case None => None
    case Some(q) => Some(SkipSpace(s, q + 1))
  }

  /** The closing patterns, as characters with `\s*` in between. */
  datatype Tok = Ch(c: char) | Ws

  const COMMENT_CLOSE: seq<Tok> := [Ch('-'), Ch('-'), Ws, Ch('>')]
  const SECTION_CLOSE: seq<Tok> := [Ch(']'), Ws, Ch(']'), Ws, Ch('>')]
  const MS_SECTION_CLOSE: seq<Tok> := [Ch(']'), Ws, Ch('>')]

  function MatchAt(s: string, k: nat, pat: seq<Tok>): (end: Option<nat>)
    requires k <= |s|
    ensures end.Some? ==> k <= end.value <= |s|
    decreases |pat|
  {
    if pat == [] then Some(k)
    else match pat[0]
      case Ch(c) => if k < |s| && s[k] == c then MatchAt(s, k + 1, pat[1..]) else None
      case Ws => MatchAt(s, SkipSpace(s, k), pat[1..])
  }

  datatype Span = Span(start: nat, end: nat)

  /** search(s, k): the first place where the pattern matches. */
  function Search(s: string, k: nat, pat: seq<Tok>): (m: Option<Span>)
    requires k <= |s|
    ensures m.Some? ==> k <= m.value.start <= m.value.end <= |s|
    decreases |s| - k
  {
    match MatchAt(s, k, pat)
    case Some(end) => Some(Span(k, end))
    case None => if k == |s| then None else Search(s, k + 1, pat)
  }

  // ----- The scanners

  /** `_scan_name` */
  function ScanName(s: string, i: nat): (r: NameScan)
    requires i <= |s|
    ensures r.Name? ==> i < r.j < |s|
  {
    if i == |s| then NameMore
    else if !IsLetter(s[i]) then NameBad
    else
      var e := SkipName(s, i + 1);
      var j := SkipSpace(s, e);
      if j == |s| then NameMore else Name(Lower(s[i..e]), j)
  }

  /** `parse_comment` */
  function ParseComment(s: string, i: nat): (r: Scan)
    requires i <= |s|
    ensures r.At? ==> i + 4 <= r.j <= |s|
  {
    if !("<!--" <= s[i..]) then Bad
    else match Search(s, i + 4, COMMENT_CLOSE)
      case None => More
      case Some(m) => At(m.end)
  }

  /** `parse_marked_section`: where its end marker lies. */
  function SectionClose(name: string): Option<seq<Tok>>
  {
    if name in {"temp", "cdata", "ignore", "include", "rcdata"} then Some(SECTION_CLOSE)
    else if name in {"if", "else", "endif"} then Some(MS_SECTION_CLOSE)
    else None
  }

  function MarkedSectionSpan(s: string, i: nat): (m: Option<Span>)
    requires i + 3 <= |s|
  {
    match ScanName(s, i + 3)
    case Name(name, _) =>
      (match SectionClose(name)
       case None => None
       case Some(pat) => Search(s, i + 3, pat))
    case _ => None
  }

  function ParseMarkedSection(s: string, i: nat): (r: Scan)
    requires i <= |s|
    ensures r.At? ==> i < r.j <= |s|
  {
    if !("<![" <= s[i..]) then Bad
    else match ScanName(s, i + 3)
      case NameMore => More
      case NameBad => Bad
      case Name(name, j) =>
        match SectionClose(name)
        case None => Bad
        case Some(pat) =>
          match Search(s, i + 3, pat)
          case None => More
          case Some(m) => At(m.end)
  }

  /** `_parse_doctype_element` */
  function ParseElement(s: string, i: nat): (r: Scan)
    requires i <= |s|
    ensures r.At? ==> i < r.j <= |s|
  {
    match ScanName(s, i)
    case NameMore => More
    case NameBad => Bad
    case Name(_, j) =>
      match FindChar(s, '>', j)
      case None => More
      case Some(k) => At(k + 1)
  }

  /** The loop shared by `_parse_doctype_notation` and `_parse_doctype_entity`: names and string
      literals up to '>'. */
  function ParseNamesAndLits(s: string, j: nat): (r: Scan)
    requires j <= |s|
    ensures r.At? ==> j < r.j <= |s|
    decreases |s| - j
  {
    if j == |s| then More
    else if s[j] == '>' then At(j + 1)
    else if IsQuote(s[j]) then
      match StringLit(s, j)
      case None => More
      case Some(k) => ParseNamesAndLits(s, k)
    else
      match ScanName(s, j)
      case NameMore => More
      case NameBad => Bad
      case Name(_, k) => ParseNamesAndLits(s, k)
  }

  /** `_parse_doctype_notation` */
  function ParseNotation(s: string, i: nat): (r: Scan)
    requires i <= |s|
    ensures r.At? ==> i < r.j <= |s|
  {
    match ScanName(s, i)
    case NameMore => More
    case NameBad => Bad
    case Name(_, j) => ParseNamesAndLits(s, j)
  }

  /** `_parse_doctype_entity` */
  function ParseEntity(s: string, i: nat): (r: Scan)
    requires i <= |s|
    ensures r.At? ==> i < r.j <= |s|
  {
    var j := if i < |s| && s[i] == '%' then SkipSpace(s, i + 1) else i;
    match ScanName(s, j)
    case NameMore => More
    case NameBad => Bad
    case Name(_, k) => ParseNamesAndLits(s, k)
  }

  /** The type of one attribute: an enumeration in parentheses or a name. */
  function ParseAttType(s: string, j: nat): (r: Scan)
    requires j < |s|
    ensures r.At? ==> j < r.j < |s|
  {
    if s[j] == '(' then
      match FindChar(s, ')', j)
      case None => More
      case Some(p) => if SkipSpace(s, p + 1) == |s| then More else At(SkipSpace(s, p + 1))
    else
      match ScanName(s, j)
      case NameMore => More
      case NameBad => Bad
      case Name(_, k) => At(k)
  }

  /** Default value: an optional string literal. */
  function ParseAttLit(s: string, j: nat): (r: Scan)
    requires j < |s|
    ensures r.At? ==> j <= r.j < |s|
  {
    if !IsQuote(s[j]) then At(j)
    else match StringLit(s, j)
      case None => More
      case Some(k) => if k == |s| then More else At(k)
  }

  /** An optional #constraint. */
  function ParseAttHash(s: string, j: nat): (r: Scan)
    requires j < |s|
    ensures r.At? ==> j <= r.j < |s|
  {
    if s[j] != '#' then At(j)
    else match ScanName(s, j + 1)
      case NameMore => More
      case NameBad => Bad
      case Name(_, k) => At(k)
  }

  /** One attribute description behind its name. */
  function ParseAttribute(s: string, j: nat): (r: Scan)
    requires j < |s|
    ensures r.At? ==> j < r.j < |s|
  {
    var a := ParseAttType(s, j);
    if !a.At? then a else
      var b := ParseAttLit(s, a.j);
      if !b.At? then b else ParseAttHash(s, b.j)
  }

  /** The loop of `_parse_doctype_attlist`. */
  function ParseAttributes(s: string, j: nat): (r: Scan)
    requires j < |s|
    ensures r.At? ==> j < r.j <= |s|
    decreases |s| - j
  {
    match ScanName(s, j)
    case NameMore => More
    case NameBad => Bad
    case Name(_, k) =>
      var a := ParseAttribute(s, k);
      if !a.At? then a
      else if s[a.j] == '>' then At(a.j + 1)
      else ParseAttributes(s, a.j)
  }

  /** `_parse_doctype_attlist` */
  function ParseAttlist(s: string, i: nat): (r: Scan)
    requires i <= |s|
    ensures r.At? ==> i < r.j <= |s|
  {
    match ScanName(s, i)
    case NameMore => More
    case NameBad => Bad
    case Name(_, j) => if s[j] == '>' then At(j + 1) else ParseAttributes(s, j)
  }

  /** One declaration of the internal subset, by its name. */
  function ParseNamed(s: string, name: string, i: nat): (r: Scan)
    requires i <= |s|
    ensures r.At? ==> i < r.j <= |s|
  {
    if name == "attlist" then ParseAttlist(s, i)
    else if name == "element" then ParseElement(s, i)
    else if name == "entity" then ParseEntity(s, i)
    else if name == "notation" then ParseNotation(s, i)
    else Bad
  }

  /** A "<" in the internal subset: a comment or one of the four declarations. */
  function ParseMarkup(s: string, j: nat): (r: Scan)
    requires j < |s| && s[j] == '<'
    ensures r.At? ==> j < r.j <= |s|
  {
    if j + 1 == |s| then More
    else if s[j + 1] != '!' then Bad
    else if j + 4 > |s| then More
    else if "<!--" <= s[j..] then ParseComment(s, j)
    else match ScanName(s, j + 2)
      case NameMore => More
      case NameBad => Bad
      case Name(name, k) => ParseNamed(s, name, k)
  }

  /** A "%" in the internal subset: a parameter entity reference. */
  function ParseReference(s: string, j: nat): (r: Scan)
    requires j < |s| && s[j] == '%'
    ensures r.At? ==> j < r.j <= |s|
  {
    match ScanName(s, j + 1)
    case NameMore => More
    case NameBad => Bad
    case Name(_, k) => At(if s[k] == ';' then k + 1 else k)
  }

  /** The end of the internal subset, from its "]". */
  function ParseSubsetEnd(s: string, j: nat): (r: Scan)
    requires j < |s|
    ensures r.At? ==> j < r.j < |s|
  {
    var k := SkipSpace(s, j + 1);
    if k == |s| then More else if s[k] == '>' then At(k) else Bad
  }

  /** `_parse_doctype_subset` */
  function ParseSubset(s: string, j: nat): (r: Scan)
    requires j <= |s|
    ensures r.At? ==> j < r.j < |s|
    decreases |s| - j
  {
    if j == |s| then More
    else if s[j] == ']' then ParseSubsetEnd(s, j)
    else
      var step :=
        if s[j] == '<' then ParseMarkup(s, j)
        else if s[j] == '%' then ParseReference(s, j)
        else if IsSpace(s[j]) then At(j + 1)
        else Bad;
      if step.At? then ParseSubset(s, step.j) else step
  }

  /** One item of a declaration that is not its end. */
  function ParseItem(s: string, j: nat, decltype: string): (r: Scan)
    requires j < |s|
    ensures r.At? ==> j < r.j <= |s|
  {
    if IsQuote(s[j]) then
      match StringLit(s, j)
      case None => More
      case Some(k) => At(k)
    else if IsLetter(s[j]) then
      match ScanName(s, j)
      case NameMore => More
      case NameBad => Bad
      case Name(_, k) => At(k)
    else if s[j] == '[' && decltype == "doctype" then ParseSubset(s, j + 1)
    else Bad
  }

  /** The loop of `parse_declaration`: the index of the closing '>'. */
  function ParseItems(s: string, j: nat, decltype: string): (r: Scan)
    requires j <= |s|
    ensures r.At? ==> j <= r.j < |s|
    decreases |s| - j
  {
    if j == |s| then More
    else if s[j] == '>' then At(j)
    else
      var step := ParseItem(s, j, decltype);
      if step.At? then ParseItems(s, step.j, decltype) else step
  }

  /** `parse_declaration` */
  function ParseDeclaration(s: string, i: nat): (r: Scan)
    requires i <= |s|
    ensures r.At? ==> i < r.j <= |s|
  {
    if !("<!" <= s[i..]) then Bad
    else if i + 2 == |s| then More
    else if s[i + 2] == '>' then At(i + 3)
    else if s[i + 2] == '-' then More
    else if s[i + 2] == '[' then ParseMarkedSection(s, i)
    else match ScanName(s, i + 2)
      case NameMore => More
      case NameBad => Bad
      case Name(decltype, j) =>
        var r := ParseItems(s, j, decltype);
        if r.At? then At(r.j + 1) else r
  }

  // ----- Stability: s is a prefix of t

  lemma {:induction false} SkipSpaceStable(s: string, t: string, j: nat)
    requires s <= t && j <= |s| && SkipSpace(s, j) < |s|
    ensures SkipSpace(t, j) == SkipSpace(s, j)
    decreases |s| - j
  {
    if IsSpace(s[j]) {
      SkipSpaceStable(s, t, j + 1);
    }
  }

  lemma {:induction false} SkipNameStable(s: string, t: string, j: nat)
    requires s <= t && j <= |s| && SkipName(s, j) < |s|
    ensures SkipName(t, j) == SkipName(s, j)
    decreases |s| - j
  {
    if IsNameChar(s[j]) {
      SkipNameStable(s, t, j + 1);
    }
  }

  lemma {:induction false} FindCharStable(s: string, t: string, c: char, j: nat)
    requires s <= t && j <= |s| && FindChar(s, c, j).Some?
    ensures FindChar(t, c, j) == FindChar(s, c, j)
    decreases |s| - j
  {
    if s[j] != c {
      FindCharStable(s, t, c, j + 1);
    }
  }

  /** A literal closed before the end: its end is the same, or, if only whitespace followed, at
      least where the shorter buffer ended. */
  lemma StringLitStable(s: string, t: string, j: nat)
    requires s <= t && j < |s| && StringLit(s, j).Some?
    ensures StringLit(t, j).Some?
    ensures StringLit(s, j).value < |s| ==> StringLit(t, j) == StringLit(s, j)
  {
    FindCharStable(s, t, s[j], j + 1);
    var q := FindChar(s, s[j], j + 1).value;
    if SkipSpace(s, q + 1) < |s| {
      SkipSpaceStable(s, t, q + 1);
    }
  }

  lemma ScanNameStable(s: string, t: string, i: nat)
    requires s <= t && i <= |s| && !ScanName(s, i).NameMore?
    ensures ScanName(t, i) == ScanName(s, i)
  {
    if IsLetter(s[i]) {
      var e := SkipName(s, i + 1);
      SkipSpaceStable(s, t, e);
      if e < |s| {
        SkipNameStable(s, t, i + 1);
      }
      assert s[i..e] == t[i..e];
    }
  }

  // A closing pattern holds '>' as its last character only.

  predicate Closing(pat: seq<Tok>)
  {
    pat != [] && pat[|pat| - 1] == Ch('>') && forall i :: 0 <= i < |pat| - 1 ==> pat[i] != Ch('>')
  }

  lemma ClosingPatterns()
    ensures Closing(COMMENT_CLOSE) && Closing(SECTION_CLOSE) && Closing(MS_SECTION_CLOSE)
  {
  }

  lemma {:induction false} NoGtInSpace(s: string, j: nat)
    requires j <= |s|
    ensures forall i :: j <= i < SkipSpace(s, j) ==> s[i] != '>'
    decreases |s| - j
  {
    if j < |s| && IsSpace(s[j]) {
      NoGtInSpace(s, j + 1);
    }
  }

  /** A match of a closing pattern runs up to the first '>'. */
  lemma {:induction false} MatchEndsAtGt(s: string, k: nat, pat: seq<Tok>)
    requires k <= |s| && Closing(pat) && MatchAt(s, k, pat).Some?
    ensures var e := MatchAt(s, k, pat).value;
            k < e && s[e - 1] == '>' && forall i :: k <= i < e - 1 ==> s[i] != '>'
    decreases |pat|
  {
    if |pat| == 1 {
      assert pat[1..] == [];
    } else {
      assert Closing(pat[1..]);
      if pat[0].Ws? {
        NoGtInSpace(s, k);
        MatchEndsAtGt(s, SkipSpace(s, k), pat[1..]);
      } else {
        MatchEndsAtGt(s, k + 1, pat[1..]);
      }
    }
  }

  /** Whether a match is there depends only on the text up to its end. */
  lemma {:induction false} MatchStable(s: string, t: string, k: nat, pat: seq<Tok>)
    requires s <= t && k <= |s| && Closing(pat)
    ensures MatchAt(s, k, pat).Some? ==> MatchAt(t, k, pat) == MatchAt(s, k, pat)
    ensures MatchAt(t, k, pat).Some? && MatchAt(t, k, pat).value <= |s| ==> MatchAt(s, k, pat) == MatchAt(t, k, pat)
    decreases |pat|
  {
    if |pat| == 1 {
      assert pat[1..] == [];
    } else {
      assert Closing(pat[1..]);
      if pat[0].Ws? {
        if SkipSpace(s, k) < |s| {
          SkipSpaceStable(s, t, k);
          MatchStable(s, t, SkipSpace(s, k), pat[1..]);
        } else {
          SpaceInside(s, t, k);
          NoMatchAtEnd(s, pat[1..]);
          if MatchAt(t, SkipSpace(t, k), pat[1..]).Some? {
            MatchEndsAtGt(t, SkipSpace(t, k), pat[1..]);
          }
        }
      } else if k < |s| {
        MatchStable(s, t, k + 1, pat[1..]);
      } else if MatchAt(t, k, pat).Some? {
        MatchEndsAtGt(t, k, pat);
      }
    }
  }

  lemma {:induction false} SpaceInside(s: string, t: string, k: nat)
    requires s <= t && k <= |s| && SkipSpace(s, k) == |s|
    ensures SkipSpace(t, k) >= |s|
    decreases |s| - k
  {
    if k < |s| {
      SpaceInside(s, t, k + 1);
    }
  }

  lemma NoMatchAtEnd(s: string, pat: seq<Tok>)
    requires Closing(pat)
    ensures MatchAt(s, |s|, pat).None?
  {
    if MatchAt(s, |s|, pat).Some? {
      MatchEndsAtGt(s, |s|, pat);
    }
  }

  /** The leftmost match stays leftmost: a match starting earlier would have to run over the
      '>' that ends the one found. */
  lemma {:induction false} SearchStable(s: string, t: string, k: nat, pat: seq<Tok>)
    requires s <= t && k <= |s| && Closing(pat) && Search(s, k, pat).Some?
    ensures Search(t, k, pat) == Search(s, k, pat)
    decreases |s| - k
  {
    MatchStable(s, t, k, pat);
    if MatchAt(s, k, pat).None? {
      SearchStable(s, t, k + 1, pat);
      SearchEndsAtGt(s, k + 1, pat);
      if MatchAt(t, k, pat).Some? {
        MatchEndsAtGt(t, k, pat);
      }
    }
  }

  lemma {:induction false} SearchEndsAtGt(s: string, k: nat, pat: seq<Tok>)
    requires k <= |s| && Closing(pat) && Search(s, k, pat).Some?
    ensures var m := Search(s, k, pat).value; k < m.end && s[m.end - 1] == '>'
    decreases |s| - k
  {
    if MatchAt(s, k, pat).Some? {
      MatchEndsAtGt(s, k, pat);
    } else {
      SearchEndsAtGt(s, k + 1, pat);
    }
  }

  // The scanners. `Kept` is the promise: only an incomplete scan may change.

  predicate Kept(r: Scan, r': Scan)
  {
    r.More? || r' == r
  }

  /** The buffer breaks off inside an opener that is still possible. */
  predicate OpenerCut(s: string, i: nat, opener: string)
    requires i <= |s|
  {
    s[i..] < opener
  }

  lemma OpenerDecided(s: string, t: string, i: nat, opener: string)
    requires s <= t && i <= |s| && !OpenerCut(s, i, opener)
    ensures opener <= s[i..] <==> opener <= t[i..]
  {
    var a, b := s[i..], t[i..];
    assert a <= b;
  }

  /** The buffer up to the end of the opener. */
  function Opened(s: string, i: nat, opener: string): (t: string)
    requires i <= |s| && OpenerCut(s, i, opener)
    ensures s <= t && |t| == i + |opener| && t[i..] == opener
  {
    s + opener[|s| - i..]
  }

  lemma ParseCommentStable(s: string, t: string, i: nat)
    requires s <= t && i <= |s| && !OpenerCut(s, i, "<!--")
    ensures Kept(ParseComment(s, i), ParseComment(t, i))
  {
    ClosingPatterns();
    OpenerDecided(s, t, i, "<!--");
    if "<!--" <= s[i..] && Search(s, i + 4, COMMENT_CLOSE).Some? {
      SearchStable(s, t, i + 4, COMMENT_CLOSE);
    }
  }

  lemma ParseMarkedSectionStable(s: string, t: string, i: nat)
    requires s <= t && i <= |s| && !OpenerCut(s, i, "<![")
    ensures Kept(ParseMarkedSection(s, i), ParseMarkedSection(t, i))
    ensures ParseMarkedSection(s, i).At? ==> MarkedSectionSpan(t, i) == MarkedSectionSpan(s, i)
  {
    OpenerDecided(s, t, i, "<![");
    if "<![" <= s[i..] {
      assert i + 3 <= |s|;
      var n := ScanName(s, i + 3);
      if !n.NameMore? {
        ScanNameStable(s, t, i + 3);
        if n.Name? && SectionClose(n.text).Some? && Search(s, i + 3, SectionClose(n.text).value).Some? {
          ClosingPatterns();
          SearchStable(s, t, i + 3, SectionClose(n.text).value);
        }
      }
    }
  }

  lemma ParseElementStable(s: string, t: string, i: nat)
    requires s <= t && i <= |s|
    ensures Kept(ParseElement(s, i), ParseElement(t, i))
  {
    var n := ScanName(s, i);
    if !n.NameMore? {
      ScanNameStable(s, t, i);
      if n.Name? && FindChar(s, '>', n.j).Some? {
        FindCharStable(s, t, '>', n.j);
      }
    }
  }

  lemma {:induction false} NamesAndLitsStable(s: string, t: string, j: nat)
    requires s <= t && j <= |s|
    ensures Kept(ParseNamesAndLits(s, j), ParseNamesAndLits(t, j))
    decreases |s| - j
  {
    if j < |s| && s[j] != '>' {
      if IsQuote(s[j]) {
        if StringLit(s, j).Some? {
          StringLitStable(s, t, j);
          NamesAndLitsStable(s, t, StringLit(s, j).value);
        }
      } else if !ScanName(s, j).NameMore? {
        ScanNameStable(s, t, j);
        if ScanName(s, j).Name? {
          NamesAndLitsStable(s, t, ScanName(s, j).j);
        }
      }
    }
  }

  lemma ParseNotationStable(s: string, t: string, i: nat)
    requires s <= t && i <= |s|
    ensures Kept(ParseNotation(s, i), ParseNotation(t, i))
  {
    if !ScanName(s, i).NameMore? {
      ScanNameStable(s, t, i);
      if ScanName(s, i).Name? {
        NamesAndLitsStable(s, t, ScanName(s, i).j);
      }
    }
  }

  lemma ParseEntityStable(s: string, t: string, i: nat)
    requires s <= t && i <= |s|
    ensures Kept(ParseEntity(s, i), ParseEntity(t, i))
  {
    var j := if i < |s| && s[i] == '%' then SkipSpace(s, i + 1) else i;
    if !ScanName(s, j).NameMore? {
      if s[i] == '%' {
        SkipSpaceStable(s, t, i + 1);
      }
      ScanNameStable(s, t, j);
      if ScanName(s, j).Name? {
        NamesAndLitsStable(s, t, ScanName(s, j).j);
      }
    }
  }

  lemma ParseAttTypeStable(s: string, t: string, j: nat)
    requires s <= t && j < |s|
    ensures Kept(ParseAttType(s, j), ParseAttType(t, j))
  {
    if s[j] == '(' {
      if FindChar(s, ')', j).Some? {
        FindCharStable(s, t, ')', j);
        var p := FindChar(s, ')', j).value;
        if SkipSpace(s, p + 1) < |s| {
          SkipSpaceStable(s, t, p + 1);
        }
      }
    } else if !ScanName(s, j).NameMore? {
      ScanNameStable(s, t, j);
    }
  }

  lemma ParseAttLitStable(s: string, t: string, j: nat)
    requires s <= t && j < |s|
    ensures Kept(ParseAttLit(s, j), ParseAttLit(t, j))
  {
    if IsQuote(s[j]) && StringLit(s, j).Some? {
      StringLitStable(s, t, j);
    }
  }

  lemma ParseAttHashStable(s: string, t: string, j: nat)
    requires s <= t && j < |s|
    ensures Kept(ParseAttHash(s, j), ParseAttHash(t, j))
  {
    if s[j] == '#' && !ScanName(s, j + 1).NameMore? {
      ScanNameStable(s, t, j + 1);
    }
  }

  lemma ParseAttributeStable(s: string, t: string, j: nat)
    requires s <= t && j < |s|
    ensures Kept(ParseAttribute(s, j), ParseAttribute(t, j))
  {
    hide ParseAttType, ParseAttLit, ParseAttHash;
    ParseAttTypeStable(s, t, j);
    var a := ParseAttType(s, j);
    if a.At? {
      ParseAttLitStable(s, t, a.j);
      var b := ParseAttLit(s, a.j);
      if b.At? {
        ParseAttHashStable(s, t, b.j);
      }
    }
  }

  lemma {:induction false} ParseAttributesStable(s: string, t: string, j: nat)
    requires s <= t && j < |s|
    ensures Kept(ParseAttributes(s, j), ParseAttributes(t, j))
    decreases |s| - j
  {
    hide ParseAttribute, ScanName;
    var n := ScanName(s, j);
    if !n.NameMore? {
      ScanNameStable(s, t, j);
      if n.Name? {
        ParseAttributeStable(s, t, n.j);
        var a := ParseAttribute(s, n.j);
        if a.At? && s[a.j] != '>' {
          ParseAttributesStable(s, t, a.j);
        }
      }
    }
  }

  lemma ParseAttlistStable(s: string, t: string, i: nat)
    requires s <= t && i <= |s|
    ensures Kept(ParseAttlist(s, i), ParseAttlist(t, i))
  {
    hide ParseAttributes, ScanName;
    var n := ScanName(s, i);
    if !n.NameMore? {
      ScanNameStable(s, t, i);
      if n.Name? && s[n.j] != '>' {
        ParseAttributesStable(s, t, n.j);
      }
    }
  }

  lemma ParseNamedStable(s: string, t: string, name: string, i: nat)
    requires s <= t && i <= |s|
    ensures Kept(ParseNamed(s, name, i), ParseNamed(t, name, i))
  {
    hide ParseAttlist, ParseElement, ParseEntity, ParseNotation;
    ParseAttlistStable(s, t, i);
    ParseElementStable(s, t, i);
    ParseEntityStable(s, t, i);
    ParseNotationStable(s, t, i);
  }

  lemma ParseMarkupStable(s: string, t: string, j: nat)
    requires s <= t && j < |s| && s[j] == '<'
    ensures Kept(ParseMarkup(s, j), ParseMarkup(t, j))
  {
    hide ParseComment, ParseNamed, ScanName;
    if j + 4 <= |s| && s[j + 1] == '!' {
      assert s[j..][..4] == t[j..][..4];
      if "<!--" <= s[j..] {
        ParseCommentStable(s, t, j);
      }
      var n := ScanName(s, j + 2);
      if !n.NameMore? {
        ScanNameStable(s, t, j + 2);
        if n.Name? {
          ParseNamedStable(s, t, n.text, n.j);
        }
      }
    }
  }

  lemma ParseReferenceStable(s: string, t: string, j: nat)
    requires s <= t && j < |s| && s[j] == '%'
    ensures Kept(ParseReference(s, j), ParseReference(t, j))
  {
    if !ScanName(s, j + 1).NameMore? {
      ScanNameStable(s, t, j + 1);
    }
  }

  lemma ParseSubsetEndStable(s: string, t: string, j: nat)
    requires s <= t && j < |s|
    ensures Kept(ParseSubsetEnd(s, j), ParseSubsetEnd(t, j))
  {
    if SkipSpace(s, j + 1) < |s| {
      SkipSpaceStable(s, t, j + 1);
    }
  }

  lemma {:induction false} ParseSubsetStable(s: string, t: string, j: nat)
    requires s <= t && j <= |s|
    ensures Kept(ParseSubset(s, j), ParseSubset(t, j))
    decreases |s| - j
  {
    hide ParseMarkup, ParseReference, ParseSubsetEnd;
    if j < |s| {
      ParseSubsetEndStable(s, t, j);
      if s[j] == '<' {
        ParseMarkupStable(s, t, j);
        if ParseMarkup(s, j).At? {
          ParseSubsetStable(s, t, ParseMarkup(s, j).j);
        }
      } else if s[j] == '%' {
        ParseReferenceStable(s, t, j);
        if ParseReference(s, j).At? {
          ParseSubsetStable(s, t, ParseReference(s, j).j);
        }
      } else {
        ParseSubsetStable(s, t, j + 1);
      }
    }
  }

  /** An item is kept unless it runs up to the end of the buffer. */
  lemma ParseItemStable(s: string, t: string, j: nat, decltype: string)
    requires s <= t && j < |s|
    ensures ParseItem(s, j, decltype) != At(|s|) ==> Kept(ParseItem(s, j, decltype), ParseItem(t, j, decltype))
  {
    hide ParseSubset, ScanName, StringLit;
    if IsQuote(s[j]) {
      if StringLit(s, j).Some? {
        StringLitStable(s, t, j);
      }
    } else if IsLetter(s[j]) {
      if !ScanName(s, j).NameMore? {
        ScanNameStable(s, t, j);
      }
    } else {
      ParseSubsetStable(s, t, j + 1);
    }
  }

  lemma {:induction false} ParseItemsStable(s: string, t: string, j: nat, decltype: string)
    requires s <= t && j <= |s|
    ensures Kept(ParseItems(s, j, decltype), ParseItems(t, j, decltype))
    decreases |s| - j
  {
    hide ParseItem;
    if j < |s| && s[j] != '>' {
      ParseItemStable(s, t, j, decltype);
      var step := ParseItem(s, j, decltype);
      if step.At? && step.j < |s| {
        ParseItemsStable(s, t, step.j, decltype);
      }
    }
  }

  /** Complete scans are stable under more input: on every extension of the buffer a scan that
      gave an index or an error gives the same, so only "incomplete" may change. */
  lemma ParseDeclarationStable(s: string, t: string, i: nat)
    requires s <= t && i <= |s| && !OpenerCut(s, i, "<!")
    ensures Kept(ParseDeclaration(s, i), ParseDeclaration(t, i))
  {
    hide ParseMarkedSection, ScanName, ParseItems;
    OpenerDecided(s, t, i, "<!");
    if "<!" <= s[i..] && i + 2 < |s| {
      if s[i + 2] == '[' {
        ParseMarkedSectionStable(s, t, i);
      }
      var n := ScanName(s, i + 2);
      if !n.NameMore? {
        ScanNameStable(s, t, i + 2);
        if n.Name? {
          ParseItemsStable(s, t, n.j, n.text);
        }
      }
    }
  }

  /** Exactly so: only where the buffer breaks off inside "<!" can an error turn into something
      else. The caller looks for the opener before it calls. */
  lemma StableExactly(s: string, i: nat)
    requires i <= |s|
    ensures (forall t :: s <= t ==> Kept(ParseDeclaration(s, i), ParseDeclaration(t, i))) <==> !OpenerCut(s, i, "<!")
  {
    if OpenerCut(s, i, "<!") {
      var t := Opened(s, i, "<!");
      assert ParseDeclaration(s, i).Bad? && ParseDeclaration(t, i).More?;
    } else {
      forall t | s <= t ensures Kept(ParseDeclaration(s, i), ParseDeclaration(t, i)) {
        ParseDeclarationStable(s, t, i);
      }
    }
  }

  /** A buffer that grows in steps, scanned anew each time: every complete scan is the first one. */
  lemma FirstCompleteScan(buffers: seq<string>, i: nat, a: nat, b: nat)
    requires a <= b < |buffers| && forall k :: 0 <= k < |buffers| - 1 ==> buffers[k] <= buffers[k + 1]
    requires i <= |buffers[a]| && !OpenerCut(buffers[a], i, "<!") && !ParseDeclaration(buffers[a], i).More?
    ensures i <= |buffers[b]| && ParseDeclaration(buffers[b], i) == ParseDeclaration(buffers[a], i)
  {
    Growing(buffers, a, b);
    ParseDeclarationStable(buffers[a], buffers[b], i);
  }

  lemma {:induction false} Growing(buffers: seq<string>, a: nat, b: nat)
    requires a <= b < |buffers| && forall k :: 0 <= k < |buffers| - 1 ==> buffers[k] <= buffers[k + 1]
    ensures buffers[a] <= buffers[b]
    decreases b - a
  {
    if a < b {
      Growing(buffers, a, b - 1);
      assert buffers[b - 1] <= buffers[b - 1 + 1];
    }
  }

  /** The comment branch of parse_declaration is dead: a single hyphen already counts as
      incomplete, so no declaration scan ever accepts or rejects a comment. */
  lemma CommentsNeverComplete(s: string, i: nat)
    requires i <= |s| && "<!--" <= s[i..]
    ensures ParseDeclaration(s, i) == More
  {
    assert s[i + 2] == s[i..][2];
    assert s[i..][..2] == "<!";
  }
}
