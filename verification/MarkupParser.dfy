/** ParserBase of Lib/_markupbase.py: the scanners as loops over the buffer, and position keeping. */
module MarkupParser {
  import opened Basics
  import opened MarkupSpec

  // ----- Line and column

  datatype Position = Position(line: nat, column: nat)

  /** Reading one text, character by character. */
  function Advance(p: Position, text: string): Position
    decreases |text|
  {
    if text == "" then p
    else Advance(if text[0] == '\n' then Position(p.line + 1, 0) else Position(p.line, p.column + 1), text[1..])
  }

  /** Reading in two pieces is reading once. */
  lemma {:induction false} AdvanceSplit(p: Position, a: string, b: string)
    ensures Advance(Advance(p, a), b) == Advance(p, a + b)
    decreases |a|
  {
    if a == "" {
      assert a + b == b;
    } else {
      assert (a + b)[1..] == a[1..] + b;
      AdvanceSplit(if a[0] == '\n' then Position(p.line + 1, 0) else Position(p.line, p.column + 1), a[1..], b);
    }
  }

  function Newlines(text: string): nat
  {
    if text == "" then 0 else Newlines(text[..|text| - 1]) + if text[|text| - 1] == '\n' then 1 else 0
  }

  /** Characters behind the last newline, all of them if there is none. */
  function SinceNewline(text: string): (n: nat)
    ensures n <= |text|
  {
    if text == "" || text[|text| - 1] == '\n' then 0 else SinceNewline(text[..|text| - 1]) + 1
  }

  /** Line and column in closed form. */
  lemma {:induction false} AdvanceCounts(p: Position, text: string)
    ensures Advance(p, text) == Position(p.line + Newlines(text),
                                         (if Newlines(text) == 0 then p.column else 0) + SinceNewline(text))
  {
    if text != "" {
      var n := |text| - 1;
      AdvanceSplit(p, text[..n], [text[n]]);
      assert text[..n] + [text[n]] == text;
      AdvanceCounts(p, text[..n]);
      var q := Advance(p, text[..n]);
      assert Advance(q, [text[n]]) == if text[n] == '\n' then Position(q.line + 1, 0) else Position(q.line, q.column + 1);
    }
  }

  /** Newlines are counted one by one. */
  lemma {:induction false} NewlinesMean(a: string, b: string)
    ensures Newlines(a + b) == Newlines(a) + Newlines(b)
    ensures Newlines("\n") == 1
    ensures Newlines(a) == 0 <==> '\n' !in a
    decreases |a| + |b|
  {
    if b != "" {
      var n := |b| - 1;
      assert (a + b)[..|a + b| - 1] == a + b[..n];
      NewlinesMean(a, b[..n]);
    } else if a != "" {
      assert a + b == a && a[..|a| - 1] + [a[|a| - 1]] == a;
      NewlinesMean(a[..|a| - 1], "");
    }
  }

  /** The column starts behind the last newline. */
  lemma {:induction false} SinceNewlineMeans(text: string)
    ensures var k := SinceNewline(text);
            && '\n' !in text[|text| - k..]
            && (k < |text| ==> text[|text| - k - 1] == '\n')
  {
    if text != "" && text[|text| - 1] != '\n' {
      var init := text[..|text| - 1];
      SinceNewlineMeans(init);
      var k := SinceNewline(init);
      assert text[|text| - (k + 1)..] == init[|init| - k..] + [text[|text| - 1]];
    }
  }

  /** Where updatepos(i, j) takes a position: over the characters of s[i:j], and over columns
      without characters beyond the end of the buffer. */
  function Moved(p: Position, s: string, i: nat, j: nat): Position
  {
    if i >= j then p
    else
      var text := s[Min(i, |s|)..Min(j, |s|)];
      var q := Advance(p, text);
      Position(q.line, q.column + (j - i - |text|))
  }

  /** updatepos(i, j) then updatepos(j, k) is updatepos(i, k). */
  lemma UpdatesCompose(p: Position, s: string, i: nat, j: nat, k: nat)
    requires i <= j <= k
    ensures Moved(Moved(p, s, i, j), s, j, k) == Moved(p, s, i, k)
  {
    var a, b := s[Min(i, |s|)..Min(j, |s|)], s[Min(j, |s|)..Min(k, |s|)];
    AdvanceSplit(p, a, b);
    assert a + b == s[Min(i, |s|)..Min(k, |s|)];
    if j > |s| {
      assert b == "" && s[Min(j, |s|)..Min(k, |s|)] == "";
    }
  }

  /** From the start of the input, updatepos leads to line 1 + newlines, column past the last newline. */
  lemma PositionAfterPrefix(s: string, j: nat)
    requires j <= |s|
    ensures Moved(Position(1, 0), s, 0, j) == Position(1 + Newlines(s[..j]), SinceNewline(s[..j]))
  {
    AdvanceCounts(Position(1, 0), s[..j]);
  }

  datatype Event = Decl(data: string) | Unknown(data: string) | Comment(data: string)

  class ParserBase {
    var rawdata: string
    var lineno: nat
    var offset: nat
    var events: seq<Event>          // what the handlers were called with

    constructor ()
      ensures rawdata == "" && GetPos() == Position(1, 0) && events == []
    {
      rawdata, lineno, offset, events := "", 1, 0, [];
    }

    function GetPos(): Position
      reads this
    {
      Position(lineno, offset)
    }

    /** updatepos(i, j) */
    method UpdatePos(i: nat, j: nat)
      modifies this`lineno, this`offset
      ensures GetPos() == Moved(old(GetPos()), rawdata, i, j)
      ensures i < j ==>
                var text := rawdata[Min(i, |rawdata|)..Min(j, |rawdata|)];
                && lineno == old(lineno) + Newlines(text)
                && offset == (if '\n' in text then 0 else old(offset)) + SinceNewline(text) + (j - i - |text|)
      ensures i >= j ==> GetPos() == old(GetPos())
    {
      if i >= j {
        return;
      }
      var text := rawdata[Min(i, |rawdata|)..Min(j, |rawdata|)];
      AdvanceCounts(GetPos(), text);
      NewlinesMean(text, "");
      var nlines := Count(text);
      if nlines != 0 {
        lineno := lineno + nlines;
        var pos := LastNewline(text);
        offset := j - (i + pos + 1);
      } else {
        NoNewlineSince(text);
        offset := offset + j - i;
      }
    }

    // ----- Regular expressions

    method SpaceEnd(j: nat) returns (k: nat)
      requires j <= |rawdata|
      ensures k == SkipSpace(rawdata, j)
    {
      k := j;
      while k < |rawdata| && IsSpace(rawdata[k])
        invariant j <= k <= |rawdata| && SkipSpace(rawdata, k) == SkipSpace(rawdata, j)
      {
        k := k + 1;
      }
    }

    method NameEnd(j: nat) returns (k: nat)
      requires j <= |rawdata|
      ensures k == SkipName(rawdata, j)
    {
      k := j;
      while k < |rawdata| && IsNameChar(rawdata[k])
        invariant j <= k <= |rawdata| && SkipName(rawdata, k) == SkipName(rawdata, j)
      {
        k := k + 1;
      }
    }

    method Find(c: char, j: nat) returns (k: Option<nat>)
      requires j <= |rawdata|
      ensures k == FindChar(rawdata, c, j)
    {
      var n := j;
      while n < |rawdata| && rawdata[n] != c
        invariant j <= n <= |rawdata| && FindChar(rawdata, c, n) == FindChar(rawdata, c, j)
      {
        n := n + 1;
      }
      k := if n < |rawdata| then Some(n) else None;
    }

    method MatchStringLit(j: nat) returns (k: Option<nat>)
      requires j < |rawdata|
      ensures k == StringLit(rawdata, j)
    {
      var q := Find(rawdata[j], j + 1);
      if q.None? {
        return None;
      }
      var e := SpaceEnd(q.value + 1);
      k := Some(e);
    }

    method MatchPattern(k: nat, pat: seq<Tok>) returns (end: Option<nat>)
      requires k <= |rawdata|
      ensures end == MatchAt(rawdata, k, pat)
    {
      var e: nat := k;
      var n := 0;
      while n < |pat|
        invariant n <= |pat| && e <= |rawdata|
        invariant MatchAt(rawdata, e, pat[n..]) == MatchAt(rawdata, k, pat)
      {
        assert pat[n..][1..] == pat[n + 1..];
        if pat[n].Ws? {
          e := SpaceEnd(e);
        } else if e < |rawdata| && rawdata[e] == pat[n].c {
          e := e + 1;
        } else {
          return None;
        }
        n := n + 1;
      }
      end := Some(e);
    }

    method SearchPattern(k: nat, pat: seq<Tok>) returns (m: Option<Span>)
      requires k <= |rawdata|
      ensures m == Search(rawdata, k, pat)
    {
      var start := k;
      while start <= |rawdata|
        invariant k <= start <= |rawdata| + 1
        invariant start <= |rawdata| ==> Search(rawdata, start, pat) == Search(rawdata, k, pat)
        invariant start > |rawdata| ==> Search(rawdata, k, pat) == None
      {
        var end := MatchPattern(start, pat);
        if end.Some? {
          return Some(Span(start, end.value));
        }
        start := start + 1;
      }
      m := None;
    }

    // ----- Scanners. Positions change only when an error is raised.

    method ScanNameAt(i: nat, declstartpos: nat) returns (r: NameScan)
      requires i <= |rawdata|
      modifies this`lineno, this`offset
      ensures r == ScanName(rawdata, i)
      ensures GetPos() == if r.NameBad? then Moved(old(GetPos()), rawdata, declstartpos, i) else old(GetPos())
    {
      if i == |rawdata| {
        return NameMore;
      }
      if IsLetter(rawdata[i]) {
        var e := NameEnd(i + 1);
        var j := SpaceEnd(e);
        if j == |rawdata| {
          return NameMore;
        }
        return Name(Lower(rawdata[i..e]), j);
      } else {
        UpdatePos(declstartpos, i);
        return NameBad;
      }
    }

    method ParseCommentAt(i: nat, report: bool) returns (r: Scan)
      requires i <= |rawdata|
      modifies this`events
      ensures r == ParseComment(rawdata, i)
      ensures events == old(events) +
                (if r.At? && report then [Comment(rawdata[i + 4..Search(rawdata, i + 4, COMMENT_CLOSE).value.start])] else [])
    {
      if !("<!--" <= rawdata[i..]) {
        return Bad;
      }
      var m := SearchPattern(i + 4, COMMENT_CLOSE);
      if m.None? {
        return More;
      }
      if report {
        events := events + [Comment(rawdata[i + 4..m.value.start])];
      }
      return At(m.value.end);
    }

    method ParseMarkedSectionAt(i: nat) returns (r: Scan)
      requires i <= |rawdata|
      modifies this`lineno, this`offset, this`events
      ensures r == ParseMarkedSection(rawdata, i)
      ensures !r.Bad? ==> GetPos() == old(GetPos())
      ensures r.At? ==> MarkedSectionSpan(rawdata, i).Some?
      ensures events == old(events) +
                (if r.At? then [Unknown(rawdata[i + 3..MarkedSectionSpan(rawdata, i).value.start])] else [])
    {
      if !("<![" <= rawdata[i..]) {
        return Bad;
      }
      var n := ScanNameAt(i + 3, i);
      if n.NameMore? {
        return More;
      } else if n.NameBad? {
        return Bad;
      }
      var close := SectionClose(n.text);
      if close.None? {
        return Bad;
      }
      var m := SearchPattern(i + 3, close.value);
      if m.None? {
        return More;
      }
      events := events + [Unknown(rawdata[i + 3..m.value.start])];
      return At(m.value.end);
    }

    method ParseElementAt(i: nat, declstartpos: nat) returns (r: Scan)
      requires i <= |rawdata|
      modifies this`lineno, this`offset
      ensures r == ParseElement(rawdata, i)
      ensures !r.Bad? ==> GetPos() == old(GetPos())
    {
      var n := ScanNameAt(i, declstartpos);
      if !n.Name? {
        return if n.NameMore? then More else Bad;
      }
      var k := Find('>', n.j);
      r := if k.Some? then At(k.value + 1) else More;
    }

    method NamesAndLitsAt(start: nat, declstartpos: nat) returns (r: Scan)
      requires start <= |rawdata|
      modifies this`lineno, this`offset
      ensures r == ParseNamesAndLits(rawdata, start)
      ensures !r.Bad? ==> GetPos() == old(GetPos())
    {
      var j := start;
      while true
        invariant start <= j <= |rawdata| && GetPos() == old(GetPos())
        invariant ParseNamesAndLits(rawdata, j) == ParseNamesAndLits(rawdata, start)
        decreases |rawdata| - j
      {
        if j == |rawdata| {
          return More;
        }
        if rawdata[j] == '>' {
          return At(j + 1);
        }
        if IsQuote(rawdata[j]) {
          var k := MatchStringLit(j);
          if k.None? {
            return More;
          }
          j := k.value;
        } else {
          var n := ScanNameAt(j, declstartpos);
          if !n.Name? {
            return if n.NameMore? then More else Bad;
          }
          j := n.j;
        }
      }
    }

    method ParseNotationAt(i: nat, declstartpos: nat) returns (r: Scan)
      requires i <= |rawdata|
      modifies this`lineno, this`offset
      ensures r == ParseNotation(rawdata, i)
      ensures !r.Bad? ==> GetPos() == old(GetPos())
    {
      var n := ScanNameAt(i, declstartpos);
      if !n.Name? {
        return if n.NameMore? then More else Bad;
      }
      r := NamesAndLitsAt(n.j, declstartpos);
    }

    method ParseEntityAt(i: nat, declstartpos: nat) returns (r: Scan)
      requires i <= |rawdata|
      modifies this`lineno, this`offset
      ensures r == ParseEntity(rawdata, i)
      ensures !r.Bad? ==> GetPos() == old(GetPos())
    {
      var j := i;
      if i < |rawdata| && rawdata[i] == '%' {
        j := SpaceEnd(i + 1);
        if j == |rawdata| {
          return More;
        }
      }
      var n := ScanNameAt(j, declstartpos);
      if !n.Name? {
        return if n.NameMore? then More else Bad;
      }
      r := NamesAndLitsAt(n.j, declstartpos);
    }

    /** The body of the attlist loop behind the attribute's name. */
    method ParseAttributeAt(i: nat, declstartpos: nat) returns (r: Scan)
      requires i < |rawdata|
      modifies this`lineno, this`offset
      ensures r == ParseAttribute(rawdata, i)
      ensures !r.Bad? ==> GetPos() == old(GetPos())
    {
      hide ScanName, StringLit;
      r := AttTypeAt(i, declstartpos);
      if !r.At? {
        return;
      }
      var j := r.j;
      if IsQuote(rawdata[j]) {
        var k := MatchStringLit(j);
        if k.None? || k.value == |rawdata| {
          return More;
        }
        j := k.value;
      }
      if rawdata[j] == '#' {
        var n := ScanNameAt(j + 1, declstartpos);
        if !n.Name? {
          return if n.NameMore? then More else Bad;
        }
        j := n.j;
      }
      return At(j);
    }

    method AttTypeAt(i: nat, declstartpos: nat) returns (r: Scan)
      requires i < |rawdata|
      modifies this`lineno, this`offset
      ensures r == ParseAttType(rawdata, i)
      ensures !r.Bad? ==> GetPos() == old(GetPos())
    {
      var j := i;
      if rawdata[j] == '(' {
        var p := Find(')', j);
        if p.None? {
          return More;
        }
        j := SpaceEnd(p.value + 1);
      } else {
        // an incomplete name is not checked here: it shows as an empty next character
        var n := ScanNameAt(j, declstartpos);
        if n.NameBad? {
          return Bad;
        }
        j := if n.Name? then n.j else |rawdata|;
      }
      return if j == |rawdata| then More else At(j);
    }

    method ParseAttlistAt(i: nat, declstartpos: nat) returns (r: Scan)
      requires i <= |rawdata|
      modifies this`lineno, this`offset
      ensures r == ParseAttlist(rawdata, i)
      ensures !r.Bad? ==> GetPos() == old(GetPos())
    {
      hide ParseAttribute, ScanName;
      var n := ScanNameAt(i, declstartpos);
      if !n.Name? {
        return if n.NameMore? then More else Bad;
      }
      var j := n.j;
      if rawdata[j] == '>' {
        return At(j + 1);
      }
      while true
        invariant n.j <= j < |rawdata| && GetPos() == old(GetPos())
        invariant ParseAttributes(rawdata, j) == ParseAttributes(rawdata, n.j)
        decreases |rawdata| - j
      {
        var a := ScanNameAt(j, declstartpos);
        if !a.Name? {
          return if a.NameMore? then More else Bad;
        }
        var d := ParseAttributeAt(a.j, declstartpos);
        if !d.At? {
          return d;
        }
        if rawdata[d.j] == '>' {
          return At(d.j + 1);
        }
        j := d.j;
      }
    }

    method ParseNamedAt(name: string, i: nat, declstartpos: nat) returns (r: Scan)
      requires i <= |rawdata|
      modifies this`lineno, this`offset
      ensures r == ParseNamed(rawdata, name, i)
      ensures !r.Bad? ==> GetPos() == old(GetPos())
    {
      hide ParseAttlist, ParseElement, ParseEntity, ParseNotation;
      if name == "attlist" {
        r := ParseAttlistAt(i, declstartpos);
      } else if name == "element" {
        r := ParseElementAt(i, declstartpos);
      } else if name == "entity" {
        r := ParseEntityAt(i, declstartpos);
      } else if name == "notation" {
        r := ParseNotationAt(i, declstartpos);
      } else {
        r := Bad;
      }
    }

    method ParseMarkupAt(j: nat, declstartpos: nat) returns (r: Scan)
      requires j < |rawdata| && rawdata[j] == '<'
      modifies this`lineno, this`offset, this`events
      ensures r == ParseMarkup(rawdata, j)
      ensures !r.Bad? ==> GetPos() == old(GetPos())
      ensures events == old(events)
    {
      hide ParseNamed, ScanName;
      if j + 1 == |rawdata| {
        return More;
      }
      if rawdata[j + 1] != '!' {
        UpdatePos(declstartpos, j + 1);
        return Bad;
      }
      if j + 2 == |rawdata| || j + 4 > |rawdata| {
        return More;
      }
      if "<!--" <= rawdata[j..] {
        r := ParseCommentAt(j, false);
        return;
      }
      var n := ScanNameAt(j + 2, declstartpos);
      if !n.Name? {
        return if n.NameMore? then More else Bad;
      }
      if n.text !in {"attlist", "element", "entity", "notation"} {
        UpdatePos(declstartpos, n.j + 2);
        OtherNames(rawdata, n.text, n.j);
        return Bad;
      }
      r := ParseNamedAt(n.text, n.j, declstartpos);
    }

    method ParseSubsetAt(i: nat, declstartpos: nat) returns (r: Scan)
      requires i <= |rawdata|
      modifies this`lineno, this`offset, this`events
      ensures r == ParseSubset(rawdata, i)
      ensures !r.Bad? ==> GetPos() == old(GetPos())
      ensures events == old(events)
    {
      hide ParseMarkup, ScanName;
      var j := i;
      while j < |rawdata|
        invariant i <= j <= |rawdata| && GetPos() == old(GetPos()) && events == old(events)
        invariant ParseSubset(rawdata, j) == ParseSubset(rawdata, i)
      {
        var c := rawdata[j];
        if c == '<' {
          var m := ParseMarkupAt(j, declstartpos);
          if !m.At? {
            return m;
          }
          j := m.j;
        } else if c == '%' {
          if j + 1 == |rawdata| {
            EmptyName(rawdata);
            return More;
          }
          var n := ScanNameAt(j + 1, declstartpos);
          if !n.Name? {
            return if n.NameMore? then More else Bad;
          }
          j := if rawdata[n.j] == ';' then n.j + 1 else n.j;
        } else if c == ']' {
          j := SpaceEnd(j + 1);
          if j < |rawdata| {
            if rawdata[j] == '>' {
              return At(j);
            }
            UpdatePos(declstartpos, j);
            return Bad;
          }
          return More;
        } else if IsSpace(c) {
          j := j + 1;
        } else {
          UpdatePos(declstartpos, j);
          return Bad;
        }
      }
      r := More;
    }

    method ParseItemAt(j: nat, decltype: string, i: nat) returns (r: Scan)
      requires j < |rawdata|
      modifies this`lineno, this`offset, this`events
      ensures r == ParseItem(rawdata, j, decltype)
      ensures !r.Bad? ==> GetPos() == old(GetPos())
      ensures events == old(events)
    {
      hide ParseSubset, ScanName, StringLit;
      if IsQuote(rawdata[j]) {
        var m := MatchStringLit(j);
        r := if m.None? then More else At(m.value);
      } else if IsLetter(rawdata[j]) {
        var n := ScanNameAt(j, i);
        r := if n.Name? then At(n.j) else if n.NameMore? then More else Bad;
      } else if rawdata[j] == '[' && decltype == "doctype" {
        r := ParseSubsetAt(j + 1, i);
      } else {
        r := Bad;
      }
    }

    /** parse_declaration: the index behind the declaration, and one handler call with its text. */
    method ParseDeclarationAt(i: nat) returns (r: Scan)
      requires i <= |rawdata|
      modifies this`lineno, this`offset, this`events
      ensures r == ParseDeclaration(rawdata, i)
      ensures !r.Bad? ==> GetPos() == old(GetPos())
      ensures !r.At? || rawdata[i + 2] == '>' ==> events == old(events)
      ensures r.At? && rawdata[i + 2] == '[' ==>
                && MarkedSectionSpan(rawdata, i).Some?
                && events == old(events) + [Unknown(rawdata[i + 3..MarkedSectionSpan(rawdata, i).value.start])]
      ensures r.At? && rawdata[i + 2] != '>' && rawdata[i + 2] != '[' ==>
                events == old(events) + [if ScanName(rawdata, i + 2).text == "doctype" then Decl(rawdata[i + 2..r.j - 1])
                                         else Unknown(rawdata[i + 2..r.j - 1])]
    {
      hide ParseItem, ParseMarkedSection, ScanName;
      if !("<!" <= rawdata[i..]) {
        return Bad;
      }
      if i + 2 == |rawdata| {
        return More;
      }
      if rawdata[i + 2] == '>' {
        return At(i + 3);
      }
      if rawdata[i + 2] == '-' {
        return More;
      }
      if rawdata[i + 2] == '[' {
        r := ParseMarkedSectionAt(i);
        return;
      }
      var n := ScanNameAt(i + 2, i);
      if !n.Name? {
        return if n.NameMore? then More else Bad;
      }
      var j := n.j;
      while j < |rawdata|
        invariant n.j <= j <= |rawdata| && GetPos() == old(GetPos()) && events == old(events)
        invariant ParseItems(rawdata, j, n.text) == ParseItems(rawdata, n.j, n.text)
        decreases |rawdata| - j
      {
        if rawdata[j] == '>' {
          var data := rawdata[i + 2..j];
          events := events + [if n.text == "doctype" then Decl(data) else Unknown(data)];
          return At(j + 1);
        }
        var step := ParseItemAt(j, n.text, i);
        if !step.At? {
          return step;
        }
        j := step.j;
      }
      r := More;
    }
  }

  lemma OtherNames(s: string, name: string, i: nat)
    requires i <= |s| && name !in {"attlist", "element", "entity", "notation"}
    ensures ParseNamed(s, name, i) == Bad
  {
  }

  lemma EmptyName(s: string)
    ensures ScanName(s, |s|) == NameMore
  {
  }

  /** str.count of newlines. */
  method Count(text: string) returns (n: nat)
    ensures n == Newlines(text)
  {
    n := 0;
    for i := 0 to |text|
      invariant n == Newlines(text[..i])
    {
      assert text[..i + 1][..i] == text[..i];
      if text[i] == '\n' {
        n := n + 1;
      }
    }
    assert text[..|text|] == text;
  }

  /** str.rindex of a newline. */
  method LastNewline(text: string) returns (pos: nat)
    requires Newlines(text) > 0
    ensures pos < |text| && |text| - (pos + 1) == SinceNewline(text)
  {
    pos := |text| - 1;
    assert text[..pos + 1] == text;
    while text[pos] != '\n'
      invariant pos < |text| && Newlines(text[..pos + 1]) > 0
      invariant SinceNewline(text) == |text| - (pos + 1) + SinceNewline(text[..pos + 1])
      decreases pos
    {
      assert text[..pos + 1][..pos] == text[..pos];
      pos := pos - 1;
    }
  }

  lemma {:induction false} NoNewlineSince(text: string)
    requires Newlines(text) == 0
    ensures SinceNewline(text) == |text|
  {
    if text != "" {
      NoNewlineSince(text[..|text| - 1]);
    }
  }
}
