/** Line endings under the newline modes of TextIOWrapper. */
module Lines {
  import opened Basics
  import opened Codecs
  import opened NewlineDecoders

  /** The `newline` argument: None, the empty string, or one fixed terminator. */
  datatype Newline = Translated | Untranslated | Exactly(nl: string)

  predicate Proper(n: Newline)
  {
    n.Exactly? ==> n.nl != ""
  }

  /** Length of the terminator that starts the text, 0 if none does. */
  function TerminatorAt(n: Newline, t: string): nat
  {
    match n
    case Translated => if StartsWithLF(t) then 1 else 0
    case Untranslated =>
      if StartsWithLF(t) then 1
      else if t != "" && t[0] == '\r' then (if StartsWithLF(t[1..]) then 2 else 1)
      else 0
    case Exactly(nl) => if nl <= t then |nl| else 0
  }

  /** Just past the first terminator of a text. */
  function EndOf(n: Newline, t: string): (end: Option<nat>)
    ensures end.Some? && Proper(n) ==> 0 < end.value <= |t|
  {
    if t == "" then None
    else if TerminatorAt(n, t) > 0 then Some(TerminatorAt(n, t))
    else match EndOf(n, t[1..])
      case None => None
      case Some(end) => Some(end + 1)
  }

  /** What readline(size) takes; a negative size is no limit. */
  function LineLength(n: Newline, size: int, t: string): (k: nat)
    requires Proper(n)
    ensures k <= |t| && (size >= 0 ==> k <= size)
    ensures size < 0 && t != "" ==> k > 0
  {
    var end := EndOf(n, t);
    var full := if end.None? then |t| else end.value;
    if 0 <= size < full then size else full
  }

  /** A line ends just behind the first place where a terminator starts, or with the text if there
      is none, and is cut at `size` characters. */
  lemma {:induction false} LineLengthMeans(n: Newline, size: int, t: string, pos: nat)
    requires Proper(n) && pos <= |t| && (pos < |t| ==> TerminatorAt(n, t[pos..]) > 0)
    requires forall i :: 0 <= i < pos ==> TerminatorAt(n, t[i..]) == 0
    ensures var full := if pos < |t| then pos + TerminatorAt(n, t[pos..]) else |t|;
            LineLength(n, size, t) == if size < 0 then full else Min(size, full)
  {
    if pos < |t| {
      EndFromStart(n, t, pos);
    } else {
      NoEnd(n, t);
    }
  }

  /** The terminators of each mode. */
  lemma Terminators(t: string)
    ensures TerminatorAt(Translated, "\n" + t) == 1
    ensures TerminatorAt(Untranslated, "\n" + t) == 1
    ensures TerminatorAt(Untranslated, "\r\n" + t) == 2
    ensures !StartsWithLF(t) ==> TerminatorAt(Untranslated, "\r" + t) == 1
    ensures forall nl :: nl != "" ==> TerminatorAt(Exactly(nl), nl + t) == |nl|
    ensures !StartsWithLF(t) ==> TerminatorAt(Translated, t) == 0
    ensures t == "" || (t[0] != '\n' && t[0] != '\r') ==> TerminatorAt(Untranslated, t) == 0
    ensures forall nl :: nl != "" && !(nl <= t) ==> TerminatorAt(Exactly(nl), t) == 0
  {
    assert ("\r\n" + t)[1..] == "\n" + t;
    assert ("\r" + t)[1..] == t;
  }

  /** More text behind a terminated line does not move its end, unless it would complete a CR LF. */
  lemma {:induction false} EndStable(n: Newline, a: string, b: string)
    requires Proper(n) && EndOf(n, a).Some?
    requires n.Untranslated? ==> CleanSeam(a, b)
    ensures EndOf(n, a + b) == EndOf(n, a)
  {
    if TerminatorAt(n, a) > 0 {
      assert n.Untranslated? && |a| > 1 ==> (a + b)[1] == a[1];
      assert n.Exactly? ==> n.nl <= a + b;
    } else {
      assert (a + b)[1..] == a[1..] + b;
      EndStable(n, a[1..], b);
      NoTerminatorYet(n, a, b);
    }
  }

  /** If the first terminator lies further on inside `a`, none starts `a + b` either. */
  lemma NoTerminatorYet(n: Newline, a: string, b: string)
    requires Proper(n) && EndOf(n, a).Some? && TerminatorAt(n, a) == 0
    ensures TerminatorAt(n, a + b) == 0
  {
    if n.Exactly? {
      EndBehindTerminator(n, a);
    }
  }

  lemma {:induction false} EndBehindTerminator(n: Newline, a: string)
    requires n.Exactly? && Proper(n) && EndOf(n, a).Some?
    ensures EndOf(n, a).value >= |n.nl|
  {
    if TerminatorAt(n, a) == 0 {
      EndBehindTerminator(n, a[1..]);
    }
  }

  /** A text without a terminator: the line ends beyond it. */
  lemma {:induction false} EndBeyond(n: Newline, a: string, b: string)
    requires Proper(n) && EndOf(n, a).None?
    ensures EndOf(n, a + b).Some? ==> EndOf(n, a + b).value > |a|
  {
    if a != "" {
      assert (a + b)[1..] == a[1..] + b;
      EndBeyond(n, a[1..], b);
    }
  }

  // ----- str.find, and the searches of readline

  /** str.find(sub, start) for a start in range. */
  function Find(t: string, sub: string, start: nat): (pos: int)
    requires start <= |t|
    ensures pos == -1 || start <= pos <= |t|
    decreases |t| - start
  {
    if sub <= t[start..] then start else if start == |t| then -1 else Find(t, sub, start + 1)
  }

  lemma {:induction false} FindIsFirst(t: string, sub: string, start: nat)
    requires start <= |t|
    ensures var pos := Find(t, sub, start);
            && (pos >= 0 ==> pos + |sub| <= |t| && sub <= t[pos..])
            && (forall i :: start <= i <= |t| && (pos == -1 || i < pos) ==> !(sub <= t[i..]))
    decreases |t| - start
  {
    if !(sub <= t[start..]) && start < |t| {
      FindIsFirst(t, sub, start + 1);
    }
  }

  /** The end of the first line, from the position where its terminator starts. */
  lemma {:induction false} EndFromStart(n: Newline, t: string, pos: nat)
    requires pos < |t| && TerminatorAt(n, t[pos..]) > 0
    requires forall i :: 0 <= i < pos ==> TerminatorAt(n, t[i..]) == 0
    ensures EndOf(n, t) == Some(pos + TerminatorAt(n, t[pos..]))
  {
    hide TerminatorAt;
    assert t[0..] == t;
    if pos > 0 {
      assert forall i :: 0 <= i < pos - 1 ==> t[1..][i..] == t[i + 1..];
      assert t[1..][pos - 1..] == t[pos..];
      EndFromStart(n, t[1..], pos - 1);
    }
  }

  lemma {:induction false} NoEnd(n: Newline, t: string)
    requires forall i :: 0 <= i < |t| ==> TerminatorAt(n, t[i..]) == 0
    ensures EndOf(n, t) == None
  {
    hide TerminatorAt;
    if t != "" {
      assert t[0..] == t;
      assert forall i :: 0 <= i < |t| - 1 ==> t[1..][i..] == t[i + 1..];
      NoEnd(n, t[1..]);
    }
  }

  /** No terminator before `start`: what an earlier, failed search established. */
  predicate SearchedTo(n: Newline, t: string, start: nat)
    requires start <= |t|
  {
    match n
    case Translated => '\n' !in t[..start]
    case Untranslated => '\n' !in t[..start] && '\r' !in t[..start]
    case Exactly(_) => start == 0
  }

  /** One round of the search: by mode, the end of the first terminator or -1. */
  method SearchLine(n: Newline, line: string, start: nat) returns (endpos: int)
    requires Proper(n) && start <= |line| && SearchedTo(n, line, start)
    ensures endpos == (if EndOf(n, line).None? then -1 else EndOf(n, line).value)
    ensures endpos == -1 && !n.Exactly? ==> SearchedTo(n, line, |line|)
  {
    match n {
      case Translated =>
        var pos := Find(line, "\n", start);
        LfFound(line, start);
        endpos := if pos >= 0 then pos + 1 else -1;
        TranslatedEnd(line, start, pos);
      case Untranslated =>
        var nlpos := Find(line, "\n", start);
        var crpos := Find(line, "\r", start);
        UntranslatedEnd(line, start, nlpos, crpos);
        if crpos == -1 {
          endpos := if nlpos == -1 then -1 else nlpos + 1;
        } else if nlpos == -1 {
          endpos := crpos + 1;
        } else if nlpos < crpos {
          endpos := nlpos + 1;
        } else if nlpos == crpos + 1 {
          endpos := crpos + 2;
        } else {
          endpos := crpos + 1;
        }
      case Exactly(nl) =>
        var pos := Find(line, nl, 0);
        ExactlyEnd(line, nl, pos);
        endpos := if pos >= 0 then pos + |nl| else -1;
    }
  }

  lemma OneCharPrefix(c: char, t: string)
    ensures [c] <= t <==> t != "" && t[0] == c
  {
  }

  /** Searching for one character. */
  lemma CharFound(line: string, c: char, start: nat)
    requires start <= |line| && c !in line[..start]
    ensures var pos := Find(line, [c], start);
            && (pos >= 0 ==> pos < |line| && line[pos] == c)
            && (forall i :: 0 <= i < |line| && (pos == -1 || i < pos) ==> line[i] != c)
  {
    var pos := Find(line, [c], start);
    FindIsFirst(line, [c], start);
    forall i | 0 <= i < |line| && (pos == -1 || i < pos) ensures line[i] != c {
      if i < start {
        assert line[i] == line[..start][i];
      } else {
        OneCharPrefix(c, line[i..]);
      }
    }
  }

  lemma LfFound(line: string, start: nat)
    requires start <= |line| && '\n' !in line[..start]
    ensures var pos := Find(line, "\n", start);
            && (pos >= 0 ==> pos < |line| && line[pos] == '\n')
            && (forall i :: 0 <= i < |line| && (pos == -1 || i < pos) ==> line[i] != '\n')
  {
    CharFound(line, '\n', start);
  }

  lemma TranslatedEnd(line: string, start: nat, pos: int)
    requires start <= |line| && '\n' !in line[..start] && pos == Find(line, "\n", start)
    ensures EndOf(Translated, line) == if pos >= 0 then Some(pos + 1) else None
    ensures pos == -1 ==> '\n' !in line
  {
    LfFound(line, start);
    if pos >= 0 {
      EndFromStart(Translated, line, pos);
    } else {
      NoEnd(Translated, line);
    }
  }

  function KeptTerminator(line: string, i: nat): nat
    requires i < |line|
  {
    if line[i] == '\n' then 1
    else if line[i] != '\r' then 0
    else if i + 1 < |line| && line[i + 1] == '\n' then 2 else 1
  }

  lemma TerminatorInside(line: string, i: nat)
    requires i < |line|
    ensures TerminatorAt(Untranslated, line[i..]) == KeptTerminator(line, i)
  {
    assert line[i..][1..] == line[i + 1..];
  }

  lemma UntranslatedEnd(line: string, start: nat, nlpos: int, crpos: int)
    requires start <= |line| && '\n' !in line[..start] && '\r' !in line[..start]
    requires nlpos == Find(line, "\n", start) && crpos == Find(line, "\r", start)
    ensures nlpos == -1 && crpos == -1 ==> EndOf(Untranslated, line) == None && '\n' !in line && '\r' !in line
    ensures nlpos >= 0 && (crpos == -1 || nlpos < crpos) ==> EndOf(Untranslated, line) == Some(nlpos + 1)
    ensures crpos >= 0 && nlpos == crpos + 1 ==> EndOf(Untranslated, line) == Some(crpos + 2)
    ensures crpos >= 0 && (nlpos == -1 || nlpos > crpos + 1) ==> EndOf(Untranslated, line) == Some(crpos + 1)
    ensures nlpos != crpos || nlpos == -1
  {
    CharFound(line, '\n', start);
    CharFound(line, '\r', start);
    hide EndOf, Find, TerminatorAt;
    if nlpos == -1 && crpos == -1 {
      FirstKept(line, |line|);
    } else if crpos == -1 || (nlpos >= 0 && nlpos < crpos) {
      FirstKept(line, nlpos);
    } else {
      FirstKept(line, crpos);
    }
  }

  /** The first CR or LF of a text ends its first line; position |line| says there is none. */
  lemma FirstKept(line: string, pos: nat)
    requires pos <= |line|
    requires forall i :: 0 <= i < pos ==> line[i] != '\n' && line[i] != '\r'
    requires pos < |line| ==> line[pos] == '\n' || line[pos] == '\r'
    ensures EndOf(Untranslated, line) == if pos < |line| then Some(pos + KeptTerminator(line, pos)) else None
  {
    hide EndOf, TerminatorAt;
    forall i | 0 <= i < |line|
      ensures TerminatorAt(Untranslated, line[i..]) == KeptTerminator(line, i)
    {
      TerminatorInside(line, i);
    }
    if pos < |line| {
      EndFromStart(Untranslated, line, pos);
    } else {
      NoEnd(Untranslated, line);
    }
  }

  lemma ExactlyEnd(line: string, nl: string, pos: int)
    requires nl != "" && pos == Find(line, nl, 0)
    ensures EndOf(Exactly(nl), line) == if pos >= 0 then Some(pos + |nl|) else None
  {
    FindIsFirst(line, nl, 0);
    hide EndOf, Find;
    if pos >= 0 {
      EndFromStart(Exactly(nl), line, pos);
    } else {
      NoEnd(Exactly(nl), line);
    }
  }

  // ----- Splitting a whole text

  /** The lines of a text: unlimited readline until nothing is left. */
  function SplitLines(n: Newline, t: string): seq<string>
    requires Proper(n)
    decreases |t|
  {
    if t == "" then [] else
      var k := LineLength(n, -1, t);
      [t[..k]] + SplitLines(n, t[k..])
  }

  function Join(parts: seq<string>): string
  {
    if parts == [] then "" else parts[0] + Join(parts[1..])
  }

  /** Lines cut as they should be: none is empty, each ends at its first terminator, and only
      the last may lack one. */
  ghost predicate WellCut(n: Newline, lines: seq<string>)
  {
    lines == [] ||
    (&& lines[0] != ""
     && (EndOf(n, lines[0]) == Some(|lines[0]|) || (EndOf(n, lines[0]) == None && |lines| == 1))
     && WellCut(n, lines[1..]))
  }

  /** The lines partition the text. */
  lemma {:induction false} LinesPartition(n: Newline, t: string)
    requires Proper(n)
    ensures Join(SplitLines(n, t)) == t && WellCut(n, SplitLines(n, t))
    decreases |t|
  {
    hide EndOf;
    if t != "" {
      var k := LineLength(n, -1, t);
      LinesPartition(n, t[k..]);
      assert t == t[..k] + t[k..];
      if EndOf(n, t).Some? {
        EndOfLine(n, t);
      } else {
        assert t[..k] == t && t[k..] == "";
      }
    }
  }

  /** A line cut at its terminator ends there on its own. */
  lemma {:induction false} EndOfLine(n: Newline, t: string)
    requires Proper(n) && EndOf(n, t).Some?
    ensures EndOf(n, t[..EndOf(n, t).value]) == EndOf(n, t)
  {
    var k := EndOf(n, t).value;
    if TerminatorAt(n, t) == 0 {
      EndOfLine(n, t[1..]);
      assert t[..k][1..] == t[1..][..k - 1];
      NoTerminatorYetCut(n, t, k);
    } else {
      assert n.Untranslated? && k > 1 ==> t[..k][1] == t[1];
    }
  }

  lemma NoTerminatorYetCut(n: Newline, t: string, k: nat)
    requires k <= |t| && TerminatorAt(n, t) == 0
    ensures TerminatorAt(n, t[..k]) == 0
  {
  }
}
