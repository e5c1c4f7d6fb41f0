/** Declarations that go wrong at one character, and the proof that the scanners raise the error. */
module MarkupFaults {
  import opened Basics
  import opened MarkupSpec
  import opened MarkupRoundTrips
  import opened MarkupSubsets

  /** A character that starts no name. */
  lemma NoNameHere(s: string, j: nat, c: char)
    requires Stands(s, j, [c]) && !IsLetter(c)
    ensures j < |s| && s[j] == c && ScanName(s, j) == NameBad
  {
    StandsFirst(s, j, [c]);
  }

  // ----- In a declaration of the internal subset

  /** What is wrong behind the keyword: no name, or a wrong character in place of an item, of an
      attribute, of its type or of the word behind a "#". */
  datatype BodyFault =
    | NoName(keyword: string, c: char)
    | NoEntityName(gap: string, c: char)
    | EntityItem(percent: bool, gap: string, name: Item, items: seq<Item>, c: char)
    | NotationItem(name: Item, items: seq<Item>, c: char)
    | NoAttribute(name: Item, rows: seq<Row>, c: char)
    | NoType(name: Item, rows: seq<Row>, attribute: Item, c: char)
    | NoConstraint(name: Item, rows: seq<Row>, attribute: Item, kind: Item, value: seq<Item>, c: char)

  function FaultKeyword(f: BodyFault): string
  {
    match f
    case NoName(keyword, _) => keyword
    case NoEntityName(_, _) => "entity"
    case EntityItem(_, _, _, _, _) => "entity"
    case NotationItem(_, _, _) => "notation"
    case _ => "attlist"
  }

  function RenderBodyFault(f: BodyFault): (r: string)
    ensures r != ""
  {
    match f
    case NoName(_, c) => [c]
    case NoEntityName(gap, c) => "%" + (gap + [c])
    case EntityItem(percent, gap, name, items, c) =>
      ItemsKeepEnd(items, [c]);
      if percent then "%" + (gap + (RenderItem(name) + RenderItems(items, [c])))
      else RenderItem(name) + RenderItems(items, [c])
    case NotationItem(name, items, c) => ItemsKeepEnd(items, [c]); RenderItem(name) + RenderItems(items, [c])
    case NoAttribute(name, rows, c) => RowsKeepEnd(rows, [c]); RenderItem(name) + RenderRows(rows, [c])
    case NoType(name, rows, attribute, c) =>
      RowsKeepEnd(rows, RenderItem(attribute) + [c]);
      RenderItem(name) + RenderRows(rows, RenderItem(attribute) + [c])
    case NoConstraint(name, rows, attribute, kind, value, c) =>
      ItemsKeepEnd(value, ['#', c]);
      RowsKeepEnd(rows, RenderItem(attribute) + (RenderItem(kind) + RenderItems(value, ['#', c])));
      RenderItem(name) + RenderRows(rows, RenderItem(attribute) + (RenderItem(kind) + RenderItems(value, ['#', c])))
  }

  predicate NoItem(c: char)
  {
    c != '>' && !IsQuote(c) && !IsLetter(c)
  }

  predicate GoodHead(name: Item, items: seq<Item>, tail: string)
  {
    name.Word? && GoodItem(name, RenderItems(items, tail)) && Plain(items) && GoodItems(items, tail)
  }

  predicate GoodRowsHead(name: Item, rows: seq<Row>, tail: string)
  {
    name.Word? && GoodItem(name, RenderRows(rows, tail)) && GoodRows(rows, tail) && tail != "" && tail[0] != '>'
  }

  predicate GoodBodyFault(f: BodyFault)
  {
    match f
    case NoName(keyword, c) =>
      && keyword in {"attlist", "element", "entity", "notation"} && !IsLetter(c) && (keyword == "entity" ==> c != '%')
    case NoEntityName(gap, c) => Closed(gap, [c]) && !IsLetter(c)
    case EntityItem(_, gap, name, items, c) => Blank(gap) && GoodHead(name, items, [c]) && NoItem(c)
    case NotationItem(name, items, c) => GoodHead(name, items, [c]) && NoItem(c)
    case NoAttribute(name, rows, c) => GoodRowsHead(name, rows, [c]) && !IsLetter(c)
    case NoType(name, rows, attribute, c) =>
      && attribute.Word? && GoodItem(attribute, [c]) && GoodRowsHead(name, rows, RenderItem(attribute) + [c])
      && c != '(' && !IsLetter(c)
    case NoConstraint(name, rows, attribute, kind, value, c) =>
      && attribute.Word? && (kind.Word? || kind.Group?) && (value == [] || (|value| == 1 && value[0].Lit?))
      && GoodItem(attribute, RenderItem(kind) + RenderItems(value, ['#', c]))
      && GoodItem(kind, RenderItems(value, ['#', c])) && GoodItems(value, ['#', c])
      && GoodRowsHead(name, rows, RenderItem(attribute) + (RenderItem(kind) + RenderItems(value, ['#', c])))
      && !IsLetter(c)
  }

  lemma ItemFault(s: string, j: nat, items: seq<Item>, c: char)
    requires Plain(items) && GoodItems(items, [c]) && NoItem(c) && Stands(s, j, RenderItems(items, [c]))
    ensures ParseNamesAndLits(s, j) == Bad
  {
    hide ScanName, Stands, Plain, GoodItems, RenderItems, IsQuote, IsLetter, StringLit;
    var k := NamesAndLitsPass(s, j, items, [c]);
    NoNameHere(s, k, c);
  }

  lemma NotationFault(s: string, j: nat, name: Item, items: seq<Item>, c: char)
    requires GoodHead(name, items, [c]) && NoItem(c) && Stands(s, j, RenderItem(name) + RenderItems(items, [c]))
    ensures ParseNotation(s, j) == Bad
  {
    hide ScanName, Stands, GoodItem, RenderItem, Lower, GoodItems, RenderItems, ParseNamesAndLits, Plain,
         NoItem;
    WordItem(s, j, name, RenderItems(items, [c]));
    ItemFault(s, j + |RenderItem(name)|, items, c);
  }

  lemma EntityFault(s: string, j: nat, percent: bool, gap: string, name: Item, items: seq<Item>, c: char)
    requires Blank(gap) && GoodHead(name, items, [c]) && NoItem(c)
    requires Stands(s, j, RenderBodyFault(EntityItem(percent, gap, name, items, c)))
    ensures ParseEntity(s, j) == Bad
  {
    hide ScanName, Stands, GoodItem, RenderItem, Lower, GoodItems, RenderItems, SkipSpace, ParseNamesAndLits,
         Plain, NoItem, Blank;
    var a := EntityName(s, j, percent, gap, name, RenderItems(items, [c]));
    ItemFault(s, a + |RenderItem(name)|, items, c);
  }

  /** Up to where the rows of an attlist declaration end, with more to come. */
  lemma RowsThen(s: string, j: nat, name: Item, rows: seq<Row>, tail: string) returns (k: nat)
    requires GoodRowsHead(name, rows, tail) && Stands(s, j, RenderItem(name) + RenderRows(rows, tail))
    ensures k < |s| && Stands(s, k, tail) && s[k] == tail[0] && ParseAttlist(s, j) == ParseAttributes(s, k)
  {
    hide ScanName, Stands, GoodItem, RenderItem, Lower, GoodRow, RenderRow, ParseAttributes, IsLetter;
    WordItem(s, j, name, RenderRows(rows, tail));
    k := j + |RenderItem(name)|;
    if rows == [] {
      StandsFirst(s, k, tail);
    } else {
      RowStart(rows[0], RenderRows(rows[1..], tail));
      k := RowsPass(s, k, rows, tail);
    }
  }

  lemma NoAttributeFault(s: string, j: nat, name: Item, rows: seq<Row>, c: char)
    requires GoodRowsHead(name, rows, [c]) && !IsLetter(c) && Stands(s, j, RenderItem(name) + RenderRows(rows, [c]))
    ensures ParseAttlist(s, j) == Bad
  {
    hide ParseAttlist, Stands, GoodRowsHead, ScanName;
    var k := RowsThen(s, j, name, rows, [c]);
    NoNameHere(s, k, c);
  }

  lemma NoTypeFault(s: string, j: nat, name: Item, rows: seq<Row>, attribute: Item, c: char)
    requires GoodBodyFault(NoType(name, rows, attribute, c))
    requires Stands(s, j, RenderBodyFault(NoType(name, rows, attribute, c)))
    ensures ParseAttlist(s, j) == Bad
  {
    hide ParseAttlist, Stands, GoodRowsHead, ScanName, GoodItem, RenderItem, RenderRows, Lower, IsLetter;
    var k := RowsThen(s, j, name, rows, RenderItem(attribute) + [c]);
    WordItem(s, k, attribute, [c]);
    NoNameHere(s, k + |RenderItem(attribute)|, c);
  }

  lemma NoConstraintFault(s: string, j: nat, name: Item, rows: seq<Row>, attribute: Item,
                           kind: Item, value: seq<Item>, c: char)
    requires GoodBodyFault(NoConstraint(name, rows, attribute, kind, value, c))
    requires Stands(s, j, RenderBodyFault(NoConstraint(name, rows, attribute, kind, value, c)))
    ensures ParseAttlist(s, j) == Bad
  {
    hide ParseAttlist, ParseAttType, ParseAttLit, Stands, GoodRowsHead, ScanName, GoodItem, GoodItems,
         RenderItem, RenderItems, RenderRows, Lower, IsLetter;
    var rest := RenderItems(value, ['#', c]);
    var k := RowsThen(s, j, name, rows, RenderItem(attribute) + (RenderItem(kind) + rest));
    WordItem(s, k, attribute, RenderItem(kind) + rest);
    var a := k + |RenderItem(attribute)|;
    KindPass(s, a, kind, rest);
    var b := a + |RenderItem(kind)|;
    assert !IsQuote('#');
    ValuePass(s, b, value, ['#', c]);
    var p := b + |rest| - 2;
    assert ['#', c] == ['#'] + [c];
    StandsChar(s, p, '#', [c]);
    NoNameHere(s, p + 1, c);
    assert ParseAttribute(s, a) == Bad;
  }

  lemma NoNameFault(s: string, j: nat, keyword: string, c: char)
    requires keyword in {"attlist", "element", "entity", "notation"} && !IsLetter(c)
             && (keyword == "entity" ==> c != '%')
    requires Stands(s, j, [c])
    ensures ParseNamed(s, keyword, j) == Bad
  {
    hide ScanName, IsLetter, Stands;
    NoNameHere(s, j, c);
  }

  lemma NoEntityNameFault(s: string, j: nat, gap: string, c: char)
    requires Closed(gap, [c]) && !IsLetter(c) && Stands(s, j, "%" + (gap + [c]))
    ensures ParseEntity(s, j) == Bad
  {
    hide ScanName, IsLetter, Stands, Closed, SkipSpace;
    StandsChar(s, j, '%', gap + [c]);
    GapScanned(s, j + 1, gap, [c]);
    NoNameHere(s, j + 1 + |gap|, c);
  }

  lemma BodyFaultRaises(s: string, j: nat, f: BodyFault)
    requires GoodBodyFault(f) && Stands(s, j, RenderBodyFault(f))
    ensures ParseNamed(s, FaultKeyword(f), j) == Bad
  {
    hide ParseAttlist, ParseElement, ParseEntity, ParseNotation, Stands, GoodHead, GoodRowsHead, GoodItem,
         RenderItem, RenderItems, GoodItems, RenderRows, ScanName, SkipSpace, ParseNamesAndLits, IsLetter,
         IsSpace, NoItem, Closed;
    match f {
      case NoName(keyword, c) => NoNameFault(s, j, keyword, c);
      case NoEntityName(gap, c) => NoEntityNameFault(s, j, gap, c);
      case EntityItem(percent, gap, name, items, c) => EntityFault(s, j, percent, gap, name, items, c);
      case NotationItem(name, items, c) => NotationFault(s, j, name, items, c);
      case NoAttribute(name, rows, c) => NoAttributeFault(s, j, name, rows, c);
      case NoType(name, rows, attribute, c) => NoTypeFault(s, j, name, rows, attribute, c);
      case NoConstraint(name, rows, attribute, kind, value, c) =>
        NoConstraintFault(s, j, name, rows, attribute, kind, value, c);
    }
  }

  // ----- In the internal subset

  /** What is wrong between two members: a character that starts none, a "<" without "!", a
      declaration without or with another keyword, a "%" without a name, something else than ">" behind
      the "]", or a declaration that goes wrong. */
  datatype Fault =
    | Odd(c: char)
    | AfterOpen(c: char)
    | NoKeyword(c: char, d: char)
    | OtherKeyword(keyword: Item, c: char)
    | NoReference(c: char)
    | AfterEnd(gap: string, c: char)
    | InDeclaration(keyword: Item, fault: BodyFault)

  function RenderFault(f: Fault): (r: string)
    ensures r != ""
  {
    match f
    case Odd(c) => [c]
    case AfterOpen(c) => ['<', c]
    case NoKeyword(c, d) => "<!" + [c, d]
    case OtherKeyword(keyword, c) => "<!" + (RenderItem(keyword) + [c])
    case NoReference(c) => ['%', c]
    case AfterEnd(gap, c) => "]" + (gap + [c])
    case InDeclaration(keyword, fault) => "<!" + (RenderItem(keyword) + RenderBodyFault(fault))
  }

  predicate GoodFault(f: Fault)
  {
    match f
    case Odd(c) => c !in {'<', '%', ']'} && !IsSpace(c)
    case AfterOpen(c) => c != '!'
    case NoKeyword(c, d) => !IsLetter(c) && !(c == '-' && d == '-')
    case OtherKeyword(keyword, c) =>
      && keyword.Word? && GoodItem(keyword, [c])
      && Lower(keyword.text) !in {"attlist", "element", "entity", "notation"}
    case NoReference(c) => !IsLetter(c)
    case AfterEnd(gap, c) => Closed(gap, [c]) && c != '>'
    case InDeclaration(keyword, fault) =>
      && keyword.Word? && GoodItem(keyword, RenderBodyFault(fault)) && GoodBodyFault(fault)
      && Lower(keyword.text) == FaultKeyword(fault)
  }

  /** A "<!" and a keyword, with something behind it. */
  lemma KeywordThen(s: string, j: nat, keyword: Item, more: string)
    requires keyword.Word? && GoodItem(keyword, more) && Stands(s, j, "<!" + (RenderItem(keyword) + more))
    ensures var k := j + 2 + |RenderItem(keyword)|;
            && j < |s| && s[j] == '<' && k < |s| && Stands(s, k, more)
            && ParseMarkup(s, j) == ParseNamed(s, Lower(keyword.text), k)
  {
    hide ParseComment, ScanName, ParseNamed, Stands, RenderItem, GoodItem, Lower, IsLetter, IsSpace;
    var rest := RenderItem(keyword) + more;
    OpenerStands(s, j, "<!", rest);
    assert s[j..][..2] == "<!";
    WordFirst(keyword, more);
    StandsFirst(s, j + 2, rest);
    WordItem(s, j + 2, keyword, more);
    assert s[j..][2] != '-';
  }

  lemma NoKeywordFault(s: string, j: nat, c: char, d: char)
    requires !IsLetter(c) && !(c == '-' && d == '-') && Stands(s, j, "<!" + [c, d])
    ensures j < |s| && s[j] == '<' && ParseMarkup(s, j) == Bad
  {
    assert s[j..][..4] == "<!" + [c, d];
    assert s[j..][0] == '<' && s[j..][1] == '!' && s[j..][2] == c && s[j..][3] == d;
    hide ParseComment, ParseNamed;
  }

  lemma AfterOpenFault(s: string, j: nat, c: char)
    requires c != '!' && Stands(s, j, ['<', c])
    ensures j < |s| && s[j] == '<' && ParseMarkup(s, j) == Bad
  {
    assert ['<', c] == ['<'] + [c];
    StandsChar(s, j, '<', [c]);
    StandsFirst(s, j + 1, [c]);
    hide ParseComment, ScanName, ParseNamed, Stands;
  }

  lemma MarkupFault(s: string, j: nat, f: Fault)
    requires GoodFault(f) && (f.AfterOpen? || f.NoKeyword? || f.OtherKeyword? || f.InDeclaration?)
    requires Stands(s, j, RenderFault(f))
    ensures j < |s| && s[j] == '<' && ParseMarkup(s, j) == Bad
  {
    hide ParseMarkup, Stands, RenderItem, GoodItem, Lower, GoodBodyFault, RenderBodyFault, IsLetter;
    match f {
      case AfterOpen(c) =>
        AfterOpenFault(s, j, c);
      case NoKeyword(c, d) => NoKeywordFault(s, j, c, d);
      case OtherKeyword(keyword, c) => KeywordThen(s, j, keyword, [c]);
      case InDeclaration(keyword, fault) =>
        KeywordThen(s, j, keyword, RenderBodyFault(fault));
        BodyFaultRaises(s, j + 2 + |RenderItem(keyword)|, fault);
    }
  }

  /** The error at such a place is raised, whatever stands before and behind it. */
  lemma SubsetRejected(s: string, j: nat, members: seq<Member>, f: Fault)
    requires GoodFault(f) && GoodMembers(members, RenderFault(f))
             && Stands(s, j, RenderMembers(members, RenderFault(f)))
    ensures ParseSubset(s, j) == Bad
  {
    hide ParseMarkup, Stands, GoodMembers, RenderMembers, RenderItem, RenderBodyFault, GoodItem, GoodBodyFault,
         ScanName, SkipSpace, IsSpace, IsLetter, Lower;
    var k := MembersPass(s, j, members, RenderFault(f));
    StandsFirst(s, k, RenderFault(f));
    match f {
      case Odd(c) =>
      case NoReference(c) =>
        assert ['%', c] == ['%'] + [c];
        StandsChar(s, k, '%', [c]);
        NoNameHere(s, k + 1, c);
      case AfterEnd(gap, c) =>
        StandsChar(s, k, ']', gap + [c]);
        GapScanned(s, k + 1, gap, [c]);
      case _ => MarkupFault(s, k, f);
    }
  }

  // ----- In a whole declaration or a marked section

  /** What is wrong with a declaration: no name, a wrong character in place of an item, or a fault in
      the internal subset; or with a marked section: no keyword, or another one. */
  datatype DeclarationFault =
    | NoDeclName(c: char)
    | OddItem(name: Item, items: seq<Item>, c: char)
    | InSubset(name: Item, items: seq<Item>, members: seq<Member>, fault: Fault)
    | NoStatus(c: char)
    | OtherStatus(name: Item, c: char)

  function RenderDeclarationFault(f: DeclarationFault): string
  {
    match f
    case NoDeclName(c) => "<!" + [c]
    case OddItem(name, items, c) => "<!" + (RenderItem(name) + RenderItems(items, [c]))
    case InSubset(name, items, members, fault) =>
      "<!" + (RenderItem(name) + RenderItems(items, "[" + RenderMembers(members, RenderFault(fault))))
    case NoStatus(c) => "<![" + [c]
    case OtherStatus(name, c) => "<![" + (RenderItem(name) + [c])
  }

  predicate GoodDeclarationFault(f: DeclarationFault)
  {
    match f
    case NoDeclName(c) => c !in {'>', '-', '['} && !IsLetter(c)
    case OddItem(name, items, c) =>
      GoodHead(name, items, [c]) && NoItem(c) && !(c == '[' && Lower(name.text) == "doctype")
    case InSubset(name, items, members, fault) =>
      && GoodHead(name, items, "[" + RenderMembers(members, RenderFault(fault))) && Lower(name.text) == "doctype"
      && GoodFault(fault) && GoodMembers(members, RenderFault(fault))
    case NoStatus(c) => !IsLetter(c)
    case OtherStatus(name, c) =>
      && name.Word? && GoodItem(name, [c])
      && Lower(name.text) !in {"temp", "cdata", "ignore", "include", "rcdata", "if", "else", "endif"}
  }

  /** The name of a declaration and its items, with something behind them. */
  lemma ItemsThen(s: string, i: nat, name: Item, items: seq<Item>, tail: string) returns (k: nat)
    requires GoodHead(name, items, tail) && tail != ""
    requires Stands(s, i, "<!" + (RenderItem(name) + RenderItems(items, tail)))
    ensures k < |s| && Stands(s, k, tail) && s[k] == tail[0]
    ensures ParseDeclaration(s, i) == var r := ParseItems(s, k, Lower(name.text)); if r.At? then At(r.j + 1) else r
  {
    hide ScanName, ParseItems, Stands, GoodItem, RenderItem, GoodItems, RenderItems, Lower, IsLetter, IsSpace,
         ParseMarkedSection, Plain;
    var rest := RenderItems(items, tail);
    OpenerStands(s, i, "<!", RenderItem(name) + rest);
    WordFirst(name, rest);
    StandsFirst(s, i + 2, RenderItem(name) + rest);
    WordItem(s, i + 2, name, rest);
    k := ItemsPass(s, i + 2 + |RenderItem(name)|, items, tail, Lower(name.text));
    StandsFirst(s, k, tail);
  }

  lemma SectionFault(s: string, i: nat, f: DeclarationFault)
    requires GoodDeclarationFault(f) && (f.NoStatus? || f.OtherStatus?) && Stands(s, i, RenderDeclarationFault(f))
    ensures i + 3 <= |s| && "<![" <= s[i..] && ParseMarkedSection(s, i) == Bad
  {
    hide ScanName, Stands, GoodItem, RenderItem, Lower, Search, IsLetter;
    match f {
      case NoStatus(c) =>
        OpenerStands(s, i, "<![", [c]);
        NoNameHere(s, i + 3, c);
      case OtherStatus(name, c) =>
        OpenerStands(s, i, "<![", RenderItem(name) + [c]);
        WordItem(s, i + 3, name, [c]);
    }
  }

  lemma SectionOpens(s: string, i: nat)
    requires i + 3 <= |s| && "<![" <= s[i..]
    ensures ParseDeclaration(s, i) == ParseMarkedSection(s, i)
  {
    assert s[i..][..3] == "<![";
    assert s[i..][..2] == "<!";
    assert s[i + 2] == s[i..][2];
    hide ParseMarkedSection, ScanName, ParseItems;
  }

  /** The first wrong character raises the error, whatever stands before and behind it. */
  lemma DeclarationRejected(s: string, i: nat, f: DeclarationFault)
    requires GoodDeclarationFault(f) && Stands(s, i, RenderDeclarationFault(f))
    ensures ParseDeclaration(s, i) == Bad
  {
    hide ParseMarkedSection, ParseSubset, ScanName, Stands, GoodHead, RenderItems, RenderItem, RenderMembers,
         GoodMembers, GoodItem, RenderFault, GoodFault, Lower, IsLetter, IsQuote, StringLit, SectionClose;
    match f {
      case NoDeclName(c) =>
        OpenerStands(s, i, "<!", [c]);
        NoNameHere(s, i + 2, c);
      case OddItem(name, items, c) =>
        var k := ItemsThen(s, i, name, items, [c]);
      case InSubset(name, items, members, fault) =>
        var inner := RenderMembers(members, RenderFault(fault));
        var k := ItemsThen(s, i, name, items, "[" + inner);
        StandsChar(s, k, '[', inner);
        SubsetRejected(s, k + 1, members, fault);
        BracketIsNoItem();
      case _ =>
        SectionFault(s, i, f);
        SectionOpens(s, i);
    }
  }

  lemma BracketIsNoItem()
    ensures NoItem('[')
  {
  }
}
