/** Declarations with string literals and an internal subset, written out as text, and the proof that
    the scanners accept each in full. */
module MarkupSubsets {
  import opened Basics
  import opened MarkupSpec
  import opened MarkupRoundTrips

  // ----- Items

  /** A token with the whitespace behind it: a word, a string literal, a group in parentheses, or a
      word with a "#" in front. */
  datatype Item =
    | Word(text: string, gap: string)
    | Lit(quote: char, text: string, gap: string)
    | Group(text: string, gap: string)
    | Hash(text: string, gap: string)

  function RenderItem(item: Item): (r: string)
    ensures item.Lit? || item.Group? || item.Hash? ==> r != ""
  {
    match item
    case Word(text, gap) => text + gap
    case Lit(quote, text, gap) => [quote] + (text + ([quote] + gap))
    case Group(text, gap) => "(" + (text + (")" + gap))
    case Hash(text, gap) => "#" + (text + gap)
  }

  /** An item can be told from the text behind it. */
  predicate GoodItem(item: Item, more: string)
  {
    match item
    case Word(text, gap) => IsWord(text) && Ends(gap, more)
    case Lit(quote, text, gap) => IsQuote(quote) && quote !in text && Closed(gap, more)
    case Group(text, gap) => ')' !in text && Closed(gap, more)
    case Hash(text, gap) => IsWord(text) && Ends(gap, more)
  }

  function RenderItems(items: seq<Item>, tail: string): string
  {
    if items == [] then tail else RenderItem(items[0]) + RenderItems(items[1..], tail)
  }

  predicate GoodItems(items: seq<Item>, tail: string)
  {
    items == [] || (GoodItem(items[0], RenderItems(items[1..], tail)) && GoodItems(items[1..], tail))
  }

  /** Words and string literals. */
  predicate Plain(items: seq<Item>)
  {
    forall n :: 0 <= n < |items| ==> items[n].Word? || items[n].Lit?
  }

  lemma WordItem(s: string, j: nat, item: Item, more: string)
    requires item.Word? && GoodItem(item, more) && Stands(s, j, RenderItem(item) + more)
    ensures ScanName(s, j) == Name(Lower(item.text), j + |RenderItem(item)|)
    ensures Stands(s, j + |RenderItem(item)|, more) && j + |RenderItem(item)| < |s|
    ensures s[j + |RenderItem(item)|] == more[0] && IsLetter(s[j])
  {
    hide ScanName, IsWord, Ends, Stands, Lower, IsLetter;
    assert item.text + item.gap + more == item.text + (item.gap + more);
    WordScanned(s, j, item.text, item.gap, more);
  }

  lemma HashItem(s: string, j: nat, item: Item, more: string)
    requires item.Hash? && GoodItem(item, more) && Stands(s, j, RenderItem(item) + more)
    ensures j < |s| && s[j] == '#' && ScanName(s, j + 1) == Name(Lower(item.text), j + |RenderItem(item)|)
    ensures Stands(s, j + |RenderItem(item)|, more) && j + |RenderItem(item)| < |s|
    ensures s[j + |RenderItem(item)|] == more[0]
  {
    hide ScanName, IsWord, Ends, Stands, Lower;
    assert RenderItem(item) + more == ['#'] + (item.text + (item.gap + more));
    StandsChar(s, j, '#', item.text + (item.gap + more));
    WordScanned(s, j + 1, item.text, item.gap, more);
  }

  lemma {:induction false} CharFound(s: string, j: nat, c: char, text: string, more: string)
    requires c !in text && Stands(s, j, text + ([c] + more))
    ensures FindChar(s, c, j) == Some(j + |text|) && Stands(s, j + |text| + 1, more)
    decreases |text|
  {
    if text == "" {
      assert text + ([c] + more) == [c] + more;
      StandsChar(s, j, c, more);
    } else {
      assert text + ([c] + more) == [text[0]] + (text[1..] + ([c] + more));
      StandsChar(s, j, text[0], text[1..] + ([c] + more));
      CharFound(s, j + 1, c, text[1..], more);
    }
  }

  lemma Regroup(a: string, b: string, c: string)
    ensures (a + b) + c == a + (b + c)
  {
  }

  lemma LitText(q: char, text: string, gap: string, more: string)
    ensures RenderItem(Lit(q, text, gap)) + more == [q] + (text + ([q] + (gap + more)))
    ensures |RenderItem(Lit(q, text, gap))| == |text| + |gap| + 2
  {
    Regroup([q], text + ([q] + gap), more);
    Regroup(text, [q] + gap, more);
    Regroup([q], gap, more);
  }

  lemma QuotedText(s: string, j: nat, q: char, text: string, gap: string, more: string)
    requires q !in text && Closed(gap, more) && Stands(s, j, [q] + (text + ([q] + (gap + more))))
    ensures var k := j + |text| + |gap| + 2;
            j < |s| && s[j] == q && StringLit(s, j) == Some(k) && Stands(s, k, more) && k < |s| && s[k] == more[0]
  {
    hide Stands, FindChar, SkipSpace, Closed;
    StandsChar(s, j, q, text + ([q] + (gap + more)));
    CharFound(s, j + 1, q, text, gap + more);
    GapScanned(s, j + |text| + 2, gap, more);
  }

  lemma LitItem(s: string, j: nat, item: Item, more: string)
    requires item.Lit? && GoodItem(item, more) && Stands(s, j, RenderItem(item) + more)
    ensures j < |s| && IsQuote(s[j]) && StringLit(s, j) == Some(j + |RenderItem(item)|)
    ensures Stands(s, j + |RenderItem(item)|, more) && j + |RenderItem(item)| < |s|
    ensures s[j + |RenderItem(item)|] == more[0]
  {
    hide Stands, StringLit, Closed, RenderItem, IsQuote;
    LitText(item.quote, item.text, item.gap, more);
    QuotedText(s, j, item.quote, item.text, item.gap, more);
  }

  lemma GroupText(text: string, gap: string, more: string)
    ensures var t := RenderItem(Group(text, gap)) + more;
            && t == ['('] + (text + ([')'] + (gap + more)))
            && t == (['('] + text) + ([')'] + (gap + more))
    ensures |RenderItem(Group(text, gap))| == |text| + |gap| + 2
  {
    Regroup(['('], text + ([')'] + gap), more);
    Regroup(text, [')'] + gap, more);
    Regroup([')'], gap, more);
    Regroup(['('], text, [')'] + (gap + more));
  }

  lemma GroupedText(s: string, j: nat, text: string, gap: string, more: string)
    requires ')' !in text && Closed(gap, more) && Stands(s, j, ['('] + (text + ([')'] + (gap + more))))
    requires Stands(s, j, (['('] + text) + ([')'] + (gap + more)))
    ensures var k := j + |text| + |gap| + 2;
            j < |s| && s[j] == '(' && ParseAttType(s, j) == At(k) && Stands(s, k, more) && k < |s| && s[k] == more[0]
  {
    hide Stands, FindChar, SkipSpace, Closed, ScanName;
    StandsChar(s, j, '(', text + ([')'] + (gap + more)));
    CharFound(s, j, ')', ['('] + text, gap + more);
    GapScanned(s, j + |text| + 2, gap, more);
  }

  lemma GroupItem(s: string, j: nat, item: Item, more: string)
    requires item.Group? && GoodItem(item, more) && Stands(s, j, RenderItem(item) + more)
    ensures j < |s| && s[j] == '(' && ParseAttType(s, j) == At(j + |RenderItem(item)|)
    ensures Stands(s, j + |RenderItem(item)|, more) && j + |RenderItem(item)| < |s|
    ensures s[j + |RenderItem(item)|] == more[0]
  {
    hide Stands, ParseAttType, Closed, RenderItem;
    GroupText(item.text, item.gap, more);
    GroupedText(s, j, item.text, item.gap, more);
  }

  /** The first character of a plain item is its own. */
  lemma PlainItem(s: string, j: nat, item: Item, more: string)
    requires (item.Word? || item.Lit?) && GoodItem(item, more) && Stands(s, j, RenderItem(item) + more)
    ensures j < |s| && s[j] != '>' && (IsQuote(s[j]) <==> item.Lit?) && (IsLetter(s[j]) <==> item.Word?)
    ensures item.Lit? ==> StringLit(s, j) == Some(j + |RenderItem(item)|)
    ensures item.Word? ==> ScanName(s, j) == Name(Lower(item.text), j + |RenderItem(item)|)
    ensures Stands(s, j + |RenderItem(item)|, more) && j + |RenderItem(item)| < |s|
    ensures s[j + |RenderItem(item)|] == more[0]
  {
    hide StringLit, ScanName, Lower, Stands, GoodItem, RenderItem;
    if item.Word? {
      WordItem(s, j, item, more);
    } else {
      LitItem(s, j, item, more);
    }
  }

  /** Words and literals are passed over in notation and entity declarations. */
  lemma {:induction false} NamesAndLitsPass(s: string, j: nat, items: seq<Item>, tail: string) returns (k: nat)
    requires Plain(items) && GoodItems(items, tail) && Stands(s, j, RenderItems(items, tail))
    ensures j <= k <= |s| && Stands(s, k, tail) && k + |tail| == j + |RenderItems(items, tail)|
    ensures ParseNamesAndLits(s, j) == ParseNamesAndLits(s, k)
    decreases |items|
  {
    hide StringLit, ScanName, Lower, Stands, GoodItem, RenderItem, IsQuote, IsLetter;
    if items == [] {
      StandsInside(s, j, tail);
      k := j;
    } else {
      PlainItem(s, j, items[0], RenderItems(items[1..], tail));
      k := NamesAndLitsPass(s, j + |RenderItem(items[0])|, items[1..], tail);
    }
  }

  lemma StandsInside(s: string, j: nat, p: string)
    requires Stands(s, j, p)
    ensures j + |p| <= |s|
  {
  }

  /** And in parse_declaration. */
  lemma {:induction false} ItemsPass(s: string, j: nat, items: seq<Item>, tail: string, decltype: string)
    returns (k: nat)
    requires Plain(items) && GoodItems(items, tail) && Stands(s, j, RenderItems(items, tail))
    ensures j <= k <= |s| && Stands(s, k, tail) && k + |tail| == j + |RenderItems(items, tail)|
    ensures ParseItems(s, j, decltype) == ParseItems(s, k, decltype)
    decreases |items|
  {
    hide StringLit, ScanName, Lower, Stands, GoodItem, RenderItem, IsQuote, IsLetter, ParseSubset;
    if items == [] {
      StandsInside(s, j, tail);
      k := j;
    } else {
      PlainItem(s, j, items[0], RenderItems(items[1..], tail));
      k := ItemsPass(s, j + |RenderItem(items[0])|, items[1..], tail, decltype);
    }
  }

  // ----- Attribute descriptions

  /** Name, type, and optionally a default value and a "#" word. */
  datatype Row = Row(name: Item, kind: Item, value: seq<Item>, hash: seq<Item>)

  predicate RowShape(row: Row)
  {
    && row.name.Word? && (row.kind.Word? || row.kind.Group?)
    && (row.value == [] || (|row.value| == 1 && row.value[0].Lit?))
    && (row.hash == [] || (|row.hash| == 1 && row.hash[0].Hash?))
  }

  /** What may stand behind a row is neither a value nor a "#". */
  predicate EndsRow(tail: string)
  {
    tail != "" && !IsQuote(tail[0]) && tail[0] != '#'
  }

  function RenderRow(row: Row, tail: string): string
  {
    RenderItem(row.name)
    + (RenderItem(row.kind) + RenderItems(row.value, RenderItems(row.hash, tail)))
  }

  predicate GoodRow(row: Row, tail: string)
  {
    && RowShape(row) && EndsRow(tail)
    && GoodItem(row.name, RenderItem(row.kind) + RenderItems(row.value, RenderItems(row.hash, tail)))
    && GoodItem(row.kind, RenderItems(row.value, RenderItems(row.hash, tail)))
    && GoodItems(row.value, RenderItems(row.hash, tail))
    && GoodItems(row.hash, tail)
  }

  function RenderRows(rows: seq<Row>, tail: string): string
  {
    if rows == [] then tail else RenderRow(rows[0], RenderRows(rows[1..], tail))
  }

  predicate GoodRows(rows: seq<Row>, tail: string)
  {
    rows == [] || (GoodRow(rows[0], RenderRows(rows[1..], tail)) && GoodRows(rows[1..], tail))
  }

  lemma KindPass(s: string, j: nat, kind: Item, more: string)
    requires (kind.Word? || kind.Group?) && GoodItem(kind, more) && Stands(s, j, RenderItem(kind) + more)
    ensures j < |s| && ParseAttType(s, j) == At(j + |RenderItem(kind)|)
    ensures Stands(s, j + |RenderItem(kind)|, more) && j + |RenderItem(kind)| < |s|
    ensures s[j + |RenderItem(kind)|] == more[0]
  {
    if kind.Word? {
      WordItem(s, j, kind, more);
      hide ScanName, FindChar, SkipSpace;
    } else {
      GroupItem(s, j, kind, more);
    }
  }

  lemma ValuePass(s: string, j: nat, value: seq<Item>, more: string)
    requires value == [] || (|value| == 1 && value[0].Lit?)
    requires GoodItems(value, more) && more != "" && !IsQuote(more[0]) && Stands(s, j, RenderItems(value, more))
    ensures var k := j + |RenderItems(value, more)| - |more|;
            && k < |s| && ParseAttLit(s, j) == At(k) && Stands(s, k, more) && s[k] == more[0]
  {
    hide StringLit, Stands, GoodItem, RenderItem, IsQuote;
    if value == [] {
      StandsFirst(s, j, more);
    } else {
      assert value[1..] == [];
      LitItem(s, j, value[0], more);
    }
  }

  lemma HashPass(s: string, j: nat, hash: seq<Item>, more: string)
    requires hash == [] || (|hash| == 1 && hash[0].Hash?)
    requires GoodItems(hash, more) && more != "" && more[0] != '#' && Stands(s, j, RenderItems(hash, more))
    ensures var k := j + |RenderItems(hash, more)| - |more|;
            && k < |s| && ParseAttHash(s, j) == At(k) && Stands(s, k, more) && s[k] == more[0]
  {
    hide ScanName, Stands, GoodItem, RenderItem;
    if hash == [] {
      StandsFirst(s, j, more);
    } else {
      assert hash[1..] == [];
      HashItem(s, j, hash[0], more);
    }
  }

  lemma HashFirst(hash: seq<Item>, tail: string)
    requires (hash == [] || (|hash| == 1 && hash[0].Hash?)) && EndsRow(tail)
    ensures RenderItems(hash, tail) != "" && !IsQuote(RenderItems(hash, tail)[0])
  {
    if hash != [] {
      assert RenderItems(hash, tail)[0] == '#';
    }
  }

  /** One row is passed over. */
  lemma RowPass(s: string, j: nat, row: Row, tail: string) returns (k: nat)
    requires GoodRow(row, tail) && Stands(s, j, RenderRow(row, tail))
    ensures j < k < |s| && tail != "" && Stands(s, k, tail) && s[k] == tail[0] && k + |tail| == j + |RenderRow(row, tail)|
    ensures ParseAttributes(s, j) == if tail[0] == '>' then At(k + 1) else ParseAttributes(s, k)
  {
    hide ParseAttType, ParseAttLit, ParseAttHash, ScanName, Stands, GoodItem, RenderItem, IsQuote, Lower,
         RenderItems, GoodItems, IsLetter;
    var rest := RenderItems(row.hash, tail);
    var more := RenderItems(row.value, rest);
    WordItem(s, j, row.name, RenderItem(row.kind) + more);
    var a := j + |RenderItem(row.name)|;
    KindPass(s, a, row.kind, more);
    var b := a + |RenderItem(row.kind)|;
    HashFirst(row.hash, tail);
    ValuePass(s, b, row.value, rest);
    var c := b + |more| - |rest|;
    HashPass(s, c, row.hash, tail);
    k := c + |rest| - |tail|;
    assert ParseAttribute(s, a) == At(k);
  }

  /** Rows are passed over. */
  lemma {:induction false} RowsPass(s: string, j: nat, rows: seq<Row>, tail: string) returns (k: nat)
    requires rows != [] && GoodRows(rows, tail) && Stands(s, j, RenderRows(rows, tail))
    ensures j < k < |s| && tail != "" && Stands(s, k, tail) && s[k] == tail[0]
            && k + |tail| == j + |RenderRows(rows, tail)|
    ensures ParseAttributes(s, j) == if tail[0] == '>' then At(k + 1) else ParseAttributes(s, k)
    decreases |rows|
  {
    hide ParseAttributes, Stands, RenderRow, GoodRow;
    var more := RenderRows(rows[1..], tail);
    k := RowPass(s, j, rows[0], more);
    if |rows| > 1 {
      RowStart(rows[1], RenderRows(rows[2..], tail));
      assert rows[1..][1..] == rows[2..];
      k := RowsPass(s, k, rows[1..], tail);
    } else {
      assert rows[1..] == [] && more == tail;
    }
  }

  lemma RowStart(row: Row, tail: string)
    requires GoodRow(row, tail)
    ensures RenderRow(row, tail) != "" && IsLetter(RenderRow(row, tail)[0]) && RenderRow(row, tail)[0] != '>'
  {
  }

  // ----- Members of the internal subset

  datatype Body =
    | Element(name: Item, model: string)
    | Attlist(name: Item, rows: seq<Row>)
    | Entity(percent: bool, gap: string, name: Item, items: seq<Item>)
    | Notation(name: Item, items: seq<Item>)

  datatype Member =
    | Space(c: char)
    | Note(text: string, w: string)
    | Reference(name: Item, semicolon: bool)
    | Decl(keyword: Item, body: Body)

  function RenderBody(body: Body, more: string): string
  {
    match body
    case Element(name, model) => RenderItem(name) + (model + (">" + more))
    case Attlist(name, rows) => RenderItem(name) + RenderRows(rows, ">" + more)
    case Entity(percent, gap, name, items) =>
      if percent then "%" + (gap + (RenderItem(name) + RenderItems(items, ">" + more)))
      else RenderItem(name) + RenderItems(items, ">" + more)
    case Notation(name, items) => RenderItem(name) + RenderItems(items, ">" + more)
  }

  function Keyword(body: Body): string
  {
    match body
    case Element(_, _) => "element"
    case Attlist(_, _) => "attlist"
    case Entity(_, _, _, _) => "entity"
    case Notation(_, _) => "notation"
  }

  predicate GoodBody(body: Body, more: string)
  {
    match body
    case Element(name, model) => name.Word? && '>' !in model && GoodItem(name, model + (">" + more))
    case Attlist(name, rows) => name.Word? && GoodItem(name, RenderRows(rows, ">" + more)) && GoodRows(rows, ">" + more)
    case Entity(percent, gap, name, items) =>
      && Blank(gap)
      && name.Word? && GoodItem(name, RenderItems(items, ">" + more)) && Plain(items) && GoodItems(items, ">" + more)
    case Notation(name, items) =>
      name.Word? && GoodItem(name, RenderItems(items, ">" + more)) && Plain(items) && GoodItems(items, ">" + more)
  }

  lemma ElementPass(s: string, j: nat, name: Item, model: string, more: string)
    requires GoodBody(Element(name, model), more) && Stands(s, j, RenderBody(Element(name, model), more))
    ensures var k := j + |RenderItem(name)| + |model| + 1; ParseElement(s, j) == At(k) && Stands(s, k, more)
  {
    hide ScanName, FindChar, Stands, GoodItem, RenderItem, Lower;
    WordItem(s, j, name, model + (">" + more));
    CharFound(s, j + |RenderItem(name)|, '>', model, more);
  }

  lemma RowsUnfold(rows: seq<Row>, tail: string)
    ensures rows == [] ==> RenderRows(rows, tail) == tail
    ensures rows != [] ==> RenderRows(rows, tail) == RenderRow(rows[0], RenderRows(rows[1..], tail))
    ensures rows != [] && GoodRows(rows, tail) ==> GoodRow(rows[0], RenderRows(rows[1..], tail))
  {
  }

  lemma AttlistPass(s: string, j: nat, name: Item, rows: seq<Row>, more: string) returns (k: nat)
    requires GoodBody(Attlist(name, rows), more) && Stands(s, j, RenderBody(Attlist(name, rows), more))
    ensures ParseAttlist(s, j) == At(k) && Stands(s, k, more)
            && k + |more| == j + |RenderBody(Attlist(name, rows), more)|
  {
    hide ScanName, ParseAttributes, Stands, GoodItem, RenderItem, Lower, GoodRows, RenderRows, GoodRow, RenderRow, IsLetter;
    var tail := ">" + more;
    WordItem(s, j, name, RenderRows(rows, tail));
    RowsUnfold(rows, tail);
    var a := j + |RenderItem(name)|;
    var end := a;
    if rows == [] {
    } else {
      RowStart(rows[0], RenderRows(rows[1..], tail));
      end := RowsPass(s, a, rows, tail);
    }
    StandsChar(s, end, '>', more);
    k := end + 1;
  }

  /** The loop of notation and entity declarations, up to the ">". */
  lemma NamesAndLitsEnd(s: string, j: nat, items: seq<Item>, more: string) returns (k: nat)
    requires Plain(items) && GoodItems(items, ">" + more) && Stands(s, j, RenderItems(items, ">" + more))
    ensures ParseNamesAndLits(s, j) == At(k) && Stands(s, k, more) && k + |more| == j + |RenderItems(items, ">" + more)|
  {
    hide Stands, RenderItems, GoodItems;
    var end := NamesAndLitsPass(s, j, items, ">" + more);
    StandsChar(s, end, '>', more);
    k := end + 1;
  }

  lemma NotationPass(s: string, j: nat, name: Item, items: seq<Item>, more: string) returns (k: nat)
    requires GoodBody(Notation(name, items), more) && Stands(s, j, RenderBody(Notation(name, items), more))
    ensures ParseNotation(s, j) == At(k) && Stands(s, k, more)
            && k + |more| == j + |RenderBody(Notation(name, items), more)|
  {
    hide ScanName, ParseNamesAndLits, Stands, GoodItem, RenderItem, Lower, GoodItems, RenderItems;
    WordItem(s, j, name, RenderItems(items, ">" + more));
    k := NamesAndLitsEnd(s, j + |RenderItem(name)|, items, more);
  }

  lemma WordFirst(name: Item, more: string)
    requires name.Word? && GoodItem(name, more)
    ensures RenderItem(name) != "" && IsLetter((RenderItem(name) + more)[0])
    ensures (RenderItem(name) + more)[0] !in {'%', '-', '>', '['} && !IsSpace((RenderItem(name) + more)[0])
  {
  }

  /** The name of an entity, behind a "%" or not. */
  lemma EntityName(s: string, j: nat, percent: bool, gap: string, name: Item, more: string) returns (a: nat)
    requires Blank(gap) && name.Word? && GoodItem(name, more)
    requires Stands(s, j, if percent then "%" + (gap + (RenderItem(name) + more)) else RenderItem(name) + more)
    ensures a == j + (if percent then 1 + |gap| else 0) && Stands(s, a, RenderItem(name) + more)
    ensures j < |s| && (s[j] == '%' <==> percent) && (percent ==> SkipSpace(s, j + 1) == a)
    ensures ScanName(s, a) == Name(Lower(name.text), a + |RenderItem(name)|) && Stands(s, a + |RenderItem(name)|, more)
  {
    hide ScanName, Stands, GoodItem, RenderItem, Lower, SkipSpace, IsSpace, IsLetter, Blank;
    var rest := RenderItem(name) + more;
    WordFirst(name, more);
    a := j;
    if percent {
      StandsChar(s, j, '%', gap + rest);
      GapScanned(s, j + 1, gap, rest);
      a := j + 1 + |gap|;
    } else {
      StandsFirst(s, j, rest);
    }
    WordItem(s, a, name, more);
  }

  lemma EntityPass(s: string, j: nat, percent: bool, gap: string, name: Item, items: seq<Item>, more: string)
    returns (k: nat)
    requires GoodBody(Entity(percent, gap, name, items), more)
    requires Stands(s, j, RenderBody(Entity(percent, gap, name, items), more))
    ensures ParseEntity(s, j) == At(k) && Stands(s, k, more)
    ensures k + |more| == j + |RenderBody(Entity(percent, gap, name, items), more)|
  {
    hide ScanName, ParseNamesAndLits, Stands, GoodItem, RenderItem, Lower, GoodItems, RenderItems, SkipSpace,
         Blank, Plain;
    var a := EntityName(s, j, percent, gap, name, RenderItems(items, ">" + more));
    k := NamesAndLitsEnd(s, a + |RenderItem(name)|, items, more);
  }

  /** Each kind of declaration is scanned in full by the scanner that goes with its keyword. */
  lemma BodyPass(s: string, j: nat, body: Body, more: string) returns (k: nat)
    requires GoodBody(body, more) && Stands(s, j, RenderBody(body, more))
    ensures ParseNamed(s, Keyword(body), j) == At(k) && Stands(s, k, more) && k + |more| == j + |RenderBody(body, more)|
  {
    hide ParseElement, ParseAttlist, ParseEntity, ParseNotation, GoodBody, Stands;
    match body {
      case Element(name, model) =>
        ElementPass(s, j, name, model, more);
        k := j + |RenderItem(name)| + |model| + 1;
      case Attlist(name, rows) => k := AttlistPass(s, j, name, rows, more);
      case Entity(percent, gap, name, items) => k := EntityPass(s, j, percent, gap, name, items, more);
      case Notation(name, items) => k := NotationPass(s, j, name, items, more);
    }
  }

  function RenderMember(m: Member, more: string): string
  {
    match m
    case Space(c) => [c] + more
    case Note(text, w) => RenderComment(text, w) + more
    case Reference(name, semicolon) => "%" + (RenderItem(name) + if semicolon then ";" + more else more)
    case Decl(keyword, body) => "<!" + (RenderItem(keyword) + RenderBody(body, more))
  }

  predicate GoodMember(m: Member, more: string)
  {
    match m
    case Space(c) => IsSpace(c)
    case Note(text, w) => Blank(w) && Search(text, 0, COMMENT_CLOSE).None?
    case Reference(name, semicolon) =>
      name.Word? && if semicolon then GoodItem(name, ";" + more) else GoodItem(name, more) && more[0] != ';'
    case Decl(keyword, body) =>
      && keyword.Word? && Lower(keyword.text) == Keyword(body)
      && GoodItem(keyword, RenderBody(body, more)) && GoodBody(body, more)
  }

  function RenderMembers(members: seq<Member>, tail: string): string
  {
    if members == [] then tail else RenderMember(members[0], RenderMembers(members[1..], tail))
  }

  predicate GoodMembers(members: seq<Member>, tail: string)
  {
    members == [] || (GoodMember(members[0], RenderMembers(members[1..], tail)) && GoodMembers(members[1..], tail))
  }

  lemma NotePass(s: string, j: nat, body: string, w: string, more: string)
    requires GoodMember(Note(body, w), more) && Stands(s, j, RenderComment(body, w) + more)
    ensures var k := j + |RenderComment(body, w)|;
            && k <= |s| && j < |s| && s[j] == '<' && ParseMarkup(s, j) == At(k) && Stands(s, k, more)
  {
    hide ParseComment, Search, RenderComment, ScanName, ParseNamed;
    StandsSplit(s, j, RenderComment(body, w), more);
    CommentRoundTrip(s, j, body, w);
    CommentOpens(s, j, body, w);
  }

  lemma CommentOpens(s: string, j: nat, body: string, w: string)
    requires Stands(s, j, RenderComment(body, w))
    ensures j + 4 <= |s| && "<!--" <= s[j..] && s[j] == '<' && s[j + 1] == '!'
  {
    OpenerStands(s, j, "<!--", body + RenderClose(Hyphens(w)));
    assert s[j..][..4] == "<!--";
  }

  lemma KeywordLength(keyword: Item, body: Body)
    requires keyword.Word? && Lower(keyword.text) == Keyword(body)
    ensures |RenderItem(keyword)| >= 6
  {
  }

  lemma DeclPass(s: string, j: nat, keyword: Item, body: Body, more: string) returns (k: nat)
    requires GoodMember(Decl(keyword, body), more) && Stands(s, j, RenderMember(Decl(keyword, body), more))
    ensures j < |s| && s[j] == '<' && ParseMarkup(s, j) == At(k) && Stands(s, k, more)
    ensures k + |more| == j + |RenderMember(Decl(keyword, body), more)|
  {
    hide ParseComment, ScanName, ParseNamed, Stands, RenderBody, GoodBody, RenderItem, GoodItem, Lower, Keyword,
         IsLetter, IsSpace;
    var rest := RenderItem(keyword) + RenderBody(body, more);
    OpenerStands(s, j, "<!", rest);
    assert s[j..][..2] == "<!";
    WordFirst(keyword, RenderBody(body, more));
    StandsFirst(s, j + 2, rest);
    WordItem(s, j + 2, keyword, RenderBody(body, more));
    KeywordLength(keyword, body);
    assert s[j..][2] != '-';
    k := BodyPass(s, j + 2 + |RenderItem(keyword)|, body, more);
  }

  lemma NameThenReference(s: string, j: nat, name: string, k: nat)
    requires j < |s| && s[j] == '%' && ScanName(s, j + 1) == Name(name, k)
    ensures ParseReference(s, j) == At(if s[k] == ';' then k + 1 else k)
  {
    hide ScanName;
  }

  lemma NameThenSemicolon(s: string, j: nat, name: Item, more: string) returns (k: nat)
    requires name.Word? && GoodItem(name, ";" + more) && Stands(s, j, RenderItem(name) + (";" + more))
    ensures k == j + |RenderItem(name)| + 1 && k - 1 < |s| && s[k - 1] == ';' && Stands(s, k, more)
    ensures ScanName(s, j) == Name(Lower(name.text), k - 1)
  {
    hide ScanName, Stands, RenderItem, GoodItem, Lower;
    WordItem(s, j, name, ";" + more);
    k := j + |RenderItem(name)| + 1;
    StandsChar(s, k - 1, ';', more);
  }

  lemma SemicolonPass(s: string, j: nat, name: Item, more: string) returns (k: nat)
    requires name.Word? && GoodItem(name, ";" + more) && Stands(s, j, "%" + (RenderItem(name) + (";" + more)))
    ensures j < |s| && s[j] == '%' && ParseReference(s, j) == At(k) && Stands(s, k, more)
    ensures k == j + 2 + |RenderItem(name)|
  {
    hide ScanName, Stands, RenderItem, GoodItem, Lower, ParseReference;
    StandsChar(s, j, '%', RenderItem(name) + (";" + more));
    k := NameThenSemicolon(s, j + 1, name, more);
    NameThenReference(s, j, Lower(name.text), k - 1);
  }

  lemma BarePass(s: string, j: nat, name: Item, more: string) returns (k: nat)
    requires name.Word? && GoodItem(name, more) && more[0] != ';' && Stands(s, j, "%" + (RenderItem(name) + more))
    ensures j < |s| && s[j] == '%' && ParseReference(s, j) == At(k) && Stands(s, k, more)
    ensures k == j + 1 + |RenderItem(name)|
  {
    hide ScanName, Stands, RenderItem, Lower, ParseReference;
    StandsChar(s, j, '%', RenderItem(name) + more);
    WordItem(s, j + 1, name, more);
    k := j + 1 + |RenderItem(name)|;
    NameThenReference(s, j, Lower(name.text), k);
  }

  lemma ReferencePass(s: string, j: nat, name: Item, semicolon: bool, more: string) returns (k: nat)
    requires GoodMember(Reference(name, semicolon), more) && Stands(s, j, RenderMember(Reference(name, semicolon), more))
    ensures j < |s| && s[j] == '%' && ParseReference(s, j) == At(k) && Stands(s, k, more)
    ensures k + |more| == j + |RenderMember(Reference(name, semicolon), more)|
  {
    hide Stands, RenderItem, GoodItem, ParseReference;
    if semicolon {
      k := SemicolonPass(s, j, name, more);
    } else {
      k := BarePass(s, j, name, more);
    }
  }

  lemma SpaceIsNoMarkup(c: char, more: string)
    requires GoodMember(Space(c), more)
    ensures IsSpace(c) && c !in {'<', '%', ']'}
  {
  }

  /** One member of the internal subset is passed over. */
  lemma MemberPass(s: string, j: nat, m: Member, more: string) returns (k: nat)
    requires GoodMember(m, more) && Stands(s, j, RenderMember(m, more))
    ensures j < k <= |s| && Stands(s, k, more) && k + |more| == j + |RenderMember(m, more)|
    ensures ParseSubset(s, j) == ParseSubset(s, k)
  {
    hide ParseMarkup, ParseReference, ParseSubsetEnd, Stands, GoodMember, RenderComment, IsSpace;
    match m {
      case Space(c) =>
        StandsChar(s, j, c, more);
        SpaceIsNoMarkup(c, more);
        k := j + 1;
      case Note(text, w) =>
        NotePass(s, j, text, w, more);
        k := j + |RenderComment(text, w)|;
      case Reference(name, semicolon) =>
        k := ReferencePass(s, j, name, semicolon, more);
      case Decl(keyword, body) =>
        k := DeclPass(s, j, keyword, body, more);
    }
  }

  lemma {:induction false} MembersPass(s: string, j: nat, members: seq<Member>, tail: string) returns (k: nat)
    requires GoodMembers(members, tail) && Stands(s, j, RenderMembers(members, tail))
    ensures j <= k <= |s| && Stands(s, k, tail) && k + |tail| == j + |RenderMembers(members, tail)|
    ensures ParseSubset(s, j) == ParseSubset(s, k)
    decreases |members|
  {
    hide ParseSubset, Stands, GoodMember, RenderMember;
    if members == [] {
      StandsInside(s, j, tail);
      k := j;
    } else {
      k := MemberPass(s, j, members[0], RenderMembers(members[1..], tail));
      k := MembersPass(s, k, members[1..], tail);
    }
  }

  // ----- Whole declarations

  /** The members of an internal subset, and the whitespace behind its "]". */
  datatype Subset = NoSubset | Subset(members: seq<Member>, gap: string)

  function SubsetEnd(gap: string): string
  {
    "]" + (gap + ">")
  }

  /** The end of a declaration: an internal subset or none, and ">". */
  function RenderEnd(subset: Subset): string
  {
    match subset
    case NoSubset => ">"
    case Subset(members, gap) => "[" + RenderMembers(members, SubsetEnd(gap))
  }

  /** A declaration as text. */
  function Render(name: Item, items: seq<Item>, subset: Subset): string
  {
    "<!" + (RenderItem(name) + RenderItems(items, RenderEnd(subset)))
  }

  predicate GoodEnd(name: Item, subset: Subset)
  {
    subset.Subset? ==>
      Lower(name.text) == "doctype" && Blank(subset.gap) && GoodMembers(subset.members, SubsetEnd(subset.gap))
  }

  predicate GoodDeclaration(name: Item, items: seq<Item>, subset: Subset)
  {
    && name.Word? && GoodItem(name, RenderItems(items, RenderEnd(subset)))
    && Plain(items) && GoodItems(items, RenderEnd(subset)) && GoodEnd(name, subset)
  }

  /** The internal subset is scanned up to the ">" behind it. */
  lemma SubsetPass(s: string, j: nat, members: seq<Member>, gap: string) returns (k: nat)
    requires Blank(gap) && GoodMembers(members, SubsetEnd(gap)) && Stands(s, j, RenderMembers(members, SubsetEnd(gap)))
    ensures ParseSubset(s, j) == At(k) && k < |s| && s[k] == '>'
            && k + 1 == j + |RenderMembers(members, SubsetEnd(gap))|
  {
    hide ParseMarkup, ParseReference, SkipSpace, Stands, GoodMembers, RenderMembers;
    k := MembersPass(s, j, members, SubsetEnd(gap));
    StandsChar(s, k, ']', gap + ">");
    GapScanned(s, k + 1, gap, ">");
    k := k + 1 + |gap|;
  }

  lemma EndPass(s: string, j: nat, name: Item, subset: Subset) returns (k: nat)
    requires name.Word? && GoodEnd(name, subset) && Stands(s, j, RenderEnd(subset))
    ensures ParseItems(s, j, Lower(name.text)) == At(k) && k < |s| && k + 1 == j + |RenderEnd(subset)|
  {
    hide ParseSubset, Stands, GoodMembers, RenderMembers, Lower, StringLit, ScanName;
    match subset {
      case NoSubset =>
        StandsFirst(s, j, ">");
        k := j;
      case Subset(members, gap) =>
        StandsChar(s, j, '[', RenderMembers(members, SubsetEnd(gap)));
        k := SubsetPass(s, j + 1, members, gap);
        assert ParseItem(s, j, Lower(name.text)) == At(k);
    }
  }

  lemma DeclarationAccepted(s: string, i: nat, name: Item, items: seq<Item>, subset: Subset)
    requires GoodDeclaration(name, items, subset) && Stands(s, i, Render(name, items, subset))
    ensures ParseDeclaration(s, i) == At(i + |Render(name, items, subset)|)
    ensures ScanName(s, i + 2) == Name(Lower(name.text), i + 2 + |RenderItem(name)|)
  {
    hide ScanName, ParseItems, Stands, GoodItem, RenderItem, GoodItems, RenderItems, GoodEnd, RenderEnd, Lower,
         IsLetter, IsSpace, ParseMarkedSection, Plain;
    var rest := RenderItems(items, RenderEnd(subset));
    OpenerStands(s, i, "<!", RenderItem(name) + rest);
    WordFirst(name, rest);
    StandsFirst(s, i + 2, RenderItem(name) + rest);
    WordItem(s, i + 2, name, rest);
    var k := ItemsPass(s, i + 2 + |RenderItem(name)|, items, RenderEnd(subset), Lower(name.text));
    var end := EndPass(s, k, name, subset);
  }

  lemma {:induction false} ItemsKeepEnd(items: seq<Item>, tail: string)
    requires tail != ""
    ensures var t := RenderItems(items, tail); |t| >= |tail| && t[|t| - 1] == tail[|tail| - 1]
    decreases |items|
  {
    hide RenderItem;
    if items != [] {
      ItemsKeepEnd(items[1..], tail);
    }
  }

  lemma {:induction false} RowsKeepEnd(rows: seq<Row>, tail: string)
    requires tail != ""
    ensures var t := RenderRows(rows, tail); |t| >= |tail| && t[|t| - 1] == tail[|tail| - 1]
    decreases |rows|
  {
    hide RenderItem, RenderItems;
    if rows != [] {
      var more := RenderRows(rows[1..], tail);
      RowsKeepEnd(rows[1..], tail);
      ItemsKeepEnd(rows[0].hash, more);
      ItemsKeepEnd(rows[0].value, RenderItems(rows[0].hash, more));
    }
  }

  lemma BodyKeepsEnd(body: Body, tail: string)
    requires tail != ""
    ensures var t := RenderBody(body, tail); |t| >= |tail| && t[|t| - 1] == tail[|tail| - 1]
  {
    hide RenderItem, RenderItems, RenderRows;
    match body {
      case Element(_, _) =>
      case Attlist(_, rows) => RowsKeepEnd(rows, ">" + tail);
      case Entity(_, _, _, items) => ItemsKeepEnd(items, ">" + tail);
      case Notation(_, items) => ItemsKeepEnd(items, ">" + tail);
    }
  }

  lemma MemberKeepsEnd(m: Member, tail: string)
    requires tail != ""
    ensures var t := RenderMember(m, tail); |t| >= |tail| && t[|t| - 1] == tail[|tail| - 1]
  {
    hide RenderItem, RenderBody, RenderComment;
    if m.Decl? {
      BodyKeepsEnd(m.body, tail);
    }
  }

  lemma {:induction false} MembersKeepEnd(members: seq<Member>, tail: string)
    requires tail != ""
    ensures var t := RenderMembers(members, tail); |t| >= |tail| && t[|t| - 1] == tail[|tail| - 1]
    decreases |members|
  {
    hide RenderMember;
    if members != [] {
      MembersKeepEnd(members[1..], tail);
      MemberKeepsEnd(members[0], RenderMembers(members[1..], tail));
    }
  }

  lemma EndKeepsGt(subset: Subset)
    ensures RenderEnd(subset) != "" && RenderEnd(subset)[|RenderEnd(subset)| - 1] == '>'
  {
    hide RenderMembers;
    if subset.Subset? {
      MembersKeepEnd(subset.members, SubsetEnd(subset.gap));
    }
  }

  lemma EndsAtGt(items: seq<Item>, subset: Subset)
    ensures var t := RenderItems(items, RenderEnd(subset)); t != "" && t[|t| - 1] == '>'
  {
    hide RenderEnd, RenderItems;
    EndKeepsGt(subset);
    ItemsKeepEnd(items, RenderEnd(subset));
  }

  /** Every declaration made of a name, words and string literals, and for "doctype" an internal subset
      of whitespace, comments, references and the four kinds of declarations, is scanned in full, and
      what lies between opener and ">", which is what the handler is called with, is its text. */
  lemma DeclarationRoundTrip(s: string, i: nat, name: Item, items: seq<Item>, subset: Subset)
    requires GoodDeclaration(name, items, subset) && Stands(s, i, Render(name, items, subset))
    ensures ParseDeclaration(s, i) == At(i + |Render(name, items, subset)|)
    ensures ScanName(s, i + 2) == Name(Lower(name.text), i + 2 + |RenderItem(name)|)
    ensures i + 2 <= i + |Render(name, items, subset)| - 1 <= |s|
    ensures s[i + 2..i + |Render(name, items, subset)| - 1] + ">" == Render(name, items, subset)[2..]
  {
    hide Render, GoodDeclaration, ParseDeclaration, ScanName, Lower, Stands, RenderItem;
    DeclarationAccepted(s, i, name, items, subset);
    RenderShape(name, items, subset);
    DeclarationText(s, i, Render(name, items, subset));
  }

  lemma RenderShape(name: Item, items: seq<Item>, subset: Subset)
    requires GoodDeclaration(name, items, subset)
    ensures var t := Render(name, items, subset); |t| >= 4 && t[|t| - 1] == '>'
  {
    hide RenderItems, RenderItem, RenderEnd, GoodItem, GoodItems, GoodEnd, IsLetter, IsSpace;
    EndsAtGt(items, subset);
    WordFirst(name, RenderItems(items, RenderEnd(subset)));
  }

  lemma DeclarationText(s: string, i: nat, text: string)
    requires Stands(s, i, text) && |text| >= 3 && text[|text| - 1] == '>'
    ensures i + |text| - 1 <= |s| && s[i + 2..i + |text| - 1] + ">" == text[2..]
  {
    var n := |text| - 1;
    assert s[i..][..|text|] == text;
    assert s[i + 2..i + n] == text[2..n];
    assert text[2..n] + [text[n]] == text[2..];
  }

  // ----- Text that breaks off

  /** A buffer that breaks off inside a declaration, behind its opener, is incomplete. */
  lemma PrefixIncomplete(s: string, i: nat, name: Item, items: seq<Item>, subset: Subset)
    requires GoodDeclaration(name, items, subset)
    requires i + 2 <= |s| && s[i..] < Render(name, items, subset)
    ensures ParseDeclaration(s, i) == More
  {
    hide GoodDeclaration, Render, ParseDeclaration;
    var text := Render(name, items, subset);
    var t := s[..i] + text;
    assert t[i..] == text;
    DeclarationRoundTrip(t, i, name, items, subset);
    assert s == s[..i] + s[i..];
    ParseDeclarationStable(s, t, i);
  }

  /** A document type with a content model in its internal subset. */
  const EXAMPLE := "<!" + ("DOCTYPE " + ("d " + "[<!ELEMENT p (a)>]>"))
  const CONTENT := Decl(Word("ELEMENT", " "), Element(Word("p", " "), "(a)"))

  lemma ContentExample()
    ensures SubsetEnd("") == "]>"
    ensures RenderMember(CONTENT, "]>") == "<!ELEMENT p (a)>]>" && GoodMember(CONTENT, "]>")
  {
    assert RenderItem(Word("p", " ")) == "p " && RenderItem(Word("ELEMENT", " ")) == "ELEMENT ";
    var rest := "(a)" + (">" + "]>");
    assert rest == "(a)>]>";
    assert RenderBody(CONTENT.body, "]>") == "p (a)>]>";
    assert Lower("ELEMENT") == "element";
    hide RenderItem;
    assert IsWord("p") && IsWord("ELEMENT") && Ends(" ", rest) && Ends(" ", "p (a)>]>");
  }

  lemma OneMember(m: Member, tail: string)
    ensures RenderMembers([m], tail) == RenderMember(m, tail)
    ensures GoodMembers([m], tail) <==> GoodMember(m, tail)
  {
    hide RenderMember, GoodMember;
    assert [m][1..] == [];
    assert RenderMembers([], tail) == tail && GoodMembers([], tail);
  }

  /** The members [CONTENT] in front of the end of the subset. */
  lemma MembersExample()
    ensures RenderEnd(Subset([CONTENT], "")) == "[<!ELEMENT p (a)>]>" && GoodMembers([CONTENT], SubsetEnd(""))
  {
    hide RenderMember, GoodMember, Search, Lower, RenderItem, GoodItem, IsSpace;
    ContentExample();
    OneMember(CONTENT, "]>");
  }

  lemma NameExample(end: string)
    requires end != "" && end[0] == '['
    ensures var items := [Word("d", " ")];
            RenderItems(items, end) == "d " + end && GoodItems(items, end)
    ensures RenderItem(Word("DOCTYPE", " ")) == "DOCTYPE " && GoodItem(Word("DOCTYPE", " "), "d " + end)
  {
    var items := [Word("d", " ")];
    assert items[1..] == [];
    assert RenderItems([], end) == end && GoodItems([], end);
    assert RenderItem(items[0]) == "d ";
  }

  lemma TextExample()
    ensures Render(Word("DOCTYPE", " "), [Word("d", " ")], Subset([CONTENT], "")) == EXAMPLE
  {
    hide RenderMembers, RenderEnd, RenderItem, RenderItems, GoodItems, GoodItem, GoodMembers;
    var end := "[<!ELEMENT p (a)>]>";
    assert RenderEnd(Subset([CONTENT], "")) == end by { MembersExample(); }
    NameExample(end);
  }

  lemma BlankNothing()
    ensures Blank("")
  {
  }

  lemma GoodExample()
    ensures GoodDeclaration(Word("DOCTYPE", " "), [Word("d", " ")], Subset([CONTENT], ""))
  {
    hide RenderMembers, GoodMembers, RenderEnd, RenderItem, RenderItems, GoodItems, GoodItem, Lower, Blank;
    MembersExample();
    NameExample(RenderEnd(Subset([CONTENT], "")));
    assert Lower("DOCTYPE") == "doctype" by { LowerMeans(""); }
    BlankNothing();
  }

  lemma SubsetExample()
    ensures ParseDeclaration(EXAMPLE, 0) == At(31) && ScanName(EXAMPLE, 2) == Name("doctype", 10)
  {
    hide ParseDeclaration, ScanName, RenderItem, Render, GoodDeclaration;
    TextExample();
    GoodExample();
    assert EXAMPLE[0..] == EXAMPLE;
    LowerMeans("");
    NameExample("[");
    DeclarationRoundTrip(EXAMPLE, 0, Word("DOCTYPE", " "), [Word("d", " ")], Subset([CONTENT], ""));
  }
}
