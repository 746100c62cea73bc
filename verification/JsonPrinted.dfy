/** Printed text is JSON: it is the text of a document of RFC 8259 whose meaning is the printed tree. */
module JsonPrinted {
  import opened CText
  import opened Decimal
  import opened JsonGrammar
  import opened JsonString
  import opened JsonText
  import opened Wrappers

  // ----- Strings -----

  /** What the printer writes for a character. */
  function UnitOf(c: char): Unit {
    if !NeedsEscape(c) then Raw(c)
    else if c == '\\' || c == '\"' then Short(c)
    else if c == BACKSPACE then Short('b')
    else if c == FORM_FEED then Short('f')
    else if c == '\n' then Short('n')
    else if c == '\r' then Short('r')
    else if c == '\t' then Short('t')
    else Hex(Hex4(c as nat))
  }

  function UnitsOf(s: string): seq<Unit> {
    if s == "" then [] else [UnitOf(s[0])] + UnitsOf(s[1..])
  }

  lemma HexUnitOf(c: char)
    requires c as nat <= 31
    ensures var x := Hex(Hex4(c as nat)); IsUnit(x) && CodeUnit(x) == c as nat
  {
  }

  /** A single character is escaped as the grammar asks. */
  lemma UnitOfChar(c: char)
    requires c != NUL
    ensures IsUnit(UnitOf(c)) && UnitText(UnitOf(c)) == EscapeChar(c)
  {
    if c as nat <= 31 { HexUnitOf(c); }
    hide Hex4;
  }

  lemma PlainValue(x: Unit, more: seq<Unit>)
    requires IsLooseUnit(x) && AreLooseUnits(more) && !x.Hex?
    ensures AreLooseUnits([x] + more)
    ensures UnitsValue([x] + more) == Prepend([if x.Raw? then x.c else ShortValue(x.c)], UnitsValue(more))
  {
    assert ([x] + more)[0] == x && ([x] + more)[1..] == more;
    hide IsLooseUnit;
  }

  lemma ControlValue(x: Unit, more: seq<Unit>)
    requires IsLooseUnit(x) && AreLooseUnits(more) && x.Hex? && 0 < CodeUnit(x) < 0x80
    ensures AreLooseUnits([x] + more)
    ensures UnitsValue([x] + more) == Prepend([CodeUnit(x) as char], UnitsValue(more))
  {
    assert ([x] + more)[0] == x && ([x] + more)[1..] == more;
    assert Utf8(CodeUnit(x)) == [CodeUnit(x) as char];
    hide IsLooseUnit, CodeUnit, Utf8;
  }

  /** And the escape stands for the character. */
  lemma ValueOfChar(c: char, more: seq<Unit>)
    requires c != NUL && AreLooseUnits(more)
    ensures var us := [UnitOf(c)] + more;
            AreLooseUnits(us) && UnitsValue(us) == Prepend([c], UnitsValue(more))
  {
    var x := UnitOf(c);
    UnitOfChar(c);
    if x.Hex? {
      HexUnitOf(c);
      hide Hex4, UnitsValue, CodeUnit;
      ControlValue(x, more);
    } else {
      hide Hex4, UnitsValue, CodeUnit;
      PlainValue(x, more);
    }
  }

  /** A printed string is a string of the grammar, and stands for what was printed. */
  lemma {:induction false} UnitsOfString(s: string)
    requires IsCString(s)
    ensures AreUnits(UnitsOf(s)) && AreLooseUnits(UnitsOf(s))
    ensures UnitsText(UnitsOf(s)) == Escaped(s) && UnitsValue(UnitsOf(s)) == Some(s)
  {
    if s != "" {
      var x, more := UnitOf(s[0]), UnitsOf(s[1..]);
      UnitsOfString(s[1..]);
      UnitOfChar(s[0]);
      ValueOfChar(s[0], more);
      hide UnitsValue, UnitOf, UnitText, EscapeChar, IsUnit, IsLooseUnit;
      assert UnitsOf(s)[0] == x && UnitsOf(s)[1..] == more;
      assert [s[0]] + s[1..] == s;
    }
  }

  // ----- Numbers -----

  function NumeralOf(n: int): Numeral {
    Numeral(n < 0, Digits(if n < 0 then -n else n), "", NoExponent)
  }

  lemma {:induction false} DigitsStart(n: nat)
    ensures Digits(n)[0] == '0' ==> |Digits(n)| == 1
  {
  }

  /** A printed integer is a number of the grammar. */
  lemma NumeralOfInt(n: int)
    ensures var m := NumeralOf(n);
            IsNumeral(m) && IsLooseNumeral(m) && NumeralText(m) == IntText(n) && NumeralValue(m) == Number(n, 0)
  {
    var magnitude: nat := if n < 0 then -n else n;
    DigitsStart(magnitude);
    DigitsValueOfDigits(magnitude);
    assert Digits(magnitude) + "" == Digits(magnitude);
    hide Digits, DigitsValue;
  }

  // ----- Trees -----

  /**
    The document that is printed for a tree: blanks only when formatted, a space behind
    the commas of arrays, and each member on a line of its own.
  */
  function DocumentOf(v: Json, depth: nat, fmt: bool): Document {
    match v
    case Null => NullWord
    case False => FalseWord
    case True => TrueWord
    case Number(n, _) => Numeric(NumeralOf(n))
    case String(s) => Textual(UnitsOf(s))
    case Array(items) => List("", ElementsOf(items, "", depth + 1, fmt))
    case Object(members) =>
      if members.NoMembers? then Record(When(fmt, "\n" + Tabs(depth)), NoPairs)
      else Record("", PairsOf(members, depth, fmt))
  }

  function ElementsOf(items: Items, before: string, depth: nat, fmt: bool): (es: Elements)
    ensures es.Element? <==> items.Item?
  {
    match items
    case NoItems => NoElements
    case Item(v, next) =>
      Element(before, DocumentOf(v, depth, fmt), "", ElementsOf(next, When(fmt, " "), depth, fmt))
  }

  /** Members on lines of their own, one level deeper; the line of the bracket follows the last. */
  function PairsOf(members: Members, depth: nat, fmt: bool): (ps: Pairs)
    ensures ps.Pair? <==> members.Member?
  {
    match members
    case NoMembers => NoPairs
    case Member(name, v, next) =>
      Pair(When(fmt, "\n" + Tabs(depth + 1)), UnitsOf(name), "", When(fmt, "\t"), DocumentOf(v, depth + 1, fmt),
           if next.NoMembers? then When(fmt, "\n" + Tabs(depth)) else "", PairsOf(next, depth, fmt))
  }

  lemma LinesAreWhite(depth: nat, fmt: bool)
    ensures IsWhite(When(fmt, "\n" + Tabs(depth))) && IsWhite(When(fmt, " ")) && IsWhite(When(fmt, "\t")) && IsWhite("")
  {
  }

  /** Every printed tree is a document of the grammar. */
  lemma {:induction false} PrintsDocument(v: Json, depth: nat, fmt: bool)
    requires Printable(v)
    ensures IsDocument(DocumentOf(v, depth, fmt))
    decreases v, 1
  {
    match v
    case Number(n, _) => NumeralOfInt(n);
    case String(s) => UnitsOfString(s);
    case Array(items) =>
      LinesAreWhite(depth, fmt);
      PrintsElements(items, "", depth + 1, fmt);
    case Object(members) =>
      LinesAreWhite(depth, fmt);
      PrintsPairs(members, depth, fmt);
    case _ =>
  }

  lemma {:induction false} PrintsElements(items: Items, before: string, depth: nat, fmt: bool)
    requires PrintableItems(items) && IsWhite(before)
    ensures AreElements(ElementsOf(items, before, depth, fmt))
    decreases items, 0
  {
    if items.Item? {
      LinesAreWhite(depth, fmt);
      PrintsDocument(items.value, depth, fmt);
      PrintsElements(items.next, When(fmt, " "), depth, fmt);
    }
  }

  lemma {:induction false} PrintsPairs(members: Members, depth: nat, fmt: bool)
    requires PrintableMembers(members)
    ensures ArePairs(PairsOf(members, depth, fmt))
    decreases members, 0
  {
    if members.Member? {
      LinesAreWhite(depth, fmt);
      LinesAreWhite(depth + 1, fmt);
      UnitsOfString(members.name);
      PrintsDocument(members.value, depth + 1, fmt);
      PrintsPairs(members.next, depth, fmt);
    }
  }

  /** Its text is what is printed. */
  lemma {:induction false} PrintsSource(v: Json, depth: nat, fmt: bool)
    requires Printable(v)
    ensures Source(DocumentOf(v, depth, fmt)) == Text(v, depth, fmt)
    decreases v, 1
  {
    match v
    case Number(n, _) => NumeralOfInt(n);
    case String(s) => UnitsOfString(s);
    case Array(items) => PrintsElementsSource(items, "", depth + 1, fmt);
    case Object(members) => PrintsObject(members, depth, fmt);
    case _ =>
  }

  lemma {:induction false} PrintsObject(members: Members, depth: nat, fmt: bool)
    requires PrintableMembers(members)
    ensures Source(DocumentOf(Object(members), depth, fmt)) == Text(Object(members), depth, fmt)
    decreases members, 1
  {
    var d := DocumentOf(Object(members), depth, fmt);
    var open, text, tabs := When(fmt, "\n"), MembersText(members, depth + 1, fmt), When(fmt, Tabs(depth));
    RecordSource(d);
    assert Text(Object(members), depth, fmt) == "{" + open + text + tabs + "}";
    if members.Member? {
      PrintsPairsSource(members, depth, fmt);
      hide Tabs, PairsSource, MembersText, Text, Source;
      Associates("{", open, text);
      Associates("{", open + text, tabs);
      assert "{" + "" == "{";
    } else {
      hide Tabs, PairsSource, Text, Source;
      assert text == "" && When(fmt, "\n" + Tabs(depth)) == open + tabs;
      assert "{" + open + "" + tabs + "}" == "{" + (open + tabs) + "" + "}";
    }
  }

  lemma {:induction false} PrintsElementsSource(items: Items, before: string, depth: nat, fmt: bool)
    requires PrintableItems(items)
    ensures ElementsSource(ElementsOf(items, before, depth, fmt))
         == (if items.Item? then before else "") + ItemsText(items, depth, fmt)
    decreases items, 0
  {
    if items.Item? {
      PrintsSource(items.value, depth, fmt);
      PrintsElementsSource(items.next, When(fmt, " "), depth, fmt);
      hide Source, Text, DocumentOf;
    }
  }

  /** The name and the value of a member. */
  function NameAndValue(name: string, v: Json, depth: nat, fmt: bool): string {
    Quoted(name) + ":" + When(fmt, "\t") + Text(v, depth, fmt)
  }

  lemma LineIs(members: Members, depth: nat, fmt: bool)
    requires members.Member?
    ensures MembersText(members, depth, fmt)
         == When(fmt, Tabs(depth)) + NameAndValue(members.name, members.value, depth, fmt)
            + When(members.next.Member?, ",") + When(fmt, "\n") + MembersText(members.next, depth, fmt)
  {
    hide Tabs, Text, Quoted;
    var Member(name, v, next) := members;
    var tabs, tail := When(fmt, Tabs(depth)), When(fmt, "\t") + Text(v, depth, fmt);
    assert tabs + Quoted(name) + ":" + When(fmt, "\t") + Text(v, depth, fmt) == tabs + (Quoted(name) + ":" + tail);
    assert Quoted(name) + ":" + tail == NameAndValue(name, v, depth, fmt);
  }

  lemma PairPieces(before: string, literal: string, blank: string, value: string, more: string)
    ensures before + (literal + ("" + (":" + (blank + (value + more)))))
         == before + (literal + ":" + blank + value) + more
  {
    var tail := blank + (value + more);
    assert "" + (":" + tail) == ":" + tail;
    Associates(literal, ":", tail);
    Associates(literal + ":", blank, value + more);
    Associates(literal + ":" + blank, value, more);
    Associates(before, literal + ":" + blank + value, more);
  }

  lemma PairIs(members: Members, depth: nat, fmt: bool)
    requires members.Member? && UnitsText(UnitsOf(members.name)) == Escaped(members.name)
    requires Source(DocumentOf(members.value, depth + 1, fmt)) == Text(members.value, depth + 1, fmt)
    ensures var ps := PairsOf(members, depth, fmt);
            PairsSource(ps)
            == ps.before + NameAndValue(members.name, members.value, depth + 1, fmt)
               + (ps.after + (When(members.next.Member?, ",") + PairsSource(ps.next)))
  {
    hide Tabs, Text, Source, UnitsText, Escaped, DocumentOf, PairsSource;
    var ps := PairsOf(members, depth, fmt);
    var more := ps.after + (When(ps.next.Pair?, ",") + PairsSource(ps.next));
    var literal, value := Literal(ps.name), Source(ps.value);
    assert literal == Quoted(members.name);
    PairsAlone(ps);
    PairPieces(ps.before, literal, ps.beforeValue, value, more);
    hide Literal;
  }

  lemma LinesTogether(tabs: string, h: string, next: string, close: string)
    ensures "\n" + tabs + h + ("" + ("," + ("\n" + next + close))) == "\n" + (tabs + h + "," + "\n" + next) + close
    ensures "\n" + tabs + h + ("\n" + close + ("" + "")) == "\n" + (tabs + h + "" + "\n" + "") + close
    ensures "" + h + ("" + ("," + ("" + next + ""))) == "" + ("" + h + "," + "" + next) + ""
    ensures "" + h + ("" + ("" + "")) == "" + ("" + h + "" + "" + "") + ""
  {
  }

  lemma NoMembersText(depth: nat, fmt: bool)
    ensures MembersText(NoMembers, depth, fmt) == "" && PairsSource(NoPairs) == ""
  {
  }

  lemma {:induction false} PrintsPairsSource(members: Members, depth: nat, fmt: bool)
    requires members.Member? && PrintableMembers(members)
    ensures PairsSource(PairsOf(members, depth, fmt))
         == When(fmt, "\n") + MembersText(members, depth + 1, fmt) + When(fmt, Tabs(depth))
    decreases members, 0
  {
    var Member(name, v, next) := members;
    UnitsOfString(name);
    PrintsSource(v, depth + 1, fmt);
    PairIs(members, depth, fmt);
    LineIs(members, depth + 1, fmt);
    if next.Member? {
      PrintsPairsSource(next, depth, fmt);
    }
    hide Source, Text, DocumentOf, Tabs, UnitsText, Escaped, MembersText, NameAndValue, PairsSource;
    var line, more := NameAndValue(name, v, depth + 1, fmt), MembersText(next, depth + 1, fmt);
    LinesTogether(Tabs(depth + 1), line, more, Tabs(depth));
    assert next.NoMembers? ==> MembersText(next, depth + 1, fmt) == "" && PairsSource(NoPairs) == "" by {
      NoMembersText(depth + 1, fmt);
    }
  }

  // ----- The meaning of what is printed -----

  lemma {:induction false} PrintsMeaning(v: Json, depth: nat, fmt: bool)
    requires Printable(v)
    ensures IsLoose(DocumentOf(v, depth, fmt)) && Meaning(DocumentOf(v, depth, fmt)) == Some(v)
    decreases v, 1
  {
    PrintsDocument(v, depth, fmt);
    DocumentIsLoose(DocumentOf(v, depth, fmt));
    match v
    case Number(n, _) => NumeralOfInt(n);
    case String(s) => UnitsOfString(s);
    case Array(items) => PrintsElementsMeaning(items, "", depth + 1, fmt);
    case Object(members) => PrintsPairsMeaning(members, depth, fmt);
    case _ =>
  }

  lemma {:induction false} PrintsElementsMeaning(items: Items, before: string, depth: nat, fmt: bool)
    requires PrintableItems(items) && AreLooseElements(ElementsOf(items, before, depth, fmt))
    ensures ElementsMeaning(ElementsOf(items, before, depth, fmt)) == Some(items)
    decreases items, 0
  {
    if items.Item? {
      PrintsMeaning(items.value, depth, fmt);
      PrintsElementsMeaning(items.next, When(fmt, " "), depth, fmt);
      hide Meaning, DocumentOf;
    }
  }

  lemma {:induction false} PrintsPairsMeaning(members: Members, depth: nat, fmt: bool)
    requires PrintableMembers(members) && AreLoosePairs(PairsOf(members, depth, fmt))
    ensures PairsMeaning(PairsOf(members, depth, fmt)) == Some(members)
    decreases members, 0
  {
    if members.Member? {
      UnitsOfString(members.name);
      PrintsMeaning(members.value, depth + 1, fmt);
      PrintsPairsMeaning(members.next, depth, fmt);
      hide Meaning, DocumentOf, UnitsValue;
    }
  }

  /** For every printable tree, depth and format: the text is a document of RFC 8259, and it means the tree. */
  lemma TextIsDocument(v: Json, depth: nat, fmt: bool) returns (d: Document)
    requires Printable(v)
    ensures IsDocument(d) && IsLoose(d) && Source(d) == Text(v, depth, fmt) && Meaning(d) == Some(v)
  {
    d := DocumentOf(v, depth, fmt);
    PrintsDocument(v, depth, fmt);
    PrintsSource(v, depth, fmt);
    PrintsMeaning(v, depth, fmt);
  }
}
