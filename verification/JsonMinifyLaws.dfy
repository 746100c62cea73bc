/**
  What minifying does to any document, printed or not: it takes out the blanks and the
  comments between its tokens, and the meaning stays.
*/
module JsonMinifyLaws {
  import opened CText
  import opened Decimal
  import opened JsonGrammar
  import opened JsonMinify
  import opened JsonParse
  import opened JsonString
  import opened JsonText
  import opened Wrappers

  // ----- Blanks and comments -----

  /** A blank, a comment to the end of its line, or one between marks. */
  datatype Piece = Space(c: char) | LineComment(text: string) | BlockComment(text: string)

  predicate HasClose(t: string) {
    exists i | 0 <= i < |t| - 1 :: t[i] == '*' && t[i + 1] == '/'
  }

  /** The star of the opening mark can be that of the closing one: a comment must not start with a slash. */
  predicate IsPiece(p: Piece) {
    match p
    case Space(c) => IsSpace(c)
    case LineComment(text) => Lacks(text, '\n')
    case BlockComment(text) => !HasClose("*" + text)
  }

  function PieceText(p: Piece): string {
    match p
    case Space(c) => [c]
    case LineComment(text) => "//" + text + "\n"
    case BlockComment(text) => "/*" + text + "*/"
  }

  function GapText(ps: seq<Piece>): string {
    if ps == [] then "" else PieceText(ps[0]) + GapText(ps[1..])
  }

  predicate ArePieces(ps: seq<Piece>) {
    forall i | 0 <= i < |ps| :: IsPiece(ps[i])
  }

  ghost predicate IsGap(t: string) {
    exists ps :: ArePieces(ps) && GapText(ps) == t
  }

  lemma {:induction false} LineLengthOf(t: string, rest: string)
    requires Lacks(t, '\n')
    ensures LineLength(t + "\n" + rest) == |t|
    decreases |t|
  {
    var s := t + "\n" + rest;
    if t == "" {
      assert s[0] == '\n';
    } else {
      assert s[0] == t[0] && s[1..] == t[1..] + "\n" + rest;
      LineLengthOf(t[1..], rest);
    }
  }

  lemma {:induction false} CommentLengthOf(t: string, rest: string)
    requires !HasClose(t)
    ensures CommentLength(t + "*/" + rest) == Some(|t|)
    decreases |t|
  {
    var s := t + "*/" + rest;
    if t == "" {
      assert s[0] == '*' && s[1] == '/';
    } else {
      assert s[0] == t[0] && s[1..] == t[1..] + "*/" + rest;
      assert |t| > 1 ==> s[1] == t[1];
      assert |t| == 1 ==> s[1] == '*';
      forall i | 0 <= i < |t[1..]| - 1 ensures !(t[1..][i] == '*' && t[1..][i + 1] == '/') {
        assert t[1..][i] == t[i + 1] && t[1..][i + 1] == t[i + 2];
      }
      CommentLengthOf(t[1..], rest);
    }
  }

  lemma MinifySpace(c: char, rest: string)
    requires IsSpace(c)
    ensures Minified([c] + rest) == Minified(rest)
  {
    assert ([c] + rest)[1..] == rest;
  }

  /** A comment to the end of its line is taken out, and the line end with it. */
  lemma MinifyLineComment(text: string, rest: string)
    requires Lacks(text, '\n')
    ensures Minified("//" + text + "\n" + rest) == Minified(rest)
  {
    var s, line := "//" + text + "\n" + rest, "//" + text;
    assert s == line + "\n" + rest;
    LineLengthOf(line, rest);
    assert s[0] == '/' && s[1] == '/' && s[|line|..] == ['\n'] + rest;
    hide LineLength;
    LineIsSkipped(s, |line|);
    MinifySpace('\n', rest);
  }

  lemma LineIsSkipped(s: string, n: nat)
    requires |s| > 1 && s[0] == '/' && s[1] == '/' && LineLength(s) == n
    ensures Minified(s) == Minified(s[n..])
  {
  }

  /** A comment between marks is taken out. */
  lemma MinifyBlockComment(text: string, rest: string)
    requires !HasClose("*" + text)
    ensures Minified("/*" + text + "*/" + rest) == Minified(rest)
  {
    var s, open := "/*" + text + "*/" + rest, "/*" + text;
    assert s == open + "*/" + rest;
    forall i | 0 <= i < |open| - 1 ensures !(open[i] == '*' && open[i + 1] == '/') {
      if i > 0 {
        assert open[i] == ("*" + text)[i - 1] && open[i + 1] == ("*" + text)[i];
      }
    }
    CommentLengthOf(open, rest);
    assert s[0] == '/' && s[1] == '*' && s[|open| + 2..] == rest;
    hide CommentLength, HasClose;
    CommentIsSkipped(s, |open|);
  }

  lemma CommentIsSkipped(s: string, n: nat)
    requires |s| > 1 && s[0] == '/' && s[1] == '*' && CommentLength(s) == Some(n)
    ensures Minified(s) == Minified(s[n + 2..])
  {
  }

  lemma {:induction false} MinifyPieces(ps: seq<Piece>, rest: string)
    requires ArePieces(ps)
    ensures Minified(GapText(ps) + rest) == Minified(rest)
    decreases |ps|
  {
    hide Minified;
    if ps == [] {
      assert "" + rest == rest;
    } else {
      var more := GapText(ps[1..]) + rest;
      Associates(PieceText(ps[0]), GapText(ps[1..]), rest);
      assert IsPiece(ps[0]);
      match ps[0] {
        case Space(c) => MinifySpace(c, more);
        case LineComment(text) => MinifyLineComment(text, more);
        case BlockComment(text) => MinifyBlockComment(text, more);
      }
      MinifyPieces(ps[1..], rest);
    }
  }

  lemma MinifyGap(t: string, rest: string)
    requires IsGap(t)
    ensures Minified(t + rest) == Minified(rest)
  {
    var ps :| ArePieces(ps) && GapText(ps) == t;
    MinifyPieces(ps, rest);
  }

  // ----- Documents with comments -----

  /** A document of the parser but for comments among its blanks. */
  ghost predicate IsCommented(d: Document) {
    match d
    case NullWord | FalseWord | TrueWord => true
    case Numeric(n) => IsLooseNumeral(n)
    case Textual(us) => AreLooseUnits(us)
    case List(blank, elements) => IsGap(blank) && AreCommented(elements)
    case Record(blank, pairs) => IsGap(blank) && PairsAreCommented(pairs)
  }

  ghost predicate AreCommented(es: Elements) {
    es.Element? ==> IsGap(es.before) && IsCommented(es.value) && IsGap(es.after) && AreCommented(es.next)
  }

  ghost predicate PairsAreCommented(ps: Pairs) {
    ps.Pair? ==>
      && IsGap(ps.before) && AreLooseUnits(ps.name) && IsGap(ps.afterName) && IsGap(ps.beforeValue)
      && IsCommented(ps.value) && IsGap(ps.after) && PairsAreCommented(ps.next)
  }

  /** The document without blanks. */
  function Tight(d: Document): Document {
    match d
    case List(_, elements) => List("", TightElements(elements))
    case Record(_, pairs) => Record("", TightPairs(pairs))
    case _ => d
  }

  function TightElements(es: Elements): (r: Elements)
    ensures r.Element? <==> es.Element?
  {
    match es
    case NoElements => NoElements
    case Element(_, value, _, next) => Element("", Tight(value), "", TightElements(next))
  }

  function TightPairs(ps: Pairs): (r: Pairs)
    ensures r.Pair? <==> ps.Pair?
  {
    match ps
    case NoPairs => NoPairs
    case Pair(_, name, _, _, value, _, next) => Pair("", name, "", "", Tight(value), "", TightPairs(next))
  }

  lemma MinifyLiteral(us: seq<Unit>, rest: string)
    requires AreLooseUnits(us)
    ensures Minified(Literal(us) + rest) == Prepend(Literal(us), Minified(rest))
  {
    var s := Literal(us) + rest;
    assert s[0] == '\"' && s[1..] == UnitsText(us) + "\"" + rest;
    UnitsAreBody(us, rest);
    hide UnitsText, BodyLength;
    assert s[..|Literal(us)|] == Literal(us) && s[|Literal(us)|..] == rest;
  }

  lemma MinifyNumeral(n: Numeral, rest: string)
    requires IsLooseNumeral(n)
    ensures Minified(NumeralText(n) + rest) == Prepend(NumeralText(n), Minified(rest))
  {
    var t := NumeralText(n);
    NumeralIsPlain(n);
    hide Minified, NumeralText;
    MinifyPlain(t, rest);
  }

  predicate AllPlain(t: string) {
    forall i | 0 <= i < |t| :: IsPlain(t[i])
  }

  lemma PlainTogether(a: string, b: string)
    requires AllPlain(a) && AllPlain(b)
    ensures AllPlain(a + b)
  {
  }

  lemma DigitsArePlain(t: string)
    requires AllDigits(t)
    ensures AllPlain(t)
  {
  }

  lemma NumeralIsPlain(n: Numeral)
    requires IsLooseNumeral(n)
    ensures AllPlain(NumeralText(n))
  {
    DigitsArePlain(n.integer);
    DigitsArePlain(n.fraction);
    PlainTogether(".", n.fraction);
    if n.exponent.Exponent? {
      DigitsArePlain(n.exponent.digits);
      PlainTogether([n.exponent.letter], n.exponent.sign);
      PlainTogether([n.exponent.letter] + n.exponent.sign, n.exponent.digits);
    }
    var sign := if n.minus then "-" else "";
    hide AllDigits;
    assert AllPlain(sign);
    PlainTogether(sign, n.integer);
    PlainTogether(sign + n.integer, FractionText(n.fraction));
    PlainTogether(sign + n.integer + FractionText(n.fraction), ExponentText(n.exponent));
  }

  // ----- Minifying documents -----

  lemma {:induction false} MinifyDocument(d: Document, rest: string)
    requires IsCommented(d)
    ensures Minified(Source(d) + rest) == Prepend(Source(Tight(d)), Minified(rest))
    decreases d, 1
  {
    hide Minified;
    match d
    case NullWord => MinifyPlain("null", rest);
    case FalseWord => MinifyPlain("false", rest);
    case TrueWord => MinifyPlain("true", rest);
    case Numeric(n) => MinifyNumeral(n, rest);
    case Textual(us) => MinifyLiteral(us, rest);
    case List(_, _) => MinifyList(d, rest);
    case Record(_, _) => MinifyRecord(d, rest);
  }

  /** Content between brackets, once it is minified. */
  lemma MinifyBrackets(open: char, blank: string, content: string, tight: string, close: char, rest: string)
    requires IsPlain(open) && IsPlain(close) && IsGap(blank)
    requires Minified(content + ([close] + rest)) == Prepend(tight, Minified([close] + rest))
    ensures Minified([open] + blank + content + [close] + rest)
         == Prepend([open] + "" + tight + [close], Minified(rest))
  {
    hide Minified, IsGap;
    var tail := content + ([close] + rest);
    assert [open] + blank + content + [close] + rest == [open] + (blank + tail);
    MinifyPlain([open], blank + tail);
    MinifyGap(blank, tail);
    MinifyPlain([close], rest);
    PrependPrepend(tight, [close], Minified(rest));
    PrependPrepend([open], tight + [close], Minified(rest));
    assert [open] + "" + tight + [close] == [open] + (tight + [close]);
  }

  lemma {:induction false} MinifyList(d: Document, rest: string)
    requires d.List? && IsCommented(d)
    ensures Minified(Source(d) + rest) == Prepend(Source(Tight(d)), Minified(rest))
    decreases d, 0
  {
    hide Minified, IsGap, ElementsSource;
    MinifyElements(d.elements, "]" + rest);
    MinifyBrackets('[', d.blank, ElementsSource(d.elements), ElementsSource(TightElements(d.elements)), ']', rest);
  }

  lemma {:induction false} MinifyRecord(d: Document, rest: string)
    requires d.Record? && IsCommented(d)
    ensures Minified(Source(d) + rest) == Prepend(Source(Tight(d)), Minified(rest))
    decreases d, 0
  {
    hide Minified, IsGap, PairsSource;
    MinifyPairs(d.pairs, "}" + rest);
    MinifyBrackets('{', d.blank, PairsSource(d.pairs), PairsSource(TightPairs(d.pairs)), '}', rest);
  }

  lemma NoneMinified(rest: string)
    ensures ElementsSource(NoElements) == "" && ElementsSource(TightElements(NoElements)) == ""
    ensures PairsSource(NoPairs) == "" && PairsSource(TightPairs(NoPairs)) == ""
    ensures Minified("" + rest) == Prepend("", Minified(rest))
  {
    hide Minified;
    assert "" + rest == rest;
    PrependPrepend("", "", Minified(rest));
  }

  lemma NoBlanks(name: string, value: string, more: string)
    ensures "" + (value + ("" + more)) == value + more
    ensures "" + (name + ("" + (":" + ("" + (value + ("" + more)))))) == name + (":" + (value + more))
  {
    assert "" + more == more && "" + (value + more) == value + more;
    assert "" + (":" + (value + more)) == ":" + (value + more);
  }

  lemma TightElement(es: Elements)
    requires es.Element?
    ensures ElementsSource(TightElements(es))
         == Source(Tight(es.value)) + (When(es.next.Element?, ",") + ElementsSource(TightElements(es.next)))
  {
    var t := TightElements(es);
    ElementsAlone(t);
    NoBlanks("", Source(t.value), When(t.next.Element?, ",") + ElementsSource(t.next));
    hide Source, Tight, ElementsSource;
  }

  lemma {:induction false} MinifyElements(es: Elements, rest: string)
    requires AreCommented(es)
    ensures Minified(ElementsSource(es) + rest) == Prepend(ElementsSource(TightElements(es)), Minified(rest))
    decreases es, 0
  {
    if es.NoElements? {
      NoneMinified(rest);
    } else {
      var comma, tail := When(es.next.Element?, ","), ElementsSource(es.next) + rest;
      var more := es.after + (comma + tail);
      ElementsStep(es, rest);
      MinifyDocument(es.value, more);
      MinifyElements(es.next, rest);
      hide Minified, IsGap, Source, IsCommented;
      MinifyGap(es.before, Source(es.value) + more);
      MinifyGap(es.after, comma + tail);
      MinifyPlain(comma, tail);
      var value, next := Source(Tight(es.value)), ElementsSource(TightElements(es.next));
      PrependPrepend(comma, next, Minified(rest));
      PrependPrepend(value, comma + next, Minified(rest));
      TightElement(es);
    }
  }

  lemma TightPair(ps: Pairs)
    requires ps.Pair?
    ensures PairsSource(TightPairs(ps))
         == Literal(ps.name)
            + (":" + (Source(Tight(ps.value)) + (When(ps.next.Pair?, ",") + PairsSource(TightPairs(ps.next)))))
  {
    var t := TightPairs(ps);
    PairsAlone(t);
    NoBlanks(Literal(t.name), Source(t.value), When(t.next.Pair?, ",") + PairsSource(t.next));
    hide Source, Literal, Tight, PairsSource;
  }

  lemma {:induction false} MinifyPairs(ps: Pairs, rest: string)
    requires PairsAreCommented(ps)
    ensures Minified(PairsSource(ps) + rest) == Prepend(PairsSource(TightPairs(ps)), Minified(rest))
    decreases ps, 0
  {
    if ps.NoPairs? {
      NoneMinified(rest);
    } else {
      var comma, tail := When(ps.next.Pair?, ","), PairsSource(ps.next) + rest;
      var more := ps.after + (comma + tail);
      var colon := ":" + (ps.beforeValue + (Source(ps.value) + more));
      PairsStep(ps, rest);
      MinifyDocument(ps.value, more);
      MinifyPairs(ps.next, rest);
      TightPair(ps);
      hide Minified, IsGap, Source, Literal, IsCommented, AreLooseUnits;
      MinifyGap(ps.before, Literal(ps.name) + (ps.afterName + colon));
      MinifyLiteral(ps.name, ps.afterName + colon);
      MinifyGap(ps.afterName, colon);
      MinifyPlain(":", ps.beforeValue + (Source(ps.value) + more));
      MinifyGap(ps.beforeValue, Source(ps.value) + more);
      MinifyGap(ps.after, comma + tail);
      MinifyPlain(comma, tail);
      var value, next := Source(Tight(ps.value)), PairsSource(TightPairs(ps.next));
      PrependPrepend(comma, next, Minified(rest));
      PrependPrepend(value, comma + next, Minified(rest));
      PrependPrepend(":", value + (comma + next), Minified(rest));
      PrependPrepend(Literal(ps.name), ":" + (value + (comma + next)), Minified(rest));
    }
  }

  // ----- The meaning stays -----

  lemma EmptyIsBlank()
    ensures IsBlanks("")
  {
  }

  lemma {:induction false} TightIsLoose(d: Document)
    requires IsCommented(d)
    ensures IsLoose(Tight(d))
    decreases d
  {
    EmptyIsBlank();
    match d
    case List(_, elements) => TightElementsAreLoose(elements);
    case Record(_, pairs) => TightPairsAreLoose(pairs);
    case _ =>
  }

  lemma {:induction false} TightElementsAreLoose(es: Elements)
    requires AreCommented(es)
    ensures AreLooseElements(TightElements(es))
    decreases es
  {
    EmptyIsBlank();
    if es.Element? {
      TightIsLoose(es.value);
      TightElementsAreLoose(es.next);
    }
  }

  lemma {:induction false} TightPairsAreLoose(ps: Pairs)
    requires PairsAreCommented(ps)
    ensures AreLoosePairs(TightPairs(ps))
    decreases ps
  {
    EmptyIsBlank();
    if ps.Pair? {
      TightIsLoose(ps.value);
      TightPairsAreLoose(ps.next);
    }
  }

  lemma NothingMinified()
    ensures Minified("") == Some("")
  {
  }

  /**
    Minifying a document with comments, and more of them around it, gives its tokens alone,
    and the parser then gives their meaning.
  */
  lemma MinifiedIsParsed(d: Document, before: string, after: string)
    requires IsCommented(d) && IsGap(before) && IsGap(after)
    ensures Minified(before + Source(d) + after) == Some(Source(Tight(d)))
    ensures IsLoose(Tight(d)) && Parse(Source(Tight(d)), true) == Read(Meaning(Tight(d)), "")
  {
    TightIsLoose(d);
    MinifyDocument(d, after);
    EmptyIsBlank();
    NothingMinified();
    hide Minified, IsGap, Source, IsCommented, IsLoose, Parse, Meaning;
    var tight := Source(Tight(d));
    Associates(before, Source(d), after);
    MinifyGap(before, Source(d) + after);
    assert after + "" == after && tight + "" == tight;
    MinifyGap(after, "");
    ParseLoose(Tight(d), "", "");
    assert "" + tight + "" == tight;
  }

  // ----- Documents without comments -----

  lemma {:induction false} WhiteIsGap(t: string)
    requires IsWhite(t)
    ensures IsGap(t)
    decreases |t|
  {
    if t == "" {
      assert GapText([]) == t;
    } else {
      WhiteIsGap(t[1..]);
      var ps :| ArePieces(ps) && GapText(ps) == t[1..];
      var all := [Space(t[0])] + ps;
      assert all[0] == Space(t[0]) && all[1..] == ps;
      assert GapText(all) == [t[0]] + t[1..] == t;
    }
  }

  lemma {:induction false} DocumentIsCommented(d: Document)
    requires IsDocument(d)
    ensures IsCommented(d)
    decreases d
  {
    DocumentIsLoose(d);
    hide IsGap, IsWhite;
    match d
    case List(blank, elements) => WhiteIsGap(blank); ElementsAreCommented(elements);
    case Record(blank, pairs) => WhiteIsGap(blank); ThesePairsAreCommented(pairs);
    case _ =>
  }

  lemma {:induction false} ElementsAreCommented(es: Elements)
    requires AreElements(es)
    ensures AreCommented(es)
    decreases es
  {
    hide IsGap, IsWhite;
    if es.Element? {
      WhiteIsGap(es.before);
      WhiteIsGap(es.after);
      DocumentIsCommented(es.value);
      ElementsAreCommented(es.next);
    }
  }

  lemma {:induction false} ThesePairsAreCommented(ps: Pairs)
    requires ArePairs(ps)
    ensures PairsAreCommented(ps)
    decreases ps
  {
    hide IsGap, IsWhite;
    if ps.Pair? {
      PairsAreLoose(ps);
      WhiteIsGap(ps.before);
      WhiteIsGap(ps.afterName);
      WhiteIsGap(ps.beforeValue);
      WhiteIsGap(ps.after);
      DocumentIsCommented(ps.value);
      ThesePairsAreCommented(ps.next);
    }
  }

  lemma {:induction false} TightMeansSame(d: Document)
    requires IsLoose(d) && IsLoose(Tight(d))
    ensures Meaning(Tight(d)) == Meaning(d)
    decreases d
  {
    match d
    case List(_, elements) => TightElementsMeanSame(elements);
    case Record(_, pairs) => TightPairsMeanSame(pairs);
    case _ =>
  }

  lemma {:induction false} TightElementsMeanSame(es: Elements)
    requires AreLooseElements(es) && AreLooseElements(TightElements(es))
    ensures ElementsMeaning(TightElements(es)) == ElementsMeaning(es)
    decreases es
  {
    if es.Element? {
      TightMeansSame(es.value);
      TightElementsMeanSame(es.next);
    }
  }

  lemma {:induction false} TightPairsMeanSame(ps: Pairs)
    requires AreLoosePairs(ps) && AreLoosePairs(TightPairs(ps))
    ensures PairsMeaning(TightPairs(ps)) == PairsMeaning(ps)
    decreases ps
  {
    if ps.Pair? {
      TightMeansSame(ps.value);
      TightPairsMeanSame(ps.next);
    }
  }

  /** For every document of the grammar, parsing the minified text gives what parsing the text gives. */
  lemma MinifyingKeepsMeaning(d: Document, before: string, after: string)
    requires IsDocument(d) && IsWhite(before) && IsWhite(after)
    ensures var s := before + Source(d) + after;
            Minified(s).Some? && Parse(Minified(s).value, true) == Parse(s, true)
  {
    DocumentIsCommented(d);
    DocumentIsLoose(d);
    WhiteIsGap(before);
    WhiteIsGap(after);
    hide Minified, IsGap, Source, IsCommented, IsDocument, IsLoose, Parse, Meaning;
    MinifiedIsParsed(d, before, after);
    TightMeansSame(d);
    ParseDocument(d, before, after);
  }
}
