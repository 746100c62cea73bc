/**
  The grammar of RFC 8259, as documents with every blank, escape and spelling of a number
  kept, and next to it what the parser takes for a document, which is more.  The parser
  accepts a document as a whole, with the value that the grammar gives it, just when each
  of its strings has a value.
*/
module JsonGrammar {
  import opened CText
  import opened Decimal
  import opened JsonParse
  import opened JsonRoundTrip
  import opened JsonString
  import opened JsonText
  import opened Wrappers

  // ----- Strings (section 7) -----

  /** One step of a string: a byte as it is, an escape of two characters, or a UTF-16 code unit. */
  datatype Unit = Raw(c: char) | Short(c: char) | Hex(digits: string)

  predicate IsUnit(x: Unit) {
    match x
    case Raw(c) => c >= ' ' && c != '\"' && c != '\\'
    case Short(c) => c in "\"\\/bfnrt"
    case Hex(digits) => |digits| == 4 && forall i | 0 <= i < 4 :: IsHexDigit(digits[i])
  }

  predicate AreUnits(us: seq<Unit>) {
    forall i | 0 <= i < |us| :: IsUnit(us[i])
  }

  /** What the parser takes for a step: any byte or escape that does not end the literal, control characters too. */
  predicate IsLooseUnit(x: Unit) {
    match x
    case Raw(c) => c != NUL && c != '\"' && c != '\\'
    case Short(c) => c != NUL && c != 'u'
    case Hex(digits) => |digits| == 4 && forall i | 0 <= i < 4 :: IsHexDigit(digits[i])
  }

  predicate AreLooseUnits(us: seq<Unit>) {
    forall i | 0 <= i < |us| :: IsLooseUnit(us[i])
  }

  function UnitText(x: Unit): string {
    match x
    case Raw(c) => [c]
    case Short(c) => ['\\', c]
    case Hex(digits) => "\\u" + digits
  }

  function UnitsText(us: seq<Unit>): string {
    if us == [] then "" else UnitText(us[0]) + UnitsText(us[1..])
  }

  function ShortValue(c: char): char {
    if c == 'b' then '\U{8}'
    else if c == 'f' then '\U{C}'
    else if c == 'n' then '\U{A}'
    else if c == 'r' then '\U{D}'
    else if c == 't' then '\U{9}'
    else c
  }

  /** The number of a code unit. */
  function CodeUnit(x: Unit): (n: nat)
    requires x.Hex? && IsLooseUnit(x)
    ensures n < 0x10000
  {
    HexValue(x.digits[0]) * 4096 + HexValue(x.digits[1]) * 256 + HexValue(x.digits[2]) * 16 + HexValue(x.digits[3])
  }

  predicate IsLowUnit(x: Unit)
    requires IsLooseUnit(x)
  {
    x.Hex? && IsLowSurrogate(CodeUnit(x))
  }

  /**
    The bytes of a string: code units are UTF-16, written here in UTF-8.  A string has none when a
    surrogate of it has no partner, or when it has the code point zero, which a C string cannot hold.
  */
  function UnitsValue(us: seq<Unit>): Option<string>
    requires AreLooseUnits(us)
    decreases |us|
  {
    if us == [] then Some("")
    else
      match us[0]
      case Raw(c) => Prepend([c], UnitsValue(us[1..]))
      case Short(c) => Prepend([ShortValue(c)], UnitsValue(us[1..]))
      case Hex(_) =>
        var u := CodeUnit(us[0]);
        if u == 0 || IsLowSurrogate(u) then None
        else if !IsHighSurrogate(u) then Prepend(Utf8(u), UnitsValue(us[1..]))
        else if |us| > 1 && IsLowUnit(us[1]) then
          Prepend(Utf8(PairValue(u, CodeUnit(us[1]))), UnitsValue(us[2..]))
        else None
  }

  function Literal(us: seq<Unit>): string {
    "\"" + UnitsText(us) + "\""
  }

  // ----- Numbers (section 6) -----

  datatype Exponent = NoExponent | Exponent(letter: char, sign: string, digits: string)

  /** The fraction is empty when there is none. */
  datatype Numeral = Numeral(minus: bool, integer: string, fraction: string, exponent: Exponent)

  predicate IsExponent(e: Exponent) {
    e.Exponent? ==>
      && (e.letter == 'e' || e.letter == 'E') && (e.sign == "" || e.sign == "+" || e.sign == "-")
      && e.digits != "" && AllDigits(e.digits)
  }

  predicate IsNumeral(n: Numeral) {
    && n.integer != "" && AllDigits(n.integer) && (n.integer[0] == '0' ==> |n.integer| == 1)
    && AllDigits(n.fraction)
    && IsExponent(n.exponent)
  }

  /** The parser does without the digits of an exponent. */
  predicate IsLooseExponent(e: Exponent) {
    e.Exponent? ==>
      && (e.letter == 'e' || e.letter == 'E') && (e.sign == "" || e.sign == "+" || e.sign == "-") && AllDigits(e.digits)
  }

  /** It takes one zero before other digits, and behind a sign it does without digits. */
  predicate IsLooseNumeral(n: Numeral) {
    && AllDigits(n.integer) && (n.integer == "" ==> n.minus)
    && (|n.integer| > 1 && n.integer[0] == '0' ==> n.integer[1] != '0')
    && AllDigits(n.fraction)
    && IsLooseExponent(n.exponent)
  }

  function ExponentText(e: Exponent): string {
    match e
    case NoExponent => ""
    case Exponent(letter, sign, digits) => [letter] + sign + digits
  }

  function FractionText(fraction: string): string {
    if fraction == "" then "" else "." + fraction
  }

  function NumeralText(n: Numeral): string {
    (if n.minus then "-" else "") + n.integer + FractionText(n.fraction) + ExponentText(n.exponent)
  }

  function ExponentValue(e: Exponent): int
    requires IsLooseExponent(e)
  {
    match e
    case NoExponent => 0
    case Exponent(_, sign, digits) => if sign == "-" then 0 - DigitsValue(digits) else DigitsValue(digits)
  }

  /** All digits without the point, and a power of ten that puts it back. */
  function NumeralValue(n: Numeral): Json
    requires IsLooseNumeral(n)
  {
    var magnitude := DigitsValue(n.integer + n.fraction);
    Number(if n.minus then 0 - magnitude else magnitude, ExponentValue(n.exponent) - |n.fraction|)
  }

  // ----- Documents (sections 2 to 5) -----

  /** A value; the blank of an array or object is the one behind its opening bracket. */
  datatype Document =
    | NullWord
    | FalseWord
    | TrueWord
    | Numeric(numeral: Numeral)
    | Textual(units: seq<Unit>)
    | List(blank: string, elements: Elements)
    | Record(blank: string, pairs: Pairs)

  datatype Elements = NoElements | Element(before: string, value: Document, after: string, next: Elements)

  datatype Pairs =
    | NoPairs
    | Pair(before: string, name: seq<Unit>, afterName: string, beforeValue: string, value: Document, after: string,
           next: Pairs)

  /** Insignificant white space. */
  predicate IsWhite(t: string) {
    forall i | 0 <= i < |t| :: t[i] == ' ' || t[i] == '\t' || t[i] == '\n' || t[i] == '\r'
  }

  predicate IsDocument(d: Document) {
    match d
    case NullWord | FalseWord | TrueWord => true
    case Numeric(n) => IsNumeral(n)
    case Textual(us) => AreUnits(us)
    case List(blank, elements) => IsWhite(blank) && AreElements(elements)
    case Record(blank, pairs) => IsWhite(blank) && ArePairs(pairs)
  }

  predicate AreElements(es: Elements) {
    es.Element? ==> IsWhite(es.before) && IsDocument(es.value) && IsWhite(es.after) && AreElements(es.next)
  }

  predicate ArePairs(ps: Pairs) {
    ps.Pair? ==>
      && IsWhite(ps.before) && AreUnits(ps.name) && IsWhite(ps.afterName) && IsWhite(ps.beforeValue)
      && IsDocument(ps.value) && IsWhite(ps.after) && ArePairs(ps.next)
  }

  /** The parser takes every control character for white space. */
  predicate IsBlanks(t: string) {
    forall i | 0 <= i < |t| :: IsBlank(t[i])
  }

  /** What the parser takes for a value. */
  predicate IsLoose(d: Document) {
    match d
    case NullWord | FalseWord | TrueWord => true
    case Numeric(n) => IsLooseNumeral(n)
    case Textual(us) => AreLooseUnits(us)
    case List(blank, elements) => IsBlanks(blank) && AreLooseElements(elements)
    case Record(blank, pairs) => IsBlanks(blank) && AreLoosePairs(pairs)
  }

  predicate AreLooseElements(es: Elements) {
    es.Element? ==> IsBlanks(es.before) && IsLoose(es.value) && IsBlanks(es.after) && AreLooseElements(es.next)
  }

  predicate AreLoosePairs(ps: Pairs) {
    ps.Pair? ==>
      && IsBlanks(ps.before) && AreLooseUnits(ps.name) && IsBlanks(ps.afterName) && IsBlanks(ps.beforeValue)
      && IsLoose(ps.value) && IsBlanks(ps.after) && AreLoosePairs(ps.next)
  }

  /** Every document of the grammar is one of the parser's. */
  lemma {:induction false} DocumentIsLoose(d: Document)
    requires IsDocument(d)
    ensures IsLoose(d)
    decreases d
  {
    match d
    case List(_, elements) => ElementsAreLoose(elements);
    case Record(_, pairs) => PairsAreLoose(pairs);
    case _ =>
  }

  lemma {:induction false} ElementsAreLoose(es: Elements)
    requires AreElements(es)
    ensures AreLooseElements(es)
    decreases es
  {
    if es.Element? {
      DocumentIsLoose(es.value);
      ElementsAreLoose(es.next);
    }
  }

  lemma {:induction false} PairsAreLoose(ps: Pairs)
    requires ArePairs(ps)
    ensures AreLoosePairs(ps)
    decreases ps
  {
    if ps.Pair? {
      DocumentIsLoose(ps.value);
      PairsAreLoose(ps.next);
    }
  }

  /** The text of a document. */
  function Source(d: Document): string {
    match d
    case NullWord => "null"
    case FalseWord => "false"
    case TrueWord => "true"
    case Numeric(n) => NumeralText(n)
    case Textual(us) => Literal(us)
    case List(blank, elements) => "[" + blank + ElementsSource(elements) + "]"
    case Record(blank, pairs) => "{" + blank + PairsSource(pairs) + "}"
  }

  function ElementsSource(es: Elements): string {
    match es
    case NoElements => ""
    case Element(before, value, after, next) =>
      before + Source(value) + after + When(next.Element?, ",") + ElementsSource(next)
  }

  function PairsSource(ps: Pairs): string {
    match ps
    case NoPairs => ""
    case Pair(before, name, afterName, beforeValue, value, after, next) =>
      before + Literal(name) + afterName + ":" + beforeValue + Source(value) + after
      + When(next.Pair?, ",") + PairsSource(next)
  }

  /** The tree that a document stands for, if all of its strings stand for something. */
  function Meaning(d: Document): Option<Json>
    requires IsLoose(d)
  {
    match d
    case NullWord => Some(Null)
    case FalseWord => Some(False)
    case TrueWord => Some(True)
    case Numeric(n) => Some(NumeralValue(n))
    case Textual(us) =>
      (match UnitsValue(us) case None => None case Some(text) => Some(String(text)))
    case List(_, elements) =>
      (match ElementsMeaning(elements) case None => None case Some(items) => Some(Array(items)))
    case Record(_, pairs) =>
      (match PairsMeaning(pairs) case None => None case Some(members) => Some(Object(members)))
  }

  function ElementsMeaning(es: Elements): (r: Option<Items>)
    requires AreLooseElements(es)
    ensures r.Some? ==> (r.value.NoItems? <==> es.NoElements?)
  {
    match es
    case NoElements => Some(NoItems)
    case Element(_, value, _, next) =>
      match Meaning(value)
      case None => None
      case Some(v) => (match ElementsMeaning(next) case None => None case Some(items) => Some(Item(v, items)))
  }

  function PairsMeaning(ps: Pairs): (r: Option<Members>)
    requires AreLoosePairs(ps)
    ensures r.Some? ==> (r.value.NoMembers? <==> ps.NoPairs?)
  {
    match ps
    case NoPairs => Some(NoMembers)
    case Pair(_, name, _, _, value, _, next) =>
      match UnitsValue(name)
      case None => None
      case Some(text) =>
        match Meaning(value)
        case None => None
        case Some(v) =>
          (match PairsMeaning(next) case None => None case Some(members) => Some(Member(text, v, members)))
  }

  /** What a parser is to return for a meaning, when that much text is left over. */
  function Read<T>(meaning: Option<T>, rest: string): Outcome<(T, string)> {
    match meaning
    case None => Rejected
    case Some(v) => Parsed((v, rest))
  }

  // ----- Strings are read -----

  lemma HexIsCode(x: Unit, rest: string)
    requires x.Hex? && IsLooseUnit(x)
    ensures ParseHex4(x.digits + rest) == CodeUnit(x)
  {
    var t := x.digits + rest;
    assert t[0] == x.digits[0] && t[1] == x.digits[1] && t[2] == x.digits[2] && t[3] == x.digits[3];
  }

  lemma ShortIsUnescape(c: char)
    ensures Unescape(c) == ShortValue(c)
  {
  }

  lemma PlainUnit(x: Unit, rest: string)
    requires IsLooseUnit(x) && !x.Hex?
    ensures DecodeUnit(UnitText(x) + rest) == Some(([if x.Raw? then x.c else ShortValue(x.c)], |UnitText(x)|))
  {
    var t := UnitText(x) + rest;
    assert t[0] == UnitText(x)[0];
    if x.Short? {
      assert t[1] == x.c && x.c != 'u';
      ShortIsUnescape(x.c);
    }
  }

  lemma HexUnit(x: Unit, rest: string)
    requires x.Hex? && IsLooseUnit(x)
    ensures var t, u := UnitText(x) + rest, CodeUnit(x);
            && t[0] == '\\' && At(t, 1) == 'u' && ParseHex4(Drop(t, 2)) == u
            && Drop(t, 6) == rest && At(t, 6) == At(rest, 0) && At(t, 7) == At(rest, 1) && Drop(t, 8) == Drop(rest, 2)
  {
    hide ParseHex4;
    var t := UnitText(x) + rest;
    assert t == "\\u" + (x.digits + rest);
    assert t[2..] == x.digits + rest;
    HexIsCode(x, rest);
  }

  lemma SingleUnit(x: Unit, rest: string)
    requires x.Hex? && IsLooseUnit(x) && !IsHighSurrogate(CodeUnit(x))
    ensures var u := CodeUnit(x);
            DecodeUnit(UnitText(x) + rest) == if u == 0 || IsLowSurrogate(u) then None else Some((Utf8(u), 6))
  {
    HexUnit(x, rest);
    hide ParseHex4, CodeUnit, Utf8;
  }

  /** Text that starts with a code unit, and which one. */
  lemma UnitAhead(us: seq<Unit>)
    requires AreLooseUnits(us)
    ensures var t := UnitsText(us);
            && (At(t, 0) == '\\' && At(t, 1) == 'u' <==> us != [] && us[0].Hex?)
            && (us != [] && us[0].Hex? ==> ParseHex4(Drop(t, 2)) == CodeUnit(us[0]) && Drop(t, 6) == UnitsText(us[1..]))
  {
    hide ParseHex4, CodeUnit;
    if us != [] {
      var x, more := us[0], UnitsText(us[1..]);
      if x.Hex? {
        HexUnit(x, more);
      } else {
        assert (UnitText(x) + more)[0] == UnitText(x)[0];
        assert x.Short? ==> (UnitText(x) + more)[1] == x.c;
      }
    }
  }

  /** A high surrogate is read together with its partner. */
  lemma PairUnit(x: Unit, us: seq<Unit>)
    requires x.Hex? && IsLooseUnit(x) && AreLooseUnits(us) && IsHighSurrogate(CodeUnit(x))
    ensures DecodeUnit(UnitText(x) + UnitsText(us))
         == if us != [] && IsLowUnit(us[0]) then Some((Utf8(PairValue(CodeUnit(x), CodeUnit(us[0]))), 12)) else None
  {
    HexUnit(x, UnitsText(us));
    UnitAhead(us);
    hide ParseHex4, CodeUnit, Utf8, PairValue, UnitsText;
  }

  lemma {:induction false} DecodeUnits(us: seq<Unit>)
    requires AreLooseUnits(us)
    ensures Decode(UnitsText(us)) == UnitsValue(us)
    decreases |us|
  {
    if us != [] {
      var x, more := us[0], UnitsText(us[1..]);
      var t := UnitText(x) + more;
      hide DecodeUnit, CodeUnit, Utf8, PairValue;
      if !x.Hex? {
        PlainUnit(x, more);
        assert Drop(t, |UnitText(x)|) == more;
        DecodeUnits(us[1..]);
      } else if !IsHighSurrogate(CodeUnit(x)) {
        SingleUnit(x, more);
        assert Drop(t, 6) == more;
        DecodeUnits(us[1..]);
      } else {
        PairUnit(x, us[1..]);
        if |us| > 1 && IsLowUnit(us[1]) {
          UnitAhead(us[1..]);
          assert Drop(t, 12) == Drop(more, 6);
          assert us[1..][1..] == us[2..];
          DecodeUnits(us[2..]);
        }
      }
    }
  }

  lemma UnitIsBody(x: Unit, rest: string)
    requires IsLooseUnit(x)
    ensures BodyLength(UnitText(x) + rest) == |UnitText(x)| + BodyLength(rest)
  {
    var t := UnitText(x) + rest;
    assert t[0] == UnitText(x)[0];
    match x
    case Raw(_) => assert t[1..] == rest;
    case Short(_) => assert Drop(t, 2) == rest;
    case Hex(digits) =>
      assert Drop(t, 2) == digits + rest;
      BodyLengthOfPlain(digits, rest);
  }

  lemma QuoteEnds(rest: string)
    ensures BodyLength("\"" + rest) == 0
  {
  }

  lemma {:induction false} UnitsAreBody(us: seq<Unit>, rest: string)
    requires AreLooseUnits(us)
    ensures BodyLength(UnitsText(us) + "\"" + rest) == |UnitsText(us)|
  {
    hide BodyLength, UnitText, IsLooseUnit;
    if us == [] {
      assert UnitsText(us) + "\"" + rest == "\"" + rest;
      QuoteEnds(rest);
    } else {
      var more := UnitsText(us[1..]) + "\"" + rest;
      assert UnitsText(us) + "\"" + rest == UnitText(us[0]) + more;
      UnitsAreBody(us[1..], rest);
      UnitIsBody(us[0], more);
    }
  }

  /** A literal parses to its value, and is rejected if it has none. */
  lemma ParseLiteral(us: seq<Unit>, rest: string)
    requires AreLooseUnits(us)
    ensures ParseString(Literal(us) + rest) == Read(UnitsValue(us), rest)
  {
    hide UnitsText, UnitsValue, Decode, BodyLength;
    var text, body := Literal(us) + rest, UnitsText(us);
    assert text[0] == '\"' && text[1..] == body + "\"" + rest;
    UnitsAreBody(us, rest);
    DecodeUnits(us);
    assert Take(text[1..], |body|) == body && Drop(text[1..], |body|) == "\"" + rest;
  }

  // ----- Numbers are read -----

  lemma ParseDigits(digits: string, rest: string)
    requires AllDigits(digits) && (digits != "" ==> digits[0] != '0') && !IsDigit(At(rest, 0))
    ensures ParseInteger(digits + rest) == (DigitsValue(digits), rest)
  {
    var s := digits + rest;
    if digits == "" {
      assert s == rest;
    } else {
      assert s[0] == digits[0];
      DigitRunOfDigits(digits, rest);
      assert s[..|digits|] == digits && s[|digits|..] == rest;
    }
  }

  lemma ParseIntegerText(integer: string, rest: string)
    requires AllDigits(integer) && (|integer| > 1 && integer[0] == '0' ==> integer[1] != '0') && !IsDigit(At(rest, 0))
    ensures var s := integer + rest;
            ParseInteger(if At(s, 0) == '0' then s[1..] else s) == (DigitsValue(integer), rest)
  {
    var s := integer + rest;
    if integer == "" {
      assert s == rest;
    } else if integer[0] == '0' {
      assert s[0] == '0' && s[1..] == integer[1..] + rest;
      assert Accumulate(0, integer) == Accumulate(0, integer[1..]);
      ParseDigits(integer[1..], rest);
    } else {
      assert s[0] == integer[0];
      ParseDigits(integer, rest);
    }
  }

  lemma ParseFractionText(n: nat, fraction: string, rest: string)
    requires AllDigits(fraction) && !IsDigit(At(rest, 0))
    requires fraction == "" && At(rest, 0) == '.' ==> !IsDigit(At(rest, 1))
    ensures ParseFraction(n, FractionText(fraction) + rest) == (Accumulate(n, fraction), |fraction|, rest)
  {
    var s := FractionText(fraction) + rest;
    if fraction == "" {
      assert s == rest;
    } else {
      assert s == "." + (fraction + rest);
      assert s[1..] == fraction + rest && (fraction + rest)[0] == fraction[0];
      DigitRunOfDigits(fraction, rest);
      assert s[1..][..|fraction|] == fraction && s[1..][|fraction|..] == rest;
    }
  }

  lemma SkipSign(sign: string, u: string)
    requires sign == "" || sign == "+" || sign == "-"
    requires sign == "" ==> At(u, 0) != '+' && At(u, 0) != '-'
    ensures var t := sign + u;
            && (if At(t, 0) == '+' || At(t, 0) == '-' then t[1..] else t) == u
            && (At(t, 0) == '-' <==> sign == "-")
  {
    if sign == "" {
      assert sign + u == u;
    } else {
      assert (sign + u)[0] == sign[0] && (sign + u)[1..] == u;
    }
  }

  lemma ExponentParts(s: string, t: string, u: string, digits: string, rest: string)
    requires (At(s, 0) == 'e' || At(s, 0) == 'E') && s[1..] == t
    requires u == if At(t, 0) == '+' || At(t, 0) == '-' then t[1..] else t
    requires AllDigits(digits) && DigitRun(u) == |digits| && u[..|digits|] == digits && u[|digits|..] == rest
    ensures ParseExponent(s) == (if At(t, 0) == '-' then 0 - DigitsValue(digits) else DigitsValue(digits), rest)
  {
    hide DigitsValue, DigitRun;
  }

  lemma TextPieces(a: string, b: string)
    ensures (a + b)[..|a|] == a && (a + b)[|a|..] == b && (a != "" ==> (a + b)[0] == a[0])
  {
  }

  lemma DigitsFirst(digits: string, rest: string)
    requires AllDigits(digits)
    ensures if digits == "" then digits + rest == rest else IsDigit(At(digits + rest, 0))
  {
  }

  /** An exponent without a sign and without digits. */
  predicate IsBareExponent(e: Exponent) {
    e.Exponent? && e.sign == "" && e.digits == ""
  }

  lemma ParseExponentText(e: Exponent, rest: string)
    requires IsLooseExponent(e) && !IsDigit(At(rest, 0)) && (e.NoExponent? ==> At(rest, 0) != 'e' && At(rest, 0) != 'E')
    requires IsBareExponent(e) ==> At(rest, 0) != '+' && At(rest, 0) != '-'
    ensures ParseExponent(ExponentText(e) + rest) == (ExponentValue(e), rest)
  {
    hide DigitsValue, DigitRun;
    var s := ExponentText(e) + rest;
    if e.NoExponent? {
      assert s == rest;
    } else {
      var u := e.digits + rest;
      var t := e.sign + u;
      Associates([e.letter] + e.sign, e.digits, rest);
      Associates([e.letter], e.sign, u);
      TextPieces([e.letter], t);
      TextPieces(e.digits, rest);
      DigitsFirst(e.digits, rest);
      SkipSign(e.sign, u);
      DigitRunOfDigits(e.digits, rest);
      hide ParseExponent, AllDigits;
      ExponentParts(s, t, u, e.digits, rest);
    }
  }

  /** The number before the point. */
  function Whole(n: Numeral): nat
    requires IsLooseNumeral(n)
  {
    DigitsValue(n.integer)
  }

  /** The digits after the point continue the number before it. */
  function Magnitude(n: Numeral): nat
    requires IsLooseNumeral(n)
  {
    Accumulate(Whole(n), n.fraction)
  }

  function Power(n: Numeral): int
    requires IsLooseNumeral(n)
  {
    ExponentValue(n.exponent)
  }

  /** The text does not continue the number. */
  predicate EndsNumber(n: Numeral, rest: string) {
    !ContinuesNumber(rest) && (IsBareExponent(n.exponent) ==> At(rest, 0) != '+' && At(rest, 0) != '-')
  }

  /** The rest of a numeral and what follows, from its exponent, its fraction, or its integer on. */
  function FromExponent(n: Numeral, rest: string): string {
    ExponentText(n.exponent) + rest
  }

  function FromFraction(n: Numeral, rest: string): string {
    FractionText(n.fraction) + FromExponent(n, rest)
  }

  function FromInteger(n: Numeral, rest: string): string {
    n.integer + FromFraction(n, rest)
  }

  function AfterZero(s: string): string {
    if At(s, 0) == '0' then s[1..] else s
  }

  function Signed(minus: bool, t: string): string {
    if minus then "-" + t else t
  }

  lemma NumeralPieces(n: Numeral, rest: string)
    ensures NumeralText(n) + rest == Signed(n.minus, FromInteger(n, rest))
  {
    hide ExponentText, FractionText;
    var f, e := FractionText(n.fraction), ExponentText(n.exponent);
    Associates(f, e, rest);
    Associates(n.integer, f + e, rest);
    assert NumeralText(n) == Signed(n.minus, n.integer + (f + e));
  }

  /** How each part of a numeral ends. */
  lemma NumeralStarts(n: Numeral, rest: string)
    requires IsLooseNumeral(n) && EndsNumber(n, rest)
    ensures var afterInteger, afterFraction := FromFraction(n, rest), FromExponent(n, rest);
            && (n.minus || IsDigit(At(FromInteger(n, rest), 0)))
            && !IsDigit(At(afterInteger, 0)) && !IsDigit(At(afterFraction, 0))
            && (At(afterFraction, 0) == '.' ==> !IsDigit(At(afterFraction, 1)))
  {
    var e, f := ExponentText(n.exponent), FractionText(n.fraction);
    assert e == "" ==> e + rest == rest;
    assert e != "" ==> (e + rest)[0] == e[0] == n.exponent.letter;
    assert f == "" ==> f + (e + rest) == e + rest;
    assert n.integer != "" ==> (n.integer + (f + (e + rest)))[0] == n.integer[0];
  }

  /** The three parts of a numeral are read one after the other. */
  lemma ParseThreeParts(n: Numeral, rest: string)
    requires IsLooseNumeral(n) && EndsNumber(n, rest)
    ensures var s := FromInteger(n, rest);
            && (n.minus || IsDigit(At(s, 0)))
            && ParseInteger(AfterZero(s)) == (Whole(n), FromFraction(n, rest))
            && ParseFraction(Whole(n), FromFraction(n, rest)) == (Magnitude(n), |n.fraction|, FromExponent(n, rest))
            && ParseExponent(FromExponent(n, rest)) == (Power(n), rest)
  {
    NumeralStarts(n, rest);
    hide ExponentText, FractionText, ParseInteger, ParseFraction, ParseExponent, Accumulate, ExponentValue;
    hide IsLooseExponent;
    ParseIntegerText(n.integer, FromFraction(n, rest));
    ParseFractionText(DigitsValue(n.integer), n.fraction, FromExponent(n, rest));
    ParseExponentText(n.exponent, rest);
  }

  /** The parser's parts put together, behind an optional sign. */
  lemma ParseParts(minus: bool, afterSign: string, n: nat, afterInteger: string, m: nat, places: nat,
      afterFraction: string, exponent: int, rest: string)
    requires minus || IsDigit(At(afterSign, 0))
    requires ParseInteger(AfterZero(afterSign)) == (n, afterInteger)
    requires ParseFraction(n, afterInteger) == (m, places, afterFraction)
    requires ParseExponent(afterFraction) == (exponent, rest)
    ensures var s := Signed(minus, afterSign);
            && (At(s, 0) == '-' || IsDigit(At(s, 0)))
            && ParseNumber(s) == (Number(if minus then 0 - m else m, exponent - places), rest)
  {
    hide ParseInteger, ParseFraction, ParseExponent;
    var s := Signed(minus, afterSign);
    if minus {
      assert s[0] == '-' && s[1..] == afterSign;
    }
  }

  lemma NumeralDigits(n: Numeral)
    requires IsLooseNumeral(n)
    ensures Magnitude(n) == DigitsValue(n.integer + n.fraction)
  {
    AccumulateConcat(0, n.integer, n.fraction);
    hide Accumulate, IsLooseExponent;
  }

  lemma ParsePieces(n: Numeral, rest: string)
    requires IsLooseNumeral(n) && EndsNumber(n, rest)
    ensures var s, m := Signed(n.minus, FromInteger(n, rest)), Magnitude(n);
            && (At(s, 0) == '-' || IsDigit(At(s, 0)))
            && ParseNumber(s) == (Number(if n.minus then 0 - m else m, Power(n) - |n.fraction|), rest)
  {
    hide ParseInteger, ParseFraction, ParseExponent, Whole, Magnitude, Power, FromInteger, FromFraction, FromExponent;
    hide ParseNumber, IsLooseNumeral, EndsNumber, Signed, AfterZero, IsDigit, At;
    ParseThreeParts(n, rest);
    ParseParts(n.minus, FromInteger(n, rest), Whole(n), FromFraction(n, rest), Magnitude(n), |n.fraction|,
               FromExponent(n, rest), Power(n), rest);
  }

  /** A numeral parses to its value. */
  lemma ParseNumeral(n: Numeral, rest: string)
    requires IsLooseNumeral(n) && EndsNumber(n, rest)
    ensures var s := NumeralText(n) + rest;
            (At(s, 0) == '-' || IsDigit(At(s, 0))) && ParseNumber(s) == (NumeralValue(n), rest)
  {
    hide Magnitude, DigitsValue, FromInteger, ParseNumber, NumeralText, Signed, EndsNumber, IsDigit, IsLooseExponent;
    NumeralPieces(n, rest);
    NumeralDigits(n);
    ParsePieces(n, rest);
  }

  // ----- Documents are read -----

  lemma SkipWhite(t: string, rest: string)
    requires IsBlanks(t)
    ensures Skip(t + rest) == Skip(rest)
  {
    SkipBlanks(t, rest);
  }

  lemma SkipMark(s: string)
    requires s != "" && s[0] as nat > 32
    ensures Skip(s) == s
  {
  }

  /** A value starts with a character that is neither a blank nor a closing bracket. */
  lemma SourceStart(d: Document)
    requires IsLoose(d)
    ensures var t := Source(d); t != "" && t[0] as nat > 32 && t[0] != ']'
  {
  }

  lemma SkipNothing(d: Document, rest: string)
    requires IsLoose(d)
    ensures Skip(Source(d) + rest) == Source(d) + rest
  {
    SourceStart(d);
    hide Source;
    assert (Source(d) + rest)[0] == Source(d)[0];
  }

  lemma StopsNumber(after: string, rest: string)
    requires IsBlanks(after) && rest != "" && (rest[0] == ',' || rest[0] == ']' || rest[0] == '}')
    ensures !ContinuesNumber(after + rest) && At(after + rest, 0) != '+' && At(after + rest, 0) != '-'
  {
    assert after == "" ==> after + rest == rest;
    assert after != "" ==> (after + rest)[0] == after[0];
  }

  lemma {:induction false} ParseSource(d: Document, rest: string)
    requires IsLoose(d) && (d.Numeric? ==> EndsNumber(d.numeral, rest))
    ensures ParseValue(Source(d) + rest) == Read(Meaning(d), rest)
    decreases d, 1
  {
    var s := Source(d) + rest;
    match d
    case NullWord => assert s[..4] == "null" && s[4..] == rest;
    case FalseWord => assert s[..5] == "false" && s[0] == 'f' && s[5..] == rest;
    case TrueWord => assert s[..4] == "true" && s[0] == 't' && s[4..] == rest;
    case Numeric(n) => hide ParseNumber, NumeralValue; ParseNumeral(n, rest);
    case Textual(us) => hide ParseString, UnitsValue; ParseLiteral(us, rest); assert s[0] == '\"';
    case List(_, _) => hide ParseArray; ParseList(d, rest); assert s[0] == '[';
    case Record(_, _) => hide ParseObject; ParseRecord(d, rest); assert s[0] == '{';
  }

  lemma {:induction false} ParseList(d: Document, rest: string)
    requires d.List? && IsLoose(d)
    ensures ParseArray(Source(d) + rest) == Read(Meaning(d), rest)
    decreases d, 0
  {
    hide ElementsSource, ElementsMeaning, ParseItems, Skip, Source;
    var List(blank, elements) := d;
    var s := Source(d) + rest;
    var inside := ElementsSource(elements) + ("]" + rest);
    ListSource(d);
    assert s == "[" + (blank + inside);
    assert s[0] == '[' && s[1..] == blank + inside;
    SkipWhite(blank, inside);
    if elements.NoElements? {
      NothingInside(rest);
      assert inside == "]" + rest;
    } else {
      ElementsStart(elements, "]" + rest);
      ParseElements(elements, "]" + rest);
      ParseItemsSkips(inside);
    }
  }

  lemma ListSource(d: Document)
    requires d.List?
    ensures Source(d) == "[" + d.blank + ElementsSource(d.elements) + "]"
    ensures d.elements.NoElements? ==> ElementsSource(d.elements) == ""
  {
  }

  lemma NothingInside(rest: string)
    ensures Skip("]" + rest) == "]" + rest && Skip("}" + rest) == "}" + rest
    ensures ("]" + rest)[1..] == rest && ("}" + rest)[1..] == rest
    ensures ElementsMeaning(NoElements) == Some(NoItems) && PairsMeaning(NoPairs) == Some(NoMembers)
  {
  }

  /** Elements piece by piece. */
  lemma ElementsStep(es: Elements, rest: string)
    requires es.Element?
    ensures var more := When(es.next.Element?, ",") + (ElementsSource(es.next) + rest);
            ElementsSource(es) + rest == es.before + (Source(es.value) + (es.after + more))
    ensures es.next.NoElements? ==> ElementsSource(es.next) + rest == rest
  {
    hide Source;
  }

  lemma ElementsAlone(es: Elements)
    requires es.Element?
    ensures var more := es.after + (When(es.next.Element?, ",") + ElementsSource(es.next));
            ElementsSource(es) == es.before + (Source(es.value) + more)
  {
    ElementsStep(es, "");
    hide ElementsSource, Source;
    assert ElementsSource(es) + "" == ElementsSource(es) && ElementsSource(es.next) + "" == ElementsSource(es.next);
  }

  lemma ElementsStart(es: Elements, rest: string)
    requires es.Element? && AreLooseElements(es)
    ensures At(Skip(ElementsSource(es) + rest), 0) != ']'
  {
    var more := es.after + (When(es.next.Element?, ",") + (ElementsSource(es.next) + rest));
    ElementsStep(es, rest);
    SkipWhite(es.before, Source(es.value) + more);
    SkipNothing(es.value, more);
    SourceStart(es.value);
    hide ElementsSource, Source, Skip;
    assert (Source(es.value) + more)[0] == Source(es.value)[0];
  }

  lemma {:induction false} ParseElements(es: Elements, rest: string)
    requires es.Element? && AreLooseElements(es) && At(rest, 0) == ']'
    ensures ParseItems(ElementsSource(es) + rest) == Read(ElementsMeaning(es), rest)
    decreases es, 0
  {
    var tail := ElementsSource(es.next) + rest;
    var more := When(es.next.Element?, ",") + tail;
    var afterValue := es.after + more;
    ElementsStep(es, rest);
    assert more[0] == if es.next.Element? then ',' else ']';
    StopsNumber(es.after, more);
    ParseSource(es.value, afterValue);
    hide ParseValue, Source, Skip, Meaning, ElementsSource, ContinuesNumber, IsLoose;
    SkipWhite(es.before, Source(es.value) + afterValue);
    SkipNothing(es.value, afterValue);
    SkipWhite(es.after, more);
    SkipMark(more);
    if es.next.Element? {
      assert more[1..] == tail;
      ParseElements(es.next, rest);
    } else {
      assert more == rest;
    }
  }

  lemma {:induction false} ParseRecord(d: Document, rest: string)
    requires d.Record? && IsLoose(d)
    ensures ParseObject(Source(d) + rest) == Read(Meaning(d), rest)
    decreases d, 0
  {
    hide PairsSource, PairsMeaning, ParseMembers, Skip, Source;
    var Record(blank, pairs) := d;
    var s := Source(d) + rest;
    var inside := PairsSource(pairs) + ("}" + rest);
    RecordSource(d);
    assert s == "{" + (blank + inside);
    assert s[0] == '{' && s[1..] == blank + inside;
    SkipWhite(blank, inside);
    if pairs.NoPairs? {
      NothingInside(rest);
      assert inside == "}" + rest;
    } else {
      PairsStart(pairs, "}" + rest);
      ParsePairs(pairs, "}" + rest);
      ParseMembersSkips(inside);
    }
  }

  lemma RecordSource(d: Document)
    requires d.Record?
    ensures Source(d) == "{" + d.blank + PairsSource(d.pairs) + "}"
    ensures d.pairs.NoPairs? ==> PairsSource(d.pairs) == ""
  {
  }

  /** Pairs piece by piece. */
  lemma PairsStep(ps: Pairs, rest: string)
    requires ps.Pair?
    ensures var more := When(ps.next.Pair?, ",") + (PairsSource(ps.next) + rest);
            var colon := ":" + (ps.beforeValue + (Source(ps.value) + (ps.after + more)));
            PairsSource(ps) + rest == ps.before + (Literal(ps.name) + (ps.afterName + colon))
    ensures ps.next.NoPairs? ==> PairsSource(ps.next) + rest == rest
  {
    hide Source, Literal;
    var Pair(before, name, afterName, beforeValue, value, after, next) := ps;
    var comma, last := When(next.Pair?, ","), PairsSource(next) + rest;
    var toName := before + Literal(name);
    var toColon := toName + afterName;
    var toBlank := toColon + ":";
    var toValue := toBlank + beforeValue + Source(value);
    Associates(toValue + after + comma, PairsSource(next), rest);
    Associates(toValue + after, comma, last);
    Associates(toValue, after, comma + last);
    Associates(toBlank + beforeValue, Source(value), after + (comma + last));
    var fromValue := Source(value) + (after + (comma + last));
    Associates(toBlank, beforeValue, fromValue);
    Associates(toColon, ":", beforeValue + fromValue);
    Associates(toName, afterName, ":" + (beforeValue + fromValue));
    Associates(before, Literal(name), afterName + (":" + (beforeValue + fromValue)));
  }

  lemma PairsAlone(ps: Pairs)
    requires ps.Pair?
    ensures var more := ps.after + (When(ps.next.Pair?, ",") + PairsSource(ps.next));
            PairsSource(ps)
            == ps.before + (Literal(ps.name) + (ps.afterName + (":" + (ps.beforeValue + (Source(ps.value) + more)))))
  {
    PairsStep(ps, "");
    hide PairsSource, Literal, Source;
    assert PairsSource(ps) + "" == PairsSource(ps) && PairsSource(ps.next) + "" == PairsSource(ps.next);
  }

  lemma PairsStart(ps: Pairs, rest: string)
    requires ps.Pair? && AreLoosePairs(ps)
    ensures At(Skip(PairsSource(ps) + rest), 0) == '\"'
  {
    hide Source, UnitsText;
    var more := When(ps.next.Pair?, ",") + (PairsSource(ps.next) + rest);
    var named := Literal(ps.name) + (ps.afterName + (":" + (ps.beforeValue + (Source(ps.value) + (ps.after + more)))));
    PairsStep(ps, rest);
    SkipWhite(ps.before, named);
    assert named[0] == '\"';
    SkipMark(named);
  }

  /** One member, up to its value. */
  lemma ParsePair(ps: Pairs, afterValue: string)
    requires ps.Pair? && AreLoosePairs(ps)
    requires ParseValue(Source(ps.value) + afterValue) == Read(Meaning(ps.value), afterValue)
    ensures var colon := ":" + (ps.beforeValue + (Source(ps.value) + afterValue));
            var text, value := UnitsValue(ps.name), Meaning(ps.value);
            ParseMember(ps.before + (Literal(ps.name) + (ps.afterName + colon)))
            == if text.Some? && value.Some? then Parsed((text.value, value.value, Skip(afterValue))) else Rejected
  {
    hide ParseValue, ParseString, Source, UnitsText, UnitsValue, Meaning, Skip, IsLoose, AreLooseUnits;
    var value := Source(ps.value) + afterValue;
    var colon := ":" + (ps.beforeValue + value);
    var named := Literal(ps.name) + (ps.afterName + colon);
    SkipWhite(ps.before, named);
    assert named[0] == '\"';
    SkipMark(named);
    ParseLiteral(ps.name, ps.afterName + colon);
    SkipWhite(ps.afterName, colon);
    SkipMark(colon);
    assert colon[0] == ':' && colon[1..] == ps.beforeValue + value;
    SkipWhite(ps.beforeValue, value);
    SkipNothing(ps.value, afterValue);
  }

  lemma {:induction false} ParsePairs(ps: Pairs, rest: string)
    requires ps.Pair? && AreLoosePairs(ps) && At(rest, 0) == '}'
    ensures ParseMembers(PairsSource(ps) + rest) == Read(PairsMeaning(ps), rest)
    decreases ps, 0
  {
    var tail := PairsSource(ps.next) + rest;
    var more := When(ps.next.Pair?, ",") + tail;
    PairsStep(ps, rest);
    assert more[0] == if ps.next.Pair? then ',' else '}';
    StopsNumber(ps.after, more);
    ParseSource(ps.value, ps.after + more);
    hide ParseValue, ParseMember, Source, Literal, Skip, Meaning, UnitsValue, PairsSource, ContinuesNumber, IsLoose;
    ParsePair(ps, ps.after + more);
    SkipWhite(ps.after, more);
    SkipMark(more);
    if ps.next.Pair? {
      assert more[1..] == tail;
      ParsePairs(ps.next, rest);
    } else {
      assert more == rest;
    }
  }

  lemma BlankStopsNumber(after: string)
    requires IsBlanks(after)
    ensures !ContinuesNumber(after) && At(after, 0) != '+' && At(after, 0) != '-'
  {
  }

  lemma SkipEmpty()
    ensures Skip("") == ""
  {
  }

  /**
    Whatever the parser takes for a document, with any blanks around it and inside, any
    escapes and any spelling of its numbers, is accepted as a whole with its meaning; one
    that has no meaning is rejected.
  */
  lemma ParseLoose(d: Document, before: string, after: string)
    requires IsLoose(d) && IsBlanks(before) && IsBlanks(after)
    ensures Parse(before + Source(d) + after, true) == Read(Meaning(d), "")
    ensures Parse(before + Source(d) + after, false) == Read(Meaning(d), after)
  {
    hide Source, ParseValue, Meaning, Skip, IsLoose;
    var text := Source(d) + after;
    assert before + Source(d) + after == before + text;
    SkipWhite(before, text);
    SkipNothing(d, after);
    BlankStopsNumber(after);
    ParseSource(d, after);
    SkipWhite(after, "");
    assert after + "" == after;
    SkipEmpty();
  }

  /** In particular every document of the grammar. */
  lemma ParseDocument(d: Document, before: string, after: string)
    requires IsDocument(d) && IsWhite(before) && IsWhite(after)
    ensures IsLoose(d)
    ensures Parse(before + Source(d) + after, true) == Read(Meaning(d), "")
    ensures Parse(before + Source(d) + after, false) == Read(Meaning(d), after)
  {
    DocumentIsLoose(d);
    hide Source, Parse, Meaning, IsLoose;
    ParseLoose(d, before, after);
  }
}
