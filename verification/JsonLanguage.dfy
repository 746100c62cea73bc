/**
  The language of the parser.  What it accepts is the text of one of its documents, with
  blanks around it, and it returns the meaning of that document; the one exception is a
  string that the text ends in, whose closing quote may be missing.
*/
module JsonLanguage {
  import opened CText
  import opened Decimal
  import opened JsonGrammar
  import opened JsonParse
  import opened JsonRoundTrip
  import opened JsonString
  import opened JsonText
  import opened Wrappers

  lemma Halves(s: string, k: nat)
    requires k <= |s|
    ensures s == s[..k] + s[k..]
  {
  }

  lemma HeadTail(s: string)
    requires s != ""
    ensures s == [s[0]] + s[1..]
  {
  }

  lemma TailIsCString(a: string, b: string)
    requires IsCString(a + b)
    ensures IsCString(b)
  {
    assert (a + b)[|a|..] == b;
  }

  lemma OneMoreBlank(c: char, more: string)
    requires IsBlank(c) && IsBlanks(more)
    ensures IsBlanks([c] + more)
  {
  }

  lemma SkipStep(s: string)
    ensures Skip(s) == if s != "" && IsBlank(s[0]) then Skip(s[1..]) else s
  {
  }

  lemma {:induction false} SkippedBlanks(s: string) returns (blanks: string)
    ensures s == blanks + Skip(s) && IsBlanks(blanks)
    decreases |s|
  {
    SkipStep(s);
    hide Skip;
    blanks := "";
    if s != "" && IsBlank(s[0]) {
      var more := SkippedBlanks(s[1..]);
      blanks := [s[0]] + more;
      OneMoreBlank(s[0], more);
      hide IsBlanks, IsBlank;
      HeadTail(s);
      Associates([s[0]], more, Skip(s[1..]));
    } else {
      assert blanks + s == s;
    }
  }

  lemma SkipIs(s: string) returns (blanks: string)
    ensures s == blanks + Skip(s) && IsBlanks(blanks)
    ensures IsCString(s) ==> IsCString(Skip(s))
  {
    hide Skip, IsBlanks, IsCString;
    blanks := SkippedBlanks(s);
    if IsCString(s) { TailIsCString(blanks, Skip(s)); }
  }

  // ----- Strings -----

  /** The hexadecimal digits of an escape that is not rejected. */
  lemma HexOf(t: string)
    requires ParseHex4(t) != 0
    ensures |t| >= 4 && IsLooseUnit(Hex(t[..4]))
  {
  }

  lemma HexAfter(lit: string)
    requires |lit| > 1 && lit[0] == '\\' && lit[1] == 'u'
    requires DecodeUnit(lit).Some? && DecodeUnit(lit).value.1 != 6
    ensures DecodeUnit(lit).value.1 == 12 && |lit| >= 12 && lit[6] == '\\' && lit[7] == 'u'
    ensures IsLooseUnit(Hex(lit[8..12]))
  {
    HexOf(Drop(lit, 8));
    assert Drop(lit, 8)[..4] == lit[8..12];
  }

  lemma HexFirst(lit: string)
    requires |lit| > 1 && lit[0] == '\\' && lit[1] == 'u' && DecodeUnit(lit).Some?
    ensures |lit| >= 6 && IsLooseUnit(Hex(lit[2..6]))
  {
    HexOf(Drop(lit, 2));
    assert Drop(lit, 2)[..4] == lit[2..6];
  }

  lemma OneUnit(x: Unit)
    ensures UnitsText([x]) == UnitText(x)
  {
    hide UnitText;
    assert [x][1..] == [];
  }

  lemma TwoUnits(x: Unit, y: Unit)
    ensures UnitsText([x, y]) == UnitText(x) + UnitText(y)
  {
    hide UnitText;
    OneUnit(y);
    assert [x, y][1..] == [y];
  }

  lemma FirstCodeUnits(t: string, lit: string) returns (us: seq<Unit>)
    requires lit <= t && |lit| > 1 && lit[0] == '\\' && lit[1] == 'u' && DecodeUnit(lit).Some?
    ensures var n := DecodeUnit(lit).value.1;
            us != [] && AreLooseUnits(us) && n <= |t| && UnitsText(us) == t[..n]
  {
    HexFirst(lit);
    var high := Hex(lit[2..6]);
    if DecodeUnit(lit).value.1 == 6 {
      hide DecodeUnit, IsLooseUnit;
      us := [high];
      OneUnit(high);
      assert UnitText(high) == lit[..6];
    } else {
      HexAfter(lit);
      hide DecodeUnit, IsLooseUnit;
      var low := Hex(lit[8..12]);
      us := [high, low];
      TwoUnits(high, low);
      assert UnitText(high) == lit[..6] && UnitText(low) == lit[6..12];
    }
  }

  /** The unit, or the two halves of a surrogate pair, that a literal's body starts with. */
  lemma FirstUnits(t: string) returns (us: seq<Unit>)
    requires IsCString(t) && BodyLength(t) <= |t| && Take(t, BodyLength(t)) != ""
    requires DecodeUnit(Take(t, BodyLength(t))).Some?
    ensures var n := DecodeUnit(Take(t, BodyLength(t))).value.1;
            us != [] && AreLooseUnits(us) && n <= |t| && UnitsText(us) == t[..n]
  {
    var lit := Take(t, BodyLength(t));
    assert forall i | 0 <= i < |lit| :: lit[i] == t[i];
    if lit[0] != '\\' {
      us := [Raw(t[0])];
      assert us[1..] == [] && UnitsText(us) == t[..1];
    } else if lit[1] != 'u' {
      us := [Short(t[1])];
      assert us[1..] == [] && UnitsText(us) == t[..2];
    } else {
      us := FirstCodeUnits(t, lit);
    }
  }

  lemma {:induction false} UnitsConcat(a: seq<Unit>, b: seq<Unit>)
    ensures UnitsText(a + b) == UnitsText(a) + UnitsText(b)
    decreases |a|
  {
    hide UnitText;
    if a == [] {
      assert a + b == b;
    } else {
      assert (a + b)[1..] == a[1..] + b;
      UnitsConcat(a[1..], b);
    }
  }

  lemma TakeInTwo(t: string, n: nat, k: nat)
    requires n + k <= |t|
    ensures Take(t, n + k) == t[..n] + Take(Drop(t, n), k)
  {
  }

  /** The units of a body that can be decoded. */
  lemma {:induction false} UnitsOf(t: string) returns (us: seq<Unit>)
    requires IsCString(t) && BodyLength(t) <= |t| && Decode(Take(t, BodyLength(t))).Some?
    ensures AreLooseUnits(us) && UnitsText(us) == Take(t, BodyLength(t))
    decreases |t|
  {
    us := [];
    var lit := Take(t, BodyLength(t));
    if lit != "" {
      var first := FirstUnits(t);
      DecodeUnitFits(t);
      var n := DecodeUnit(lit).value.1;
      TakeDrop(t, n);
      hide DecodeUnit, BodyLength, IsLooseUnit;
      var rest := Drop(t, n);
      hide Decode, UnitsText;
      var more := UnitsOf(rest);
      us := first + more;
      UnitsConcat(first, more);
      TakeInTwo(t, n, BodyLength(rest));
    }
  }

  lemma BodyStep(t: string, k: nat)
    requires t != "" && t[0] != '\"' && t[0] != NUL && k == if t[0] == '\\' then 2 else 1
    ensures BodyLength(t) == k + BodyLength(Drop(t, k))
  {
  }

  lemma DropDrop(t: string, k: nat, n: nat)
    requires k + n <= |t|
    ensures Drop(Drop(t, k), n) == Drop(t, k + n)
  {
  }

  lemma DropIsCString(t: string, k: nat)
    requires IsCString(t)
    ensures IsCString(Drop(t, k))
  {
  }

  /** A body ends at a quote, or with the text. */
  lemma {:induction false} BodyEnds(t: string)
    requires IsCString(t) && BodyLength(t) <= |t|
    ensures At(Drop(t, BodyLength(t)), 0) == '\"' || Drop(t, BodyLength(t)) == ""
    decreases |t|
  {
    if t == "" || t[0] == '\"' {
      assert BodyLength(t) == 0 && Drop(t, 0) == t;
    } else {
      var k := if t[0] == '\\' then 2 else 1;
      BodyStep(t, k);
      DropIsCString(t, k);
      hide BodyLength;
      BodyEnds(Drop(t, k));
      DropDrop(t, k, BodyLength(Drop(t, k)));
    }
  }

  /** The text behind a body, with its closing quote or without. */
  lemma AroundBody(s: string, body: string, tail: string)
    requires s == "\"" + (body + tail) && (tail == "" || tail[0] == '\"')
    ensures if tail == "" then s + "\"" == "\"" + body + "\"" else s == "\"" + body + "\"" + tail[1..]
  {
    if tail != "" {
      assert tail == "\"" + tail[1..];
    }
  }

  /** How a literal was accepted. */
  lemma LiteralParts(s: string)
    requires ParseString(s).Parsed?
    ensures var t := s[1..];
            var body, tail := Take(t, BodyLength(t)), Drop(t, BodyLength(t));
            && s[0] == '\"' && BodyLength(t) <= |t| && t == body + tail
            && Decode(body) == Some(ParseString(s).value.0)
            && ParseString(s).value.1 == if At(tail, 0) == '\"' then tail[1..] else tail
  {
    hide BodyLength, Decode;
  }

  /** An accepted literal; without its closing quote it is all there is. */
  lemma LiteralOf(s: string) returns (us: seq<Unit>, closed: bool)
    requires IsCString(s) && ParseString(s).Parsed?
    ensures var (text, rest) := ParseString(s).value;
            && AreLooseUnits(us) && UnitsValue(us) == Some(text) && IsCString(rest)
            && if closed then s == Literal(us) + rest else rest == "" && s + "\"" == Literal(us)
  {
    hide BodyLength, Decode, UnitsText, UnitsValue, IsLooseUnit, ParseString, Take, Drop, IsCString;
    LiteralParts(s);
    var t := s[1..];
    var n := BodyLength(t);
    var body, tail := Take(t, n), Drop(t, n);
    assert s == "\"" + t;
    TailIsCString("\"", t);
    us := UnitsOf(t);
    DecodeUnits(us);
    BodyEnds(t);
    closed := tail != "";
    AroundBody(s, body, tail);
    TailIsCString(body, tail);
    if closed {
      assert tail == "\"" + tail[1..];
      TailIsCString("\"", tail[1..]);
    }
  }

  // ----- Numbers -----

  lemma IntegerOf(s: string) returns (integer: string)
    ensures var (n, rest) := ParseInteger(AfterZero(s));
            && AllDigits(integer) && (|integer| > 1 && integer[0] == '0' ==> integer[1] != '0')
            && s == integer + rest && DigitsValue(integer) == n && (integer == "" ==> !IsDigit(At(s, 0)))
  {
    var t := AfterZero(s);
    var digits := if '1' <= At(t, 0) <= '9' then t[..DigitRun(t)] else "";
    assert t == digits + ParseInteger(t).1;
    assert digits != "" ==> digits[0] == t[0];
    integer := (if At(s, 0) == '0' then "0" else "") + digits;
    if At(s, 0) == '0' {
      assert integer[1..] == digits && s == "0" + t;
      assert DigitsValue(integer) == Accumulate(0, digits);
    } else {
      assert integer == digits && s == t;
    }
  }

  lemma FractionOf(n: nat, s: string) returns (fraction: string)
    ensures var (m, places, rest) := ParseFraction(n, s);
            && AllDigits(fraction) && s == FractionText(fraction) + rest
            && Accumulate(n, fraction) == m && |fraction| == places
  {
    fraction := "";
    if At(s, 0) == '.' && IsDigit(At(s, 1)) {
      var t := s[1..];
      fraction := t[..DigitRun(t)];
      assert t == fraction + t[DigitRun(t)..] && s == "." + t && t[0] == s[1];
    }
  }

  lemma SignOf(t: string) returns (sign: string, u: string)
    ensures sign == "" || sign == "+" || sign == "-"
    ensures t == sign + u && u == if At(t, 0) == '+' || At(t, 0) == '-' then t[1..] else t
    ensures sign == "-" <==> At(t, 0) == '-'
  {
    sign, u := "", t;
    if At(t, 0) == '+' || At(t, 0) == '-' {
      sign, u := [t[0]], t[1..];
    }
  }

  lemma NoExponentOf(s: string)
    requires At(s, 0) != 'e' && At(s, 0) != 'E'
    ensures ParseExponent(s) == (0, s) && ExponentText(NoExponent) + s == s
  {
  }

  lemma ExponentIs(s: string, letter: char, sign: string, digits: string, rest: string)
    requires s == [letter] + (sign + (digits + rest))
    ensures s == ExponentText(Exponent(letter, sign, digits)) + rest
  {
    Associates([letter] + sign, digits, rest);
    Associates([letter], sign, digits + rest);
  }

  lemma ExponentValueIs(letter: char, sign: string, digits: string)
    requires (letter == 'e' || letter == 'E') && (sign == "" || sign == "+" || sign == "-") && AllDigits(digits)
    ensures var e := Exponent(letter, sign, digits);
            && IsLooseExponent(e)
            && ExponentValue(e) == if sign == "-" then 0 - DigitsValue(digits) else DigitsValue(digits)
  {
    hide DigitsValue;
  }

  lemma ExponentRead(s: string, t: string, sign: string, u: string, digits: string, rest: string)
    requires (At(s, 0) == 'e' || At(s, 0) == 'E') && s[1..] == t
    requires u == if At(t, 0) == '+' || At(t, 0) == '-' then t[1..] else t
    requires (sign == "" || sign == "+" || sign == "-") && (sign == "-" <==> At(t, 0) == '-')
    requires AllDigits(digits) && DigitRun(u) == |digits| && u[..|digits|] == digits && u[|digits|..] == rest
    ensures IsLooseExponent(Exponent(s[0], sign, digits))
    ensures ParseExponent(s) == (ExponentValue(Exponent(s[0], sign, digits)), rest)
  {
    hide DigitRun, DigitsValue, ParseExponent, ExponentValue;
    ExponentParts(s, t, u, digits, rest);
    ExponentValueIs(s[0], sign, digits);
  }

  lemma NoExponentIs()
    ensures IsLooseExponent(NoExponent) && ExponentValue(NoExponent) == 0
  {
  }

  lemma ExponentPresent(s: string) returns (e: Exponent)
    requires At(s, 0) == 'e' || At(s, 0) == 'E'
    ensures IsLooseExponent(e) && ExponentValue(e) == ParseExponent(s).0 && s == ExponentText(e) + ParseExponent(s).1
  {
    var sign, u := SignOf(s[1..]);
    var k := DigitRun(u);
    hide DigitRun, DigitsValue, ParseExponent, ExponentText, ExponentValue, IsLooseExponent, AllDigits;
    e := Exponent(s[0], sign, u[..k]);
    HeadTail(s);
    Halves(u, k);
    ExponentIs(s, s[0], sign, u[..k], u[k..]);
    ExponentRead(s, s[1..], sign, u, u[..k], u[k..]);
  }

  lemma ExponentOf(s: string) returns (e: Exponent)
    ensures IsLooseExponent(e) && ExponentValue(e) == ParseExponent(s).0 && s == ExponentText(e) + ParseExponent(s).1
  {
    hide ParseExponent, ExponentText, ExponentValue, IsLooseExponent;
    if At(s, 0) == 'e' || At(s, 0) == 'E' {
      e := ExponentPresent(s);
    } else {
      e := NoExponent;
      NoExponentOf(s);
      NoExponentIs();
    }
  }

  /** An accepted number. */
  lemma NumeralOf(s: string) returns (n: Numeral)
    requires At(s, 0) == '-' || IsDigit(At(s, 0))
    ensures var (v, rest) := ParseNumber(s);
            IsLooseNumeral(n) && NumeralValue(n) == v && s == NumeralText(n) + rest
  {
    hide ParseInteger, ParseFraction, ParseExponent, Accumulate, ExponentText, FractionText, ExponentValue;
    var minus := s[0] == '-';
    var afterSign := if minus then s[1..] else s;
    var integer := IntegerOf(afterSign);
    var (whole, afterInteger) := ParseInteger(AfterZero(afterSign));
    var fraction := FractionOf(whole, afterInteger);
    var (m, places, afterFraction) := ParseFraction(whole, afterInteger);
    var exponent := ExponentOf(afterFraction);
    n := Numeral(minus, integer, fraction, exponent);
    var rest := ParseExponent(afterFraction).1;
    NumeralDigits(n);
    NumeralPieces(n, rest);
    assert s == Signed(minus, FromInteger(n, rest));
  }

  // ----- Values -----

  /** The value is read from the document's text, or from all of the text but for a closing quote. */
  predicate IsRead(s: string, d: Document, closed: bool, v: Json, rest: string) {
    && IsLoose(d) && Meaning(d) == Some(v) && IsCString(rest)
    && if closed then s == Source(d) + rest else d.Textual? && rest == "" && s + "\"" == Source(d)
  }

  lemma WordOf(s: string) returns (d: Document)
    requires IsCString(s) && ("null" <= s || "false" <= s || "true" <= s)
    ensures ParseValue(s).Parsed? && IsRead(s, d, true, ParseValue(s).value.0, ParseValue(s).value.1)
  {
    d := if "null" <= s then NullWord else if "false" <= s then FalseWord else TrueWord;
    var n := if "false" <= s then 5 else 4;
    assert s == s[..n] + s[n..];
  }

  lemma {:induction false} ValueOf(s: string) returns (d: Document, closed: bool)
    requires IsCString(s) && ParseValue(s).Parsed?
    ensures IsRead(s, d, closed, ParseValue(s).value.0, ParseValue(s).value.1)
    decreases |s|, 3
  {
    hide ParseString, ParseNumber, ParseArray, ParseObject, NumeralValue, UnitsValue, UnitsText, IsLooseNumeral;
    closed := true;
    if "null" <= s || "false" <= s || "true" <= s {
      d := WordOf(s);
    } else if At(s, 0) == '\"' {
      var us: seq<Unit>;
      us, closed := LiteralOf(s);
      d := Textual(us);
    } else if At(s, 0) == '-' || IsDigit(At(s, 0)) {
      var n := NumeralOf(s);
      d := Numeric(n);
      TailIsCString(NumeralText(n), ParseNumber(s).1);
    } else if At(s, 0) == '[' {
      d := ListOf(s);
    } else {
      d := RecordOf(s);
    }
  }

  lemma BracketAround(s: string, open: string, blank: string, content: string, inside: string, close: string,
      rest: string, tail: string)
    requires s != "" && [s[0]] == open && s[1..] == blank + inside && inside == content + rest
    requires rest != "" && [rest[0]] == close && rest[1..] == tail
    ensures s == open + (blank + (content + (close + tail)))
  {
    assert rest == close + tail && s == open + s[1..];
  }

  lemma ListIsRead(blank: string, es: Elements, items: Items, rest: string)
    requires IsBlanks(blank) && AreLooseElements(es) && ElementsMeaning(es) == Some(items) && IsCString(rest)
    ensures IsRead("[" + (blank + (ElementsSource(es) + ("]" + rest))), List(blank, es), true, Array(items), rest)
  {
    hide ElementsSource, ElementsMeaning;
    var elements := ElementsSource(es);
    Associates("[" + blank + elements, "]", rest);
    Associates("[" + blank, elements, "]" + rest);
    Associates("[", blank, elements + ("]" + rest));
  }

  lemma NoElementsSource()
    ensures ElementsSource(NoElements) == "" && PairsSource(NoPairs) == ""
    ensures AreLooseElements(NoElements) && AreLoosePairs(NoPairs)
  {
  }

  lemma {:induction false} ListOf(s: string) returns (d: Document)
    requires IsCString(s) && ParseArray(s).Parsed?
    ensures d.List? && IsRead(s, d, true, ParseArray(s).value.0, ParseArray(s).value.1)
    decreases |s|, 2
  {
    var blank := SkipIs(s[1..]);
    var inside := Skip(s[1..]);
    var es, items, rest := NoElements, NoItems, inside;
    hide ParseItems, Skip, ElementsSource, ElementsMeaning, IsRead, AreLooseElements, AreLoosePairs;
    if At(inside, 0) == ']' {
      NothingInside("");
      NoElementsSource();
    } else {
      es := ElementsOf(inside);
      items, rest := ParseItems(inside).value.0, ParseItems(inside).value.1;
    }
    d := List(blank, es);
    var tail := rest[1..];
    BracketAround(s, "[", blank, ElementsSource(es), inside, "]", rest, tail);
    ListIsRead(blank, es, items, tail);
  }

  lemma {:induction false} ElementsOf(s: string) returns (es: Elements)
    requires IsCString(s) && ParseItems(s).Parsed? && ParseItems(s).value.1 != ""
    ensures var (items, rest) := ParseItems(s).value;
            && es.Element? && AreLooseElements(es) && ElementsMeaning(es) == Some(items)
            && s == ElementsSource(es) + rest && IsCString(rest)
    decreases |s|, 4
  {
    var before := SkipIs(s);
    var value := Skip(s);
    hide ParseValue, Source, Meaning, IsLoose, Skip;
    var (v, afterValue) := ParseValue(value).value;
    var d, closed := ValueOf(value);
    var after := SkipIs(afterValue);
    var rest := Skip(afterValue);
    assert closed by { if afterValue == "" { SkipEmpty(); } }
    if At(rest, 0) == ',' {
      var next := ElementsOf(rest[1..]);
      es := Element(before, d, after, next);
      assert rest == "," + rest[1..];
    } else {
      es := Element(before, d, after, NoElements);
    }
    ElementsStep(es, ParseItems(s).value.1);
  }

  lemma RecordIsRead(blank: string, ps: Pairs, members: Members, rest: string)
    requires IsBlanks(blank) && AreLoosePairs(ps) && PairsMeaning(ps) == Some(members) && IsCString(rest)
    ensures IsRead("{" + (blank + (PairsSource(ps) + ("}" + rest))), Record(blank, ps), true, Object(members), rest)
  {
    hide PairsSource, PairsMeaning;
    var pairs := PairsSource(ps);
    Associates("{" + blank + pairs, "}", rest);
    Associates("{" + blank, pairs, "}" + rest);
    Associates("{", blank, pairs + ("}" + rest));
  }

  lemma {:induction false} RecordOf(s: string) returns (d: Document)
    requires IsCString(s) && ParseObject(s).Parsed?
    ensures d.Record? && IsRead(s, d, true, ParseObject(s).value.0, ParseObject(s).value.1)
    decreases |s|, 2
  {
    var blank := SkipIs(s[1..]);
    var inside := Skip(s[1..]);
    var ps, members, rest := NoPairs, NoMembers, inside;
    hide ParseMembers, Skip, PairsSource, PairsMeaning, IsRead, AreLoosePairs, AreLooseElements;
    if At(inside, 0) == '}' {
      NothingInside("");
      NoElementsSource();
    } else {
      ps := PairsOf(inside);
      members, rest := ParseMembers(inside).value.0, ParseMembers(inside).value.1;
    }
    d := Record(blank, ps);
    var tail := rest[1..];
    BracketAround(s, "{", blank, PairsSource(ps), inside, "}", rest, tail);
    RecordIsRead(blank, ps, members, tail);
  }

  /** A member, as the only one of its list. */
  lemma {:induction false} PairOf(s: string) returns (p: Pairs)
    requires IsCString(s) && ParseMember(s).Parsed? && ParseMember(s).value.2 != ""
    ensures var (name, v, rest) := ParseMember(s).value;
            && p.Pair? && p.next.NoPairs? && AreLoosePairs(p) && IsCString(rest)
            && UnitsValue(p.name) == Some(name) && Meaning(p.value) == Some(v)
            && var colon := ":" + (p.beforeValue + (Source(p.value) + (p.after + rest)));
            s == p.before + (Literal(p.name) + (p.afterName + colon))
    decreases |s|, 4
  {
    hide ParseValue, ParseString, Source, UnitsText, UnitsValue, Meaning, IsLoose, Skip, IsLooseUnit;
    var before := SkipIs(s);
    var (text, afterText) := ParseString(Skip(s)).value;
    var name, named := LiteralOf(Skip(s));
    var afterName := SkipIs(afterText);
    var colon := Skip(afterText);
    assert named by { if afterText == "" { SkipEmpty(); } }
    var beforeValue := SkipIs(colon[1..]);
    var (v, afterValue) := ParseValue(Skip(colon[1..])).value;
    var d, closed := ValueOf(Skip(colon[1..]));
    var after := SkipIs(afterValue);
    assert closed by { if afterValue == "" { SkipEmpty(); } }
    p := Pair(before, name, afterName, beforeValue, d, after, NoPairs);
    assert colon == ":" + colon[1..];
  }

  lemma {:induction false} PairsOf(s: string) returns (ps: Pairs)
    requires IsCString(s) && ParseMembers(s).Parsed? && ParseMembers(s).value.1 != ""
    ensures var (members, rest) := ParseMembers(s).value;
            && ps.Pair? && AreLoosePairs(ps) && PairsMeaning(ps) == Some(members)
            && s == PairsSource(ps) + rest && IsCString(rest)
    decreases |s|, 5
  {
    hide ParseMember, Source, Literal, UnitsValue, Meaning, IsLoose, IsLooseUnit;
    var p := PairOf(s);
    var rest := ParseMember(s).value.2;
    if rest[0] == ',' {
      var next := PairsOf(rest[1..]);
      ps := p.(next := next);
      assert rest == "," + rest[1..];
    } else {
      ps := p;
    }
    PairsStep(ps, ParseMembers(s).value.1);
  }

  // ----- Texts -----

  /** The text is that of the document, with blanks before it; a string at its end may lack its closing quote. */
  predicate IsTextOf(s: string, before: string, d: Document, after: string) {
    && IsBlanks(before)
    && (s == before + Source(d) + after || (d.Textual? && after == "" && s + "\"" == before + Source(d)))
  }

  /** What the parser accepts is a text of one of its documents, and the result is its meaning. */
  lemma AcceptedText(s: string, requireEnd: bool) returns (before: string, d: Document, after: string)
    requires IsCString(s) && Parse(s, requireEnd).Parsed?
    ensures var (v, rest) := Parse(s, requireEnd).value;
            && IsLoose(d) && Meaning(d) == Some(v) && IsTextOf(s, before, d, after)
            && if requireEnd then IsBlanks(after) && rest == "" else rest == after
  {
    hide ParseValue, Skip, Source, Meaning, IsLoose;
    before := SkipIs(s);
    var closed;
    d, closed := ValueOf(Skip(s));
    after := ParseValue(Skip(s)).value.1;
    if requireEnd {
      var blanks := SkipIs(after);
      assert blanks + "" == blanks;
    }
    if closed {
      assert s == before + Source(d) + after;
    } else {
      assert s + "\"" == before + Source(d);
    }
  }

  lemma OpenLiteral(us: seq<Unit>)
    requires AreLooseUnits(us)
    ensures ParseString("\"" + UnitsText(us)) == Read(UnitsValue(us), "")
  {
    OpenBody(us);
    DecodeUnits(us);
    hide UnitsText, UnitsValue, Decode, BodyLength;
    var text, body := "\"" + UnitsText(us), UnitsText(us);
    assert text[0] == '\"' && text[1..] == body;
    assert Take(body, |body|) == body && Drop(body, |body|) == "";
  }

  lemma {:induction false} OpenBody(us: seq<Unit>)
    requires AreLooseUnits(us)
    ensures BodyLength(UnitsText(us)) == |UnitsText(us)|
  {
    if us != [] {
      hide BodyLength, UnitText, IsLooseUnit;
      UnitIsBody(us[0], UnitsText(us[1..]));
      OpenBody(us[1..]);
    }
  }

  lemma DropLast(s: string, t: string)
    requires s + "\"" == t + "\""
    ensures s == t
  {
    assert (s + "\"")[..|s|] == s && (t + "\"")[..|t|] == t;
  }

  lemma ParseOpen(d: Document, before: string, s: string)
    requires d.Textual? && IsLoose(d) && IsBlanks(before) && s + "\"" == before + Source(d)
    ensures Parse(s, true) == Read(Meaning(d), "")
  {
    OpenLiteral(d.units);
    hide UnitsText, UnitsValue, ParseString, Skip;
    var text := "\"" + UnitsText(d.units);
    assert Source(d) == text + "\"";
    Associates(before, text, "\"");
    DropLast(s, before + text);
    SkipWhite(before, text);
    SkipMark(text);
    SkipEmpty();
    assert text[0] == '\"' && !("null" <= text) && !("false" <= text) && !("true" <= text);
  }

  /**
    The language of the parser: for every C string, with the end required, the result is a
    tree exactly when the text is that of a document with this meaning, blanks around it.
  */
  lemma Language(s: string, v: Json)
    requires IsCString(s)
    ensures Parse(s, true) == Parsed((v, ""))
       <==> exists before, d, after ::
              IsTextOf(s, before, d, after) && IsBlanks(after) && IsLoose(d) && Meaning(d) == Some(v)
  {
    hide Parse, Source, Meaning, IsLoose;
    if Parse(s, true) == Parsed((v, "")) {
      var before, d, after := AcceptedText(s, true);
      assert IsTextOf(s, before, d, after);
    }
    forall before, d, after | IsTextOf(s, before, d, after) && IsBlanks(after) && IsLoose(d) && Meaning(d) == Some(v)
      ensures Parse(s, true) == Parsed((v, ""))
    {
      if s == before + Source(d) + after {
        ParseLoose(d, before, after);
      } else {
        ParseOpen(d, before, s);
      }
    }
  }

  // ----- Texts that are cut off -----

  lemma {:induction false} UnitsAreCString(us: seq<Unit>)
    requires AreLooseUnits(us)
    ensures IsCString(UnitsText(us))
  {
    if us != [] {
      UnitsAreCString(us[1..]);
      assert IsCString(UnitText(us[0])) by {
        assert IsLooseUnit(us[0]);
        assert us[0].Hex? ==> forall i | 0 <= i < 4 :: us[0].digits[i] != NUL;
      }
    }
  }

  lemma NumeralIsCString(n: Numeral)
    requires IsLooseNumeral(n)
    ensures IsCString(NumeralText(n))
  {
    assert NUL !in n.integer && NUL !in n.fraction && (n.exponent.Exponent? ==> NUL !in n.exponent.digits);
  }

  /** A document's text can be held by a C string. */
  lemma {:induction false} SourceIsCString(d: Document)
    requires IsLoose(d)
    ensures IsCString(Source(d))
    decreases d, 1
  {
    match d
    case Numeric(n) => NumeralIsCString(n);
    case Textual(us) => UnitsAreCString(us);
    case List(_, elements) => ElementsAreCString(elements);
    case Record(_, pairs) => PairsAreCString(pairs);
    case _ =>
  }

  lemma {:induction false} ElementsAreCString(es: Elements)
    requires AreLooseElements(es)
    ensures IsCString(ElementsSource(es))
    decreases es, 0
  {
    if es.Element? {
      SourceIsCString(es.value);
      ElementsAreCString(es.next);
    }
  }

  lemma {:induction false} PairsAreCString(ps: Pairs)
    requires AreLoosePairs(ps)
    ensures IsCString(PairsSource(ps))
    decreases ps, 0
  {
    if ps.Pair? {
      UnitsAreCString(ps.name);
      SourceIsCString(ps.value);
      PairsAreCString(ps.next);
      assert IsCString(Literal(ps.name));
      hide Source, Literal, IsLoose, AreLooseUnits, AreLoosePairs;
      assert IsCString(ps.before) && IsCString(ps.afterName) && IsCString(ps.beforeValue) && IsCString(ps.after);
    }
  }

  lemma PrefixIsCString(s: string, n: nat)
    requires IsCString(s) && n <= |s|
    ensures IsCString(s[..n])
  {
  }

  /** Only arrays and objects start with their brackets. */
  lemma BracketFirst(d: Document)
    requires IsLoose(d)
    ensures Source(d) != "" && (Source(d)[0] == '[' || Source(d)[0] == '{' <==> d.List? || d.Record?)
  {
  }

  lemma ReadFromBracket(s: string, d: Document, closed: bool, v: Json, rest: string)
    requires IsRead(s, d, closed, v, rest) && s != "" && (s[0] == '[' || s[0] == '{')
    ensures (d.List? || d.Record?) && s == Source(d) + rest
  {
    BracketFirst(d);
    hide Source, Meaning, IsLoose;
    assert At(s + "\"", 0) == s[0];
    if !closed {
      assert false;
    }
    assert s[0] == Source(d)[0];
  }

  /** What is read from the front of a text goes on to be read in front of more. */
  lemma ReadOnBracket(s: string, more: string)
    requires IsCString(s) && s != "" && (s[0] == '[' || s[0] == '{') && ParseValue(s).Parsed?
    ensures var (v, rest) := ParseValue(s).value; ParseValue(s + more) == Parsed((v, rest + more))
  {
    hide Source, Meaning, ParseValue, IsLoose;
    var e, closed := ValueOf(s);
    var (v, rest) := ParseValue(s).value;
    ReadFromBracket(s, e, closed, v, rest);
    ParseSource(e, rest + more);
    Associates(Source(e), rest, more);
  }

  /** An array or object that is cut off anywhere is not accepted, whether or not the end is required. */
  lemma CutOffIsRejected(d: Document, n: nat, requireEnd: bool)
    requires IsLoose(d) && (d.List? || d.Record?) && n < |Source(d)|
    ensures !Parse(Source(d)[..n], requireEnd).Parsed?
  {
    var whole := Source(d);
    var s, more := whole[..n], whole[n..];
    SkipEmpty();
    if n > 0 {
      BracketFirst(d);
      SourceIsCString(d);
      hide Source, Meaning, ParseValue, IsLoose;
      SkipMark(s);
      PrefixIsCString(whole, n);
      ParseSource(d, "");
      Halves(whole, n);
      assert whole + "" == whole;
      if ParseValue(s).Parsed? {
        ReadOnBracket(s, more);
      }
    }
  }
}
