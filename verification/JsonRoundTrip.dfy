/**
  Parsing undoes printing: for every printable tree, at any depth, formatted or not,
  the parser rebuilds the tree and stops exactly at the end of the printed text.
*/
module JsonRoundTrip {
  import opened CText
  import opened Decimal
  import opened JsonString
  import opened JsonText
  import opened JsonParse
  import opened Wrappers

  /** Text that the parser would read as more of a number. */
  predicate ContinuesNumber(s: string) {
    || IsDigit(At(s, 0))
    || At(s, 0) == 'e' || At(s, 0) == 'E'
    || (At(s, 0) == '.' && IsDigit(At(s, 1)))
  }

  predicate IsBlank(c: char) {
    c != NUL && c as nat <= 32
  }

  lemma {:induction false} SkipBlanks(t: string, rest: string)
    requires forall i | 0 <= i < |t| :: IsBlank(t[i])
    ensures Skip(t + rest) == Skip(rest)
  {
    if t == "" {
      assert t + rest == rest;
    } else {
      assert (t + rest)[1..] == t[1..] + rest;
      SkipBlanks(t[1..], rest);
    }
  }

  lemma {:induction false} SkipSkip(s: string)
    ensures Skip(Skip(s)) == Skip(s)
    decreases |s|
  {
    if Skip(s) != s {
      SkipSkip(s[1..]);
    }
  }

  /** A value's text starts with neither a blank nor a closing bracket. */
  lemma TextStart(v: Json, depth: nat, fmt: bool)
    requires Printable(v)
    ensures var t := Text(v, depth, fmt); t != "" && t[0] as nat > 32 && t[0] != ']'
  {
    if v.Number? && v.mantissa < 0 {
      assert Text(v, depth, fmt)[0] == '-';
    }
  }

  /** After the sign, a numeral is read whole and nothing after it. */
  lemma ParseIntegerOfDigits(n: nat, rest: string)
    requires !ContinuesNumber(rest)
    ensures var s := Digits(n) + rest;
            ParseInteger(if s[0] == '0' then s[1..] else s) == (n, rest)
  {
    var digits := Digits(n);
    var s := digits + rest;
    assert s[0] == digits[0];
    if n == 0 {
      assert s[1..] == rest;
    } else {
      DigitRunOfDigits(digits, rest);
      DigitsValueOfDigits(n);
      assert s[..|digits|] == digits && s[|digits|..] == rest;
    }
  }

  lemma ParseNumberOfIntText(n: int, rest: string)
    requires !ContinuesNumber(rest)
    ensures var s := IntText(n) + rest;
            (At(s, 0) == '-' || IsDigit(At(s, 0))) && ParseNumber(s) == (Number(n, 0), rest)
  {
    hide Digits, ParseInteger;
    var magnitude: nat := if n < 0 then -n else n;
    var s, afterSign := IntText(n) + rest, Digits(magnitude) + rest;
    assert s[0] == IntText(n)[0] && afterSign[0] == Digits(magnitude)[0];
    assert n < 0 ==> s[1..] == afterSign;
    ParseIntegerOfDigits(magnitude, rest);
  }

  lemma {:induction false} ParseValueOfText(v: Json, depth: nat, fmt: bool, rest: string)
    requires Printable(v)
    requires v.Number? ==> !ContinuesNumber(rest)
    ensures ParseValue(Text(v, depth, fmt) + rest) == Parsed((v, rest))
    decreases v, 1
  {
    var s := Text(v, depth, fmt) + rest;
    match v
    case Null => assert s[..4] == "null" && s[4..] == rest;
    case False => assert s[..5] == "false" && s[0] == 'f' && s[5..] == rest;
    case True => assert s[..4] == "true" && s[0] == 't' && s[4..] == rest;
    case Number(n, _) => ParseNumberOfIntText(n, rest); assert s[0] == IntText(n)[0];
    case String(text) => ParseStringOfQuoted(text, rest); assert s[0] == '\"';
    case Array(items) => ParseArrayOfText(items, depth, fmt, rest); assert s[0] == '[';
    case Object(members) => ParseObjectOfText(members, depth, fmt, rest); assert s[0] == '{';
  }

  lemma {:induction false} ParseArrayOfText(items: Items, depth: nat, fmt: bool, rest: string)
    requires PrintableItems(items)
    ensures ParseArray(Text(Array(items), depth, fmt) + rest) == Parsed((Array(items), rest))
    decreases items, 1
  {
    ArrayText(items, depth, fmt);
    NoChildrenText(depth + 1, fmt);
    hide Text, ItemsText, ParseItems;
    var s := Text(Array(items), depth, fmt) + rest;
    var inside := ItemsText(items, depth + 1, fmt) + ("]" + rest);
    assert s == "[" + inside;
    assert s[0] == '[' && s[1..] == inside;
    if items.Item? {
      TextStart(items.value, depth + 1, fmt);
      ParseItemsOfText(items, depth + 1, fmt, "]" + rest);
    }
  }

  lemma {:induction false} ParseObjectOfText(members: Members, depth: nat, fmt: bool, rest: string)
    requires PrintableMembers(members)
    ensures ParseObject(Text(Object(members), depth, fmt) + rest) == Parsed((Object(members), rest))
    decreases members, 1
  {
    ObjectTextBefore(members, depth, fmt, rest);
    hide Text, MembersText, ParseMembers;
    var s := Text(Object(members), depth, fmt) + rest;
    var close := When(fmt, Tabs(depth)) + ("}" + rest);
    var inside := MembersText(members, depth + 1, fmt) + close;
    assert s[0] == '{' && s[1..] == When(fmt, "\n") + inside;
    SkipBlanks(When(fmt, "\n"), inside);
    SkipBlanks(When(fmt, Tabs(depth)), "}" + rest);
    if members.Member? {
      ParseMembersOfText(members, depth + 1, fmt, close);
      ParseMembersSkips(inside);
      MembersStart(members, depth + 1, fmt, close);
    } else {
      NoChildrenText(depth + 1, fmt);
      assert inside == close;
    }
  }

  lemma ParseMembersSkips(s: string)
    ensures ParseMembers(Skip(s)) == ParseMembers(s)
  {
    SkipSkip(s);
  }

  lemma MembersStart(members: Members, depth: nat, fmt: bool, rest: string)
    requires members.Member?
    ensures At(Skip(MembersText(members, depth, fmt) + rest), 0) == '\"'
  {
    hide Text, Escaped;
    MembersTextStep(members, depth, fmt, rest);
    var Member(name, v, next) := members;
    var tabs := When(fmt, Tabs(depth));
    var tail := ":" + When(fmt, "\t") + Text(v, depth, fmt)
                + (When(next.Member?, ",") + (When(fmt, "\n") + (MembersText(next, depth, fmt) + rest)));
    assert MembersText(members, depth, fmt) + rest == tabs + (Quoted(name) + tail);
    SkipBlanks(tabs, Quoted(name) + tail);
    assert (Quoted(name) + tail)[0] == '\"';
  }

  lemma {:induction false} ParseItemsOfText(items: Items, depth: nat, fmt: bool, rest: string)
    requires items.Item? && PrintableItems(items) && At(rest, 0) == ']'
    ensures ParseItems(ItemsText(items, depth, fmt) + rest) == Parsed((items, rest))
    decreases items, 0
  {
    hide ParseValue, Text;
    var Item(v, next) := items;
    var s := ItemsText(items, depth, fmt) + rest;
    var more := ItemsText(next, depth, fmt) + rest;
    var sep := When(next.Item?, "," + When(fmt, " "));
    assert s == Text(v, depth, fmt) + (sep + more);
    TextStart(v, depth, fmt);
    assert s[0] == Text(v, depth, fmt)[0];
    assert next.Item? ==> (sep + more)[0] == ',';
    assert next.NoItems? ==> sep + more == rest;
    ParseValueOfText(v, depth, fmt, sep + more);
    if next.Item? {
      assert (sep + more)[1..] == When(fmt, " ") + more;
      SkipBlanks(When(fmt, " "), more);
      ParseItemsOfText(next, depth, fmt, rest);
      ParseItemsSkips(When(fmt, " ") + more);
      ParseItemsSkips(more);
    }
  }

  lemma ParseItemsSkips(s: string)
    ensures ParseItems(Skip(s)) == ParseItems(s)
  {
    SkipSkip(s);
  }

  /** One member, with its indentation before and the line break after its comma. */
  lemma ParseMemberOfText(name: string, v: Json, depth: nat, fmt: bool, afterValue: string)
    requires IsCString(name) && Printable(v) && !ContinuesNumber(afterValue)
    requires ParseValue(Text(v, depth, fmt) + afterValue) == Parsed((v, afterValue))
    ensures ParseMember(When(fmt, Tabs(depth)) + Quoted(name) + ":" + When(fmt, "\t")
                        + Text(v, depth, fmt) + afterValue)
         == Parsed((name, v, Skip(afterValue)))
  {
    hide ParseValue, ParseString, Text, Quoted, Skip;
    var value := Text(v, depth, fmt) + afterValue;
    var colon := ":" + (When(fmt, "\t") + value);
    var named := Quoted(name) + colon;
    assert When(fmt, Tabs(depth)) + Quoted(name) + ":" + When(fmt, "\t") + Text(v, depth, fmt) + afterValue
        == When(fmt, Tabs(depth)) + named;
    SkipBlanks(When(fmt, Tabs(depth)), named);
    NoSkip(name, v, depth, fmt, colon, afterValue);
    ParseStringOfQuoted(name, colon);
    SkipBlanks(When(fmt, "\t"), value);
    assert colon[1..] == When(fmt, "\t") + value;
  }

  lemma NoSkip(name: string, v: Json, depth: nat, fmt: bool, colon: string, afterValue: string)
    requires Printable(v) && At(colon, 0) == ':'
    ensures Skip(Quoted(name) + colon) == Quoted(name) + colon
    ensures Skip(colon) == colon
    ensures Skip(Text(v, depth, fmt) + afterValue) == Text(v, depth, fmt) + afterValue
  {
    hide Text;
    assert (Quoted(name) + colon)[0] == '\"';
    TextStart(v, depth, fmt);
    assert (Text(v, depth, fmt) + afterValue)[0] == Text(v, depth, fmt)[0];
  }

  lemma MembersTextStep(members: Members, depth: nat, fmt: bool, rest: string)
    requires members.Member?
    ensures var Member(name, v, next) := members;
            MembersText(members, depth, fmt) + rest
            == When(fmt, Tabs(depth)) + Quoted(name) + ":" + When(fmt, "\t") + Text(v, depth, fmt)
               + (When(next.Member?, ",") + (When(fmt, "\n") + (MembersText(next, depth, fmt) + rest)))
  {
    hide Text, Quoted, Tabs;
  }

  lemma {:induction false} ParseMembersOfText(members: Members, depth: nat, fmt: bool, rest: string)
    requires members.Member? && PrintableMembers(members) && At(Skip(rest), 0) == '}' && !ContinuesNumber(rest)
    ensures ParseMembers(MembersText(members, depth, fmt) + rest) == Parsed((members, Skip(rest)))
    decreases members, 0
  {
    hide ParseValue, Text, Quoted, ParseMember;
    var Member(name, v, next) := members;
    var s := MembersText(members, depth, fmt) + rest;
    var more := MembersText(next, depth, fmt) + rest;
    var line := When(fmt, "\n") + more;
    var afterValue := When(next.Member?, ",") + line;
    MembersTextStep(members, depth, fmt, rest);
    SkipBlanks(When(fmt, "\n"), more);
    if next.Member? {
      assert afterValue == "," + line;
      assert Skip(afterValue) == afterValue && afterValue[1..] == line;
      ParseMembersOfText(next, depth, fmt, rest);
      ParseMembersSkips(line);
      ParseMembersSkips(more);
    } else {
      assert more == rest && afterValue == line;
      assert fmt || line == rest;
    }
    ParseValueOfText(v, depth, fmt, afterValue);
    ParseMemberOfText(name, v, depth, fmt, afterValue);
  }

  /**
    The round trip of the whole interface: text printed formatted or not, with
    blanks around it, parses back to the tree even when nothing else may follow.
  */
  lemma ParseOfText(v: Json, fmt: bool, before: string, after: string)
    requires Printable(v)
    requires forall i | 0 <= i < |before| :: IsBlank(before[i])
    requires forall i | 0 <= i < |after| :: IsBlank(after[i])
    ensures Parse(before + Text(v, 0, fmt) + after, true) == Parsed((v, ""))
    ensures Parse(before + Text(v, 0, fmt) + after, false) == Parsed((v, after))
  {
    hide Text, ParseValue;
    var text := Text(v, 0, fmt) + after;
    assert before + Text(v, 0, fmt) + after == before + text;
    SkipBlanks(before, text);
    NoSkip("", v, 0, fmt, ":", after);
    ParseValueOfText(v, 0, fmt, after);
    SkipBlanks(after, "");
    assert after + "" == after;
  }

  /** Two printable trees with the same text are the same tree. */
  lemma TextIsInjective(v: Json, w: Json, fmt: bool)
    requires Printable(v) && Printable(w)
    requires Text(v, 0, fmt) == Text(w, 0, fmt)
    ensures v == w
  {
    ParseOfText(v, fmt, "", "");
    ParseOfText(w, fmt, "", "");
  }
}
