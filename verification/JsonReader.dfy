/**
  The parser as the source runs it: loops that move a pointer and append each child
  to the list of its parent, proved against the recursive functions.
*/
module JsonReader {
  import opened CText
  import opened Decimal
  import opened JsonString
  import opened JsonText
  import opened JsonParse
  import opened Wrappers

  // ----- Appending to child lists -----

  function AppendItems(items: Items, more: Items): Items {
    match items
    case NoItems => more
    case Item(v, next) => Item(v, AppendItems(next, more))
  }

  function AppendMembers(members: Members, more: Members): Members {
    match members
    case NoMembers => more
    case Member(name, v, next) => Member(name, v, AppendMembers(next, more))
  }

  lemma AppendItemsAssociates(a: Items, b: Items, c: Items)
    ensures AppendItems(AppendItems(a, b), c) == AppendItems(a, AppendItems(b, c))
    ensures AppendItems(a, NoItems) == a
  {
  }

  lemma AppendMembersAssociates(a: Members, b: Members, c: Members)
    ensures AppendMembers(AppendMembers(a, b), c) == AppendMembers(a, AppendMembers(b, c))
    ensures AppendMembers(a, NoMembers) == a
  {
  }

  /** What parsing the rest of a list gives once the children in `done` are in place and `value` is what follows. */
  function ItemsFrom(done: Items, value: string): Outcome<(Items, string)> {
    if At(value, 0) != ',' then Parsed((done, value))
    else
      match ParseItems(value[1..])
      case Rejected => Rejected
      case Overrun => Overrun
      case Parsed((more, end)) => Parsed((AppendItems(done, more), end))
  }

  function MembersFrom(done: Members, value: string): Outcome<(Members, string)> {
    if At(value, 0) != ',' then Parsed((done, value))
    else
      match ParseMembers(value[1..])
      case Rejected => Rejected
      case Overrun => Overrun
      case Parsed((more, end)) => Parsed((AppendMembers(done, more), end))
  }

  lemma NextItem(done: Items, value: string)
    requires At(value, 0) == ','
    ensures var child := ParseValue(Skip(value[1..]));
            ItemsFrom(done, value)
            == (if !child.Parsed? then child.Failure()
                else ItemsFrom(AppendItems(done, Item(child.value.0, NoItems)), Skip(child.value.1)))
  {
    hide ParseValue;
    if ParseValue(Skip(value[1..])).Parsed? {
      var (v, afterValue) := ParseValue(Skip(value[1..])).value;
      var rest := Skip(afterValue);
      if At(rest, 0) == ',' && ParseItems(rest[1..]).Parsed? {
        AppendItemsAssociates(done, Item(v, NoItems), ParseItems(rest[1..]).value.0);
      }
    }
  }

  lemma FirstItem(s: string)
    requires ParseValue(Skip(s)).Parsed?
    ensures var (v, rest) := ParseValue(Skip(s)).value;
            ParseItems(s) == ItemsFrom(Item(v, NoItems), Skip(rest))
  {
    hide ParseValue;
    var (v, afterValue) := ParseValue(Skip(s)).value;
    var rest := Skip(afterValue);
    if At(rest, 0) == ',' && ParseItems(rest[1..]).Parsed? {
      var more := ParseItems(rest[1..]).value.0;
      assert AppendItems(Item(v, NoItems), more) == Item(v, AppendItems(NoItems, more));
    }
  }

  lemma FirstMember(s: string)
    requires ParseMember(s).Parsed?
    ensures var (name, v, rest) := ParseMember(s).value;
            ParseMembers(s) == MembersFrom(Member(name, v, NoMembers), rest)
  {
    hide ParseMember;
    var (name, v, rest) := ParseMember(s).value;
    if At(rest, 0) == ',' && ParseMembers(rest[1..]).Parsed? {
      var more := ParseMembers(rest[1..]).value.0;
      assert AppendMembers(Member(name, v, NoMembers), more) == Member(name, v, AppendMembers(NoMembers, more));
    }
  }

  lemma NextMember(done: Members, value: string)
    requires At(value, 0) == ','
    ensures var child := ParseMember(value[1..]);
            MembersFrom(done, value)
            == (if !child.Parsed? then child.Failure()
                else MembersFrom(AppendMembers(done, Member(child.value.0, child.value.1, NoMembers)), child.value.2))
  {
    hide ParseMember;
    if ParseMember(value[1..]).Parsed? {
      var (name, v, rest) := ParseMember(value[1..]).value;
      if At(rest, 0) == ',' && ParseMembers(rest[1..]).Parsed? {
        AppendMembersAssociates(done, Member(name, v, NoMembers), ParseMembers(rest[1..]).value.0);
      }
    }
  }

  // ----- The parser -----

  method SkipBlanks(in0: string) returns (in1: string)
    ensures in1 == Skip(in0)
  {
    in1 := in0;
    while in1 != "" && in1[0] != NUL && in1[0] as nat <= 32
      invariant Skip(in1) == Skip(in0)
      decreases |in1|
    {
      in1 := in1[1..];
    }
  }

  method ReadFraction(n0: nat, num0: string) returns (n: nat, places: nat, num: string)
    ensures (n, places, num) == ParseFraction(n0, num0)
  {
    n, places, num := n0, 0, num0;
    if At(num, 0) == '.' && IsDigit(At(num, 1)) {
      n, num := ReadDigits(n0, num0[1..]);
      places := |num0| - 1 - |num|;
    }
  }

  method ReadExponent(num0: string) returns (exponent: int, num: string)
    ensures (exponent, num) == ParseExponent(num0)
  {
    exponent, num := 0, num0;
    if At(num, 0) == 'e' || At(num, 0) == 'E' {
      var signsubscale := 1;
      num := num[1..];
      if At(num, 0) == '+' {
        num := num[1..];
      } else if At(num, 0) == '-' {
        signsubscale, num := -1, num[1..];
      }
      exponent, num := ReadDigits(0, num);
      exponent := exponent * signsubscale;
    }
  }

  method ReadNumber(num0: string) returns (r: (Json, string))
    requires At(num0, 0) == '-' || IsDigit(At(num0, 0))
    ensures r == ParseNumber(num0)
  {
    hide ParseFraction, ParseExponent;
    var num, negative := num0, false;
    if At(num, 0) == '-' {
      negative, num := true, num[1..];
    }
    if At(num, 0) == '0' {
      num := num[1..];
    }
    var n: int, places, exponent := 0, 0, 0;
    if '1' <= At(num, 0) <= '9' {
      n, num := ReadDigits(0, num);
    }
    n, places, num := ReadFraction(n, num);
    exponent, num := ReadExponent(num);
    return (Number(if negative then -n else n, exponent - places), num);
  }

  method ReadValue(value: string) returns (r: Outcome<(Json, string)>)
    ensures r == ParseValue(value)
    decreases |value|, 1
  {
    if "null" <= value { return Parsed((Null, value[4..])); }
    if "false" <= value { return Parsed((False, value[5..])); }
    if "true" <= value { return Parsed((True, value[4..])); }
    if At(value, 0) == '\"' {
      var text := ParseStringLiteral(value);
      return if text.Parsed? then Parsed((String(text.value.0), text.value.1)) else text.Failure();
    }
    if At(value, 0) == '-' || IsDigit(At(value, 0)) {
      var number := ReadNumber(value);
      return Parsed(number);
    }
    if At(value, 0) == '[' { r := ReadArray(value); return; }
    if At(value, 0) == '{' { r := ReadObject(value); return; }
    return Rejected;
  }

  method ReadArray(value0: string) returns (r: Outcome<(Json, string)>)
    ensures r == ParseArray(value0)
    decreases |value0|, 0
  {
    if At(value0, 0) != '[' {
      return Rejected;
    }
    var value := SkipBlanks(value0[1..]);
    if At(value, 0) == ']' {
      return Parsed((Array(NoItems), value[1..]));
    }
    ghost var inside := value;
    value := SkipBlanks(value);
    var child := ReadValue(value);
    if !child.Parsed? {
      return child.Failure();
    }
    FirstItem(inside);
    value := SkipBlanks(child.value.1);
    var items := Item(child.value.0, NoItems);
    while At(value, 0) == ','
      invariant |value| < |value0|
      invariant ParseItems(inside) == ItemsFrom(items, value)
      decreases |value|
    {
      NextItem(items, value);
      var next := SkipBlanks(value[1..]);
      child := ReadValue(next);
      if !child.Parsed? {
        return child.Failure();
      }
      value := SkipBlanks(child.value.1);
      items := AppendItems(items, Item(child.value.0, NoItems));
    }
    if At(value, 0) == ']' {
      return Parsed((Array(items), value[1..]));
    }
    return Rejected;
  }

  /** The part of the object loop that reads one name, colon and value. */
  method ReadMember(value0: string) returns (r: Outcome<(string, Json, string)>)
    ensures r == ParseMember(value0)
    decreases |value0|, 2
  {
    var value := SkipBlanks(value0);
    var name := ParseStringLiteral(value);
    if !name.Parsed? {
      return name.Failure();
    }
    value := SkipBlanks(name.value.1);
    if At(value, 0) != ':' {
      return Rejected;
    }
    value := SkipBlanks(value[1..]);
    var child := ReadValue(value);
    if !child.Parsed? {
      return child.Failure();
    }
    value := SkipBlanks(child.value.1);
    return Parsed((name.value.0, child.value.0, value));
  }

  method ReadObject(value0: string) returns (r: Outcome<(Json, string)>)
    ensures r == ParseObject(value0)
    decreases |value0|, 0
  {
    if At(value0, 0) != '{' {
      return Rejected;
    }
    var value := SkipBlanks(value0[1..]);
    if At(value, 0) == '}' {
      return Parsed((Object(NoMembers), value[1..]));
    }
    ghost var inside := value;
    var child := ReadMember(value);
    if !child.Parsed? {
      return child.Failure();
    }
    FirstMember(inside);
    var members := Member(child.value.0, child.value.1, NoMembers);
    value := child.value.2;
    while At(value, 0) == ','
      invariant |value| < |value0|
      invariant ParseMembers(inside) == MembersFrom(members, value)
      decreases |value|
    {
      NextMember(members, value);
      child := ReadMember(value[1..]);
      if !child.Parsed? {
        return child.Failure();
      }
      members := AppendMembers(members, Member(child.value.0, child.value.1, NoMembers));
      value := child.value.2;
    }
    if At(value, 0) == '}' {
      return Parsed((Object(members), value[1..]));
    }
    return Rejected;
  }

  method ParseWithOpts(text: string, requireEnd: bool) returns (r: Outcome<(Json, string)>)
    ensures r == Parse(text, requireEnd)
  {
    var value := SkipBlanks(text);
    var parsed := ReadValue(value);
    if parsed.Parsed? && requireEnd {
      var end := SkipBlanks(parsed.value.1);
      return if end != "" then Rejected else Parsed((parsed.value.0, end));
    }
    return parsed;
  }
}
