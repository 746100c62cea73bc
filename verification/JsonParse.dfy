/**
  The recursive-descent parser.  Each function takes the text from a pointer on and
  returns what it built together with the text it stopped at.
*/
module JsonParse {
  import opened CText
  import opened Decimal
  import opened JsonString
  import opened JsonText
  import opened Wrappers

  /** Moves past spaces and control characters. */
  function Skip(s: string): (r: string)
    ensures |r| <= |s|
    decreases |s|
  {
    if s != "" && s[0] != NUL && s[0] as nat <= 32 then Skip(s[1..]) else s
  }

  function ParseInteger(s: string): (r: (nat, string))
    ensures |r.1| <= |s|
  {
    if '1' <= At(s, 0) <= '9' then (DigitsValue(s[..DigitRun(s)]), s[DigitRun(s)..]) else (0, s)
  }

  /** Adds the digits after a point to the mantissa, and counts them. */
  function ParseFraction(n: nat, s: string): (r: (nat, nat, string))
    ensures |r.2| <= |s|
  {
    if At(s, 0) == '.' && IsDigit(At(s, 1)) then
      var k := DigitRun(s[1..]);
      (Accumulate(n, s[1..][..k]), k, s[1..][k..])
    else (n, 0, s)
  }

  function ParseExponent(s: string): (r: (int, string))
    ensures |r.1| <= |s|
  {
    if At(s, 0) == 'e' || At(s, 0) == 'E' then
      var t := s[1..];
      var u := if At(t, 0) == '+' || At(t, 0) == '-' then t[1..] else t;
      var subscale := DigitsValue(u[..DigitRun(u)]);
      (if At(t, 0) == '-' then 0 - subscale else subscale, u[DigitRun(u)..])
    else (0, s)
  }

  /** A number, by the grammar of the source: a zero may come before further digits. */
  function ParseNumber(s: string): (r: (Json, string))
    requires At(s, 0) == '-' || IsDigit(At(s, 0))
    ensures |r.1| < |s|
  {
    var afterSign := if s[0] == '-' then s[1..] else s;
    var afterZero := if At(afterSign, 0) == '0' then afterSign[1..] else afterSign;
    var (n, afterInteger) := ParseInteger(afterZero);
    var (m, places, afterFraction) := ParseFraction(n, afterInteger);
    var (exponent, rest) := ParseExponent(afterFraction);
    (Number(if s[0] == '-' then 0 - m else m, exponent - places), rest)
  }

  function ParseValue(s: string): (r: Outcome<(Json, string)>)
    ensures r.Parsed? ==> |r.value.1| < |s|
    decreases |s|, 3
  {
    if "null" <= s then Parsed((Null, s[4..]))
    else if "false" <= s then Parsed((False, s[5..]))
    else if "true" <= s then Parsed((True, s[4..]))
    else if At(s, 0) == '\"' then
      match ParseString(s)
      case Rejected => Rejected
      case Overrun => Overrun
      case Parsed((text, rest)) => Parsed((String(text), rest))
    else if At(s, 0) == '-' || IsDigit(At(s, 0)) then Parsed(ParseNumber(s))
    else if At(s, 0) == '[' then ParseArray(s)
    else if At(s, 0) == '{' then ParseObject(s)
    else Rejected
  }

  function ParseArray(s: string): (r: Outcome<(Json, string)>)
    ensures r.Parsed? ==> |r.value.1| < |s|
    decreases |s|, 2
  {
    if At(s, 0) != '[' then Rejected
    else
      var inside := Skip(s[1..]);
      if At(inside, 0) == ']' then Parsed((Array(NoItems), inside[1..]))
      else
        match ParseItems(inside)
        case Rejected => Rejected
        case Overrun => Overrun
        case Parsed((items, rest)) => if At(rest, 0) == ']' then Parsed((Array(items), rest[1..])) else Rejected
  }

  /** One or more values separated by commas. */
  function ParseItems(s: string): (r: Outcome<(Items, string)>)
    ensures r.Parsed? ==> |r.value.1| < |s|
    decreases |s|, 4
  {
    match ParseValue(Skip(s))
    case Rejected => Rejected
    case Overrun => Overrun
    case Parsed((v, afterValue)) =>
      var rest := Skip(afterValue);
      if At(rest, 0) == ',' then
        match ParseItems(rest[1..])
        case Rejected => Rejected
        case Overrun => Overrun
        case Parsed((next, end)) => Parsed((Item(v, next), end))
      else Parsed((Item(v, NoItems), rest))
  }

  function ParseObject(s: string): (r: Outcome<(Json, string)>)
    ensures r.Parsed? ==> |r.value.1| < |s|
    decreases |s|, 2
  {
    if At(s, 0) != '{' then Rejected
    else
      var inside := Skip(s[1..]);
      if At(inside, 0) == '}' then Parsed((Object(NoMembers), inside[1..]))
      else
        match ParseMembers(inside)
        case Rejected => Rejected
        case Overrun => Overrun
        case Parsed((members, rest)) => if At(rest, 0) == '}' then Parsed((Object(members), rest[1..])) else Rejected
  }

  /** A name, a colon and a value. */
  function ParseMember(s: string): (r: Outcome<(string, Json, string)>)
    ensures r.Parsed? ==> |r.value.2| < |s|
    decreases |s|, 4
  {
    match ParseString(Skip(s))
    case Rejected => Rejected
    case Overrun => Overrun
    case Parsed((name, afterName)) =>
      var colon := Skip(afterName);
      if At(colon, 0) != ':' then Rejected
      else
        match ParseValue(Skip(colon[1..]))
        case Rejected => Rejected
        case Overrun => Overrun
        case Parsed((v, rest)) => Parsed((name, v, Skip(rest)))
  }

  /** One or more members separated by commas. */
  function ParseMembers(s: string): (r: Outcome<(Members, string)>)
    ensures r.Parsed? ==> |r.value.1| < |s|
    decreases |s|, 5
  {
    match ParseMember(s)
    case Rejected => Rejected
    case Overrun => Overrun
    case Parsed((name, v, rest)) =>
      if At(rest, 0) == ',' then
        match ParseMembers(rest[1..])
        case Rejected => Rejected
        case Overrun => Overrun
        case Parsed((next, end)) => Parsed((Member(name, v, next), end))
      else Parsed((Member(name, v, NoMembers), rest))
  }

  /** A tree and the text after it; with `requireEnd`, only spaces may follow. */
  function Parse(s: string, requireEnd: bool): Outcome<(Json, string)> {
    match ParseValue(Skip(s))
    case Rejected => Rejected
    case Overrun => Overrun
    case Parsed((v, end)) =>
      if !requireEnd then Parsed((v, end))
      else if Skip(end) == "" then Parsed((v, Skip(end))) else Rejected
  }
}
