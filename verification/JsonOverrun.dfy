/**
  Which texts make the parser run past their end: none but those that end with a
  backslash.
*/
module JsonOverrun {
  import opened CText
  import opened Decimal
  import opened JsonParse
  import opened JsonString
  import opened Wrappers

  predicate EndsWithBackslash(s: string) {
    s != "" && s[|s| - 1] == '\\'
  }

  /** A text that is left over, or is run past, ends with a backslash only if the whole text does. */
  predicate Tells(s: string, overrun: bool, rest: string) {
    overrun || EndsWithBackslash(rest) ==> EndsWithBackslash(s)
  }

  function Rest<T>(r: Outcome<(T, string)>): string {
    if r.Parsed? then r.value.1 else ""
  }

  lemma DropTells(s: string, n: nat)
    ensures EndsWithBackslash(Drop(s, n)) ==> EndsWithBackslash(s)
  {
  }

  lemma {:induction false} SkipTells(s: string)
    ensures EndsWithBackslash(Skip(s)) ==> EndsWithBackslash(s)
    decreases |s|
  {
    if s != "" && s[0] != NUL && s[0] as nat <= 32 {
      SkipTells(s[1..]);
    }
  }

  lemma {:induction false} BodyTells(body: string)
    ensures BodyLength(body) > |body| ==> EndsWithBackslash(body)
    decreases |body|
  {
    if At(body, 0) != '\"' && At(body, 0) != NUL {
      BodyTells(Drop(body, 2));
      BodyTells(body[1..]);
      DropTells(body, 2);
    }
  }

  lemma LiteralTells(s: string)
    ensures var r := ParseString(s); Tells(s, r.Overrun?, Rest(r))
  {
    hide Decode, BodyLength;
    if At(s, 0) == '\"' {
      BodyTells(s[1..]);
      var n := BodyLength(s[1..]);
      DropTells(s[1..], n);
      DropTells(Drop(s[1..], n), 1);
    }
  }

  lemma IntegerTells(s: string)
    ensures Tells(s, false, ParseInteger(s).1)
  {
    hide DigitsValue;
  }

  lemma FractionTells(n: nat, s: string)
    ensures Tells(s, false, ParseFraction(n, s).2)
  {
    hide Accumulate;
    if At(s, 0) == '.' {
      var k := DigitRun(s[1..]);
      assert s[1..][k..] == s[k + 1..];
    }
  }

  lemma ExponentTells(s: string)
    ensures Tells(s, false, ParseExponent(s).1)
  {
    hide DigitsValue;
  }

  lemma NumberTells(s: string)
    requires At(s, 0) == '-' || IsDigit(At(s, 0))
    ensures Tells(s, false, ParseNumber(s).1)
  {
    hide ParseInteger, ParseFraction, ParseExponent;
    var afterSign := if s[0] == '-' then s[1..] else s;
    var afterZero := if At(afterSign, 0) == '0' then afterSign[1..] else afterSign;
    var (n, afterInteger) := ParseInteger(afterZero);
    var (m, places, afterFraction) := ParseFraction(n, afterInteger);
    IntegerTells(afterZero);
    FractionTells(n, afterInteger);
    ExponentTells(afterFraction);
  }

  lemma {:induction false} ValueTells(s: string)
    ensures var r := ParseValue(s); Tells(s, r.Overrun?, Rest(r))
    decreases |s|, 3
  {
    hide ParseString, ParseNumber, ParseArray, ParseObject;
    LiteralTells(s);
    if At(s, 0) == '-' || IsDigit(At(s, 0)) {
      NumberTells(s);
    }
    ArrayTells(s);
    ObjectTells(s);
  }

  lemma {:induction false} ArrayTells(s: string)
    ensures var r := ParseArray(s); Tells(s, r.Overrun?, Rest(r))
    decreases |s|, 2
  {
    hide Skip, ParseItems;
    if At(s, 0) == '[' {
      SkipTells(s[1..]);
      ItemsTell(Skip(s[1..]));
    }
  }

  lemma {:induction false} ItemsTell(s: string)
    ensures var r := ParseItems(s); Tells(s, r.Overrun?, Rest(r))
    decreases |s|, 4
  {
    hide Skip, ParseValue;
    SkipTells(s);
    ValueTells(Skip(s));
    var v := ParseValue(Skip(s));
    if v.Parsed? {
      SkipTells(v.value.1);
      var rest := Skip(v.value.1);
      if At(rest, 0) == ',' {
        ItemsTell(rest[1..]);
      }
    }
  }

  lemma {:induction false} ObjectTells(s: string)
    ensures var r := ParseObject(s); Tells(s, r.Overrun?, Rest(r))
    decreases |s|, 2
  {
    hide Skip, ParseMembers;
    if At(s, 0) == '{' {
      SkipTells(s[1..]);
      MembersTell(Skip(s[1..]));
    }
  }

  lemma {:induction false} MemberTells(s: string)
    ensures var r := ParseMember(s); Tells(s, r.Overrun?, if r.Parsed? then r.value.2 else "")
    decreases |s|, 4
  {
    hide Skip, ParseString, ParseValue;
    SkipTells(s);
    LiteralTells(Skip(s));
    var name := ParseString(Skip(s));
    if name.Parsed? {
      SkipTells(name.value.1);
      var colon := Skip(name.value.1);
      if At(colon, 0) == ':' {
        SkipTells(colon[1..]);
        ValueTells(Skip(colon[1..]));
        var v := ParseValue(Skip(colon[1..]));
        if v.Parsed? {
          SkipTells(v.value.1);
        }
      }
    }
  }

  lemma {:induction false} MembersTell(s: string)
    ensures var r := ParseMembers(s); Tells(s, r.Overrun?, Rest(r))
    decreases |s|, 5
  {
    hide ParseMember;
    MemberTells(s);
    var member := ParseMember(s);
    if member.Parsed? && At(member.value.2, 0) == ',' {
      MembersTell(member.value.2[1..]);
    }
  }

  /** The parser stays inside every text that does not end with a backslash. */
  lemma NoOverrun(s: string, requireEnd: bool)
    requires !EndsWithBackslash(s)
    ensures !Parse(s, requireEnd).Overrun?
  {
    SkipTells(s);
    ValueTells(Skip(s));
  }
}
