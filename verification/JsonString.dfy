/**
  String literals of the JSON text: escaping, the two passes of the printer, the
  two passes of the parser, and the UTF-16 to UTF-8 transcoding of \u escapes.
*/
module JsonString {
  import opened CText
  import opened Wrappers

  // ----- Escaping -----

  function Hex4(n: nat): (t: string)
    requires n < 0x10000
    ensures |t| == 4
  {
    [HexDigit(n / 4096), HexDigit(n / 256 % 16), HexDigit(n / 16 % 16), HexDigit(n % 16)]
  }

  predicate NeedsEscape(c: char) {
    c as nat <= 31 || c == '\"' || c == '\\'
  }

  function EscapeChar(c: char): (t: string)
    ensures |t| >= 1
  {
    if !NeedsEscape(c) then [c]
    else if c == '\\' then "\\\\"
    else if c == '\"' then "\\\""
    else if c == BACKSPACE then "\\b"
    else if c == FORM_FEED then "\\f"
    else if c == '\n' then "\\n"
    else if c == '\r' then "\\r"
    else if c == '\t' then "\\t"
    else "\\u" + Hex4(c as nat)
  }

  function Escaped(s: string): string {
    if s == "" then "" else EscapeChar(s[0]) + Escaped(s[1..])
  }

  /** The literal that stands for a string: its escaped characters between quotes. */
  function Quoted(s: string): string {
    "\"" + Escaped(s) + "\""
  }

  // ----- Reading escapes -----

  /** Four hexadecimal digits of either case; anything else reads as zero. */
  function ParseHex4(s: string): (v: nat)
    ensures v < 0x10000
    ensures v != 0 ==> |s| >= 4 && forall i | 0 <= i < 4 :: IsHexDigit(s[i])
  {
    if !IsHexDigit(At(s, 0)) || !IsHexDigit(At(s, 1)) || !IsHexDigit(At(s, 2)) || !IsHexDigit(At(s, 3)) then 0
    else HexValue(s[0]) * 4096 + HexValue(s[1]) * 256 + HexValue(s[2]) * 16 + HexValue(s[3])
  }

  predicate IsHighSurrogate(u: nat) {
    0xD800 <= u <= 0xDBFF
  }

  predicate IsLowSurrogate(u: nat) {
    0xDC00 <= u <= 0xDFFF
  }

  /** The code point of a surrogate pair. */
  function PairValue(high: nat, low: nat): (u: nat)
    ensures 0x10000 <= u < 0x110000
  {
    0x10000 + high % 1024 * 1024 + low % 1024
  }

  /** Number of UTF-8 bytes of a code point. */
  function Utf8Length(u: nat): (n: nat)
    ensures 1 <= n <= 4
  {
    if u < 0x80 then 1 else if u < 0x800 then 2 else if u < 0x10000 then 3 else 4
  }

  function Utf8(u: nat): (t: string)
    requires u < 0x110000
    ensures |t| == Utf8Length(u)
  {
    if u < 0x80 then [u as char]
    else if u < 0x800 then [(0xC0 + u / 64) as char, (0x80 + u % 64) as char]
    else if u < 0x10000 then [(0xE0 + u / 4096) as char, (0x80 + u / 64 % 64) as char, (0x80 + u % 64) as char]
    else
      [(0xF0 + u / 262144) as char, (0x80 + u / 4096 % 64) as char,
       (0x80 + u / 64 % 64) as char, (0x80 + u % 64) as char]
  }

  function Unescape(c: char): char {
    match c
    case 'b' => BACKSPACE
    case 'f' => FORM_FEED
    case 'n' => '\n'
    case 'r' => '\r'
    case 't' => '\t'
    case _ => c
  }

  /**
    The first character or escape of a literal's body: what it decodes to and how
    many characters it takes; None for an escape that the parser rejects.
  */
  function DecodeUnit(lit: string): (r: Option<(string, nat)>)
    requires lit != ""
    ensures r.Some? ==> 1 <= r.value.1
  {
    if lit[0] != '\\' then Some(([lit[0]], 1))
    else if At(lit, 1) != 'u' then Some(([Unescape(At(lit, 1))], 2))
    else
      var u := ParseHex4(Drop(lit, 2));
      if IsLowSurrogate(u) || u == 0 then None
      else if !IsHighSurrogate(u) then Some((Utf8(u), 6))
      else if At(lit, 6) != '\\' || At(lit, 7) != 'u' then None
      else
        var low := ParseHex4(Drop(lit, 8));
        if !IsLowSurrogate(low) then None else Some((Utf8(PairValue(u, low)), 12))
  }

  function Prepend(t: string, r: Option<string>): Option<string> {
    match r
    case None => None
    case Some(more) => Some(t + more)
  }

  /** The string that the body of a literal stands for. */
  function Decode(lit: string): Option<string>
    decreases |lit|
  {
    if lit == "" then Some("")
    else
      match DecodeUnit(lit)
      case None => None
      case Some((bytes, n)) =>
        Prepend(bytes, Decode(Drop(lit, n)))
  }

  /** Length of a literal's body: up to the first quote that no backslash precedes, or the end of the text. */
  function BodyLength(s: string): nat
    decreases |s|
  {
    if At(s, 0) == '\"' || At(s, 0) == NUL then 0
    else if s[0] == '\\' then 2 + BodyLength(Drop(s, 2))
    else 1 + BodyLength(s[1..])
  }

  /** What the first pass of the parser counts: an escape of two characters as one. */
  function BodyUnits(s: string): nat
    decreases |s|
  {
    if At(s, 0) == '\"' || At(s, 0) == NUL then 0
    else if s[0] == '\\' then 1 + BodyUnits(Drop(s, 2))
    else 1 + BodyUnits(s[1..])
  }

  /**
    A parsed string and the text after it.  The first pass of the source steps over two
    characters at a backslash; when the second is the terminator it runs past the text.
  */
  function ParseString(s: string): (r: Outcome<(string, string)>)
    ensures r.Parsed? ==> |r.value.1| < |s|
  {
    if At(s, 0) != '\"' then Rejected
    else if 1 + BodyLength(s[1..]) > |s| then Overrun
    else
      var n := BodyLength(s[1..]);
      match Decode(Take(s[1..], n))
      case None => Rejected
      case Some(value) =>
        var rest := Drop(s[1..], n);
        Parsed((value, if At(rest, 0) == '\"' then rest[1..] else rest))
  }

  // ----- Printing and parsing undo each other -----

  lemma ParseHex4OfHex4(n: nat, rest: string)
    requires n < 0x10000
    ensures ParseHex4(Hex4(n) + rest) == n
  {
    hide HexValue, HexDigit;
    var t := Hex4(n);
    assert At(t + rest, 0) == t[0] && At(t + rest, 1) == t[1] && At(t + rest, 2) == t[2] && At(t + rest, 3) == t[3];
    assert n / 16 == n / 256 * 16 + n / 16 % 16;
    assert n / 256 == n / 4096 * 16 + n / 256 % 16;
  }

  lemma DecodeUnitOfEscapeChar(c: char, rest: string)
    requires c != NUL
    ensures DecodeUnit(EscapeChar(c) + rest) == Some(([c], |EscapeChar(c)|))
  {
    var t := EscapeChar(c);
    if NeedsEscape(c) {
      assert (t + rest)[0] == t[0] && (t + rest)[1] == t[1];
      if t[1] == 'u' {
        assert Drop(t + rest, 2) == Hex4(c as nat) + rest;
        ParseHex4OfHex4(c as nat, rest);
      }
    }
  }

  lemma {:induction false} DecodeOfEscaped(s: string)
    requires IsCString(s)
    ensures Decode(Escaped(s)) == Some(s)
  {
    if s != "" {
      var first, more := EscapeChar(s[0]), Escaped(s[1..]);
      DecodeUnitOfEscapeChar(s[0], more);
      assert Drop(first + more, |first|) == more;
      DecodeOfEscaped(s[1..]);
      assert [s[0]] + s[1..] == s;
    }
  }

  /** The body of a printed literal ends at its closing quote. */
  lemma {:induction false} BodyLengthOfEscaped(s: string, rest: string)
    requires IsCString(s)
    ensures BodyLength(Escaped(s) + "\"" + rest) == |Escaped(s)|
  {
    if s == "" {
      assert Escaped(s) + "\"" + rest == "\"" + rest;
    } else {
      var first, tail := EscapeChar(s[0]), Escaped(s[1..]) + "\"" + rest;
      assert Escaped(s) + "\"" + rest == first + tail;
      BodyLengthOfEscaped(s[1..], rest);
      BodyLengthOfEscapeChar(s[0], tail);
    }
  }

  lemma BodyLengthOfEscapeChar(c: char, tail: string)
    requires c != NUL
    ensures BodyLength(EscapeChar(c) + tail) == |EscapeChar(c)| + BodyLength(tail)
  {
    var t := EscapeChar(c);
    if |t| == 6 {
      assert Drop(t + tail, 2) == Hex4(c as nat) + tail;
      BodyLengthOfPlain(Hex4(c as nat), tail);
    } else {
      assert Drop(t + tail, |t|) == tail;
      assert (t + tail)[|t|..] == tail;
    }
  }

  lemma {:induction false} BodyLengthOfPlain(t: string, tail: string)
    requires forall i | 0 <= i < |t| :: t[i] != '\"' && t[i] != NUL && t[i] != '\\'
    ensures BodyLength(t + tail) == |t| + BodyLength(tail)
  {
    if t == "" {
      assert t + tail == tail;
    } else {
      assert (t + tail)[1..] == t[1..] + tail;
      BodyLengthOfPlain(t[1..], tail);
    }
  }

  /** Parsing a printed literal gives the string back and stops right after the closing quote. */
  lemma ParseStringOfQuoted(s: string, rest: string)
    requires IsCString(s)
    ensures ParseString(Quoted(s) + rest) == Parsed((s, rest))
  {
    hide Escaped, Decode, BodyLength;
    var text, body := Quoted(s) + rest, Escaped(s);
    assert text[1..] == body + "\"" + rest;
    BodyLengthOfEscaped(s, rest);
    assert Take(text[1..], |body|) == body;
    assert Drop(text[1..], |body|) == "\"" + rest;
    DecodeOfEscaped(s);
  }

  // ----- The buffer of the parser is large enough -----

  /** A decoded unit ends where a unit of the first pass ends, and takes no more bytes than that pass counted. */
  lemma DecodeUnitFits(t: string)
    requires Take(t, BodyLength(t)) != "" && DecodeUnit(Take(t, BodyLength(t))).Some?
    ensures var (bytes, n) := DecodeUnit(Take(t, BodyLength(t))).value;
            && BodyLength(t) == n + BodyLength(Drop(t, n))
            && BodyUnits(t) >= |bytes| + BodyUnits(Drop(t, n))
  {
    var lit := Take(t, BodyLength(t));
    var (bytes, n) := DecodeUnit(lit).value;
    if lit[0] == '\\' && At(lit, 1) == 'u' {
      assert Drop(t, 2)[..4] == Drop(lit, 2)[..4];
      BodyOfPlain(Drop(t, 2), 4);
      assert Drop(Drop(t, 2), 4) == Drop(t, 6);
      if n == 12 {
        assert t[6] == lit[6] && t[7] == lit[7];
        assert Drop(Drop(t, 6), 2) == Drop(t, 8);
        assert Drop(t, 8)[..4] == Drop(lit, 8)[..4];
        BodyOfPlain(Drop(t, 8), 4);
        assert Drop(Drop(t, 8), 4) == Drop(t, 12);
      }
    }
  }

  lemma {:induction false} BodyOfPlain(t: string, k: nat)
    requires k <= |t|
    requires forall i | 0 <= i < k :: t[i] != '\"' && t[i] != NUL && t[i] != '\\'
    ensures BodyLength(t) == k + BodyLength(Drop(t, k))
    ensures BodyUnits(t) == k + BodyUnits(Drop(t, k))
  {
    if k > 0 {
      BodyOfPlain(t[1..], k - 1);
      assert Drop(t[1..], k - 1) == Drop(t, k);
    }
  }

  /** Decoding never writes more bytes than the first pass of the parser counted. */
  lemma {:induction false} DecodedFits(t: string)
    ensures var decoded := Decode(Take(t, BodyLength(t)));
            decoded.Some? ==> |decoded.value| <= BodyUnits(t)
    decreases |t|
  {
    var lit := Take(t, BodyLength(t));
    if lit != "" && Decode(lit).Some? {
      DecodeUnitFits(t);
      var n := DecodeUnit(lit).value.1;
      TakeDrop(t, n);
      DecodedFits(Drop(t, n));
    }
  }

  lemma TakeDrop(t: string, n: nat)
    requires BodyLength(t) == n + BodyLength(Drop(t, n))
    ensures Drop(Take(t, BodyLength(t)), n) == Take(Drop(t, n), BodyLength(Drop(t, n)))
  {
  }

  // ----- When the first pass leaves the text -----

  /** How many backslashes a text ends with. */
  function EndingBackslashes(t: string): nat {
    if t != "" && t[|t| - 1] == '\\' then 1 + EndingBackslashes(t[..|t| - 1]) else 0
  }

  /** The quote at `k` is not escaped: it closes the literal whose body this is. */
  predicate ClosesAt(body: string, k: nat)
    requires k < |body|
  {
    body[k] == '\"' && EndingBackslashes(body[..k]) % 2 == 0
  }

  predicate IsClosed(body: string) {
    exists k | 0 <= k < |body| :: ClosesAt(body, k)
  }

  lemma {:induction false} EndingBackslashesOfRest(c: char, t: string)
    requires c != '\\'
    ensures EndingBackslashes([c] + t) == EndingBackslashes(t)
    decreases |t|
  {
    var s := [c] + t;
    if t != "" {
      assert s[..|s| - 1] == [c] + t[..|t| - 1];
      EndingBackslashesOfRest(c, t[..|t| - 1]);
    } else {
      assert s[|s| - 1] == c;
    }
  }

  /** A backslash and the character behind it change no parity. */
  lemma {:induction false} EndingBackslashesOfPair(c: char, t: string)
    ensures EndingBackslashes(['\\', c] + t) % 2 == EndingBackslashes(t) % 2
    decreases |t|
  {
    var s := ['\\', c] + t;
    if t != "" {
      assert s[..|s| - 1] == ['\\', c] + t[..|t| - 1];
      EndingBackslashesOfPair(c, t[..|t| - 1]);
    } else {
      assert s == ['\\', c] && s[..1] == ['\\'] && s[..1][..0] == "";
      assert EndingBackslashes(s[..1]) == 1;
    }
  }

  /**
    The first pass leaves the text exactly when the literal is not closed and the text
    ends with an unpaired backslash.
  */
  lemma {:induction false} BodyOverruns(body: string)
    requires IsCString(body)
    ensures BodyLength(body) > |body| <==> !IsClosed(body) && EndingBackslashes(body) % 2 == 1
    decreases |body|
  {
    if body == "" {
    } else if body[0] == '\"' {
      assert body[..0] == "" && ClosesAt(body, 0);
    } else if body[0] != '\\' {
      var rest := body[1..];
      BodyOverruns(rest);
      assert body == [body[0]] + rest;
      EndingBackslashesOfRest(body[0], rest);
      ClosedRest(body);
    } else if |body| == 1 {
      assert body[..0] == "" && EndingBackslashes(body) == 1;
    } else {
      var rest := body[2..];
      BodyOverruns(rest);
      assert body == ['\\', body[1]] + rest && Drop(body, 2) == rest;
      EndingBackslashesOfPair(body[1], rest);
      ClosedPair(body);
    }
  }

  lemma ClosedRest(body: string)
    requires body != "" && body[0] != '\\' && body[0] != '\"'
    ensures IsClosed(body) <==> IsClosed(body[1..])
  {
    var rest := body[1..];
    forall k: nat | k < |rest| ensures ClosesAt(rest, k) <==> ClosesAt(body, k + 1) {
      assert body[..k + 1] == [body[0]] + rest[..k];
      EndingBackslashesOfRest(body[0], rest[..k]);
    }
    if IsClosed(body) {
      var k :| 0 <= k < |body| && ClosesAt(body, k);
      assert ClosesAt(rest, k - 1);
    }
  }

  lemma ClosedPair(body: string)
    requires |body| >= 2 && body[0] == '\\'
    ensures IsClosed(body) <==> IsClosed(body[2..])
  {
    var rest := body[2..];
    forall k: nat | k < |rest| ensures ClosesAt(rest, k) <==> ClosesAt(body, k + 2) {
      assert body[..k + 2] == ['\\', body[1]] + rest[..k];
      EndingBackslashesOfPair(body[1], rest[..k]);
    }
    if IsClosed(body) {
      var k :| 0 <= k < |body| && ClosesAt(body, k);
      assert body[..1] == ['\\'] && body[..1][..0] == "";
      assert EndingBackslashes(body[..1]) == 1;
      assert ClosesAt(rest, k - 2);
    }
  }

  /** When a literal makes the parser run past its text, in terms of the text. */
  lemma LiteralOverruns(s: string)
    requires At(s, 0) == '\"' && IsCString(s)
    ensures ParseString(s) == Overrun <==> !IsClosed(s[1..]) && EndingBackslashes(s[1..]) % 2 == 1
  {
    hide Decode;
    BodyOverruns(s[1..]);
  }

  /** In particular three characters are enough: a quote, a letter and a backslash. */
  lemma ShortestOverrun()
    ensures ParseString("\"a\\") == Overrun
  {
    var body := "a\\";
    assert "\"a\\"[1..] == body && body[1..] == "\\" && Drop("\\", 2) == "";
    assert BodyLength(body) == 3;
  }

  // ----- The parser's two passes over a literal -----

  /** A body ends at a quote or at the end of the text. */
  lemma {:induction false} BodyEnd(t: string)
    ensures At(t, BodyLength(t)) == '\"' || At(t, BodyLength(t)) == NUL
    decreases |t|
  {
    if At(t, 0) != '\"' && At(t, 0) != NUL {
      var n := if t[0] == '\\' then 2 else 1;
      BodyEnd(Drop(t, n));
      assert t[1..] == Drop(t, 1);
      assert At(t, BodyLength(t)) == At(Drop(t, n), BodyLength(t) - n);
    }
  }

  /** Characters and digits that an escape takes from the text before the end pointer are those of the body. */
  lemma UnitInText(str: string, ptr: nat, end: nat)
    requires 1 <= ptr < end && end == ptr + BodyLength(Drop(str, ptr))
    ensures var lit := Take(Drop(str, ptr), end - ptr);
            && lit != "" && lit[0] == At(str, ptr)
            && At(lit, 1) == (if ptr + 1 < end then At(str, ptr + 1) else NUL)
            && At(lit, 6) == (if ptr + 6 < end then At(str, ptr + 6) else NUL)
            && At(lit, 7) == (if ptr + 7 < end then At(str, ptr + 7) else NUL)
            && ParseHex4(Drop(lit, 2)) == (if ptr + 5 < end then ParseHex4(Drop(str, ptr + 2)) else 0)
            && ParseHex4(Drop(lit, 8)) == (if ptr + 11 < end then ParseHex4(Drop(str, ptr + 8)) else 0)
            && (At(str, ptr) == '\\' ==> ptr + 1 < end)
            && (ptr + 11 == end ==> ParseHex4(Drop(str, ptr + 8)) == 0)
  {
    var t := Drop(str, ptr);
    var lit := Take(t, end - ptr);
    BodyEnd(t);
    assert At(t, end - ptr) == At(str, end);
    assert forall k: nat {:trigger At(lit, k)} | ptr + k < end :: At(lit, k) == At(str, ptr + k);
    Hex4InText(str, ptr, end, 2);
    Hex4InText(str, ptr, end, 8);
  }

  lemma Hex4InText(str: string, ptr: nat, end: nat, k: nat)
    requires ptr < end
    ensures var lit := Take(Drop(str, ptr), end - ptr);
            ParseHex4(Drop(lit, k)) == (if ptr + k + 3 < end then ParseHex4(Drop(str, ptr + k)) else 0)
    ensures ptr + k + 3 == end && !IsHexDigit(At(str, end)) ==> ParseHex4(Drop(str, ptr + k)) == 0
  {
    var lit := Take(Drop(str, ptr), end - ptr);
    assert forall i: nat {:trigger At(Drop(lit, k), i)} :: At(Drop(lit, k), i) == At(lit, k + i);
    assert forall i: nat {:trigger At(Drop(str, ptr + k), i)} :: At(Drop(str, ptr + k), i) == At(str, ptr + k + i);
  }

  /**
    One turn of the second pass: the bytes of the unit at `ptr0` and how far the
    pointer moves.  Digits at or past the end pointer make the escape invalid.
  */
  method ReadUnit(str: string, ptr0: nat, end: nat) returns (r: Option<(string, nat)>)
    requires 1 <= ptr0 < end && end == ptr0 + BodyLength(Drop(str, ptr0))
    ensures r == DecodeUnit(Take(Drop(str, ptr0), end - ptr0))
  {
    hide ParseHex4, Utf8;
    UnitInText(str, ptr0, end);
    var ptr := ptr0;
    if At(str, ptr) != '\\' {
      return Some(([At(str, ptr)], 1));
    }
    ptr := ptr + 1;
    var c := At(str, ptr);
    if c != 'u' {
      return Some(([Unescape(c)], 2));
    }
    var uc := ParseHex4(Drop(str, ptr + 1));
    ptr := ptr + 4;
    if ptr >= end || IsLowSurrogate(uc) || uc == 0 {
      return None;
    }
    if IsHighSurrogate(uc) {
      if ptr + 6 > end || At(str, ptr + 1) != '\\' || At(str, ptr + 2) != 'u' {
        return None;
      }
      var uc2 := ParseHex4(Drop(str, ptr + 3));
      ptr := ptr + 6;
      if !IsLowSurrogate(uc2) {
        return None;
      }
      uc := PairValue(uc, uc2);
    }
    return Some((Utf8(uc), ptr + 1 - ptr0));
  }

  lemma UnitNonEmpty(str: string, ptr: nat, end: nat)
    requires ptr < end && end == ptr + BodyLength(Drop(str, ptr))
    ensures Take(Drop(str, ptr), end - ptr) != ""
  {
  }

  /**
    The second pass at `ptr`: `done` is decoded, the rest of the body is still to
    be decoded to make `whole`, and `room` bytes are enough for it.
  */
  ghost predicate Decoding(str: string, ptr: nat, end: nat, room: int, done: string, whole: Option<string>) {
    && 1 <= ptr <= end == ptr + BodyLength(Drop(str, ptr))
    && BodyUnits(Drop(str, ptr)) <= room
    && whole == Prepend(done, Decode(Take(Drop(str, ptr), end - ptr)))
  }

  /** One turn of the second pass: a rejected escape rejects the literal; a decoded one leaves room for the rest. */
  lemma DecodeStep(str: string, ptr: nat, end: nat, room: int, done: string, whole: Option<string>)
    requires Decoding(str, ptr, end, room, done, whole) && ptr < end
    ensures var lit := Take(Drop(str, ptr), end - ptr);
            && lit != ""
            && (DecodeUnit(lit).None? ==> whole == None)
            && (DecodeUnit(lit).Some? ==>
                  var (bytes, n) := DecodeUnit(lit).value;
                  n >= 1 && |bytes| <= room && Decoding(str, ptr + n, end, room - |bytes|, done + bytes, whole))
  {
    hide DecodeUnit, BodyLength, BodyUnits;
    UnitNonEmpty(str, ptr, end);
    var lit := Take(Drop(str, ptr), end - ptr);
    if DecodeUnit(lit).Some? {
      var (bytes, n) := DecodeUnit(lit).value;
      DecodeUnitFits(Drop(str, ptr));
      NextUnit(str, ptr, end, n);
      PrependPrepend(done, bytes, Decode(Drop(lit, n)));
    }
  }

  lemma DecodeStart(str: string, end: nat)
    requires end == 1 + BodyLength(Drop(str, 1))
    ensures Decoding(str, 1, end, BodyUnits(Drop(str, 1)), "", Decode(Take(Drop(str, 1), end - 1)))
  {
    PrependPrepend("", "", Decode(Take(Drop(str, 1), end - 1)));
  }

  lemma DecodeEnd(str: string, end: nat, room: int, done: string, whole: Option<string>)
    requires Decoding(str, end, end, room, done, whole)
    ensures room >= 0 && whole == Some(done)
  {
    assert Take(Drop(str, end), 0) == "" && done + "" == done;
  }

  /**
    Parses a string literal.  The first pass finds the closing quote and counts the
    bytes to allocate; the second decodes into the allocated buffer, whose every
    write is in bounds.  The method gives up where the first pass leaves the text.
  */
  method ParseStringLiteral(str: string) returns (r: Outcome<(string, string)>)
    ensures r == ParseString(str)
  {
    if At(str, 0) != '\"' {
      return Rejected;
    }
    var end, len := 1, 0;
    while end <= |str| && At(str, end) != '\"' && At(str, end) != NUL
      invariant 1 <= end <= |str| + 1
      invariant end + BodyLength(Drop(str, end)) == 1 + BodyLength(str[1..])
      invariant len + BodyUnits(Drop(str, end)) == BodyUnits(str[1..])
      decreases |str| + 1 - end
    {
      assert Drop(str, end)[1..] == Drop(str, end + 1) && Drop(Drop(str, end), 2) == Drop(str, end + 2);
      len := len + 1;
      end := if str[end] == '\\' then end + 2 else end + 1;
    }
    if end > |str| {
      return Overrun;
    }
    assert Drop(str, 1) == str[1..];
    var value := DecodeLiteral(str, end, len);
    if value.None? {
      return Rejected;
    }
    var rest := Drop(str, end);
    return Parsed((value.value, if At(rest, 0) == '\"' then rest[1..] else rest));
  }

  method DecodeLiteral(str: string, end: nat, len: nat) returns (r: Option<string>)
    requires end == 1 + BodyLength(Drop(str, 1)) && len == BodyUnits(Drop(str, 1))
    ensures r == Decode(Take(Drop(str, 1), end - 1))
  {
    hide Decoding, Decode, DecodeUnit, BodyLength, BodyUnits;
    var out := new char[len + 1];
    var ptr: nat, w: nat := 1, 0;
    ghost var whole := Decode(Take(Drop(str, 1), end - 1));
    DecodeStart(str, end);
    assert out[..0] == "";
    while ptr < end
      invariant ptr <= end && w <= len
      invariant Decoding(str, ptr, end, len - w, out[..w], whole)
    {
      DecodeStep(str, ptr, end, len - w, out[..w], whole);
      DecodingBody(str, ptr, end, len - w, out[..w], whole);
      var next := ReadUnit(str, ptr, end);
      if next.None? {
        return None;
      }
      var (bytes, n) := next.value;
      CopyText(out, w, bytes);
      ptr, w := ptr + n, w + |bytes|;
      DecodingBody(str, ptr, end, len - w, out[..w], whole);
    }
    DecodeEnd(str, end, len - w, out[..w], whole);
    out[w] := NUL;
    return Some(out[..w]);
  }

  lemma DecodingBody(str: string, ptr: nat, end: nat, room: int, done: string, whole: Option<string>)
    requires Decoding(str, ptr, end, room, done, whole)
    ensures 1 <= ptr <= end == ptr + BodyLength(Drop(str, ptr))
  {
  }

  lemma PrependPrepend(s: string, t: string, r: Option<string>)
    ensures Prepend("", r) == r
    ensures Prepend(s, Prepend(t, r)) == Prepend(s + t, r)
  {
    if r.Some? {
      assert "" + r.value == r.value;
      assert s + (t + r.value) == s + t + r.value;
    }
  }

  lemma NextUnit(str: string, ptr: nat, end: nat, n: nat)
    requires 1 <= ptr && ptr + n <= end
    ensures Drop(Take(Drop(str, ptr), end - ptr), n) == Take(Drop(str, ptr + n), end - (ptr + n))
    ensures Drop(Drop(str, ptr), n) == Drop(str, ptr + n)
  {
  }

  // ----- The printer's passes over a string -----

  method HasSpecial(s: string) returns (flag: bool)
    ensures !flag ==> Escaped(s) == s
  {
    flag := false;
    for i := 0 to |s|
      invariant flag <==> exists k | 0 <= k < i :: NeedsEscape(s[k])
    {
      flag := flag || NeedsEscape(s[i]);
    }
    if !flag {
      EscapedPlain(s);
    }
  }

  lemma {:induction false} EscapedPlain(s: string)
    requires forall k | 0 <= k < |s| :: !NeedsEscape(s[k])
    ensures Escaped(s) == s
  {
    if s != "" {
      EscapedPlain(s[1..]);
      assert [s[0]] + s[1..] == s;
    }
  }

  /** The counting pass: one byte a character, plus one for a short escape or five for a \u escape. */
  method CountEscaped(s: string) returns (len: nat)
    ensures len == |Escaped(s)|
  {
    len := 0;
    for i := 0 to |s|
      invariant len + |Escaped(s[i..])| == |Escaped(s)|
    {
      var token := s[i];
      assert s[i..][0] == token && s[i..][1..] == s[i + 1..];
      len := len + 1;
      if token in ['\"', '\\', BACKSPACE, FORM_FEED, '\n', '\r', '\t'] {
        len := len + 1;
      } else if token as nat < 32 {
        len := len + 5;
      }
    }
  }

  /** Writes the literal of `s` and a terminator to `a[at..]`, escaping as it goes; it takes |Escaped(s)| + 3 bytes. */
  method WriteEscaped(a: array<char>, at: nat, s: string)
    requires at + |Escaped(s)| + 3 <= a.Length
    modifies a
    ensures a[..at] == old(a[..at])
    ensures Holds(a, at, Quoted(s))
  {
    hide EscapeChar, Escaped;
    ghost var before, done := a[..at], "\"";
    CopyText(a, at, "\"");
    var w := at + 1;
    for i := 0 to |s|
      invariant w == at + |done| && done + Escaped(s[i..]) == "\"" + Escaped(s)
      invariant a[..w] == before + done
    {
      EscapedStep(s, i, done);
      var t := EscapeChar(s[i]);
      w := Append(a, w, t, before, done);
      done := done + t;
    }
    EscapedNothing(s, done);
    w := Append(a, w, "\"", before, done);
    a[w] := NUL;
    assert a[..w] == before + Quoted(s);
  }

  lemma EscapedNothing(s: string, done: string)
    ensures done + Escaped(s[|s|..]) == done
  {
  }

  lemma EscapedStep(s: string, i: nat, done: string)
    requires i < |s|
    ensures done + Escaped(s[i..]) == (done + EscapeChar(s[i])) + Escaped(s[i + 1..])
  {
    assert s[i..][0] == s[i] && s[i..][1..] == s[i + 1..];
  }

  /** Writes a string that needs no escape between quotes, with a terminator. */
  method WritePlain(a: array<char>, at: nat, s: string)
    requires at + |s| + 3 <= a.Length
    modifies a
    ensures a[..at] == old(a[..at])
    ensures Holds(a, at, "\"" + s + "\"")
  {
    CopyText(a, at, "\"");
    CopyText(a, at + 1, s);
    CopyText(a, at + 1 + |s|, "\"");
    a[at + 2 + |s|] := NUL;
  }

  /** How many bytes the literal of `s` and its terminator take, and whether an escape is needed. */
  method LiteralSize(s: string) returns (size: nat, flag: bool)
    ensures size == |Quoted(s)| + 1
    ensures !flag ==> Escaped(s) == s
  {
    flag := HasSpecial(s);
    var len := |s|;
    if flag {
      len := CountEscaped(s);
    }
    size := len + 3;
  }

  method WriteLiteral(a: array<char>, at: nat, s: string, flag: bool)
    requires at + |Quoted(s)| < a.Length
    requires !flag ==> Escaped(s) == s
    modifies a
    ensures a[..at + |Quoted(s)|] == old(a[..at]) + Quoted(s) && a[at + |Quoted(s)|] == NUL
  {
    ghost var before := a[..at];
    if !flag {
      WritePlain(a, at, s);
    } else {
      WriteEscaped(a, at, s);
    }
    HeldAfter(a, at, Quoted(s));
  }

  lemma HeldAfter(a: array<char>, at: nat, t: string)
    requires Holds(a, at, t)
    ensures a[..at + |t|] == a[..at] + t
  {
    assert a[..at + |t|] == a[..at] + a[at..at + |t|];
  }

  /** Prints a string as a literal into memory of its own. */
  method PrintString(s: string) returns (out: array<char>)
    ensures fresh(out) && Holds(out, 0, Quoted(s))
  {
    var size, flag := LiteralSize(s);
    out := new char[size];
    WriteLiteral(out, 0, s, flag);
  }
}
