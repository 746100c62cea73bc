/**
  What the parser makes of \u escapes, against an independent UTF-8 decoder
  written from RFC 3629, section 4.
*/
module JsonUnicode {
  import opened CText
  import opened Wrappers
  import opened JsonString

  /** A code point that an escape can name: not zero, not a surrogate, at most 10FFFF. */
  predicate IsScalar(u: nat) {
    0 < u < 0x110000 && !IsHighSurrogate(u) && !IsLowSurrogate(u)
  }

  predicate IsTail(c: char) {
    0x80 <= c as nat <= 0xBF
  }

  function TailBits(c: char): nat
    requires IsTail(c)
  {
    c as nat - 0x80
  }

  /** The first code point of a UTF-8 text and its length, by the byte ranges of the UTF8-octets grammar. */
  function ReadUtf8(t: string): Option<(nat, nat)>
    requires t != ""
  {
    var b := t[0] as nat;
    if b <= 0x7F then Some((b, 1))
    else if 0xC2 <= b <= 0xDF && IsTail(At(t, 1)) then
      Some(((b - 0xC0) * 64 + TailBits(At(t, 1)), 2))
    else if 0xE0 <= b <= 0xEF && IsTail(At(t, 1)) && IsTail(At(t, 2))
         && (b == 0xE0 ==> 0xA0 <= At(t, 1) as nat) && (b == 0xED ==> At(t, 1) as nat <= 0x9F) then
      Some(((b - 0xE0) * 4096 + TailBits(At(t, 1)) * 64 + TailBits(At(t, 2)), 3))
    else if 0xF0 <= b <= 0xF4 && IsTail(At(t, 1)) && IsTail(At(t, 2)) && IsTail(At(t, 3))
         && (b == 0xF0 ==> 0x90 <= At(t, 1) as nat) && (b == 0xF4 ==> At(t, 1) as nat <= 0x8F) then
      Some(((b - 0xF0) * 262144 + TailBits(At(t, 1)) * 4096 + TailBits(At(t, 2)) * 64 + TailBits(At(t, 3)), 4))
    else None
  }

  function CodePoints(t: string): Option<seq<nat>>
    decreases |t|
  {
    if t == "" then Some([])
    else
      match ReadUtf8(t)
      case None => None
      case Some((u, n)) =>
        if n == 0 then None
        else
          match CodePoints(Drop(t, n))
          case None => None
          case Some(us) => Some([u] + us)
  }

  /** The UTF-8 encoding of a sequence of code points. */
  function Utf8Text(us: seq<nat>): string
    requires forall i | 0 <= i < |us| :: IsScalar(us[i])
  {
    if us == [] then "" else assert IsScalar(us[0]); Utf8(us[0]) + Utf8Text(us[1..])
  }

  /** The text is a \u escape of the code point: one escape up to FFFF, a surrogate pair above. */
  predicate Escapes(t: string, u: nat)
    requires IsScalar(u)
  {
    if u < 0x10000 then
      |t| == 6 && t[..2] == "\\u" && ParseHex4(t[2..]) == u
    else
      && |t| == 12 && t[..2] == "\\u" && t[6..8] == "\\u"
      && ParseHex4(t[2..6]) == 0xD800 + (u - 0x10000) / 1024
      && ParseHex4(t[8..]) == 0xDC00 + (u - 0x10000) % 1024
  }

  predicate AllEscape(ts: seq<string>, us: seq<nat>) {
    && |ts| == |us|
    && (forall i | 0 <= i < |us| :: IsScalar(us[i]))
    && (forall i | 0 <= i < |us| :: Escapes(ts[i], us[i]))
  }

  function Join(ts: seq<string>): string {
    if ts == [] then "" else ts[0] + Join(ts[1..])
  }

  lemma HexPrefix(t: string, rest: string)
    requires |t| == 4
    ensures ParseHex4(t + rest) == ParseHex4(t)
  {
    assert forall i | 0 <= i < 4 :: (t + rest)[i] == t[i];
  }

  /** The parser reads one escape as one unit, whichever text follows. */
  lemma ReadEscape(t: string, u: nat, rest: string)
    requires IsScalar(u) && Escapes(t, u)
    ensures DecodeUnit(t + rest) == Some((Utf8(u), |t|))
    ensures BodyLength(t + rest) == |t| + BodyLength(rest)
  {
    if u < 0x10000 { ReadShortEscape(t, u, rest); } else { ReadPairEscape(t, u, rest); }
  }

  lemma ReadShortEscape(t: string, u: nat, rest: string)
    requires IsScalar(u) && u < 0x10000 && Escapes(t, u)
    ensures DecodeUnit(t + rest) == Some((Utf8(u), 6))
    ensures BodyLength(t + rest) == 6 + BodyLength(rest)
  {
    hide Utf8;
    var s := t + rest;
    assert s[0] == t[..2][0] && s[1] == t[..2][1];
    assert Drop(s, 2) == t[2..] + rest;
    HexPrefix(t[2..], rest);
    PlainHex(t[2..], rest);
  }

  lemma ReadPairEscape(t: string, u: nat, rest: string)
    requires IsScalar(u) && u >= 0x10000 && Escapes(t, u)
    ensures DecodeUnit(t + rest) == Some((Utf8(u), 12))
    ensures BodyLength(t + rest) == 12 + BodyLength(rest)
  {
    hide Utf8, ParseHex4;
    var s, tail := t + rest, t[6..] + rest;
    assert s[0] == t[..2][0] && s[1] == t[..2][1];
    assert s[6] == tail[0] == t[6..8][0] && s[7] == tail[1] == t[6..8][1];
    assert Drop(s, 2) == t[2..6] + tail;
    HexPrefix(t[2..6], tail);
    PlainHex(t[2..6], tail);
    assert Drop(s, 8) == Drop(tail, 2) == t[8..] + rest;
    HexPrefix(t[8..], rest);
    PlainHex(t[8..], rest);
    assert PairValue(ParseHex4(t[2..6]), ParseHex4(t[8..])) == u;
  }

  lemma PlainHex(t: string, rest: string)
    requires |t| == 4 && ParseHex4(t) != 0
    ensures BodyLength(t + rest) == 4 + BodyLength(rest)
  {
    BodyLengthOfPlain(t, rest);
  }

  lemma {:induction false} DecodeEscapes(ts: seq<string>, us: seq<nat>)
    requires AllEscape(ts, us)
    ensures Decode(Join(ts)) == Some(Utf8Text(us))
  {
    if ts != [] {
      hide DecodeUnit, Utf8, Escapes, BodyLength;
      var more := Join(ts[1..]);
      ReadEscape(ts[0], us[0], more);
      assert Drop(ts[0] + more, |ts[0]|) == more;
      DecodeEscapes(ts[1..], us[1..]);
    }
  }

  lemma {:induction false} EscapesAreBody(ts: seq<string>, us: seq<nat>, rest: string)
    requires AllEscape(ts, us)
    ensures BodyLength(Join(ts) + "\"" + rest) == |Join(ts)|
  {
    if ts == [] {
      assert Join(ts) + "\"" + rest == "\"" + rest;
    } else {
      hide DecodeUnit, Utf8, Escapes, BodyLength;
      var more := Join(ts[1..]) + "\"" + rest;
      ReadEscape(ts[0], us[0], more);
      assert Join(ts) + "\"" + rest == ts[0] + more;
      EscapesAreBody(ts[1..], us[1..], rest);
    }
  }

  /** A literal made of \u escapes parses to the UTF-8 encoding of the code points they name. */
  lemma ParseEscapes(ts: seq<string>, us: seq<nat>, rest: string)
    requires AllEscape(ts, us)
    ensures ParseString("\"" + Join(ts) + "\"" + rest) == Parsed((Utf8Text(us), rest))
  {
    hide Decode, Utf8Text, Escapes;
    var text, body := "\"" + Join(ts) + "\"" + rest, Join(ts);
    assert text[1..] == body + "\"" + rest;
    DecodeEscapes(ts, us);
    EscapesAreBody(ts, us, rest);
    assert Take(text[1..], |body|) == body && Drop(text[1..], |body|) == "\"" + rest;
  }

  lemma ReadShortUtf8(u: nat, rest: string)
    requires u < 0x800
    ensures ReadUtf8(Utf8(u) + rest) == Some((u, Utf8Length(u)))
  {
    var t := Utf8(u) + rest;
    assert t[0] == Utf8(u)[0];
    if u >= 0x80 {
      assert At(t, 1) == Utf8(u)[1];
      assert u / 64 * 64 + u % 64 == u;
    }
  }

  lemma ReadThreeByteUtf8(u: nat, rest: string)
    requires 0x800 <= u < 0x10000 && IsScalar(u)
    ensures ReadUtf8(Utf8(u) + rest) == Some((u, 3))
  {
    var t := Utf8(u) + rest;
    assert t[0] == Utf8(u)[0] && At(t, 1) == Utf8(u)[1] && At(t, 2) == Utf8(u)[2];
    assert u / 64 == u / 4096 * 64 + u / 64 % 64;
  }

  lemma ReadFourByteUtf8(u: nat, rest: string)
    requires 0x10000 <= u && IsScalar(u)
    ensures ReadUtf8(Utf8(u) + rest) == Some((u, 4))
  {
    var t := Utf8(u) + rest;
    assert t[0] == Utf8(u)[0] && At(t, 1) == Utf8(u)[1] && At(t, 2) == Utf8(u)[2] && At(t, 3) == Utf8(u)[3];
    assert u / 64 == u / 4096 * 64 + u / 64 % 64;
    assert u / 4096 == u / 262144 * 64 + u / 4096 % 64;
  }

  lemma ReadUtf8OfUtf8(u: nat, rest: string)
    requires IsScalar(u)
    ensures ReadUtf8(Utf8(u) + rest) == Some((u, Utf8Length(u)))
  {
    hide ReadUtf8, Utf8;
    if u < 0x800 {
      ReadShortUtf8(u, rest);
    } else if u < 0x10000 {
      ReadThreeByteUtf8(u, rest);
    } else {
      ReadFourByteUtf8(u, rest);
    }
  }

  /** Those bytes are UTF-8, and decoding them gives the same code points. */
  lemma {:induction false} CodePointsOfUtf8Text(us: seq<nat>)
    requires forall i | 0 <= i < |us| :: IsScalar(us[i])
    ensures CodePoints(Utf8Text(us)) == Some(us)
  {
    if us != [] {
      var more := Utf8Text(us[1..]);
      ReadUtf8OfUtf8(us[0], more);
      assert Drop(Utf8(us[0]) + more, Utf8Length(us[0])) == more;
      CodePointsOfUtf8Text(us[1..]);
      assert [us[0]] + us[1..] == us;
    }
  }

  /** The mask and shift forms of the source are the quotients and remainders used here. */
  lemma BitForms(u: bv32, high: bv32, low: bv32)
    ensures (u | 0x80) & 0xBF == 0x80 + u % 64
    ensures u >> 6 == u / 64
    ensures (u % 0x20) | 0xC0 == 0xC0 + u % 0x20
    ensures (u % 0x10) | 0xE0 == 0xE0 + u % 0x10
    ensures (u % 0x08) | 0xF0 == 0xF0 + u % 0x08
    ensures ((high & 0x3FF) << 10) | (low & 0x3FF) == high % 1024 * 1024 + low % 1024
  {
  }
}
