/**
  The url-encoded parameters, against two readers: one that splits them back into pairs,
  and one that also decodes the pairs, as a reader of the announced type
  application/x-www-form-urlencoded does.  The text is sent without encoding it.
*/
module UrlEncoded {
  import opened CText
  import opened RequestFields
  import opened Wrappers

  /** What a request sends for its parameters. */
  function Encoded(fs: seq<Field>): string
    requires AllText(fs)
  {
    Joined(fs, "&", "=")
  }

  /** Length of a text up to the first of two characters, or all of it. */
  function Until(s: string, a: char, b: char): (n: nat)
    ensures n <= |s| && (forall i | 0 <= i < n :: s[i] != a && s[i] != b) && (n < |s| ==> s[n] == a || s[n] == b)
    decreases |s|
  {
    if s == "" || s[0] == a || s[0] == b then 0 else 1 + Until(s[1..], a, b)
  }

  /** The pair up to the first "&", split at the first "=" before it, and what is after the "&". */
  function FirstField(s: string): (r: Option<(Field, Option<string>)>)
    ensures r.Some? && r.value.1.Some? ==> |r.value.1.value| < |s|
  {
    var n := Until(s, '=', '&');
    if n == |s| || s[n] == '&' then None
    else
      var value := s[n + 1..];
      var m := Until(value, '&', '&');
      Some((TextField(s[..n], value[..m]), if m == |value| then None else Some(value[m + 1..])))
  }

  /** Splits at "&", and each piece at its first "="; a piece without "=" is not a parameter. */
  function Decoded(s: string): Option<seq<Field>>
    decreases |s|
  {
    match FirstField(s)
    case None => None
    case Some((field, None)) => Some([field])
    case Some((field, Some(rest))) =>
      match Decoded(rest)
      case None => None
      case Some(more) => Some([field] + more)
  }

  /** A pair that url encoding keeps apart from its neighbours. */
  predicate Separable(f: Field) {
    f.TextField? && Lacks(f.name, '=') && Lacks(f.name, '&') && Lacks(f.value, '&')
  }

  lemma {:induction false} UntilOf(t: string, rest: string, a: char, b: char)
    requires Lacks(t, a) && Lacks(t, b) && (rest == "" || rest[0] == a || rest[0] == b)
    ensures Until(t + rest, a, b) == |t|
    decreases |t|
  {
    if t == "" {
      assert t + rest == rest;
    } else {
      assert (t + rest)[1..] == t[1..] + rest;
      UntilOf(t[1..], rest, a, b);
    }
  }

  lemma FirstFieldIs(s: string, n: nat, value: string, m: nat)
    requires Until(s, '=', '&') == n < |s| && s[n] == '=' && s[n + 1..] == value && Until(value, '&', '&') == m
    ensures FirstField(s) == Some((TextField(s[..n], value[..m]), if m == |value| then None else Some(value[m + 1..])))
  {
    hide Until;
  }

  lemma FirstFieldOf(f: Field, more: Option<string>)
    requires Separable(f)
    ensures var tail := if more.Some? then "&" + more.value else "";
            FirstField(f.name + "=" + f.value + tail) == Some((f, more))
  {
    hide FirstField, Until, Lacks;
    var tail := if more.Some? then "&" + more.value else "";
    var value := f.value + tail;
    var s := f.name + ("=" + value);
    assert s == f.name + "=" + f.value + tail;
    UntilOf(f.name, "=" + value, '=', '&');
    UntilOf(f.value, tail, '&', '&');
    assert s[..|f.name|] == f.name && s[|f.name| + 1..] == value && value[..|f.value|] == f.value;
    FirstFieldIs(s, |f.name|, value, |f.value|);
    if more.Some? {
      assert value[|f.value| + 1..] == more.value;
    }
  }

  lemma {:induction false} DecodeEncoded(fs: seq<Field>)
    requires AllText(fs) && fs != [] && forall i | 0 <= i < |fs| :: Separable(fs[i])
    ensures Decoded(Encoded(fs)) == Some(fs)
    decreases |fs|
  {
    hide FirstField;
    var f := fs[0];
    if |fs| == 1 {
      assert fs[1..] == [] && fs == [f];
      assert Joined(fs[1..], "&", "=") == "";
      assert Encoded(fs) == f.name + "=" + f.value + "";
      FirstFieldOf(f, None);
    } else {
      var rest := Encoded(fs[1..]);
      assert Encoded(fs) == f.name + "=" + f.value + ("&" + rest);
      FirstFieldOf(f, Some(rest));
      DecodeEncoded(fs[1..]);
      assert [f] + fs[1..] == fs;
    }
  }

  lemma FirstFieldSeparable(s: string)
    requires FirstField(s).Some?
    ensures Separable(FirstField(s).value.0)
  {
  }

  lemma {:induction false} DecodedIsSeparable(s: string)
    requires Decoded(s).Some?
    ensures forall i | 0 <= i < |Decoded(s).value| :: Separable(Decoded(s).value[i])
    decreases |s|
  {
    hide FirstField, Separable;
    FirstFieldSeparable(s);
    var rest := FirstField(s).value.1;
    if rest.Some? {
      DecodedIsSeparable(rest.value);
    }
  }

  /** The parameters can be read back exactly when no name has "=" or "&" and no value has "&". */
  lemma UrlEncodedRoundTrip(fs: seq<Field>)
    requires AllText(fs) && fs != []
    ensures Decoded(Encoded(fs)) == Some(fs) <==> forall i | 0 <= i < |fs| :: Separable(fs[i])
  {
    if forall i | 0 <= i < |fs| :: Separable(fs[i]) {
      DecodeEncoded(fs);
    }
    if Decoded(Encoded(fs)) == Some(fs) {
      DecodedIsSeparable(Encoded(fs));
    }
  }

  // ----- Reading with decoding -----

  /** A percent sign with two hexadecimal digits behind it. */
  predicate IsEscape(t: string, i: nat) {
    At(t, i) == '%' && IsHexDigit(At(t, i + 1)) && IsHexDigit(At(t, i + 2))
  }

  /** "+" stands for a blank and %HH for a byte; any other percent sign stands for itself. */
  function Unescaped(t: string): (r: string)
    ensures |r| <= |t|
    decreases |t|
  {
    if t == "" then ""
    else if IsEscape(t, 0) then [(16 * HexValue(t[1]) + HexValue(t[2])) as char] + Unescaped(t[3..])
    else [if t[0] == '+' then ' ' else t[0]] + Unescaped(t[1..])
  }

  /** Nothing in the text stands for anything else. */
  predicate IsPlain(t: string) {
    Lacks(t, '+') && forall i | 0 <= i < |t| :: !IsEscape(t, i)
  }

  function UnescapedFields(fs: seq<Field>): (r: seq<Field>)
    requires AllText(fs)
    ensures |r| == |fs| && AllText(r)
    ensures forall i | 0 <= i < |fs| :: r[i] == TextField(Unescaped(fs[i].name), Unescaped(fs[i].value))
  {
    seq(|fs|, i requires 0 <= i < |fs| => TextField(Unescaped(fs[i].name), Unescaped(fs[i].value)))
  }

  /** What a reader of the announced type gets: the pairs, each decoded. */
  function FormDecoded(s: string): Option<seq<Field>> {
    match Decoded(s)
    case None => None
    case Some(fs) =>
      DecodedIsSeparable(s);
      Some(UnescapedFields(fs))
  }

  lemma PlainStep(t: string)
    requires t != ""
    ensures IsPlain(t) <==> t[0] != '+' && !IsEscape(t, 0) && IsPlain(t[1..])
  {
    forall i | 1 <= i < |t| ensures t[i] == t[1..][i - 1] && (IsEscape(t, i) <==> IsEscape(t[1..], i - 1)) {
      assert At(t, i + 1) == At(t[1..], i) && At(t, i + 2) == At(t[1..], i + 1);
    }
    hide IsEscape;
    if IsPlain(t) {
      forall i | 0 <= i < |t[1..]| ensures t[1..][i] != '+' && !IsEscape(t[1..], i) {
        assert t[i + 1] == t[1..][i] && !IsEscape(t, i + 1);
      }
    }
  }

  /** Decoding leaves a text alone just when it is plain. */
  lemma {:induction false} UnescapedIsSame(t: string)
    ensures Unescaped(t) == t <==> IsPlain(t)
    decreases |t|
  {
    if t != "" && !IsEscape(t, 0) {
      UnescapedIsSame(t[1..]);
      PlainStep(t);
      hide IsPlain, IsEscape;
      assert Unescaped(t)[1..] == Unescaped(t[1..]);
      assert [t[0]] + t[1..] == t;
    }
  }

  lemma SplitAt(s: string, n: nat)
    requires n < |s|
    ensures s == s[..n] + [s[n]] + s[n + 1..]
  {
  }

  /** Putting the pairs together again gives the text they were split from. */
  lemma FirstFieldJoins(s: string)
    requires FirstField(s).Some?
    ensures var (f, rest) := FirstField(s).value;
            s == f.name + "=" + f.value + if rest.Some? then "&" + rest.value else ""
  {
    var n := Until(s, '=', '&');
    var value := s[n + 1..];
    var m := Until(value, '&', '&');
    var first := s[..n] + "=";
    FirstFieldIs(s, n, value, m);
    hide FirstField, Until;
    SplitAt(s, n);
    if m < |value| {
      SplitAt(value, m);
      Associates(value[..m], "&", value[m + 1..]);
      Associates(first, value[..m], "&" + value[m + 1..]);
    } else {
      assert value[..m] == value;
    }
  }

  lemma {:induction false} EncodeDecoded(s: string)
    requires Decoded(s).Some?
    ensures var fs := Decoded(s).value; AllText(fs) && fs != [] && Encoded(fs) == s
    decreases |s|
  {
    DecodedIsSeparable(s);
    FirstFieldJoins(s);
    hide FirstField;
    var (f, rest) := FirstField(s).value;
    var fs := Decoded(s).value;
    if rest.Some? {
      EncodeDecoded(rest.value);
      assert fs[1..] == Decoded(rest.value).value;
    } else {
      assert fs[1..] == [] && Joined(fs[1..], "&", "=") == "";
    }
  }

  lemma SamePieces(a: string, b: string, c: string, d: string, e: string, f: string)
    requires |a| <= |d| && |b| <= |e| && |c| <= |f| && a + "=" + b + c == d + "=" + e + f
    ensures a == d && b == e && c == f
  {
    var x, y := a + "=" + b + c, d + "=" + e + f;
    assert |a| == |d| && |b| == |e| && |c| == |f|;
    assert x[..|a|] == a && x[|a| + 1..|a| + 1 + |b|] == b && x[|a| + 1 + |b|..] == c;
    assert y[..|a|] == d && y[|a| + 1..|a| + 1 + |b|] == e && y[|a| + 1 + |b|..] == f;
  }

  /** Decoded pairs are no longer in their text, and as they are when the text is the same. */
  lemma {:induction false} SameText(gs: seq<Field>)
    requires AllText(gs)
    ensures |Encoded(UnescapedFields(gs))| <= |Encoded(gs)|
    ensures Encoded(UnescapedFields(gs)) == Encoded(gs) ==> UnescapedFields(gs) == gs
    decreases |gs|
  {
    hide Unescaped;
    var fs := UnescapedFields(gs);
    if gs != [] {
      SameText(gs[1..]);
      assert fs[1..] == UnescapedFields(gs[1..]);
      var c, d := if |fs| == 1 then "" else "&" + Encoded(fs[1..]), if |gs| == 1 then "" else "&" + Encoded(gs[1..]);
      assert Encoded(fs) == fs[0].name + "=" + fs[0].value + c;
      assert Encoded(gs) == gs[0].name + "=" + gs[0].value + d;
      if Encoded(fs) == Encoded(gs) {
        SamePieces(fs[0].name, fs[0].value, c, gs[0].name, gs[0].value, d);
        assert |fs| > 1 ==> c[1..] == Encoded(fs[1..]) && d[1..] == Encoded(gs[1..]);
        assert fs == [fs[0]] + fs[1..] && gs == [gs[0]] + gs[1..];
      }
    }
  }

  lemma PlainFields(fs: seq<Field>)
    requires AllText(fs)
    ensures UnescapedFields(fs) == fs <==> forall i | 0 <= i < |fs| :: IsPlain(fs[i].name) && IsPlain(fs[i].value)
  {
    hide Unescaped, IsPlain;
    forall i | 0 <= i < |fs|
      ensures Unescaped(fs[i].name) == fs[i].name <==> IsPlain(fs[i].name)
      ensures Unescaped(fs[i].value) == fs[i].value <==> IsPlain(fs[i].value)
    {
      UnescapedIsSame(fs[i].name);
      UnescapedIsSame(fs[i].value);
    }
    var rs := UnescapedFields(fs);
    if rs == fs {
      forall i | 0 <= i < |fs| ensures IsPlain(fs[i].name) && IsPlain(fs[i].value) {
        assert rs[i] == fs[i];
      }
    }
  }

  /**
    A reader of the announced type gets the parameters exactly when, besides, no name and
    no value has a "+" or an escape in it.
  */
  lemma FormRoundTrip(fs: seq<Field>)
    requires AllText(fs) && fs != []
    ensures FormDecoded(Encoded(fs)) == Some(fs)
       <==> forall i | 0 <= i < |fs| :: Separable(fs[i]) && IsPlain(fs[i].name) && IsPlain(fs[i].value)
  {
    hide Decoded, Encoded, UnescapedFields, Separable, IsPlain;
    UrlEncodedRoundTrip(fs);
    PlainFields(fs);
    if FormDecoded(Encoded(fs)) == Some(fs) {
      var gs := Decoded(Encoded(fs)).value;
      EncodeDecoded(Encoded(fs));
      SameText(gs);
      assert UnescapedFields(gs) == fs;
    }
  }

  lemma SumUnescaped()
    ensures Unescaped("1+1") == "1 1" && IsPlain("sum")
  {
    assert "1+1"[1..] == "+1" && "+1"[1..] == "1" && "1"[1..] == "";
    assert Unescaped("1") == "1";
    assert Unescaped("+1") == " 1";
  }

  /** A sum is read with a blank in place of its sign, though it comes back from the splitting as it is. */
  lemma PlusIsRead()
    ensures var fs := [TextField("sum", "1+1")];
            Decoded(Encoded(fs)) == Some(fs) && FormDecoded(Encoded(fs)) == Some([TextField("sum", "1 1")])
  {
    SumUnescaped();
    UnescapedIsSame("sum");
    hide Decoded, Encoded, Unescaped, IsPlain;
    var fs := [TextField("sum", "1+1")];
    UrlEncodedRoundTrip(fs);
    assert UnescapedFields(fs) == [TextField("sum", "1 1")];
  }

  // ----- Callers that encode, as the documentation asks -----

  predicate IsByte(c: char) {
    c < '\U{100}'
  }

  predicate AreBytes(t: string) {
    forall i | 0 <= i < |t| :: IsByte(t[i])
  }

  predicate IsSafe(c: char) {
    IsDigit(c) || 'A' <= c <= 'Z' || 'a' <= c <= 'z'
  }

  function EscapedChar(c: char): string
    requires IsByte(c)
  {
    if IsSafe(c) then [c] else ['%', HexDigit(c as nat / 16), HexDigit(c as nat % 16)]
  }

  /** Percent-encodes everything but letters and digits. */
  function Escaped(t: string): string
    requires AreBytes(t)
  {
    if t == "" then "" else EscapedChar(t[0]) + Escaped(t[1..])
  }

  lemma UnescapedChar(c: char, rest: string)
    requires IsByte(c)
    ensures Unescaped(EscapedChar(c) + rest) == [c] + Unescaped(rest)
  {
    hide HexDigit, HexValue;
    var s := EscapedChar(c) + rest;
    if IsSafe(c) {
      assert s[0] == c && s[1..] == rest;
    } else {
      assert At(s, 0) == '%' && At(s, 1) == HexDigit(c as nat / 16) && At(s, 2) == HexDigit(c as nat % 16);
      assert s[3..] == rest;
    }
  }

  lemma UnescapedNothing()
    ensures Unescaped("") == ""
  {
  }

  lemma {:induction false} UnescapedOfEscaped(t: string)
    requires AreBytes(t)
    ensures Unescaped(Escaped(t)) == t
    ensures Lacks(Escaped(t), '=') && Lacks(Escaped(t), '&')
  {
    hide Unescaped, HexDigit;
    if t == "" {
      UnescapedNothing();
    } else {
      var head, rest := EscapedChar(t[0]), Escaped(t[1..]);
      assert forall i | 0 <= i < |head| :: IsSafe(head[i]) || head[i] == '%';
      UnescapedChar(t[0], rest);
      UnescapedOfEscaped(t[1..]);
    }
  }

  predicate AllBytes(fs: seq<Field>) {
    forall i | 0 <= i < |fs| :: fs[i].TextField? && AreBytes(fs[i].name) && AreBytes(fs[i].value)
  }

  function EscapedFields(fs: seq<Field>): (r: seq<Field>)
    requires AllBytes(fs)
    ensures |r| == |fs| && AllText(r)
    ensures forall i | 0 <= i < |fs| :: r[i] == TextField(Escaped(fs[i].name), Escaped(fs[i].value))
  {
    seq(|fs|, i requires 0 <= i < |fs| => TextField(Escaped(fs[i].name), Escaped(fs[i].value)))
  }

  /** Whatever a caller passes percent-encoded arrives as it was before. */
  lemma EncodedByCaller(fs: seq<Field>)
    requires AllBytes(fs) && fs != []
    ensures FormDecoded(Encoded(EscapedFields(fs))) == Some(fs)
  {
    hide Escaped, Unescaped, Encoded, Decoded, AreBytes;
    var es := EscapedFields(fs);
    forall i | 0 <= i < |fs| ensures Separable(es[i]) && UnescapedFields(es)[i] == fs[i] {
      UnescapedOfEscaped(fs[i].name);
      UnescapedOfEscaped(fs[i].value);
    }
    UrlEncodedRoundTrip(es);
    assert UnescapedFields(es) == fs;
  }

  /** The text of url-encoded parameters: it fills its memory up to the terminator. */
  method UrlEncodedParameters(list: FieldList) returns (buff: array?<char>, length: nat)
    requires list.Valid() && AllText(list.Fields())
    ensures list.Fields() == [] ==> buff == null && length == 0
    ensures list.Fields() != [] ==>
              && buff != null && fresh(buff) && length + 1 == buff.Length
              && Holds(buff, 0, Encoded(list.Fields())) && length == |Encoded(list.Fields())|
  {
    buff, length := WriteFields(list, "&", "=");
  }

  function AllAccepted(calls: seq<(string, string)>): seq<Field> {
    if calls == [] then [] else Accepted(calls[0].0, calls[0].1) + AllAccepted(calls[1..])
  }

  lemma NoneAccepted(calls: seq<(string, string)>)
    requires calls == []
    ensures AllAccepted(calls) == []
  {
  }

  lemma NextAccepted(fs: seq<Field>, calls: seq<(string, string)>, i: nat)
    requires i < |calls|
    ensures fs + AllAccepted(calls[i..]) == fs + Accepted(calls[i].0, calls[i].1) + AllAccepted(calls[i + 1..])
  {
    assert calls[i..][0] == calls[i] && calls[i..][1..] == calls[i + 1..];
  }

  /**
    A run of calls that add a parameter, each with the name and value passed: the list
    holds the accepted pairs in call order.
  */
  method AddParameters(list: FieldList, calls: seq<(string, string)>)
    requires list.Valid()
    modifies list.Repr
    ensures list.Valid()
    ensures list.Fields() == old(list.Fields()) + AllAccepted(calls)
  {
    ghost var all := list.Fields() + AllAccepted(calls);
    hide AllAccepted;
    for i := 0 to |calls|
      invariant list.Valid() && fresh(list.Repr - old(list.Repr))
      invariant list.Fields() + AllAccepted(calls[i..]) == all
    {
      NextAccepted(list.Fields(), calls, i);
      list.AddText(calls[i].0, calls[i].1);
    }
    assert AllAccepted(calls[|calls|..]) == [] by { NoneAccepted(calls[|calls|..]); }
  }
}
