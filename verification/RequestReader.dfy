/**
  A reader of HTTP/1.1 requests, written from sections 2.2, 3, 5 and 6 of RFC 9112 and
  the grammars they use from RFC 9110 and RFC 3986.  Targets are in origin form or in
  absolute form with the scheme http; the other two forms belong to the methods CONNECT
  and OPTIONS.  The reader knows no transfer coding, and refuses what a server may
  refuse: folded lines and lists of lengths.
*/
module RequestReader {
  import opened CText
  import opened Decimal
  import opened RequestFields
  import opened Wrappers

  const HOST: string := "Host"
  const CONTENT_LENGTH: string := "Content-Length"
  const TRANSFER_ENCODING: string := "Transfer-Encoding"

  /** A request: its method and target, where it is sent, its fields in order, and its body. */
  datatype Received = Received(
    verb: string, target: string, host: string, port: nat, fields: seq<Field>, body: string)

  // ----- Characters -----

  predicate IsAlphanumeric(c: char) {
    IsDigit(c) || 'A' <= c <= 'Z' || 'a' <= c <= 'z'
  }

  /** A method or field name (section 5.6.2 of RFC 9110). */
  predicate IsToken(t: string) {
    t != "" && forall i | 0 <= i < |t| :: IsAlphanumeric(t[i]) || t[i] in "!#$%&'*+-.^_`|~"
  }

  predicate IsBlank(c: char) {
    c == ' ' || c == '\t'
  }

  /** The content of a field (section 5.5 of RFC 9110), without blanks around it. */
  predicate IsFieldValue(v: string) {
    && (forall i | 0 <= i < |v| :: v[i] == '\t' || ' ' <= v[i] <= '~' || v[i] >= '\U{80}')
    && (v != "" ==> !IsBlank(v[0]) && !IsBlank(v[|v| - 1]))
  }

  /** Unreserved characters and delimiters of a URI (section 2 of RFC 3986), or a percent-encoded byte. */
  predicate IsUriChar(t: string, i: nat)
    requires i < |t|
  {
    || IsAlphanumeric(t[i])
    || t[i] in "-._~!$&'()*+,;="
    || (t[i] == '%' && IsHexDigit(At(t, i + 1)) && IsHexDigit(At(t, i + 2)))
  }

  /** An absolute path and perhaps a query (section 3.2.1). */
  predicate IsOriginForm(t: string) {
    t != "" && t[0] == '/' && forall i | 0 <= i < |t| :: IsUriChar(t, i) || t[i] in ":@/?"
  }

  predicate IsUriText(t: string) {
    forall i | 0 <= i < |t| :: IsUriChar(t, i) || t[i] in ":@/?[]"
  }

  /** A registered name, or an address in brackets; the address is not looked into any further. */
  predicate IsHost(h: string) {
    IsRegisteredName(h) || IsIpLiteral(h)
  }

  predicate IsRegisteredName(h: string) {
    h != "" && forall i | 0 <= i < |h| :: IsUriChar(h, i)
  }

  predicate IsIpLiteral(h: string) {
    |h| > 2 && h[0] == '[' && h[|h| - 1] == ']'
    && forall i | 0 < i < |h| - 1 :: IsAlphanumeric(h[i]) || h[i] in "-._~!$&'()*+,;=:"
  }

  predicate IsNumeral(t: string) {
    t != "" && AllDigits(t)
  }

  // ----- Lines -----

  predicate OneLine(t: string) {
    Lacks(t, '\r') && Lacks(t, '\n')
  }

  /** A line that ends with CRLF and has no other CR or LF, and what follows. */
  function ReadLine(s: string): (r: Option<(string, string)>)
    ensures r.Some? ==> OneLine(r.value.0) && |r.value.1| < |s|
    decreases |s|
  {
    if s == "" || s[0] == '\n' then None
    else if s[0] == '\r' then (if At(s, 1) == '\n' then Some(("", s[2..])) else None)
    else
      match ReadLine(s[1..])
      case None => None
      case Some((t, rest)) => Some(([s[0]] + t, rest))
  }

  /** What is before and after the first occurrence of a character. */
  function Cut(s: string, c: char): (r: Option<(string, string)>)
    ensures r.Some? ==> Lacks(r.value.0, c) && s == r.value.0 + [c] + r.value.1
    ensures r.None? ==> Lacks(s, c)
    decreases |s|
  {
    if s == "" then None
    else if s[0] == c then Some(("", s[1..]))
    else
      match Cut(s[1..], c)
      case None => None
      case Some((t, rest)) => Some(([s[0]] + t, rest))
  }

  // ----- Hosts and targets -----

  function LowerCase(c: char): char {
    if 'A' <= c <= 'Z' then c + ('a' - 'A') else c
  }

  /** Field names and schemes are compared without case. */
  predicate SameName(a: string, b: string) {
    |a| == |b| && forall i | 0 <= i < |a| :: LowerCase(a[i]) == LowerCase(b[i])
  }

  /** Where the host ends: behind the closing bracket of an address, or before the first colon. */
  function HostEnd(v: string): (n: nat)
    ensures n <= |v|
  {
    if v != "" && v[0] == '[' then
      match Cut(v, ']') case None => |v| case Some((address, _)) => |address| + 1
    else
      match Cut(v, ':') case None => |v| case Some((name, _)) => |name|
  }

  /** A host, and a port of which 80 is the default. */
  function ReadHost(v: string): (r: Option<(string, nat)>)
    ensures r.Some? ==> IsHost(r.value.0)
  {
    var host, rest := v[..HostEnd(v)], v[HostEnd(v)..];
    if !IsHost(host) then None
    else if rest == "" || rest == ":" then Some((host, 80))
    else if rest[0] == ':' && AllDigits(rest[1..]) then Some((host, DigitsValue(rest[1..])))
    else None
  }

  /** Length of a text up to its first slash or question mark, or all of it. */
  function AuthorityLength(s: string): (n: nat)
    ensures n <= |s|
    decreases |s|
  {
    if s == "" || s[0] == '/' || s[0] == '?' then 0 else 1 + AuthorityLength(s[1..])
  }

  const SCHEME: string := "http://"

  /** The host and port of a target in absolute form (section 3.2.2); what follows them is as in origin form. */
  function ReadAbsolute(t: string): (r: Option<(string, nat)>)
    ensures r.Some? ==> IsHost(r.value.0)
  {
    if |t| < |SCHEME| || !SameName(t[..|SCHEME|], SCHEME) then None
    else
      var n := AuthorityLength(t[|SCHEME|..]);
      var authority, path := t[|SCHEME|..][..n], |SCHEME| + n;
      if !IsUriText(t) || exists i | path <= i < |t| :: t[i] == '[' || t[i] == ']' then None else ReadHost(authority)
  }

  predicate IsTarget(t: string) {
    IsOriginForm(t) || ReadAbsolute(t).Some?
  }

  /** The target is in origin form, or names this host and port itself. */
  predicate IsTargetFor(t: string, host: string, port: nat) {
    IsOriginForm(t) || ReadAbsolute(t) == Some((host, port))
  }

  // ----- Request line and field lines -----

  /** Method, target and version with single spaces between them; the method and the target. */
  function ReadRequestLine(line: string): (r: Option<(string, string)>)
    ensures r.Some? ==> IsToken(r.value.0) && IsTarget(r.value.1)
  {
    match Cut(line, ' ')
    case None => None
    case Some((verb, afterVerb)) =>
      match Cut(afterVerb, ' ')
      case None => None
      case Some((target, version)) =>
        if IsToken(verb) && IsTarget(target) && version == "HTTP/1.1" then Some((verb, target)) else None
  }

  function TrimLeft(s: string): string
    decreases |s|
  {
    if s != "" && IsBlank(s[0]) then TrimLeft(s[1..]) else s
  }

  function TrimRight(s: string): string
    decreases |s|
  {
    if s != "" && IsBlank(s[|s| - 1]) then TrimRight(s[..|s| - 1]) else s
  }

  /** A field that can be written on a line. */
  predicate CleanField(f: Field) {
    f.TextField? && IsToken(f.name) && IsFieldValue(f.value)
  }

  /** A name, a colon, and a value between optional blanks. */
  function ReadField(line: string): (r: Option<Field>)
    ensures r.Some? ==> CleanField(r.value)
  {
    match Cut(line, ':')
    case None => None
    case Some((name, raw)) =>
      var value := TrimRight(TrimLeft(raw));
      if IsToken(name) && IsFieldValue(value) then Some(TextField(name, value)) else None
  }

  predicate CleanFields(fs: seq<Field>) {
    forall i | 0 <= i < |fs| :: CleanField(fs[i])
  }

  /** Field lines up to the first blank line, and what follows it. */
  function ReadFields(s: string): Option<(seq<Field>, string)>
    decreases |s|
  {
    match ReadLine(s)
    case None => None
    case Some((line, rest)) =>
      if line == "" then Some(([], rest))
      else
        match ReadField(line)
        case None => None
        case Some(f) =>
          match ReadFields(rest)
          case None => None
          case Some((more, end)) => Some(([f] + more, end))
  }

  // ----- Fields with a meaning -----

  /** The values of all fields of a name, in order. */
  function Values(fs: seq<Field>, name: string): seq<string> {
    if fs == [] then []
    else (if fs[0].TextField? && SameName(fs[0].name, name) then [fs[0].value] else []) + Values(fs[1..], name)
  }

  /** Every value is a numeral of the number. */
  predicate Announce(values: seq<string>, n: nat) {
    forall i | 0 <= i < |values| :: IsNumeral(values[i]) && DigitsValue(values[i]) == n
  }

  /** The length that the values agree on; without any, there is no body. */
  function ContentLength(values: seq<string>): (r: Option<nat>)
    ensures r.Some? ==> Announce(values, r.value)
  {
    if values == [] then Some(0)
    else if IsNumeral(values[0]) && Announce(values, DigitsValue(values[0])) then Some(DigitsValue(values[0]))
    else None
  }

  // ----- Requests -----

  /**
    A request and what follows it; exactly one host, which a target in absolute form
    overrides, and a body of the length announced.
  */
  function ReadRequest(s: string): Option<(Received, string)> {
    match ReadLine(s)
    case None => None
    case Some((line, afterLine)) =>
      match ReadRequestLine(line)
      case None => None
      case Some((verb, target)) =>
        match ReadFields(afterLine)
        case None => None
        case Some((fields, rest)) => ReadFramed(verb, target, fields, rest)
  }

  function ReadFramed(verb: string, target: string, fields: seq<Field>, rest: string): Option<(Received, string)> {
    var hosts, length := Values(fields, HOST), ContentLength(Values(fields, CONTENT_LENGTH));
    if |hosts| != 1 || ReadHost(hosts[0]).None? then None
    else if Values(fields, TRANSFER_ENCODING) != [] || length.None? || length.value > |rest| then None
    else
      var (host, port) := (if ReadAbsolute(target).Some? then ReadAbsolute(target) else ReadHost(hosts[0])).value;
      Some((Received(verb, target, host, port, fields, rest[..length.value]), rest[length.value..]))
  }

  // ----- Reading what was written -----

  lemma {:induction false} ReadLineOf(t: string, rest: string)
    requires OneLine(t)
    ensures ReadLine(t + CRLF + rest) == Some((t, rest))
    decreases |t|
  {
    var s := t + CRLF + rest;
    if t == "" {
      assert s == CRLF + rest;
      assert s[2..] == rest;
    } else {
      assert s[1..] == t[1..] + CRLF + rest;
      ReadLineOf(t[1..], rest);
      assert [t[0]] + t[1..] == t;
    }
  }

  lemma {:induction false} CutOf(t: string, c: char, rest: string)
    requires Lacks(t, c)
    ensures Cut(t + [c] + rest, c) == Some((t, rest))
    decreases |t|
  {
    var s := t + [c] + rest;
    if t == "" {
      assert s == [c] + rest;
      assert s[1..] == rest;
    } else {
      assert s[1..] == t[1..] + [c] + rest;
      CutOf(t[1..], c, rest);
      assert [t[0]] + t[1..] == t;
    }
  }

  lemma {:induction false} CutNothing(s: string, c: char)
    requires Lacks(s, c)
    ensures Cut(s, c) == None
    decreases |s|
  {
    if s != "" {
      CutNothing(s[1..], c);
    }
  }

  lemma TokenIsOneLine(t: string)
    requires IsToken(t)
    ensures OneLine(t) && Lacks(t, ' ') && Lacks(t, ':')
  {
    forall i | 0 <= i < |t| ensures t[i] != '\r' && t[i] != '\n' && t[i] != ' ' && t[i] != ':' {
      assert IsAlphanumeric(t[i]) || t[i] in "!#$%&'*+-.^_`|~";
    }
  }

  lemma UriCharIsPlain(t: string, i: nat)
    requires i < |t| && IsUriChar(t, i)
    ensures '!' <= t[i] <= '~'
    ensures t[i] != '\r' && t[i] != '\n' && t[i] != ' ' && t[i] != ':' && t[i] != '[' && t[i] != ']'
  {
  }

  lemma TargetIsOneLine(t: string)
    requires IsTarget(t)
    ensures OneLine(t) && Lacks(t, ' ')
  {
    assert IsUriText(t);
    hide IsUriChar, IsOriginForm, ReadAbsolute;
    forall i | 0 <= i < |t| ensures t[i] != '\r' && t[i] != '\n' && t[i] != ' ' {
      if IsUriChar(t, i) {
        UriCharIsPlain(t, i);
      } else {
        assert t[i] in ":@/?[]";
      }
    }
  }

  lemma OriginIsNotAbsolute(t: string)
    requires IsOriginForm(t)
    ensures ReadAbsolute(t) == None
  {
    assert t[0] == '/' && SCHEME[0] == 'h';
    hide IsUriChar, ReadHost;
  }

  lemma RequestLineIsOneLine(verb: string, target: string)
    requires OneLine(verb) && OneLine(target)
    ensures OneLine(verb + " " + target + " HTTP/1.1")
  {
    assert OneLine(" HTTP/1.1");
  }

  lemma ReadRequestLineOf(verb: string, target: string)
    requires IsToken(verb) && IsTarget(target)
    ensures var line := verb + " " + target + " HTTP/1.1";
            OneLine(line) && ReadRequestLine(line) == Some((verb, target))
  {
    TokenIsOneLine(verb);
    TargetIsOneLine(target);
    hide IsToken, IsTarget, Cut, Lacks;
    RequestLineIsOneLine(verb, target);
    var line, afterVerb := verb + " " + target + " HTTP/1.1", target + " " + "HTTP/1.1";
    assert line == verb + " " + afterVerb;
    CutOf(verb, ' ', afterVerb);
    CutOf(target, ' ', "HTTP/1.1");
  }

  lemma TrimOf(v: string)
    requires IsFieldValue(v)
    ensures TrimRight(TrimLeft(" " + v)) == v
  {
    assert (" " + v)[1..] == v;
  }

  lemma ReadFieldOf(f: Field)
    requires CleanField(f)
    ensures var line := f.name + ": " + f.value;
            line != "" && OneLine(line) && ReadField(line) == Some(f)
  {
    var line := f.name + ": " + f.value;
    TokenIsOneLine(f.name);
    assert OneLine(f.value);
    TrimOf(f.value);
    hide IsToken, IsFieldValue, TrimLeft, TrimRight, Cut;
    assert line == f.name + ":" + (" " + f.value);
    CutOf(f.name, ':', " " + f.value);
  }

  lemma {:induction false} ReadFieldsAreClean(s: string)
    requires ReadFields(s).Some?
    ensures CleanFields(ReadFields(s).value.0)
    decreases |s|
  {
    hide ReadLine, ReadField, CleanField;
    var (line, rest) := ReadLine(s).value;
    if line != "" {
      ReadFieldsAreClean(rest);
    }
  }

  lemma {:induction false} ValuesOfConcat(a: seq<Field>, b: seq<Field>, name: string)
    ensures Values(a + b, name) == Values(a, name) + Values(b, name)
    decreases |a|
  {
    hide SameName;
    if a == [] {
      assert a + b == b;
    } else {
      assert (a + b)[1..] == a[1..] + b;
      ValuesOfConcat(a[1..], b, name);
    }
  }

  /** No value just when no field has the name. */
  lemma {:induction false} NoValues(fs: seq<Field>, name: string)
    ensures Values(fs, name) == [] <==> forall i | 0 <= i < |fs| :: fs[i].TextField? ==> !SameName(fs[i].name, name)
  {
    hide SameName;
    if fs != [] {
      NoValues(fs[1..], name);
      assert forall i | 1 <= i < |fs| :: fs[i] == fs[1..][i - 1];
    }
  }

  lemma AnnounceConcat(a: seq<string>, b: seq<string>, n: nat)
    ensures Announce(a + b, n) <==> Announce(a, n) && Announce(b, n)
  {
    hide IsNumeral, DigitsValue;
    assert forall i | 0 <= i < |a| :: a[i] == (a + b)[i];
    assert forall i | 0 <= i < |b| :: b[i] == (a + b)[|a| + i];
  }

  /** All values announce the number just when every field of the name does. */
  lemma {:induction false} AnnounceFields(fs: seq<Field>, name: string, n: nat)
    ensures Announce(Values(fs, name), n)
       <==> forall i | 0 <= i < |fs| :: fs[i].TextField? && SameName(fs[i].name, name) ==> Announce([fs[i].value], n)
  {
    hide SameName, IsNumeral, DigitsValue;
    if fs != [] {
      AnnounceFields(fs[1..], name, n);
      assert forall i | 1 <= i < |fs| :: fs[i] == fs[1..][i - 1];
      var first := if fs[0].TextField? && SameName(fs[0].name, name) then [fs[0].value] else [];
      AnnounceConcat(first, Values(fs[1..], name), n);
    }
  }

  lemma AddressIsPlain(host: string)
    requires IsIpLiteral(host)
    ensures Lacks(host[..|host| - 1], ']')
  {
    forall i | 0 <= i < |host| - 1 ensures host[i] != ']' {
      assert i > 0 ==> IsAlphanumeric(host[i]) || host[i] in "-._~!$&'()*+,;=:";
    }
  }

  lemma NameIsPlain(host: string)
    requires IsRegisteredName(host)
    ensures Lacks(host, ':') && Lacks(host, '[')
  {
    hide IsUriChar;
    forall i | 0 <= i < |host| ensures host[i] != ':' && host[i] != '[' {
      UriCharIsPlain(host, i);
    }
  }

  lemma HostEndOf(host: string, port: string)
    requires IsHost(host) && (port == "" || (port[0] == ':' && IsNumeral(port[1..])))
    ensures HostEnd(host + port) == |host|
  {
    hide IsUriChar, Cut;
    var v := host + port;
    assert v[0] == host[0];
    if IsIpLiteral(host) {
      var address := host[..|host| - 1];
      AddressIsPlain(host);
      assert v == address + "]" + port;
      CutOf(address, ']', port);
      assert v[0] == '[';
    } else {
      NameIsPlain(host);
      assert v[0] != '[';
      if port == "" {
        assert v == host;
        CutNothing(v, ':');
      } else {
        assert v == host + ":" + port[1..];
        CutOf(host, ':', port[1..]);
      }
    }
  }

  /** A host, with its port unless that is 80, is read back. */
  lemma ReadHostOf(host: string, port: string)
    requires IsHost(host) && (port == "" || (port[0] == ':' && IsNumeral(port[1..])))
    ensures HostEnd(host + port) == |host|
    ensures ReadHost(host + port) == Some((host, if port == "" then 80 else DigitsValue(port[1..])))
  {
    HostEndOf(host, port);
    hide HostEnd, IsHost, DigitsValue;
    assert (host + port)[..|host|] == host && (host + port)[|host|..] == port;
  }

  lemma HostIsVisible(host: string)
    requires IsHost(host)
    ensures forall i | 0 <= i < |host| :: '!' <= host[i] <= '~'
  {
    hide IsUriChar;
    if !IsIpLiteral(host) {
      forall i | 0 <= i < |host| ensures '!' <= host[i] <= '~' {
        UriCharIsPlain(host, i);
      }
    }
  }

  lemma HostIsNonempty(host: string)
    requires IsHost(host)
    ensures host != ""
  {
  }

  lemma HostIsFieldValue(host: string, port: string)
    requires IsHost(host) && (port == "" || (port[0] == ':' && IsNumeral(port[1..])))
    ensures IsFieldValue(host + port)
  {
    HostIsVisible(host);
    hide IsHost;
    var v := host + port;
    assert host != "" by { assert IsHost(host); HostIsNonempty(host); }
    assert forall i | 1 <= i < |port| :: port[i] == port[1..][i - 1];
    assert forall i | 0 <= i < |port| :: ':' == port[i] || IsDigit(port[i]);
    assert forall i | 0 <= i < |v| :: v[i] == if i < |host| then host[i] else port[i - |host|];
  }
}
