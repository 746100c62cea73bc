/**
  The message that a POST request sends, and when a reader of HTTP/1.1 requests recovers
  from it the target, the host, the fields and a body of the announced length.
*/
module PostMessage {
  import opened CText
  import opened Decimal
  import opened RequestFields
  import opened RequestReader
  import opened Wrappers
  import Gzip
  import Multipart
  import UrlEncoded

  const HTTP_VERSION: string := " HTTP/1.1"
  const CONTENT_TYPE: string := "Content-Type"
  const URL_ENCODED: string := "application/x-www-form-urlencoded"
  const MULTIPART: string := "multipart/form-data; boundary="

  /** What compressing needs besides the text: the library, the time, and whether a stream starts. */
  datatype Compressor = Compressor(library: Gzip.Library, time: nat, ready: bool)

  /** What a caller sets up before sending. */
  datatype Post = Post(
    path: string,
    host: string,
    port: nat,
    headers: seq<Field>,
    parameters: seq<Field>,
    hasData: bool,
    boundary: string,
    gziped: bool,
    deflated: bool,
    compressor: Compressor)

  /** What the calls that build a request guarantee. */
  predicate IsPost(p: Post) {
    && p.port < 0x10000
    && AllText(p.headers)
    && (!p.hasData ==> AllText(p.parameters))
    && (p.hasData ==> p.parameters != [] && p.boundary != "")
    && (p.boundary != "" ==> IsBoundary(p.boundary))
  }

  /** Twelve letters and digits. */
  predicate IsBoundary(b: string) {
    |b| == Multipart.BOUNDARY_LENGTH && forall i | 0 <= i < |b| :: IsAlphanumeric(b[i])
  }

  function CompressionMethod(p: Post): Gzip.Method {
    if p.gziped then Gzip.Gzip else Gzip.Deflate
  }

  predicate Compresses(p: Post) {
    (p.gziped || p.deflated) && p.compressor.ready
  }

  /** The text compressed as the request asks, or as it is when compression does not start or gives nothing. */
  function Packed(p: Post, x: string): string {
    var z := Gzip.Compressed(p.compressor.library, p.compressor.time, x, CompressionMethod(p));
    if Compresses(p) && z.Some? && z.value != "" then z.value else x
  }

  /** The parts of a multipart body are sent as they are; url-encoded parameters may be compressed. */
  function PostBody(p: Post): string
    requires IsPost(p)
  {
    if p.hasData then Multipart.Body(p.parameters, p.boundary) else Packed(p, UrlEncoded.Encoded(p.parameters))
  }

  /** The fields that describe the body. */
  function BodyFields(p: Post): (fs: seq<Field>)
    requires IsPost(p)
    ensures AllText(fs)
  {
    if p.parameters == [] then []
    else [TextField(CONTENT_TYPE, if p.hasData then MULTIPART + p.boundary else URL_ENCODED),
          TextField(CONTENT_LENGTH, Digits(|PostBody(p)|))]
  }

  function PortText(port: nat): string {
    if port == 80 then "" else ":" + Digits(port)
  }

  function FieldsText(fs: seq<Field>): string
    requires AllText(fs)
  {
    WithBlankLine(Joined(fs, CRLF, ": "))
  }

  function WithBlankLine(fields: string): string {
    if fields == "" then CRLF else fields + CRLF + CRLF
  }

  function RequestLine(path: string): string {
    "POST " + path + HTTP_VERSION + CRLF
  }

  function HostLine(host: string, port: nat): string {
    "Host: " + host + PortText(port) + CRLF
  }

  /** The body and the blank line after it. */
  function Content(body: string): string {
    if body == "" then "" else body + CRLF + CRLF
  }

  /** The bytes that are sent. */
  function Message(p: Post): string
    requires IsPost(p)
  {
    RequestLine(p.path) + HostLine(p.host, p.port) + FieldsText(p.headers + BodyFields(p)) + Content(PostBody(p))
  }

  // ----- Reading back -----

  /** All fields that are sent: the host, the caller's, and those of the body. */
  function AllFields(p: Post): (fs: seq<Field>)
    requires IsPost(p)
    ensures AllText(fs)
  {
    [TextField(HOST, p.host + PortText(p.port))] + p.headers + BodyFields(p)
  }

  /** What the reader is to recover. */
  function Expected(p: Post): Received
    requires IsPost(p)
  {
    Received("POST", p.path, p.host, p.port, AllFields(p), PostBody(p))
  }

  /** What is left over behind the body: one blank line more. */
  function LeftOver(p: Post): string
    requires IsPost(p)
  {
    if PostBody(p) == "" then "" else CRLF + CRLF
  }

  /**
    A field that a caller may add: it can be written on a line, and does not get in the
    way of the host and of the length of the body.
  */
  predicate IsAllowed(f: Field, length: nat) {
    && CleanField(f)
    && !SameName(f.name, HOST)
    && !SameName(f.name, TRANSFER_ENCODING)
    && (SameName(f.name, CONTENT_LENGTH) ==> IsNumeral(f.value) && DigitsValue(f.value) == length)
  }

  /** What a caller can check: the path is a target for the host, the host a host, and every field is allowed. */
  predicate IsClean(p: Post)
    requires IsPost(p)
  {
    && IsTargetFor(p.path, p.host, p.port) && IsHost(p.host)
    && forall i | 0 <= i < |p.headers| :: IsAllowed(p.headers[i], |PostBody(p)|)
  }

  lemma FieldsTextEnds(fs: seq<Field>, rest: string)
    requires fs == []
    ensures FieldsText(fs) + rest == "" + CRLF + rest
  {
  }

  lemma FieldsTextStep(fs: seq<Field>, rest: string)
    requires AllText(fs) && fs != []
    ensures var line := fs[0].name + ": " + fs[0].value;
            FieldsText(fs) + rest == line + CRLF + (FieldsText(fs[1..]) + rest)
  {
    var line := fs[0].name + ": " + fs[0].value;
    if |fs| == 1 {
      assert fs[1..] == [] && Joined(fs[1..], CRLF, ": ") == "";
      assert Joined(fs, CRLF, ": ") == line;
    } else {
      assert Joined(fs, CRLF, ": ") == line + CRLF + Joined(fs[1..], CRLF, ": ");
    }
  }

  lemma {:induction false} ReadFieldsOf(fs: seq<Field>, rest: string)
    requires CleanFields(fs) && AllText(fs)
    ensures ReadFields(FieldsText(fs) + rest) == Some((fs, rest))
    decreases |fs|
  {
    hide ReadLine, ReadField, FieldsText, CleanField;
    if fs == [] {
      FieldsTextEnds(fs, rest);
      ReadLineOf("", rest);
    } else {
      var f := fs[0];
      var line := f.name + ": " + f.value;
      assert CleanField(f);
      ReadFieldOf(f);
      FieldsTextStep(fs, rest);
      ReadLineOf(line, FieldsText(fs[1..]) + rest);
      ReadFieldsOf(fs[1..], rest);
      assert [f] + fs[1..] == fs;
    }
  }

  // ----- The fields of the message -----

  lemma BodyEmpty(p: Post)
    requires IsPost(p)
    ensures PostBody(p) == "" <==> p.parameters == []
  {
  }

  lemma NamesDiffer()
    ensures !SameName(CONTENT_TYPE, HOST) && !SameName(CONTENT_LENGTH, HOST)
    ensures !SameName(CONTENT_TYPE, TRANSFER_ENCODING) && !SameName(CONTENT_LENGTH, TRANSFER_ENCODING)
    ensures !SameName(CONTENT_TYPE, CONTENT_LENGTH) && SameName(CONTENT_LENGTH, CONTENT_LENGTH)
    ensures SameName(HOST, HOST) && !SameName(HOST, TRANSFER_ENCODING) && !SameName(HOST, CONTENT_LENGTH)
  {
    assert |HOST| == 4 && |CONTENT_TYPE| == 12 && |CONTENT_LENGTH| == 14 && |TRANSFER_ENCODING| == 17;
  }

  /** The fields of the body announce exactly its length, and no host or transfer coding. */
  lemma BodyFieldsAnnounce(p: Post)
    requires IsPost(p)
    ensures Values(BodyFields(p), HOST) == [] && Values(BodyFields(p), TRANSFER_ENCODING) == []
    ensures Values(BodyFields(p), CONTENT_LENGTH) == if p.parameters == [] then [] else [Digits(|PostBody(p)|)]
    ensures Announce(Values(BodyFields(p), CONTENT_LENGTH), |PostBody(p)|)
  {
    hide PostBody, Digits, DigitsValue, LowerCase;
    if p.parameters != [] {
      var fs := BodyFields(p);
      DigitsValueOfDigits(|PostBody(p)|);
      NamesDiffer();
      assert fs[1..] == [fs[1]] && fs[1..][1..] == [];
      assert Values(fs, HOST) == Values(fs[1..], HOST) == Values([], HOST);
      assert Values(fs, TRANSFER_ENCODING) == Values(fs[1..], TRANSFER_ENCODING) == Values([], TRANSFER_ENCODING);
      assert Values(fs, CONTENT_LENGTH) == Values(fs[1..], CONTENT_LENGTH);
      assert Values(fs[1..], CONTENT_LENGTH) == [fs[1].value] + Values([], CONTENT_LENGTH);
    }
  }

  lemma ValuesOfAll(p: Post, name: string)
    requires IsPost(p)
    ensures Values(AllFields(p), name)
         == (if SameName(HOST, name) then [p.host + PortText(p.port)] else [])
            + (Values(p.headers, name) + Values(BodyFields(p), name))
  {
    hide PostBody, BodyFields, SameName, PortText, HOST;
    var fs, more := AllFields(p), p.headers + BodyFields(p);
    assert fs[0] == TextField(HOST, p.host + PortText(p.port)) && fs[1..] == more;
    ValuesOfConcat(p.headers, BodyFields(p), name);
  }

  /** The fields that carry the framing, in the whole message: what the caller's fields have comes in between. */
  lemma FramingValues(p: Post)
    requires IsPost(p)
    ensures Values(AllFields(p), HOST) == [p.host + PortText(p.port)] + Values(p.headers, HOST)
    ensures Values(AllFields(p), TRANSFER_ENCODING) == Values(p.headers, TRANSFER_ENCODING)
    ensures Values(AllFields(p), CONTENT_LENGTH)
         == Values(p.headers, CONTENT_LENGTH) + Values(BodyFields(p), CONTENT_LENGTH)
  {
    BodyFieldsAnnounce(p);
    NamesDiffer();
    hide PostBody, BodyFields, AllFields, SameName, Values, PortText, Announce, Digits;
    hide HOST, TRANSFER_ENCODING, CONTENT_LENGTH;
    ValuesOfAll(p, HOST);
    ValuesOfAll(p, TRANSFER_ENCODING);
    ValuesOfAll(p, CONTENT_LENGTH);
  }

  lemma LettersAreToken(t: string)
    requires t != "" && forall i | 0 <= i < |t| :: IsAlphanumeric(t[i]) || t[i] == '-'
    ensures IsToken(t)
  {
  }

  lemma ContentTypeIsToken()
    ensures IsToken(CONTENT_TYPE)
  {
    LettersAreToken(CONTENT_TYPE);
  }

  lemma ContentLengthIsToken()
    ensures IsToken(CONTENT_LENGTH)
  {
    LettersAreToken(CONTENT_LENGTH);
  }

  lemma OthersAreTokens()
    ensures IsToken(HOST) && IsToken("POST")
  {
    LettersAreToken(HOST);
    LettersAreToken("POST");
  }

  lemma UrlEncodedIsFieldValue()
    ensures IsFieldValue(URL_ENCODED)
  {
  }

  lemma ConstantsAreClean()
    ensures IsToken(CONTENT_TYPE) && IsToken(CONTENT_LENGTH) && IsToken(HOST) && IsToken("POST")
    ensures IsFieldValue(URL_ENCODED)
  {
    ContentTypeIsToken();
    ContentLengthIsToken();
    OthersAreTokens();
    UrlEncodedIsFieldValue();
    hide IsToken, IsFieldValue;
  }

  lemma DigitsAreFieldValue(n: nat)
    ensures IsFieldValue(Digits(n)) && IsNumeral(Digits(n))
  {
  }

  lemma BoundaryIsFieldValue(b: string)
    requires IsBoundary(b)
    ensures IsFieldValue(MULTIPART + b)
  {
    var v := MULTIPART + b;
    assert v[0] == 'm' && v[|v| - 1] == b[|b| - 1];
    forall i | 0 <= i < |v| ensures ' ' <= v[i] <= '~' {
      assert i >= |MULTIPART| ==> v[i] == b[i - |MULTIPART|];
    }
  }

  lemma BodyFieldsAreClean(p: Post)
    requires IsPost(p)
    ensures CleanFields(BodyFields(p))
  {
    hide PostBody, Digits;
    ConstantsAreClean();
    hide IsToken, CONTENT_TYPE, CONTENT_LENGTH, URL_ENCODED, MULTIPART;
    if p.parameters != [] {
      DigitsAreFieldValue(|PostBody(p)|);
      if p.hasData {
        BoundaryIsFieldValue(p.boundary);
      }
    }
  }

  lemma PortIsNumeral(port: nat)
    ensures var t := PortText(port);
            t == "" || (t[0] == ':' && IsNumeral(t[1..]))
    ensures (if PortText(port) == "" then 80 else DigitsValue(PortText(port)[1..])) == port
  {
    DigitsValueOfDigits(port);
    assert PortText(port) != "" ==> PortText(port)[1..] == Digits(port);
  }

  lemma HostFieldIsClean(p: Post)
    requires IsPost(p) && IsHost(p.host)
    ensures CleanField(TextField(HOST, p.host + PortText(p.port)))
    ensures ReadHost(p.host + PortText(p.port)) == Some((p.host, p.port))
  {
    PortIsNumeral(p.port);
    ConstantsAreClean();
    HostIsFieldValue(p.host, PortText(p.port));
    ReadHostOf(p.host, PortText(p.port));
  }

  // ----- The framing theorem -----

  lemma MessageLines(p: Post)
    requires IsPost(p)
    ensures Message(p) == "POST" + " " + p.path + " HTTP/1.1" + CRLF + (FieldsText(AllFields(p)) + Content(PostBody(p)))
  {
    hide PostBody, BodyFields, Content, PortText;
    var content, more := Content(PostBody(p)), p.headers + BodyFields(p);
    var hostField := TextField(HOST, p.host + PortText(p.port));
    var fs := AllFields(p);
    assert fs == [hostField] + more && fs[0] == hostField && fs[1..] == more;
    FieldsTextStep(fs, content);
    hide FieldsText;
    assert HostLine(p.host, p.port) + (FieldsText(more) + content) == FieldsText(fs) + content by {
      assert HostLine(p.host, p.port) == hostField.name + ": " + hostField.value + CRLF;
    }
    assert RequestLine(p.path) == "POST" + " " + p.path + " HTTP/1.1" + CRLF;
    assert Message(p) == RequestLine(p.path) + (HostLine(p.host, p.port) + (FieldsText(more) + content));
  }

  /** The reader gets as far as the framing when the path and all fields are clean. */
  lemma ReadsLines(p: Post)
    requires IsPost(p) && IsTarget(p.path) && CleanFields(AllFields(p))
    ensures ReadRequest(Message(p)) == ReadFramed("POST", p.path, AllFields(p), Content(PostBody(p)))
  {
    hide Message, FieldsText, PostBody, AllFields, ReadLine, ReadFields, Content, ReadFramed, IsTarget, CleanFields;
    ConstantsAreClean();
    hide IsToken;
    var line := "POST" + " " + p.path + " HTTP/1.1";
    var rest := FieldsText(AllFields(p)) + Content(PostBody(p));
    MessageLines(p);
    ReadRequestLineOf("POST", p.path);
    ReadLineOf(line, rest);
    ReadFieldsOf(AllFields(p), Content(PostBody(p)));
  }

  /** The framing, from the target and the values of the fields that carry it. */
  lemma FramedBy(verb: string, target: string, fields: seq<Field>, host: string, port: nat, length: nat, rest: string)
    requires |Values(fields, HOST)| == 1 && ReadHost(Values(fields, HOST)[0]) == Some((host, port))
    requires IsTargetFor(target, host, port)
    requires Values(fields, TRANSFER_ENCODING) == []
    requires ContentLength(Values(fields, CONTENT_LENGTH)) == Some(length) && length <= |rest|
    ensures ReadFramed(verb, target, fields, rest)
         == Some((Received(verb, target, host, port, fields, rest[..length]), rest[length..]))
  {
    if IsOriginForm(target) { OriginIsNotAbsolute(target); }
    hide Values, ReadHost, ReadAbsolute, IsOriginForm, ContentLength;
  }

  lemma LengthAgreed(values: seq<string>, n: nat)
    requires Announce(values, n)
    ensures ContentLength(values) == Some(if values == [] then 0 else n)
  {
    hide IsNumeral, DigitsValue;
  }

  lemma LengthIsAgreed(p: Post)
    requires IsPost(p) && Announce(Values(p.headers, CONTENT_LENGTH), |PostBody(p)|)
    ensures ContentLength(Values(AllFields(p), CONTENT_LENGTH)) == Some(|PostBody(p)|)
  {
    FramingValues(p);
    BodyFieldsAnnounce(p);
    BodyEmpty(p);
    hide PostBody, BodyFields, AllFields, Values, Announce, Digits, ContentLength, PortText;
    AnnounceConcat(Values(p.headers, CONTENT_LENGTH), Values(BodyFields(p), CONTENT_LENGTH), |PostBody(p)|);
    LengthAgreed(Values(AllFields(p), CONTENT_LENGTH), |PostBody(p)|);
  }

  lemma ContentIsBody(p: Post)
    requires IsPost(p)
    ensures var body, content := PostBody(p), Content(PostBody(p));
            |body| <= |content| && content[..|body|] == body && content[|body|..] == LeftOver(p)
  {
    hide PostBody;
    var body := PostBody(p);
    assert body != "" ==> Content(body) == body + (CRLF + CRLF);
  }

  /** With the length announced and nothing else in the way the framing gives the body. */
  lemma ReadsBody(p: Post)
    requires IsPost(p) && IsTargetFor(p.path, p.host, p.port) && IsHost(p.host)
    requires Values(p.headers, HOST) == [] && Values(p.headers, TRANSFER_ENCODING) == []
    requires Announce(Values(p.headers, CONTENT_LENGTH), |PostBody(p)|)
    ensures ReadFramed("POST", p.path, AllFields(p), Content(PostBody(p))) == Some((Expected(p), LeftOver(p)))
  {
    var body := PostBody(p);
    FramingValues(p);
    HostFieldIsClean(p);
    LengthIsAgreed(p);
    ContentIsBody(p);
    hide PostBody, BodyFields, AllFields, Values, PortText, ReadHost, IsHost, Announce, ReadFramed, Content, LeftOver;
    hide ContentLength, IsTargetFor;
    FramedBy("POST", p.path, AllFields(p), p.host, p.port, |body|, Content(body));
  }

  /** What is read back had a target, a host, clean fields, and lengths that agree. */
  lemma ReadRequestIsClean(s: string)
    requires ReadRequest(s).Some?
    ensures var r := ReadRequest(s).value.0;
            && IsTargetFor(r.target, r.host, r.port) && IsHost(r.host) && CleanFields(r.fields)
            && |Values(r.fields, HOST)| == 1 && Values(r.fields, TRANSFER_ENCODING) == []
            && Announce(Values(r.fields, CONTENT_LENGTH), |r.body|)
  {
    hide ReadLine, ReadRequestLine, ReadFields, Values, ReadHost, ReadAbsolute, IsOriginForm, ContentLength, Announce;
    var (line, afterLine) := ReadLine(s).value;
    ReadFieldsAreClean(afterLine);
  }

  lemma TargetForIsTarget(t: string, host: string, port: nat)
    requires IsTargetFor(t, host, port)
    ensures IsTarget(t)
  {
    hide IsOriginForm, ReadAbsolute;
  }

  lemma CleanIsRead(p: Post)
    requires IsPost(p) && IsClean(p)
    ensures ReadRequest(Message(p)) == Some((Expected(p), LeftOver(p)))
  {
    hide Message, ReadRequest, ReadFramed, PostBody, IsTargetFor, IsHost, CleanField, SameName, IsNumeral, DigitsValue;
    NoValues(p.headers, HOST);
    NoValues(p.headers, TRANSFER_ENCODING);
    AnnounceFields(p.headers, CONTENT_LENGTH, |PostBody(p)|);
    HostFieldIsClean(p);
    BodyFieldsAreClean(p);
    TargetForIsTarget(p.path, p.host, p.port);
    assert CleanFields(p.headers);
    hide IsAllowed, BodyFields, PortText;
    ReadsLines(p);
    ReadsBody(p);
  }

  lemma ReadIsClean(p: Post)
    requires IsPost(p) && IsTargetFor(p.path, p.host, p.port) && IsHost(p.host) && CleanFields(AllFields(p))
    requires |Values(AllFields(p), HOST)| == 1 && Values(AllFields(p), TRANSFER_ENCODING) == []
    requires Announce(Values(AllFields(p), CONTENT_LENGTH), |PostBody(p)|)
    ensures IsClean(p)
  {
    hide PostBody, IsTargetFor, IsHost, CleanField, SameName, IsNumeral, DigitsValue, BodyFields, PortText, Values;
    FramingValues(p);
    AnnounceConcat(Values(p.headers, CONTENT_LENGTH), Values(BodyFields(p), CONTENT_LENGTH), |PostBody(p)|);
    NoValues(p.headers, HOST);
    NoValues(p.headers, TRANSFER_ENCODING);
    AnnounceFields(p.headers, CONTENT_LENGTH, |PostBody(p)|);
    forall i | 0 <= i < |p.headers| ensures IsAllowed(p.headers[i], |PostBody(p)|) {
      assert p.headers[i] == AllFields(p)[i + 1];
      assert SameName(p.headers[i].name, CONTENT_LENGTH) ==> Announce([p.headers[i].value], |PostBody(p)|);
      assert Announce([p.headers[i].value], |PostBody(p)|) ==> IsNumeral([p.headers[i].value][0]);
    }
  }

  /**
    A reader of HTTP/1.1 requests recovers the target, the host and port, all fields in
    order, and the body from what is sent, with exactly one blank line left over behind a
    body, just when the request is clean.
  */
  lemma PostFraming(p: Post)
    requires IsPost(p)
    ensures ReadRequest(Message(p)) == Some((Expected(p), LeftOver(p))) <==> IsClean(p)
  {
    hide Message, ReadRequest, ReadFramed, PostBody, IsTargetFor, IsHost;
    if IsClean(p) {
      CleanIsRead(p);
    }
    if ReadRequest(Message(p)) == Some((Expected(p), LeftOver(p))) {
      ReadRequestIsClean(Message(p));
      ReadIsClean(p);
    }
  }

  /** Keeping line ends out is not enough: a blank in the path already keeps the request from being read back. */
  lemma LineEndsAreNotEnough(compressor: Compressor)
    ensures var p := Post("/a b", "h", 80, [], [], false, "", false, false, compressor);
            IsPost(p) && OneLine(p.path) && OneLine(p.host)
            && ReadRequest(Message(p)) != Some((Expected(p), LeftOver(p)))
  {
    var p := Post("/a b", "h", 80, [], [], false, "", false, false, compressor);
    assert IsPost(p) && OneLine(p.path) && OneLine(p.host);
    assert p.path[2] == ' ' && !IsUriChar(p.path, 2) && |p.path| < |SCHEME|;
    hide ReadRequest, Message, Expected, LeftOver, IsUriChar, PostBody;
    assert !IsClean(p);
    PostFraming(p);
  }

  /**
    A compressed body carries the parameters: whoever decompresses it gets their
    url-encoded text, for every lossless library and sizes below 2^32.
  */
  lemma CompressedBody(p: Post)
    requires IsPost(p) && !p.hasData && p.parameters != [] && Compresses(p)
    requires Gzip.LosslessLibrary(p.compressor.library)
    requires Gzip.Fits(p.compressor.library, UrlEncoded.Encoded(p.parameters), CompressionMethod(p))
    ensures Gzip.Decompressed(p.compressor.library, PostBody(p), CompressionMethod(p))
         == Some(UrlEncoded.Encoded(p.parameters))
  {
    hide Gzip.Compressed, Gzip.Decompressed;
    var x, m := UrlEncoded.Encoded(p.parameters), CompressionMethod(p);
    Gzip.RoundTrip(p.compressor.library, p.compressor.time, x, m);
    Gzip.CompressedIsSome(p.compressor.library, p.compressor.time, x, m);
  }
}
