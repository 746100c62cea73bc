/**
  A request from end to end: what a caller adds, which compression that asks for, and the
  parameters that a receiver reads from the bytes that are sent.
*/
module FormReader {
  import opened CText
  import opened Decimal
  import opened ContentCoding
  import opened PostMessage
  import opened PostRequest
  import opened RequestFields
  import opened RequestReader
  import opened Wrappers
  import Gzip
  import Multipart
  import UrlEncoded

  // ----- What a caller adds -----

  /** A call that builds a request. */
  datatype Call =
    | HeaderField(name: string, value: string)
    | Parameter(name: string, value: string)
    | DataParameter(name: string, fileName: string, data: string, newBoundary: string)

  function Called(p: Post, c: Call): Post {
    match c
    case HeaderField(name, value) => WithHeader(p, name, value)
    case Parameter(name, value) => p.(parameters := p.parameters + Accepted(name, value))
    case DataParameter(name, fileName, data, newBoundary) => WithFile(p, name, fileName, data, newBoundary)
  }

  function CalledAll(p: Post, calls: seq<Call>): Post
    decreases |calls|
  {
    if calls == [] then p else CalledAll(Called(p, calls[0]), calls[1..])
  }

  predicate AreBoundaries(calls: seq<Call>) {
    forall i | 0 <= i < |calls| :: calls[i].DataParameter? ==> IsBoundary(calls[i].newBoundary)
  }

  /** A field of the request has the value. */
  predicate HasValue(fs: seq<Field>, value: string) {
    exists i | 0 <= i < |fs| :: fs[i].TextField? && fs[i].value == value
  }

  predicate HasFile(fs: seq<Field>) {
    exists i | 0 <= i < |fs| :: fs[i].FileField?
  }

  /** What holds of every request that is built by calls. */
  predicate IsBuilt(p: Post) {
    && IsPost(p)
    && (p.gziped <==> HasValue(p.headers, "gzip")) && (p.deflated <==> HasValue(p.headers, "deflate"))
    && (p.hasData <==> HasFile(p.parameters))
  }

  lemma ValueAdded(fs: seq<Field>, name: string, added: string, value: string)
    ensures HasValue(fs + [TextField(name, added)], value) <==> HasValue(fs, value) || added == value
  {
    var all := fs + [TextField(name, added)];
    assert all[|fs|] == TextField(name, added);
    if HasValue(fs, value) {
      var i :| 0 <= i < |fs| && fs[i].TextField? && fs[i].value == value;
      assert all[i] == fs[i];
    }
  }

  lemma HeaderIsBuilt(p: Post, name: string, value: string)
    requires IsBuilt(p)
    ensures IsBuilt(WithHeader(p, name, value))
  {
    ValueAdded(p.headers, name, value, "gzip");
    ValueAdded(p.headers, name, value, "deflate");
    hide HasValue;
  }

  lemma FileAdded(fs: seq<Field>, f: Field)
    ensures HasFile(fs + [f]) <==> HasFile(fs) || f.FileField?
  {
    var all := fs + [f];
    assert all[|fs|] == f;
    if HasFile(fs) {
      var i :| 0 <= i < |fs| && fs[i].FileField?;
      assert all[i] == fs[i];
    }
  }

  lemma ParameterIsBuilt(p: Post, c: Call)
    requires IsBuilt(p) && !c.HeaderField? && (c.DataParameter? ==> IsBoundary(c.newBoundary))
    ensures IsBuilt(Called(p, c))
  {
    hide HasValue;
    match c
    case Parameter(name, value) =>
      FileAdded(p.parameters, TextField(name, value));
      hide HasFile;
      assert p.parameters + [] == p.parameters;
    case DataParameter(name, fileName, data, _) =>
      FileAdded(p.parameters, FileField(name, fileName, data));
      hide HasFile;
    case _ =>
  }

  lemma CalledHeader(p: Post, c: Call)
    requires IsBuilt(p) && c.HeaderField?
    ensures IsBuilt(Called(p, c))
  {
    HeaderIsBuilt(p, c.name, c.value);
  }

  /** Any run of calls, from a fresh request on. */
  lemma {:induction false} CallsBuild(p: Post, calls: seq<Call>)
    requires IsBuilt(p) && AreBoundaries(calls)
    ensures IsBuilt(CalledAll(p, calls))
    decreases |calls|
  {
    hide IsBuilt, Called, IsBoundary;
    if calls != [] {
      if calls[0].HeaderField? { CalledHeader(p, calls[0]); } else { ParameterIsBuilt(p, calls[0]); }
      CallsBuild(Called(p, calls[0]), calls[1..]);
    }
  }

  /** The header fields that the calls add: a call with an empty name or value adds nothing. */
  function HeadersOf(calls: seq<Call>): seq<Field> {
    if calls == [] then []
    else (if calls[0].HeaderField? then Accepted(calls[0].name, calls[0].value) else []) + HeadersOf(calls[1..])
  }

  function ParametersOf(calls: seq<Call>): seq<Field> {
    if calls == [] then []
    else
      (match calls[0]
       case HeaderField(_, _) => []
       case Parameter(name, value) => Accepted(name, value)
       case DataParameter(name, fileName, data, _) => AcceptedFile(name, fileName, data))
      + ParametersOf(calls[1..])
  }

  /** One call appends its field, and a boundary that there is stays. */
  lemma CallAdds(p: Post, c: Call)
    ensures var q := Called(p, c);
            && q.headers == p.headers + HeadersOf([c]) && q.parameters == p.parameters + ParametersOf([c])
            && (p.boundary != "" ==> q.boundary == p.boundary)
            && q.path == p.path && q.host == p.host && q.port == p.port && q.compressor == p.compressor
  {
    assert [c][1..] == [];
    assert HeadersOf([]) == [] && ParametersOf([]) == [];
    assert p.headers + [] == p.headers && p.parameters + [] == p.parameters;
    if c.HeaderField? {
      assert HeadersOf([c]) == Accepted(c.name, c.value) && ParametersOf([c]) == [];
    } else {
      assert HeadersOf([c]) == [];
      assert ParametersOf([c])
          == if c.Parameter? then Accepted(c.name, c.value) else AcceptedFile(c.name, c.fileName, c.data);
    }
  }

  /** The first file fixes the boundary. */
  lemma FirstBoundary(p: Post, name: string, fileName: string, data: string, newBoundary: string)
    requires p.boundary == "" && name != "" && fileName != "" && data != ""
    ensures Called(p, DataParameter(name, fileName, data, newBoundary)).boundary == newBoundary
  {
  }

  /** What is added has a name and a value; a call with both adds them. */
  lemma {:induction false} OnlyFilled(calls: seq<Call>)
    ensures forall f | f in HeadersOf(calls) :: f.TextField? && f.name != "" && f.value != ""
    ensures forall i | 0 <= i < |calls| && calls[i].HeaderField? && calls[i].name != "" && calls[i].value != "" ::
              TextField(calls[i].name, calls[i].value) in HeadersOf(calls)
    ensures forall f | f in ParametersOf(calls) ::
              f.name != "" && if f.TextField? then f.value != "" else f.fileName != "" && f.data != ""
    ensures forall i | 0 <= i < |calls| && calls[i].Parameter? && calls[i].name != "" && calls[i].value != "" ::
              TextField(calls[i].name, calls[i].value) in ParametersOf(calls)
    ensures forall i | 0 <= i < |calls| && calls[i].DataParameter? && calls[i].name != "" && calls[i].fileName != ""
                       && calls[i].data != "" ::
              FileField(calls[i].name, calls[i].fileName, calls[i].data) in ParametersOf(calls)
  {
    if calls != [] {
      OnlyFilled(calls[1..]);
      assert forall i | 1 <= i < |calls| :: calls[i] == calls[1..][i - 1];
    }
  }

  lemma FirstOf(calls: seq<Call>)
    requires calls != []
    ensures HeadersOf(calls) == HeadersOf([calls[0]]) + HeadersOf(calls[1..])
    ensures ParametersOf(calls) == ParametersOf([calls[0]]) + ParametersOf(calls[1..])
  {
    assert [calls[0]][1..] == [];
    assert HeadersOf([]) == [] && ParametersOf([]) == [];
  }

  lemma Together(a: seq<Field>, b: seq<Field>, c: seq<Field>)
    ensures a + b + c == a + (b + c)
  {
  }

  /** A run of calls appends what they add in call order; the first boundary stays, and so does the rest. */
  lemma {:induction false} CallsAdd(p: Post, calls: seq<Call>)
    ensures var q := CalledAll(p, calls);
            && q.headers == p.headers + HeadersOf(calls) && q.parameters == p.parameters + ParametersOf(calls)
            && (p.boundary != "" ==> q.boundary == p.boundary)
            && q.path == p.path && q.host == p.host && q.port == p.port && q.compressor == p.compressor
    decreases |calls|
  {
    if calls == [] {
      assert p.headers + [] == p.headers && p.parameters + [] == p.parameters;
    } else {
      var q, c, rest := Called(p, calls[0]), calls[0], calls[1..];
      CallAdds(p, c);
      FirstOf(calls);
      hide Called, HeadersOf, ParametersOf;
      CallsAdd(q, rest);
      Together(p.headers, HeadersOf([c]), HeadersOf(rest));
      Together(p.parameters, ParametersOf([c]), ParametersOf(rest));
    }
  }

  // ----- Which compression is applied -----

  /**
    What is applied, by the values of the fields: gzip if some field has that value, or else
    deflate, to url-encoded parameters; nothing to files, or when compression does not start.
  */
  lemma AppliedIs(p: Post)
    requires IsBuilt(p)
    ensures Applied(p)
         == if p.hasData || !p.compressor.ready then []
            else if HasValue(p.headers, "gzip") then [Gzip.Gzip]
            else if HasValue(p.headers, "deflate") then [Gzip.Deflate]
            else []
  {
    hide HasValue;
  }

  /** The only field with the value of a compression is the only Content-Encoding field. */
  predicate AnnouncesOnly(fs: seq<Field>, k: nat, value: string)
    requires k < |fs|
  {
    && fs[k].TextField? && SameName(fs[k].name, "Content-Encoding") && fs[k].value == value
    && forall i | 0 <= i < |fs| && i != k && fs[i].TextField? ::
         !SameName(fs[i].name, "Content-Encoding") && fs[i].value != "gzip" && fs[i].value != "deflate"
  }

  lemma OnlyValue(fs: seq<Field>, k: nat, name: string)
    requires k < |fs| && fs[k].TextField? && SameName(fs[k].name, name)
    requires forall i | 0 <= i < |fs| && i != k && fs[i].TextField? :: !SameName(fs[i].name, name)
    ensures Values(fs, name) == [fs[k].value]
  {
    hide SameName;
    var before, after := fs[..k], fs[k..];
    assert fs == before + after && after[0] == fs[k] && after[1..] == fs[k + 1..];
    ValuesOfConcat(before, after, name);
    NoValues(before, name);
    NoValues(after[1..], name);
    assert Values(after, name) == [fs[k].value] + Values(after[1..], name);
  }

  lemma CodingIs()
    ensures ReadCoding("gzip") == Some(Gzip.Gzip) && ReadCoding("deflate") == Some(Gzip.Deflate)
  {
    assert SameName("gzip", "gzip") && SameName("deflate", "deflate");
    assert |"deflate"| == 7 && |"gzip"| == 4 && |"x-gzip"| == 6;
  }

  lemma CodingOf(value: string)
    requires value == "gzip" || value == "deflate"
    ensures ReadCodings(AllElements([value])) == Some([if value == "gzip" then Gzip.Gzip else Gzip.Deflate])
  {
    CutNothing(value, ',');
    assert TrimLeft(value) == value && TrimRight(value) == value;
    assert ListElements(value) == [value];
    assert [value][1..] == [] && AllElements([]) == [] && AllElements([value]) == [value];
    CodingIs();
    hide SameName, ListElements;
    var m := if value == "gzip" then Gzip.Gzip else Gzip.Deflate;
    assert ReadCodings([]) == Some([]) && [m] + [] == [m];
  }

  /**
    The documented use: when the one field with the value "gzip" or "deflate" is the one
    Content-Encoding field, that coding is applied to the parameters and announced.
  */
  lemma AnnouncedIsApplied(p: Post, k: nat)
    requires IsBuilt(p) && !p.hasData && p.compressor.ready && k < |p.headers|
    requires AnnouncesOnly(p.headers, k, "gzip") || AnnouncesOnly(p.headers, k, "deflate")
    ensures var applied := if p.headers[k].value == "gzip" then Gzip.Gzip else Gzip.Deflate;
            Applied(p) == [applied] && Announced(p.headers) == Some([applied])
  {
    AppliedIs(p);
    var value := p.headers[k].value;
    assert "gzip" != "deflate" by { assert |"gzip"| == 4 && |"deflate"| == 7; }
    assert HasValue(p.headers, value);
    hide SameName;
    assert HasValue(p.headers, "gzip") ==> value == "gzip";
    OnlyValue(p.headers, k, "Content-Encoding");
    hide ReadCodings, AllElements, Values;
    CodingOf(value);
  }

  lemma PlainIs(p: Post)
    requires IsBuilt(p)
    ensures IsPost(p) && (!p.hasData ==> Plain(p) == UrlEncoded.Encoded(p.parameters))
    ensures p.hasData ==> Plain(p) == Multipart.Body(p.parameters, p.boundary)
  {
  }

  /** So every receiver gets the url-encoded parameters, whatever lossless library is used. */
  lemma DocumentedUse(p: Post, k: nat, c: Compressor)
    requires IsBuilt(p) && !p.hasData && p.parameters != [] && p.compressor.ready && k < |p.headers|
    requires AnnouncesOnly(p.headers, k, "gzip") || AnnouncesOnly(p.headers, k, "deflate")
    requires Works(p, c)
    ensures ReadContent(ReceivedBy(p, c), c.library) == Some(UrlEncoded.Encoded(p.parameters))
  {
    AnnouncedIsApplied(p, k);
    hide ReadContent, ReceivedBy, Announced, Applied, Works, IsBuilt, AnnouncesOnly, UrlEncoded.Encoded;
    PlainIs(p);
    AnnouncedIsRead(p, c);
  }

  // ----- From the bytes to the parameters -----

  /**
    The parameters that a receiver reads: it undoes the content codings, and takes the
    body for what the one Content-Type field says, url-encoded text or parts.
  */
  function ReadForm(r: Received, lib: Gzip.Library): Option<seq<Field>> {
    var types := Values(r.fields, "Content-Type");
    if |types| != 1 then None
    else
      match ReadContent(r, lib)
      case None => None
      case Some(text) =>
        if types[0] == "application/x-www-form-urlencoded" then UrlEncoded.FormDecoded(text)
        else
          match Multipart.After("multipart/form-data; boundary=", types[0])
          case None => None
          case Some(boundary) => Multipart.ReadBody(text, boundary)
  }

  /** What the parameters have to be like to arrive: no delimiter in a part, nothing that stands for something else. */
  predicate AreReadable(p: Post) {
    if p.hasData then Multipart.AllSafe(p.parameters, p.boundary)
    else
      forall i | 0 <= i < |p.parameters| ::
        && UrlEncoded.Separable(p.parameters[i])
        && UrlEncoded.IsPlain(p.parameters[i].name) && UrlEncoded.IsPlain(p.parameters[i].value)
  }

  lemma TypeNames()
    ensures !SameName(HOST, "Content-Type") && SameName(CONTENT_TYPE, "Content-Type")
    ensures !SameName(CONTENT_LENGTH, "Content-Type")
  {
    assert |HOST| == 4 && |CONTENT_LENGTH| == 14 && |"Content-Type"| == 12 && CONTENT_TYPE == "Content-Type";
  }

  /** The type that the body is given. */
  lemma TypeValues(p: Post)
    requires IsPost(p) && p.parameters != []
    ensures Values(AllFields(p), "Content-Type")
         == Values(p.headers, "Content-Type")
            + [if p.hasData then "multipart/form-data; boundary=" + p.boundary else "application/x-www-form-urlencoded"]
  {
    TypeNames();
    ValuesOfAll(p, "Content-Type");
    hide PostBody, SameName, AllFields, PortText, Digits;
    var fs := BodyFields(p);
    assert fs[1..] == [fs[1]] && fs[1..][1..] == [];
    assert Values(fs[1..], "Content-Type") == Values([], "Content-Type") == [];
    assert Values(fs, "Content-Type") == [fs[0].value] + [];
  }

  /** The length and the host, under the names that a receiver looks for. */
  lemma LengthAndHost(p: Post)
    requires IsPost(p) && p.parameters != []
    ensures Values(AllFields(p), "Content-Length") == Values(p.headers, "Content-Length") + [Digits(|PostBody(p)|)]
    ensures Values(AllFields(p), "Host") == [p.host + PortText(p.port)] + Values(p.headers, "Host")
  {
    FramingValues(p);
    BodyFieldsAnnounce(p);
    assert CONTENT_LENGTH == "Content-Length" && HOST == "Host";
    hide PostBody, AllFields, Values, PortText, Digits, BodyFields;
  }

  lemma FormTypes(boundary: string)
    ensures var t := "multipart/form-data; boundary=" + boundary;
            && t != "application/x-www-form-urlencoded"
            && Multipart.After("multipart/form-data; boundary=", t) == Some(boundary)
  {
    var t := "multipart/form-data; boundary=" + boundary;
    assert t[0] == 'm' && "application/x-www-form-urlencoded"[0] == 'a';
    Multipart.AfterOf("multipart/form-data; boundary=", boundary);
  }

  /** What is read once the codings are undone. */
  lemma FormOf(p: Post, c: Compressor)
    requires IsPost(p) && p.parameters != []
    requires ReadContent(ReceivedBy(p, c), c.library) == Some(Plain(p))
    ensures ReadForm(ReceivedBy(p, c), c.library)
         == if Values(p.headers, "Content-Type") != [] then None
            else if p.hasData then Multipart.ReadBody(Plain(p), p.boundary)
            else UrlEncoded.FormDecoded(Plain(p))
  {
    var q := p.(compressor := c);
    TypeValues(q);
    FormTypes(p.boundary);
    hide Plain, ReadContent, PostBody, AllFields, Values, UrlEncoded.FormDecoded, Multipart.ReadBody, Multipart.After;
  }

  lemma BoundaryLacks(b: string)
    requires IsBoundary(b)
    ensures Lacks(b, '\r')
  {
  }

  /**
    The receiver reads exactly the parameters that were added, in order, if and only if the
    caller adds no Content-Type and the parameters are readable: for every request whose
    codings are announced as they are applied, and every lossless library.
  */
  lemma FormIsRead(p: Post, c: Compressor)
    requires IsPost(p) && p.parameters != [] && Works(p, c) && Announced(p.headers) == Some(Applied(p))
    requires p.hasData || AllText(p.parameters)
    ensures ReadForm(ReceivedBy(p, c), c.library) == Some(p.parameters)
       <==> Values(p.headers, "Content-Type") == [] && AreReadable(p)
  {
    AnnouncedIsRead(p, c);
    FormOf(p, c);
    if p.hasData {
      assert Lacks(p.boundary, '\r') by { BoundaryLacks(p.boundary); }
      Multipart.MultipartRoundTrip(p.parameters, p.boundary);
    } else {
      UrlEncoded.FormRoundTrip(p.parameters);
    }
    hide ReadForm, ReceivedBy, Works, Announced, Applied, Values, UrlEncoded.FormDecoded, Multipart.ReadBody;
    hide UrlEncoded.Separable, UrlEncoded.IsPlain, Multipart.AllSafe;
  }

  /** The same from the bytes of the message, when the request is clean. */
  lemma MessageIsRead(p: Post, c: Compressor)
    requires IsPost(p) && p.parameters != [] && Works(p, c) && Announced(p.headers) == Some(Applied(p))
    requires IsClean(p.(compressor := c)) && Values(p.headers, "Content-Type") == [] && AreReadable(p)
    ensures var r := ReadRequest(Message(p.(compressor := c)));
            && r.Some? && r.value.0.target == p.path && r.value.0.host == p.host && r.value.0.port == p.port
            && ReadForm(r.value.0, c.library) == Some(p.parameters)
  {
    FormIsRead(p, c);
    PostFraming(p.(compressor := c));
    hide ReadForm, Works, Announced, Applied, Values, AreReadable, IsClean, ReadRequest, Message, PostBody;
  }
}
