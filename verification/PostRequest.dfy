/**
  A POST request as the source builds it: parameters and header fields are added to
  linked lists, the body is written, its fields are added, and the message is composed
  in one buffer.
*/
module PostRequest {
  import opened CText
  import opened Decimal
  import opened RequestFields
  import opened RequestReader
  import opened PostMessage
  import Gzip
  import Multipart
  import UrlEncoded
  import Zlib

  const GZIP: string := "gzip"
  const DEFLATE: string := "deflate"

  /** A field is added unless something is empty; a value that names a compression switches it on. */
  function WithHeader(p: Post, name: string, value: string): Post {
    if name == "" || value == "" then p
    else p.(headers := p.headers + [TextField(name, value)],
            gziped := p.gziped || value == GZIP, deflated := p.deflated || value == DEFLATE)
  }

  /** A file is added unless something is empty; the first one fixes the boundary. */
  function WithFile(p: Post, name: string, fileName: string, data: string, newBoundary: string): Post {
    if name == "" || fileName == "" || data == "" then p
    else p.(parameters := p.parameters + [FileField(name, fileName, data)], hasData := true,
            boundary := if p.boundary == "" then newBoundary else p.boundary)
  }

  class Request {
    var path: string
    var host: string
    var port: nat
    const headers: FieldList
    const parameters: FieldList
    var hasData: bool
    var boundary: string
    var isGziped: bool
    var isDeflated: bool
    const compressor: Compressor

    ghost predicate Valid()
      reads this, headers, headers.Repr, parameters, parameters.Repr
    {
      Apart() && IsPost(View())
    }

    /** The two lists are well formed and share nothing. */
    ghost predicate Apart()
      reads headers, headers.Repr, parameters, parameters.Repr
      ensures Apart() ==> this !in {headers, parameters} + headers.Repr + parameters.Repr
    {
      && headers.Valid() && parameters.Valid()
      && headers.Repr !! parameters.Repr && this !in headers.Repr + parameters.Repr
    }

    ghost function View(): Post
      reads this, headers, headers.Repr, parameters, parameters.Repr
      requires Apart()
    {
      Post(path, host, port, headers.Fields(), parameters.Fields(), hasData, boundary, isGziped, isDeflated, compressor)
    }

    constructor (path: string, host: string, port: nat, compressor: Compressor)
      requires port < 0x10000
      ensures Valid() && View() == Post(path, host, port, [], [], false, "", false, false, compressor)
      ensures fresh(headers.Repr) && fresh(parameters.Repr)
    {
      this.path, this.host, this.port := path, host, port;
      headers := new FieldList();
      parameters := new FieldList();
      hasData, boundary, isGziped, isDeflated := false, "", false, false;
      this.compressor := compressor;
    }

    lemma HeaderPost(p: Post, name: string, value: string)
      requires IsPost(p) && name != "" && value != ""
      ensures var q := WithHeader(p, name, value);
              IsPost(q)
              && q == Post(p.path, p.host, p.port, p.headers + [TextField(name, value)], p.parameters, p.hasData,
                           p.boundary, p.gziped || value == GZIP, p.deflated || value == DEFLATE, p.compressor)
    {
    }

    method MarkCompression(value: string)
      requires Apart()
      modifies this`isGziped, this`isDeflated
      ensures Apart() && headers.Fields() == old(headers.Fields()) && parameters.Fields() == old(parameters.Fields())
      ensures isGziped == (old(isGziped) || value == GZIP) && isDeflated == (old(isDeflated) || value == DEFLATE)
    {
      hide FieldList.Fields, FieldList.Linked, FieldList.Valid;
      if value == GZIP {
        isGziped := true;
      }
      if value == DEFLATE {
        isDeflated := true;
      }
    }

    method AppendHeader(name: string, value: string)
      requires Apart() && name != "" && value != ""
      modifies headers.Repr
      ensures Apart() && fresh(headers.Repr - old(headers.Repr)) && parameters.Repr == old(parameters.Repr)
      ensures headers.Linked() && headers.Fields() == old(headers.Fields()) + [TextField(name, value)]
      ensures parameters.Linked() && parameters.Fields() == old(parameters.Fields())
    {
      headers.AddText(name, value);
    }

    method AddHeaderField(name: string, value: string)
      requires Valid()
      modifies this`isGziped, this`isDeflated, headers.Repr
      ensures Valid() && View() == WithHeader(old(View()), name, value)
      ensures fresh(headers.Repr - old(headers.Repr)) && parameters.Repr == old(parameters.Repr)
    {
      if |name| == 0 || |value| == 0 {
        return;
      }
      ghost var post := View();
      HeaderPost(post, name, value);
      hide IsPost, WithHeader, Apart, FieldList.Fields, FieldList.Linked, FieldList.Valid;
      AppendHeader(name, value);
      MarkCompression(value);
    }

    lemma ParameterPost(p: Post, name: string, value: string)
      requires IsPost(p)
      ensures IsPost(p.(parameters := p.parameters + Accepted(name, value)))
    {
    }

    method AddParameter(name: string, value: string)
      requires Valid()
      modifies parameters.Repr
      ensures Valid() && fresh(parameters.Repr - old(parameters.Repr)) && headers.Repr == old(headers.Repr)
      ensures View() == old(View()).(parameters := old(View()).parameters + Accepted(name, value))
    {
      ghost var post := View();
      ParameterPost(post, name, value);
      hide IsPost;
      parameters.AddText(name, value);
    }

    lemma FilePost(p: Post, name: string, fileName: string, data: string, newBoundary: string)
      requires IsPost(p) && IsBoundary(newBoundary) && name != "" && fileName != "" && data != ""
      ensures var q := WithFile(p, name, fileName, data, newBoundary);
              IsPost(q)
              && q == Post(p.path, p.host, p.port, p.headers, p.parameters + [FileField(name, fileName, data)], true,
                           if p.boundary == "" then newBoundary else p.boundary, p.gziped, p.deflated, p.compressor)
    {
    }

    method MarkData(newBoundary: string)
      requires Apart()
      modifies this`hasData, this`boundary
      ensures Apart() && headers.Fields() == old(headers.Fields()) && parameters.Fields() == old(parameters.Fields())
      ensures hasData && boundary == if old(boundary) == "" then newBoundary else old(boundary)
    {
      hide FieldList.Fields, FieldList.Linked, FieldList.Valid;
      hasData := true;
      if boundary == "" {
        boundary := newBoundary;
      }
    }

    method AppendFile(name: string, fileName: string, data: string)
      requires Apart() && name != "" && fileName != "" && data != ""
      modifies parameters.Repr
      ensures Apart() && fresh(parameters.Repr - old(parameters.Repr)) && headers.Repr == old(headers.Repr)
      ensures parameters.Linked() && parameters.Fields() == old(parameters.Fields()) + [FileField(name, fileName, data)]
      ensures headers.Linked() && headers.Fields() == old(headers.Fields())
    {
      parameters.AddFile(name, fileName, data);
    }

    /** `newBoundary` is what the random generator would give; it is used for the first file only. */
    method AddDataParameter(name: string, fileName: string, data: string, newBoundary: string)
      requires Valid() && IsBoundary(newBoundary)
      modifies this`hasData, this`boundary, parameters.Repr
      ensures Valid() && fresh(parameters.Repr - old(parameters.Repr)) && headers.Repr == old(headers.Repr)
      ensures View() == WithFile(old(View()), name, fileName, data, newBoundary)
    {
      if |data| == 0 || |name| == 0 || |fileName| == 0 {
        return;
      }
      ghost var post := View();
      FilePost(post, name, fileName, data, newBoundary);
      hide IsPost, IsBoundary, WithFile, Apart, FieldList.Fields, FieldList.Linked, FieldList.Valid;
      AppendFile(name, fileName, data);
      MarkData(newBoundary);
    }

    lemma NothingEncoded(fs: seq<Field>)
      requires fs == []
      ensures UrlEncoded.Encoded(fs) == ""
    {
    }

    lemma PackedForm(p: Post, x: string)
      ensures Packed(p, "") == ""
      ensures !Compresses(p) ==> Packed(p, x) == x
      ensures Compresses(p) && x != "" ==>
                var z := Gzip.Compressed(p.compressor.library, p.compressor.time, x, CompressionMethod(p));
                z.Some? && Packed(p, x) == if z.value == "" then x else z.value
    {
    }

    /** Replaces the text by its compressed form, if there is any. */
    method Pack(text: array<char>, textLength: nat, pace: Zlib.Pace, ghost x: string)
      returns (body: array<char>, length: nat)
      requires Apart() && (isGziped || isDeflated) && x != ""
      requires textLength <= text.Length && text[..textLength] == x
      ensures body == text || fresh(body)
      ensures length <= body.Length && body[..length] == Packed(View(), x)
    {
      PackedForm(View(), x);
      hide Packed, Apart, Gzip.Compressed;
      body, length := text, textLength;
      var z, size := Gzip.Compress(compressor.library, compressor.time, text[..textLength],
                                   if isGziped then Gzip.Gzip else Gzip.Deflate, compressor.ready, pace);
      if z != null && size > 0 {
        body, length := z, size;
      }
    }

    /** Writes the url-encoded parameters, and compresses them when a header field has asked for it. */
    method WriteUrlEncoded(pace: Zlib.Pace) returns (body: array?<char>, length: nat)
      requires Valid() && !hasData
      ensures length == |Packed(View(), UrlEncoded.Encoded(parameters.Fields()))|
      ensures body == null <==> parameters.Fields() == []
      ensures body == null ==> length == 0
      ensures body != null ==>
                fresh(body) && length <= body.Length
                && body[..length] == Packed(View(), UrlEncoded.Encoded(parameters.Fields()))
    {
      ghost var post, x := View(), UrlEncoded.Encoded(parameters.Fields());
      PackedForm(post, x);
      hide UrlEncoded.Encoded, Packed;
      body, length := UrlEncoded.UrlEncodedParameters(parameters);
      if body == null {
        NothingEncoded(parameters.Fields());
        return;
      }
      if isGziped || isDeflated {
        body, length := Pack(body, length, pace, x);
      }
    }

    lemma BodyIs(p: Post)
      requires IsPost(p)
      ensures PostBody(p) == if p.hasData then Multipart.Body(p.parameters, p.boundary)
                             else Packed(p, UrlEncoded.Encoded(p.parameters))
      ensures p.parameters == [] ==> PostBody(p) == "" && BodyFields(p) == []
    {
    }

    /** Writes the body; null if there are no parameters. */
    method WriteBody(pace: Zlib.Pace) returns (body: array?<char>, length: nat)
      requires Valid()
      ensures length == |PostBody(View())|
      ensures body == null <==> parameters.Fields() == []
      ensures body == null ==> length == 0
      ensures body != null ==> fresh(body) && length <= body.Length && body[..length] == PostBody(View())
    {
      hide PostBody, Multipart.Body, UrlEncoded.Encoded, Packed;
      BodyIs(View());
      if hasData {
        body, length := Multipart.CreateDataParameters(parameters, boundary);
      } else {
        body, length := WriteUrlEncoded(pace);
      }
    }

    lemma TwoFields(fs: seq<Field>, p: Post, contentType: string, length: string)
      requires IsPost(p) && p.parameters != []
      requires contentType == (if p.hasData then MULTIPART + p.boundary else URL_ENCODED)
      requires length == Digits(|PostBody(p)|)
      ensures CONTENT_TYPE != "" && CONTENT_LENGTH != "" && contentType != "" && length != ""
      ensures contentType != GZIP && contentType != DEFLATE && length != GZIP && length != DEFLATE
      ensures fs + [TextField(CONTENT_TYPE, contentType)] + [TextField(CONTENT_LENGTH, length)] == fs + BodyFields(p)
    {
      hide PostBody, Digits;
      assert GZIP[0] == 'g' && DEFLATE[0] == 'd' && IsDigit(length[0]);
      assert |GZIP| == 4 && |DEFLATE| == 7 && |MULTIPART| == 30 && |URL_ENCODED| == 33;
    }

    method AddBodyFields(length: nat, ghost post: Post)
      requires Valid() && post == View() && post.parameters != [] && length == |PostBody(post)|
      modifies this`isGziped, this`isDeflated, headers.Repr
      ensures Valid() && parameters.Repr == old(parameters.Repr) && fresh(headers.Repr - old(headers.Repr))
      ensures View() == post.(headers := post.headers + BodyFields(post))
    {
      hide PostBody, IsPost, CONTENT_TYPE, CONTENT_LENGTH, URL_ENCODED, MULTIPART, Digits, GZIP, DEFLATE;
      var contentType := if hasData then MULTIPART + boundary else URL_ENCODED;
      TwoFields(headers.Fields(), post, contentType, Digits(length));
      AddHeaderField(CONTENT_TYPE, contentType);
      AddHeaderField(CONTENT_LENGTH, Digits(length));
    }

    /** Writes the body and adds the fields that describe it. */
    method CreateParameters(pace: Zlib.Pace, ghost post: Post) returns (body: array?<char>, length: nat)
      requires Valid() && post == View()
      modifies this`isGziped, this`isDeflated, headers.Repr
      ensures Valid() && parameters.Repr == old(parameters.Repr) && fresh(headers.Repr - old(headers.Repr))
      ensures View() == post.(headers := post.headers + BodyFields(post))
      ensures length == |PostBody(post)|
      ensures body == null ==> length == 0
      ensures body != null ==> fresh(body) && length <= body.Length && body[..length] == PostBody(post)
    {
      hide PostBody, IsPost, BodyFields;
      BodyIs(post);
      body, length := WriteBody(pace);
      if body != null {
        AddBodyFields(length, post);
      } else {
        assert post.headers + [] == post.headers;
      }
    }

    /** The local buffers for the values of both fields are large enough for every 64-bit length. */
    lemma FieldBuffersFit(p: Post, length: nat)
      requires IsPost(p) && p.boundary != "" && length < 0x1_0000_0000_0000_0000
      ensures |MULTIPART + p.boundary| < Multipart.BOUNDARY_LENGTH + 32 && |Digits(length)| < 24
    {
      assert Pow10(10) == 10_000_000_000 && Pow10(20) == 100_000_000_000_000_000_000;
      DigitsLength(length, 20, Pow10(20));
    }

    static lemma NoFields(fs: seq<Field>)
      requires AllText(fs)
      ensures fs == [] <==> Joined(fs, CRLF, ": ") == ""
    {
    }

    /** The text of the header fields, or nothing if there are none. */
    method HeaderText(ghost post: Post) returns (fields: string)
      requires Valid() && post == View()
      ensures fields == Joined(post.headers, CRLF, ": ")
    {
      hide Joined;
      NoFields(post.headers);
      var buff, length := WriteFields(headers, CRLF, ": ");
      return if buff == null then "" else buff[..length];
    }

    static lemma FixedSizes(port: nat)
      requires port < 0x10000
      ensures |HTTP_VERSION| == 9 && |Digits(port)| <= 5 && |CRLF| == 2
    {
      DigitsLength(port, 5, 100000);
    }

    static lemma MessageIs(p: Post)
      requires IsPost(p)
      ensures Message(p) == RequestLine(p.path) + HostLine(p.host, p.port)
                            + WithBlankLine(Joined(p.headers + BodyFields(p), CRLF, ": ")) + Content(PostBody(p))
    {
    }

    static lemma MessageSize(p: Post)
      requires IsPost(p)
      ensures |Message(p)| < |p.path| + |p.host| + |PostBody(p)| + |Joined(p.headers + BodyFields(p), CRLF, ": ")| + 256
    {
      hide PostBody, BodyFields, Joined;
      FixedSizes(p.port);
      NoFields(p.headers + BodyFields(p));
    }

    static lemma PiecesFit(p: Post)
      requires IsPost(p)
      ensures var fields := Joined(p.headers + BodyFields(p), CRLF, ": ");
              var a, b := RequestLine(p.path), HostLine(p.host, p.port);
              var c, d := WithBlankLine(fields), Content(PostBody(p));
              Message(p) == a + b + c + d && |Message(p)| == |a| + |b| + |c| + |d|
              && |a| + |b| + |c| + |d| < |p.path| + |p.host| + |PostBody(p)| + |fields| + 256
    {
      MessageIs(p);
      MessageSize(p);
      hide Message, FieldsText, Joined, PostBody, BodyFields, IsPost, RequestLine, HostLine, WithBlankLine, Content;
    }

    static method WritePieces(buffSize: nat, a: string, b: string, c: string, d: string, ghost whole: string)
      returns (buff: array<char>, size: nat)
      requires |a| + |b| + |c| + |d| < buffSize && whole == a + b + c + d
      ensures fresh(buff) && buff.Length == buffSize && size == |whole| < buffSize
      ensures buff[..size] == whole && buff[size] == NUL
    {
      buff := new char[buffSize];
      CopyText(buff, 0, a);
      CopyText(buff, |a|, b);
      CopyText(buff, |a| + |b|, c);
      CopyText(buff, |a| + |b| + |c|, d);
      size := |a| + |b| + |c| + |d|;
      buff[size] := NUL;
    }

    /** The sprintf and memcpy calls that compose the message. */
    static method Compose(path: string, host: string, port: nat, content: string, fields: string, ghost post: Post)
      returns (buff: array<char>, size: nat)
      requires IsPost(post) && path == post.path && host == post.host && port == post.port
      requires content == PostBody(post)
      requires fields == Joined(post.headers + BodyFields(post), CRLF, ": ")
      ensures fresh(buff) && size == |Message(post)| < buff.Length
      ensures buff[..size] == Message(post) && buff[size] == NUL
    {
      PiecesFit(post);
      hide Message, FieldsText, Joined, PostBody, BodyFields, IsPost, RequestLine, HostLine, WithBlankLine, Content;
      var requestLine, hostLine := RequestLine(path), HostLine(host, port);
      var lines, end := WithBlankLine(fields), Content(content);
      var buffSize := |path| + |host| + |content| + |fields| + 256;
      buff, size := WritePieces(buffSize, requestLine, hostLine, lines, end, Message(post));
    }

    /** The message, in one buffer with 256 bytes for what the fixed parts take. */
    method CreateHeader(pace: Zlib.Pace, ghost post: Post) returns (buff: array<char>, size: nat)
      requires Valid() && post == View()
      modifies this`isGziped, this`isDeflated, headers.Repr
      ensures Valid() && parameters.Repr == old(parameters.Repr) && fresh(headers.Repr - old(headers.Repr))
      ensures View() == post.(headers := post.headers + BodyFields(post))
      ensures fresh(buff) && Holds(buff, 0, Message(post)) && size == |Message(post)|
    {
      hide PostBody, IsPost, BodyFields, Message, Joined;
      var body, length := CreateParameters(pace, post);
      var content := if body == null then "" else body[..length];
      var fields := HeaderText(View());
      buff, size := Compose(path, host, port, content, fields, post);
      assert buff[0..size] == buff[..size];
    }

  }
}
