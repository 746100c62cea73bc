/**
  Whether the receiver of a request can tell how its body is compressed: a reader of the
  Content-Encoding fields (sections 5.6.1 and 8.4 of RFC 9110), and when it gets the
  parameters back from what is sent.
*/
module ContentCoding {
  import opened CText
  import opened PostMessage
  import opened RequestFields
  import opened RequestReader
  import opened Wrappers
  import Gzip
  import Multipart
  import UrlEncoded
  import Zlib

  const CONTENT_ENCODING: string := "Content-Encoding"

  // ----- Reading -----

  /** The elements of a list with commas, without the blanks around them; empty ones do not count. */
  function ListElements(v: string): seq<string>
    decreases |v|
  {
    match Cut(v, ',')
    case None => ListElement(v)
    case Some((first, rest)) => ListElement(first) + ListElements(rest)
  }

  function ListElement(raw: string): seq<string> {
    var t := TrimRight(TrimLeft(raw));
    if t == "" then [] else [t]
  }

  function AllElements(values: seq<string>): seq<string> {
    if values == [] then [] else ListElements(values[0]) + AllElements(values[1..])
  }

  function ReadCoding(name: string): Option<Gzip.Method> {
    if SameName(name, "gzip") || SameName(name, "x-gzip") then Some(Gzip.Gzip)
    else if SameName(name, "deflate") then Some(Gzip.Deflate)
    else None
  }

  /** The codings in the order in which they were applied; None when one of them is unknown. */
  function ReadCodings(names: seq<string>): Option<seq<Gzip.Method>> {
    if names == [] then Some([])
    else
      match ReadCoding(names[0])
      case None => None
      case Some(m) => (match ReadCodings(names[1..]) case None => None case Some(ms) => Some([m] + ms))
  }

  /** The codings that the fields announce. */
  function Announced(fields: seq<Field>): Option<seq<Gzip.Method>> {
    ReadCodings(AllElements(Values(fields, CONTENT_ENCODING)))
  }

  /** Undoes the codings, the one applied last first. */
  function Uncoded(methods: seq<Gzip.Method>, lib: Gzip.Library, body: string): Option<string>
    decreases |methods|
  {
    if methods == [] then Some(body)
    else
      var before := |methods| - 1;
      match Gzip.Decompressed(lib, body, methods[before])
      case None => None
      case Some(x) => Uncoded(methods[..before], lib, x)
  }

  /** What a receiver takes the body of a request to be. */
  function ReadContent(r: Received, lib: Gzip.Library): Option<string> {
    match Announced(r.fields)
    case None => None
    case Some(methods) => Uncoded(methods, lib, r.body)
  }

  // ----- What is sent -----

  /** The body before compression. */
  function Plain(p: Post): string
    requires IsPost(p)
  {
    if p.hasData then Multipart.Body(p.parameters, p.boundary) else UrlEncoded.Encoded(p.parameters)
  }

  /** The compression that is applied to it. */
  function Applied(p: Post): seq<Gzip.Method> {
    if p.hasData || !Compresses(p) then [] else [CompressionMethod(p)]
  }

  /** A library that works as well as this one's: it starts as often, is lossless, and can hold the sizes. */
  ghost predicate Works(p: Post, c: Compressor)
    requires IsPost(p)
  {
    c.ready == p.compressor.ready && Gzip.LosslessLibrary(c.library)
    && Gzip.Fits(c.library, Plain(p), CompressionMethod(p))
  }

  /** What is received of the request when it is compressed with that library. */
  function ReceivedBy(p: Post, c: Compressor): Received
    requires IsPost(p)
  {
    Expected(p.(compressor := c))
  }

  /** The body that is sent is compressed as said. */
  lemma SentBody(p: Post)
    requires IsPost(p) && p.parameters != [] && Works(p, p.compressor)
    ensures Plain(p) != ""
    ensures PostBody(p)
         == if Applied(p) == [] then Plain(p)
            else Gzip.Compressed(p.compressor.library, p.compressor.time, Plain(p), CompressionMethod(p)).value
    ensures Applied(p) != [] ==>
              Gzip.Decompressed(p.compressor.library, PostBody(p), CompressionMethod(p)) == Some(Plain(p))
  {
    hide Gzip.Compressed, Gzip.Decompressed;
    if !p.hasData {
      assert UrlEncoded.Encoded(p.parameters) != "";
      var m := CompressionMethod(p);
      Gzip.RoundTrip(p.compressor.library, p.compressor.time, Plain(p), m);
      Gzip.CompressedIsSome(p.compressor.library, p.compressor.time, Plain(p), m);
    }
  }

  lemma NamesDifferFromEncoding()
    ensures !SameName(HOST, CONTENT_ENCODING) && !SameName(CONTENT_TYPE, CONTENT_ENCODING)
    ensures !SameName(CONTENT_LENGTH, CONTENT_ENCODING)
  {
    assert |HOST| == 4 && |CONTENT_TYPE| == 12 && |CONTENT_LENGTH| == 14 && |CONTENT_ENCODING| == 16;
  }

  /** Only the caller announces a coding. */
  lemma EncodingValues(p: Post)
    requires IsPost(p)
    ensures Values(AllFields(p), CONTENT_ENCODING) == Values(p.headers, CONTENT_ENCODING)
  {
    NamesDifferFromEncoding();
    ValuesOfAll(p, CONTENT_ENCODING);
    hide PostBody, AllFields, SameName, Values, PortText;
    NoValues(BodyFields(p), CONTENT_ENCODING);
  }

  lemma ReadContentIs(p: Post, c: Compressor)
    requires IsPost(p)
    ensures var announced, q := Announced(p.headers), p.(compressor := c);
            IsPost(q) && ReadContent(ReceivedBy(p, c), c.library)
            == if announced.None? then None else Uncoded(announced.value, c.library, PostBody(q))
  {
    EncodingValues(p.(compressor := c));
    hide PostBody, Uncoded, AllFields, Values, ReadCodings, AllElements;
  }

  // ----- A library that tells everything apart -----

  /** A character that does not make the text look compressed, nor a gzip file like a deflated text. */
  predicate IsMark(x: string, c: char) {
    c != At(x, 0) && c != At(x, Gzip.HEADER_SIZE) && c != '\U{1F}'
  }

  function Mark(x: string, other: char): (c: char)
    ensures IsMark(x, c) && c != other
  {
    if IsMark(x, 'a') && other != 'a' then 'a'
    else if IsMark(x, 'b') && other != 'b' then 'b'
    else if IsMark(x, 'c') && other != 'c' then 'c'
    else 'd'
  }

  /** Puts the mark `a` for the text `x`, and stores any other behind the mark `b`. */
  function Marked(x: string, a: char, b: char, y: string): string {
    if y == x then [a] else [b] + Zlib.Stored(y)
  }

  function Unmarked(x: string, a: char, b: char, z: string): Zlib.Inflation {
    if z == "" then Zlib.Incomplete("")
    else if z[0] == a then Zlib.Complete(x)
    else if z[0] == b then Zlib.Restored(z[1..])
    else Zlib.Corrupt("")
  }

  function Marking(x: string, a: char, b: char): Zlib.Codec {
    Zlib.Codec(y => Marked(x, a, b, y), z => Unmarked(x, a, b, z))
  }

  lemma MarkedIsRestored(x: string, a: char, b: char, y: string, rest: string)
    requires a != b
    ensures Unmarked(x, a, b, Marked(x, a, b, y) + rest) == Zlib.Complete(y)
  {
    hide Zlib.Restored, Zlib.Stored;
    var z := Marked(x, a, b, y) + rest;
    assert z[0] == if y == x then a else b;
    if y != x {
      Zlib.RestoredOfStored(y, rest);
      assert z[1..] == Zlib.Stored(y) + rest;
    }
  }

  lemma MarkedPrefix(x: string, a: char, b: char, y: string, n: nat)
    requires a != b && n < |Marked(x, a, b, y)|
    ensures Unmarked(x, a, b, Marked(x, a, b, y)[..n]).Incomplete?
  {
    hide Zlib.Restored, Zlib.Stored;
    var z := Marked(x, a, b, y)[..n];
    if n > 0 {
      Zlib.RestoredOfPrefix(y, n - 1);
      assert z[0] == b && z[1..] == Zlib.Stored(y)[..n - 1];
    }
  }

  lemma MarkingIsLossless(x: string, a: char, b: char)
    requires a != b
    ensures Zlib.Lossless(Marking(x, a, b))
  {
    hide Marked, Unmarked;
    var c := Marking(x, a, b);
    forall y: string, rest: string ensures c.inflate(c.deflate(y) + rest) == Zlib.Complete(y) {
      MarkedIsRestored(x, a, b, y, rest);
    }
    forall y: string, n: nat | n < |c.deflate(y)| ensures c.inflate(c.deflate(y)[..n]).Incomplete? {
      MarkedPrefix(x, a, b, y, n);
    }
  }

  /** The library for a text, with marks that suit it. */
  function Telling(x: string, a: char, b: char): Gzip.Library {
    Gzip.Library(Marking(x, a, b), Marking(x, a, b), _ => 0)
  }

  predicate AreMarks(x: string, a: char, b: char) {
    a != b && IsMark(x, a) && IsMark(x, b)
  }

  /** The text itself does not decompress. */
  lemma TextFails(x: string, a: char, b: char, m: Gzip.Method)
    requires AreMarks(x, a, b)
    ensures Gzip.Decompressed(Telling(x, a, b), x, m) == None
  {
    var payload := Gzip.Payload(x, m);
    if payload.Some? && payload.value != "" {
      assert payload.value[0] == if m.Deflate? then x[0] else x[Gzip.HEADER_SIZE];
    }
  }

  /** Its compressed form is another text, and the other method cannot decompress it. */
  lemma OtherMethodFails(time: nat, x: string, a: char, b: char, m: Gzip.Method, other: Gzip.Method)
    requires AreMarks(x, a, b) && x != "" && |x| < 0x1_0000_0000 && m != other
    ensures var z := Gzip.Compressed(Telling(x, a, b), time, x, m).value;
            z != x && Gzip.Decompressed(Telling(x, a, b), z, other) == None
  {
    var z := Gzip.Compressed(Telling(x, a, b), time, x, m).value;
    Gzip.WholeReached(x);
    Gzip.WholeReached([a]);
    if m.Deflate? {
      assert z == [a];
    } else {
      assert z == Gzip.Header(time) + [a] + Gzip.Footer(0, |x|);
      assert z[0] == Gzip.Header(time)[0] == '\U{1F}' && z[Gzip.HEADER_SIZE] == a;
      Gzip.WholeReached(z);
    }
  }

  lemma FitsWhenWorks(p: Post, c: Compressor)
    requires IsPost(p) && Works(p, c)
    ensures Gzip.Fits(c.library, Plain(p), CompressionMethod(p)) && |Plain(p)| < 0x1_0000_0000
  {
  }

  lemma LastFails(methods: seq<Gzip.Method>, lib: Gzip.Library, body: string)
    requires methods != [] && Gzip.Decompressed(lib, body, methods[|methods| - 1]) == None
    ensures Uncoded(methods, lib, body) == None
  {
    hide Gzip.Decompressed;
  }

  lemma LastWorks(methods: seq<Gzip.Method>, lib: Gzip.Library, body: string, x: string)
    requires methods != [] && Gzip.Decompressed(lib, body, methods[|methods| - 1]) == Some(x)
    ensures Uncoded(methods, lib, body) == Uncoded(methods[..|methods| - 1], lib, x)
  {
    hide Gzip.Decompressed;
  }

  lemma NoCodings(lib: Gzip.Library, body: string)
    ensures Uncoded([], lib, body) == Some(body)
  {
  }

  /** With that library, codings that were not applied never give the body back. */
  lemma WrongCodings(p: Post, a: char, b: char, methods: seq<Gzip.Method>)
    requires IsPost(p) && p.parameters != [] && AreMarks(Plain(p), a, b)
    requires p.compressor.library == Telling(Plain(p), a, b) && Works(p, p.compressor) && methods != Applied(p)
    ensures Uncoded(methods, p.compressor.library, PostBody(p)) != Some(Plain(p))
  {
    var x, m, lib := Plain(p), CompressionMethod(p), p.compressor.library;
    SentBody(p);
    FitsWhenWorks(p, p.compressor);
    hide IsPost, PostBody, Plain, Gzip.Compressed, Gzip.Decompressed, Works, Telling, AreMarks, Uncoded;
    hide CompressionMethod;
    if Applied(p) != [] {
      OtherMethodFails(p.compressor.time, x, a, b, m, if m.Gzip? then Gzip.Deflate else Gzip.Gzip);
    }
    if methods != [] {
      var last, before := methods[|methods| - 1], methods[..|methods| - 1];
      TextFails(x, a, b, last);
      if Applied(p) == [] || last != m {
        LastFails(methods, lib, PostBody(p));
      } else {
        LastWorks(methods, lib, PostBody(p), x);
        assert methods == before + [m];
        TextFails(x, a, b, before[|before| - 1]);
        LastFails(before, lib, x);
      }
    } else {
      NoCodings(lib, PostBody(p));
    }
  }

  // ----- Main results -----

  /** When the caller announces what is applied, every library of the receiver gives the body back. */
  lemma AnnouncedIsRead(p: Post, c: Compressor)
    requires IsPost(p) && p.parameters != [] && Works(p, c) && Announced(p.headers) == Some(Applied(p))
    ensures ReadContent(ReceivedBy(p, c), c.library) == Some(Plain(p))
  {
    var q := p.(compressor := c);
    ReadContentIs(p, c);
    SentBody(q);
    hide PostBody, Gzip.Compressed, Gzip.Decompressed, ReadContent, ReceivedBy, Announced;
    assert Applied(q) == Applied(p) && Plain(q) == Plain(p);
    if Applied(p) != [] {
      assert Applied(p)[..0] == [];
    }
  }

  lemma TellingWorks(p: Post, c: Compressor, a: char, b: char)
    requires IsPost(p) && |Plain(p)| < 0x1_0000_0000 && AreMarks(Plain(p), a, b)
    requires c == Compressor(Telling(Plain(p), a, b), 0, p.compressor.ready)
    ensures Works(p, c)
  {
    MarkingIsLossless(Plain(p), a, b);
    hide Zlib.Lossless, Plain;
  }

  lemma NotRead(p: Post, c: Compressor, a: char, b: char)
    requires IsPost(p) && p.parameters != [] && AreMarks(Plain(p), a, b)
    requires c.library == Telling(Plain(p), a, b) && Works(p, c) && Announced(p.headers) != Some(Applied(p))
    ensures ReadContent(ReceivedBy(p, c), c.library) != Some(Plain(p))
  {
    var q := p.(compressor := c);
    ReadContentIs(p, c);
    assert Applied(q) == Applied(p) && Plain(q) == Plain(p) && Works(q, c);
    hide PostBody, Plain, Announced, ReadContent, ReceivedBy, Works, Applied, Telling, AreMarks;
    if Announced(p.headers).Some? {
      WrongCodings(q, a, b, Announced(p.headers).value);
    }
  }

  /**
    The receiver of a body gets it back, whatever lossless library compresses it, exactly
    when the Content-Encoding fields of the caller are what is applied.
  */
  lemma ContentIsRead(p: Post)
    requires IsPost(p) && p.parameters != [] && |Plain(p)| < 0x1_0000_0000
    ensures (forall c | Works(p, c) :: ReadContent(ReceivedBy(p, c), c.library) == Some(Plain(p)))
       <==> Announced(p.headers) == Some(Applied(p))
  {
    var a := Mark(Plain(p), NUL);
    var b := Mark(Plain(p), a);
    hide Plain, Announced, ReadContent, ReceivedBy, Works, Telling, IsMark;
    if Announced(p.headers) == Some(Applied(p)) {
      forall c | Works(p, c) ensures ReadContent(ReceivedBy(p, c), c.library) == Some(Plain(p)) {
        AnnouncedIsRead(p, c);
      }
    } else {
      var c := Compressor(Telling(Plain(p), a, b), 0, p.compressor.ready);
      TellingWorks(p, c, a, b);
      NotRead(p, c, a, b);
    }
  }

  lemma NothingAnnounced()
    ensures Announced([TextField("Accept-Encoding", "gzip")]) == Some([])
  {
    var fs := [TextField("Accept-Encoding", "gzip")];
    assert |"Accept-Encoding"| == 15 && |CONTENT_ENCODING| == 16;
    assert fs[1..] == [] && Values(fs, CONTENT_ENCODING) == Values(fs[1..], CONTENT_ENCODING) == [];
  }

  /** A request with one parameter whose caller asks for a compressed response. */
  function Accepting(path: string, host: string, compressor: Compressor): (p: Post)
    ensures IsPost(p)
  {
    var headers := [TextField("Accept-Encoding", "gzip")];
    Post(path, host, 80, headers, [TextField("a", "b")], false, "", true, false, compressor)
  }

  /** Asking for a compressed response compresses the request, and nothing in it says so. */
  lemma AcceptEncodingCompresses(path: string, host: string, compressor: Compressor)
    requires compressor.ready
    ensures var p := Accepting(path, host, compressor);
            exists c | Works(p, c) :: ReadContent(ReceivedBy(p, c), c.library) != Some(Plain(p))
  {
    var p := Accepting(path, host, compressor);
    NothingAnnounced();
    assert |Applied(p)| == 1;
    assert |Plain(p)| == 3 by { assert p.parameters[1..] == []; }
    hide Plain, Announced, ReadContent, ReceivedBy, Works, Applied;
    ContentIsRead(p);
    assert !(forall c | Works(p, c) :: ReadContent(ReceivedBy(p, c), c.library) == Some(Plain(p)));
  }

  lemma OneElement()
    ensures AllElements(["gzip"]) == ["gzip"]
  {
    CutNothing("gzip", ',');
    assert TrimLeft("gzip") == "gzip" && TrimRight("gzip") == "gzip";
    assert ListElements("gzip") == ["gzip"];
    assert ["gzip"][1..] == [] && AllElements([]) == [];
  }

  lemma OneCoding()
    ensures ReadCodings(["gzip"]) == Some([Gzip.Gzip])
  {
    assert SameName("gzip", "gzip");
    assert ["gzip"][1..] == [] && ReadCodings([]) == Some([]);
    assert ReadCoding("gzip") == Some(Gzip.Gzip);
    assert [Gzip.Gzip] + [] == [Gzip.Gzip];
  }

  /** A body with a file is sent as it is, although its coding is announced. */
  lemma FileIsNotCompressed(p: Post)
    requires IsPost(p) && p.hasData && Values(p.headers, CONTENT_ENCODING) == ["gzip"]
    requires |Plain(p)| < 0x1_0000_0000
    ensures exists c | Works(p, c) :: ReadContent(ReceivedBy(p, c), c.library) != Some(Plain(p))
  {
    OneCoding();
    OneElement();
    hide Plain, ReadContent, ReceivedBy, Works, ReadCodings, AllElements;
    assert Announced(p.headers) == Some([Gzip.Gzip]);
    hide Announced;
    ContentIsRead(p);
  }
}
