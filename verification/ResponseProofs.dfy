/**
  How a response depends on the bytes received: not on how identity-coded bytes were
  split, and for the chunked coding only on the chunks.
*/
module ResponseProofs {
  import opened CText
  import opened Wrappers
  import opened ResponseSpec
  import Gzip

  function Concat(ts: seq<string>): string {
    if ts == [] then "" else ts[0] + Concat(ts[1..])
  }

  /** A header block: the first blank line of `h` + CRLFCRLF is the one after `h`. */
  predicate IsHeader(h: string) {
    |h| > 4 && StrStr(h + DOUBLE_CRLF, DOUBLE_CRLF) == Some(|h|)
  }

  /** A blank line begins at that place. */
  predicate BlankLineAt(s: string, i: nat) {
    i + 4 <= |s| && s[i] == '\r' && s[i + 1] == '\n' && s[i + 2] == '\r' && s[i + 3] == '\n'
  }

  lemma {:induction false} StrStrIs(s: string, k: nat)
    ensures StrStr(s, DOUBLE_CRLF) == Some(k)
       <==> BlankLineAt(s, k) && forall i | 0 <= i < k :: !BlankLineAt(s, i) && s[i] != NUL
    decreases |s|
  {
    assert DOUBLE_CRLF <= s <==> BlankLineAt(s, 0);
    if !BlankLineAt(s, 0) && At(s, 0) != NUL && k > 0 {
      var t := s[1..];
      StrStrIs(t, k - 1);
      LaterLines(s, k);
    }
  }

  lemma LaterLines(s: string, k: nat)
    requires s != "" && k > 0
    ensures BlankLineAt(s, k) <==> BlankLineAt(s[1..], k - 1)
    ensures BlankLineAt(s, k) ==>
              ((forall i | 1 <= i < k :: !BlankLineAt(s, i) && s[i] != NUL)
               <==> (forall i | 0 <= i < k - 1 :: !BlankLineAt(s[1..], i) && s[1..][i] != NUL))
  {
    var t := s[1..];
    if BlankLineAt(s, k) {
      forall i | 1 <= i < k ensures (BlankLineAt(s, i) <==> BlankLineAt(t, i - 1)) && s[i] == t[i - 1] {
      }
      if forall i | 1 <= i < k :: !BlankLineAt(s, i) && s[i] != NUL {
        forall i | 0 <= i < k - 1 ensures !BlankLineAt(t, i) && t[i] != NUL {
          assert BlankLineAt(s, i + 1) <==> BlankLineAt(t, i + 1 - 1);
          assert s[i + 1] == t[i];
        }
      }
    }
  }

  /** Where a header block ends: at its first blank line, with no terminator before it. */
  lemma HeaderEnds(h: string)
    ensures IsHeader(h)
       <==> |h| > 4 && forall i | 0 <= i < |h| :: !BlankLineAt(h + DOUBLE_CRLF, i) && h[i] != NUL
  {
    var s := h + DOUBLE_CRLF;
    StrStrIs(s, |h|);
    assert forall i | 0 <= i < |h| :: s[i] == h[i];
    assert s[|h|..] == DOUBLE_CRLF;
    assert s[|h|] == s[|h|..][0] && s[|h| + 1] == s[|h|..][1] && s[|h| + 2] == s[|h|..][2] && s[|h| + 3] == s[|h|..][3];
    hide StrStr;
  }

  lemma {:induction false} StrStrExtends(s: string, pattern: string, more: string)
    requires StrStr(s, pattern).Some?
    ensures StrStr(s + more, pattern) == StrStr(s, pattern)
    decreases |s|
  {
    if pattern <= s {
      assert pattern <= s + more;
    } else {
      assert (s + more)[..|pattern|] == s[..|pattern|];
      assert (s + more)[1..] == s[1..] + more;
      StrStrExtends(s[1..], pattern, more);
    }
  }

  lemma AfterHeader(h: string, more: string)
    requires IsHeader(h)
    ensures StrStr(h + DOUBLE_CRLF + more, DOUBLE_CRLF) == Some(|h|)
    ensures (h + DOUBLE_CRLF + more)[|h| + 4..] == more
  {
    StrStrExtends(h + DOUBLE_CRLF, DOUBLE_CRLF, more);
  }

  // ----- Content-Length -----

  lemma ClipClip(t: string, more: string, n: nat)
    ensures Clip(Clip(t, n) + more, n) == Clip(t + more, n)
  {
  }

  lemma ClipTwice(t: string, n: nat)
    ensures Clip(Clip(t, n), n) == Clip(t, n)
  {
  }

  lemma AppendedOnce(s: State, total: string, segment: string)
    requires !s.chunked && s.contentLength > 0 && s.encoding.Identity?
    requires s.body == Clip(total, s.contentLength)
    requires s.finished <==> |total| >= s.contentLength
    ensures var r := Appended(s, segment);
            && !r.chunked && r.contentLength == s.contentLength && r.encoding.Identity?
            && r.body == Clip(total + segment, s.contentLength)
            && (r.finished <==> |total + segment| >= s.contentLength)
  {
    ClipClip(total, segment, s.contentLength);
  }

  lemma {:induction false} AppendedIdentity(s: State, total: string, segments: seq<string>)
    requires !s.chunked && s.contentLength > 0 && s.encoding.Identity?
    requires s.body == Clip(total, s.contentLength)
    requires s.finished <==> |total| >= s.contentLength
    ensures var r := AppendedAll(s, segments);
            && r.body == Clip(total + Concat(segments), s.contentLength)
            && (r.finished <==> |total + Concat(segments)| >= s.contentLength)
    decreases |segments|
  {
    hide Appended, Clip;
    if segments == [] {
      assert total + "" == total;
    } else {
      AppendedOnce(s, total, segments[0]);
      AppendedIdentity(Appended(s, segments[0]), total + segments[0], segments[1..]);
      assert total + segments[0] + Concat(segments[1..]) == total + Concat(segments);
    }
  }

  /**
    With a content length and no transfer coding, whatever the split, the body is the
    first `contentLength` bytes after the header, and the response is finished exactly
    when that many have come.
  */
  lemma ContentLengthBody(h: string, first: string, segments: seq<string>, head: Head)
    requires IsHeader(h) && head.status != 0 && !head.chunked && head.contentLength > 0 && head.encoding.Identity?
    ensures var bytes := first + Concat(segments);
            var r := Received(h + DOUBLE_CRLF + first, segments, head);
            && r.body == Take(bytes, head.contentLength)
            && (r.finished <==> |bytes| >= head.contentLength)
  {
    AfterHeader(h, first);
    AppendedIdentity(Created(h + DOUBLE_CRLF + first, head), first, segments);
  }

  /** Two splits of the same bytes give the same response. */
  lemma SegmentationIrrelevant(
      h: string, first: string, segments: seq<string>, first': string, segments': seq<string>, head: Head)
    requires IsHeader(h) && head.status != 0 && !head.chunked && head.contentLength > 0 && head.encoding.Identity?
    requires first + Concat(segments) == first' + Concat(segments')
    ensures Received(h + DOUBLE_CRLF + first, segments, head) == Received(h + DOUBLE_CRLF + first', segments', head)
  {
    ContentLengthBody(h, first, segments, head);
    ContentLengthBody(h, first', segments', head);
    AfterHeader(h, first);
    AfterHeader(h, first');
    KeptFields(Created(h + DOUBLE_CRLF + first, head), segments);
    KeptFields(Created(h + DOUBLE_CRLF + first', head), segments');
  }

  // ----- Without a length -----

  lemma {:induction false} AppendedUnannounced(s: State, segments: seq<string>)
    requires !s.chunked && s.contentLength == 0 && !s.finished
    ensures AppendedAll(s, segments) == s.(body := s.body + Concat(segments))
    decreases |segments|
  {
    if segments == [] {
      assert s.body + "" == s.body;
    } else {
      var next := s.(body := s.body + segments[0]);
      assert Appended(s, segments[0]) == next;
      hide Appended;
      AppendedUnannounced(next, segments[1..]);
      assert s.body + segments[0] + Concat(segments[1..]) == s.body + Concat(segments);
    }
  }

  /**
    A body that is neither chunked nor announced is everything that comes, whatever the
    split and the content encoding, and the response never finishes by itself: it ends
    with the connection.
  */
  lemma UnannouncedBody(h: string, first: string, segments: seq<string>, head: Head)
    requires IsHeader(h) && head.status != 0 && !head.chunked && head.contentLength == 0
    ensures Received(h + DOUBLE_CRLF + first, segments, head)
         == State(first + Concat(segments), 0, false, head.encoding, false, false)
  {
    AfterHeader(h, first);
    var s := State(first, 0, false, head.encoding, false, false);
    assert Created(h + DOUBLE_CRLF + first, head) == s;
    hide Created;
    AppendedUnannounced(s, segments);
  }

  /** A first segment without a status is dropped, and what comes after it is the body. */
  lemma NoStatus(received: string, segments: seq<string>, head: Head)
    requires head.status == 0
    ensures Received(received, segments, head) == State(Concat(segments), 0, false, Identity, false, false)
  {
    AppendedUnannounced(State("", 0, false, Identity, false, false), segments);
    assert "" + Concat(segments) == Concat(segments);
  }

  /** The first segment has no complete header block, or next to nothing before its end. */
  predicate LacksHeader(received: string) {
    var i := StrStr(received, DOUBLE_CRLF); i.None? || i.value <= 4
  }

  /** Then the first segment gives nothing to the body, though what its fields announce holds. */
  lemma NoHeaderBlock(received: string, segments: seq<string>, head: Head)
    requires head.status != 0 && LacksHeader(received) && !head.chunked && head.encoding.Identity?
    ensures var r := Received(received, segments, head);
            && r.body == Clip(Concat(segments), head.contentLength)
            && (r.finished <==> 0 < head.contentLength <= |Concat(segments)|)
  {
    var empty := State("", head.contentLength, false, Identity, false, false);
    assert Created(received, head) == empty;
    hide Created, StrStr;
    assert "" + Concat(segments) == Concat(segments);
    if head.contentLength == 0 {
      AppendedUnannounced(empty, segments);
    } else {
      AppendedIdentity(empty, "", segments);
    }
  }

  // ----- Packed bodies -----

  /** A response like another one but for its encoding, which shows only once it has finished. */
  function WithEncoding(s: State, encoding: Encoding): State {
    s.(encoding := encoding, body := if s.finished then Unpacked(encoding, s.body) else s.body)
  }

  lemma PackedSegment(s: State, encoding: Encoding, segment: string)
    requires s.encoding.Identity? && !s.finished
    ensures Appended(WithEncoding(s, encoding), segment) == WithEncoding(Appended(s, segment), encoding)
  {
    hide Chunks, Clip, Gzip.Decompressed;
  }

  lemma PackedFirst(received: string, encoding: Encoding, head: Head)
    requires head.encoding.Identity? && head.status != 0
    ensures Created(received, head).encoding.Identity?
    ensures Created(received, head.(encoding := encoding)) == WithEncoding(Created(received, head), encoding)
  {
    hide Chunks, Clip, StrStr, Gzip.Decompressed;
  }

  lemma {:induction false} PackedSegments(s: State, encoding: Encoding, segments: seq<string>)
    requires s.encoding.Identity?
    requires segments != [] ==> !AppendedAll(s, segments[..|segments| - 1]).finished
    ensures AppendedAll(WithEncoding(s, encoding), segments) == WithEncoding(AppendedAll(s, segments), encoding)
    ensures Timely(WithEncoding(s, encoding), segments)
    decreases |segments|
  {
    hide Chunks, Clip, Unpacked;
    if segments != [] {
      KeptFields(s, segments[..|segments| - 1]);
      assert !s.finished;
      var next := Appended(s, segments[0]);
      PackedSegment(s, encoding, segments[0]);
      if |segments| > 1 {
        assert segments[..|segments| - 1][1..] == segments[1..][..|segments| - 2];
      }
      PackedSegments(next, encoding, segments[1..]);
    }
  }

  /**
    A packed body is unpacked when the response finishes, and not before: whatever the
    split, when the announced bytes have come with the last segment and not before, the
    body is what they unpack to.
  */
  lemma PackedBody(h: string, first: string, segments: seq<string>, head: Head)
    requires IsHeader(h) && head.status != 0 && !head.chunked
    requires 0 < head.contentLength <= |first + Concat(segments)|
    requires segments != [] ==> |first + Concat(segments[..|segments| - 1])| < head.contentLength
    ensures var r := Received(h + DOUBLE_CRLF + first, segments, head);
            r.finished && r.body == Unpacked(head.encoding, (first + Concat(segments))[..head.contentLength])
    ensures Timely(Created(h + DOUBLE_CRLF + first, head), segments)
  {
    hide Unpacked, Created, Concat, AppendedAll, Timely;
    var plain := head.(encoding := Identity);
    var received := h + DOUBLE_CRLF + first;
    ContentLengthBody(h, first, segments, plain);
    if segments != [] {
      ContentLengthBody(h, first, segments[..|segments| - 1], plain);
    }
    PackedFirst(received, head.encoding, plain);
    assert head == plain.(encoding := head.encoding);
    PackedSegments(Created(received, plain), head.encoding, segments);
  }

  /** What a lossless library has compressed unpacks to the text, for sizes below 2^32. */
  lemma UnpackedText(encoding: Encoding, time: nat, text: string)
    requires encoding.Packed? && encoding.ready && text != ""
    requires Gzip.LosslessLibrary(encoding.library) && Gzip.Fits(encoding.library, text, encoding.packing)
    ensures Unpacked(encoding, Gzip.Compressed(encoding.library, time, text, encoding.packing).value) == text
  {
    Gzip.RoundTrip(encoding.library, time, text, encoding.packing);
  }

  /** A body that cannot be decompressed, or for which decompression does not start, is kept as it came. */
  lemma DamagedBodyIsKept(encoding: Encoding, body: string)
    requires encoding.Packed?
    requires !encoding.ready || Gzip.Decompressed(encoding.library, body, encoding.packing) == None
    ensures Unpacked(encoding, body) == body
  {
    hide Gzip.Decompressed;
  }

  // ----- What stays -----

  /** Later segments change neither what the header said nor that a response is finished. */
  lemma {:induction false} KeptFields(s: State, segments: seq<string>)
    ensures var r := AppendedAll(s, segments);
            && r.contentLength == s.contentLength && r.chunked == s.chunked && r.encoding == s.encoding
            && (s.finished ==> r.finished) && (s.allChunks ==> r.allChunks)
            && (!s.chunked ==> r.allChunks == s.allChunks)
    decreases |segments|
  {
    if segments != [] {
      KeptFields(Appended(s, segments[0]), segments[1..]);
    }
  }

  // ----- Chunked coding -----

  /** One chunk as it is sent: its size in hexadecimal digits of either case, and its payload. */
  datatype Chunk = Chunk(size: string, data: string)

  predicate IsChunk(c: Chunk) {
    && c.size != "" && AllHex(c.size) && HexNumber(c.size) == |c.data|
    && 0 < |c.data| < 0x1_0000_0000
  }

  predicate AreChunks(cs: seq<Chunk>) {
    forall i | 0 <= i < |cs| :: IsChunk(cs[i])
  }

  predicate IsZero(size: string) {
    size != "" && AllHex(size) && HexNumber(size) == 0
  }

  function Encoded(cs: seq<Chunk>): string {
    if cs == [] then "" else cs[0].size + CRLF + cs[0].data + CRLF + Encoded(cs[1..])
  }

  function Payload(cs: seq<Chunk>): string {
    if cs == [] then "" else cs[0].data + Payload(cs[1..])
  }

  lemma {:induction false} HexRunOf(t: string, rest: string)
    requires AllHex(t) && !IsHexDigit(At(rest, 0))
    ensures HexRun(t + rest) == |t|
    decreases |t|
  {
    if t == "" {
      assert t + rest == rest;
    } else {
      assert (t + rest)[1..] == t[1..] + rest;
      HexRunOf(t[1..], rest);
    }
  }

  /** A size is read modulo 2^32, in digits of either case. */
  lemma ScanSize(size: string, rest: string)
    requires size != "" && AllHex(size) && At(rest, 0) == '\r'
    ensures ScanHex(size + rest) == Some(HexNumber(size) % 0x1_0000_0000) && HexRun(size + rest) == |size|
  {
    hide HexNumber;
    var s := size + rest;
    assert s[0] == size[0] && (|size| > 1 ==> s[1] == size[1]) && (|size| == 1 ==> s[1] == rest[0]);
    assert SkipSpace(s) == s;
    HexRunOf(size, rest);
    assert s[..|size|] == size;
  }

  lemma {:induction false} SkipSpaceOf(blanks: string, rest: string)
    requires (forall i | 0 <= i < |blanks| :: blanks[i] == ' ' || 9 <= blanks[i] as nat <= 13) && !IsSpace(At(rest, 0))
    ensures SkipSpace(blanks + rest) == rest
    decreases |blanks|
  {
    if blanks == "" {
      assert blanks + rest == rest;
    } else {
      assert (blanks + rest)[1..] == blanks[1..] + rest;
      SkipSpaceOf(blanks[1..], rest);
    }
  }

  lemma SkipPrefixOf(prefix: string, size: string, rest: string)
    requires (prefix == "" || prefix == "0x" || prefix == "0X") && size != "" && AllHex(size)
    requires At(rest, 0) != 'x' && At(rest, 0) != 'X'
    ensures SkipPrefix(prefix + (size + rest)) == size + rest
    ensures IsHexDigit(At(prefix + (size + rest), 0))
  {
    var s := prefix + (size + rest);
    if prefix == "" {
      assert s == size + rest && s[0] == size[0];
      assert At(s, 1) == if |size| > 1 then size[1] else At(rest, 0);
    } else {
      assert s[0] == '0' && s[1] == prefix[1] && s[2..] == size + rest;
    }
  }

  /** The number modulo 2^32, or what a minus makes of it. */
  lemma Wraps(n: nat)
    ensures (0x1_0000_0000 - n % 0x1_0000_0000) % 0x1_0000_0000 == -(n as int) % 0x1_0000_0000
  {
  }

  /** Blanks, a sign and a prefix may come before the digits, and a minus is taken modulo 2^32. */
  lemma ScanForms(blanks: string, sign: string, prefix: string, size: string, rest: string)
    requires forall i | 0 <= i < |blanks| :: blanks[i] == ' ' || 9 <= blanks[i] as nat <= 13
    requires (sign == "" || sign == "+" || sign == "-") && (prefix == "" || prefix == "0x" || prefix == "0X")
    requires size != "" && AllHex(size) && !IsHexDigit(At(rest, 0)) && At(rest, 0) != 'x' && At(rest, 0) != 'X'
    ensures var n: int := HexNumber(size);
            ScanHex(blanks + (sign + (prefix + (size + rest)))) == Some((if sign == "-" then -n else n) % 0x1_0000_0000)
  {
    hide HexNumber, SkipPrefix, SkipSpace, HexRun;
    var u := prefix + (size + rest);
    var t := sign + u;
    SkipPrefixOf(prefix, size, rest);
    HexRunOf(size, rest);
    assert (size + rest)[..|size|] == size;
    assert (if At(t, 0) == '-' || At(t, 0) == '+' then t[1..] else t) == u by {
      assert sign == "" ==> t == u;
      assert sign != "" ==> t[0] == sign[0] && t[1..] == u;
    }
    assert At(t, 0) == '-' <==> sign == "-";
    SkipSpaceOf(blanks, t);
    Wraps(HexNumber(size));
  }

  lemma ScanFitting(size: string, rest: string)
    requires size != "" && AllHex(size) && HexNumber(size) < 0x1_0000_0000 && At(rest, 0) == '\r'
    ensures ScanHex(size + rest) == Some(HexNumber(size)) && HexRun(size + rest) == |size|
  {
    hide ScanHex, HexRun, HexNumber;
    ScanSize(size, rest);
  }

  /** One chunk is decoded whole, and the decoder goes on after its line end. */
  lemma DecodeChunk(c: Chunk, more: string, body: string, length: nat)
    requires IsChunk(c)
    ensures var s := c.size + CRLF + c.data + CRLF + more;
            && Chunks(s, body, length) == Chunks(more, Clip(body + c.data, length), length)
            && (ChunksFit(more) ==> ChunksFit(s))
  {
    hide ScanHex, HexRun, HexNumber;
    var rest := CRLF + c.data + CRLF + more;
    var s := c.size + CRLF + c.data + CRLF + more;
    assert s == c.size + rest;
    ScanFitting(c.size, rest);
    assert s[|c.size|..] == rest;
    var n := |c.data|;
    assert Drop(rest, 2) == c.data + (CRLF + more);
    assert Take(Drop(rest, 2), n) == c.data;
    assert Drop(rest, 2 + n + 2) == more;
    assert s[|c.size| + 2 + n + 2..] == more;
  }

  lemma EncodedStep(cs: seq<Chunk>, tail: string)
    requires cs != []
    ensures Encoded(cs) + tail == cs[0].size + CRLF + cs[0].data + CRLF + (Encoded(cs[1..]) + tail)
  {
    Associates(cs[0].size + CRLF + cs[0].data + CRLF, Encoded(cs[1..]), tail);
  }

  /** Encoded chunks are decoded to their payloads; a content length that is announced all the same cuts them off. */
  lemma {:induction false} DecodeChunks(cs: seq<Chunk>, tail: string, body: string, length: nat)
    requires AreChunks(cs) && Clip(body, length) == body
    ensures Chunks(Encoded(cs) + tail, body, length) == Chunks(tail, Clip(body + Payload(cs), length), length)
    ensures ChunksFit(tail) ==> ChunksFit(Encoded(cs) + tail)
    decreases |cs|
  {
    hide Chunks, ChunksFit, Clip, Take, IsChunk;
    if cs == [] {
      assert Encoded(cs) + tail == tail && body + "" == body;
    } else {
      var c, more := cs[0], Encoded(cs[1..]) + tail;
      EncodedStep(cs, tail);
      assert IsChunk(c);
      DecodeChunk(c, more, body, length);
      ClipTwice(body + c.data, length);
      DecodeChunks(cs[1..], tail, Clip(body + c.data, length), length);
      ClipClip(body + c.data, Payload(cs[1..]), length);
      Associates(body, c.data, Payload(cs[1..]));
    }
  }

  lemma DecodeLast(size: string, rest: string, body: string, length: nat)
    requires IsZero(size)
    ensures Chunks(size + DOUBLE_CRLF + rest, body, length) == (body, true)
    ensures ChunksFit(size + DOUBLE_CRLF + rest)
  {
    hide ScanHex, HexRun, HexNumber;
    var s := size + DOUBLE_CRLF + rest;
    assert s == size + (DOUBLE_CRLF + rest);
    ScanFitting(size, DOUBLE_CRLF + rest);
    assert s[|size|..] == DOUBLE_CRLF + rest;
  }

  /** A last chunk without the blank line behind it does not end the body. */
  lemma LastChunkNeedsBlankLine(size: string, rest: string, body: string, length: nat)
    requires IsZero(size) && At(rest, 0) == '\r' && !(DOUBLE_CRLF <= rest)
    ensures Chunks(size + rest, body, length) == (body, false)
  {
    hide ScanHex, HexRun, HexNumber;
    ScanFitting(size, rest);
    assert (size + rest)[|size|..] == rest;
  }

  /** What does not start as a size can is no chunk, and adds nothing. */
  lemma NoChunk(s: string, body: string, length: nat)
    requires s == "" || !(IsHexDigit(s[0]) || IsSpace(s[0]) || s[0] == '+' || s[0] == '-')
    ensures Chunks(s, body, length) == (body, false)
  {
    assert SkipSpace(s) == s && HexRun(s) == 0;
  }

  lemma DecodeNothing(body: string, length: nat)
    ensures Chunks("", body, length) == (body, false)
    ensures ChunksFit("")
  {
  }

  /** The segments that carry these groups of chunks. */
  function EncodedAll(groups: seq<seq<Chunk>>): seq<string> {
    if groups == [] then [] else [Encoded(groups[0])] + EncodedAll(groups[1..])
  }

  function PayloadAll(groups: seq<seq<Chunk>>): string {
    if groups == [] then "" else Payload(groups[0]) + PayloadAll(groups[1..])
  }

  predicate AreGroups(groups: seq<seq<Chunk>>) {
    forall i | 0 <= i < |groups| :: AreChunks(groups[i])
  }

  lemma AppendedGroup(s: State, cs: seq<Chunk>)
    requires s.chunked && Clip(s.body, s.contentLength) == s.body && !s.allChunks && !s.finished && AreChunks(cs)
    ensures Appended(s, Encoded(cs)) == s.(body := Clip(s.body + Payload(cs), s.contentLength))
  {
    hide Chunks, ChunksFit, Encoded;
    DecodeChunks(cs, "", s.body, s.contentLength);
    DecodeNothing(Clip(s.body + Payload(cs), s.contentLength), s.contentLength);
    assert Encoded(cs) + "" == Encoded(cs);
  }

  lemma {:induction false} AppendedGroups(s: State, groups: seq<seq<Chunk>>)
    requires s.chunked && Clip(s.body, s.contentLength) == s.body && !s.allChunks && !s.finished && AreGroups(groups)
    ensures AppendedAll(s, EncodedAll(groups)) == s.(body := Clip(s.body + PayloadAll(groups), s.contentLength))
    decreases |groups|
  {
    hide Appended, Encoded, Payload;
    if groups == [] {
      assert s.body + "" == s.body;
    } else {
      var g, length := groups[0], s.contentLength;
      var body := s.body + Payload(g);
      AppendedGroup(s, g);
      ClipTwice(body, length);
      ClipClip(body, PayloadAll(groups[1..]), length);
      hide Clip;
      AppendedGroups(s.(body := Clip(body, length)), groups[1..]);
      assert body + PayloadAll(groups[1..]) == s.body + PayloadAll(groups);
      assert EncodedAll(groups)[1..] == EncodedAll(groups[1..]);
    }
  }

  lemma {:induction false} AppendedAllLast(s: State, segments: seq<string>, last: string)
    ensures AppendedAll(s, segments + [last]) == Appended(AppendedAll(s, segments), last)
    decreases |segments|
  {
    if segments == [] {
      assert segments + [last] == [last];
      assert [last][1..] == [];
    } else {
      assert (segments + [last])[1..] == segments[1..] + [last];
      AppendedAllLast(Appended(s, segments[0]), segments[1..], last);
    }
  }

  /** A first segment with chunks. */
  lemma CreatedChunked(h: string, tail: string, head: Head, body: string, all: bool)
    requires IsHeader(h) && head.status != 0 && head.chunked
    requires Chunks(tail, "", head.contentLength) == (body, all) && Clip(body, head.contentLength) == body
    ensures Created(h + DOUBLE_CRLF + tail, head)
         == Finish(State(body, head.contentLength, true, head.encoding, all, false))
  {
    AfterHeader(h, tail);
    hide Chunks, StrStr, Finish, Clip;
  }

  lemma FirstChunks(h: string, first: seq<Chunk>, head: Head)
    requires IsHeader(h) && head.status != 0 && head.chunked && AreChunks(first)
    ensures Created(h + DOUBLE_CRLF + Encoded(first), head)
         == State(Clip(Payload(first), head.contentLength), head.contentLength, true, head.encoding, false, false)
  {
    var length := head.contentLength;
    var body := Clip(Payload(first), length);
    hide Chunks;
    DecodeChunks(first, "", "", length);
    DecodeNothing(body, length);
    assert Encoded(first) + "" == Encoded(first) && "" + Payload(first) == Payload(first);
    CreatedChunked(h, Encoded(first), head, body, false);
  }

  /**
    Before the last chunk has come: the body is the concatenation of the payloads so
    far, however the chunks were grouped into segments, and nothing is finished.  When a
    content length is announced all the same, it cuts off what is past it.
  */
  lemma ChunkedBody(h: string, first: seq<Chunk>, groups: seq<seq<Chunk>>, head: Head)
    requires IsHeader(h) && head.status != 0 && head.chunked && AreChunks(first) && AreGroups(groups)
    ensures var body := Clip(Payload(first) + PayloadAll(groups), head.contentLength);
            Received(h + DOUBLE_CRLF + Encoded(first), EncodedAll(groups), head)
            == State(body, head.contentLength, true, head.encoding, false, false)
  {
    var length := head.contentLength;
    var body := Clip(Payload(first), length);
    var s := State(body, length, true, head.encoding, false, false);
    FirstChunks(h, first, head);
    ClipTwice(Payload(first), length);
    ClipClip(Payload(first), PayloadAll(groups), length);
    hide Clip, Created, Appended;
    AppendedGroups(s, groups);
  }

  /** The last chunk, in the segment of the last group, finishes the response. */
  lemma ChunkedEnd(h: string, first: seq<Chunk>, groups: seq<seq<Chunk>>, last: seq<Chunk>, zero: string, head: Head)
    requires IsHeader(h) && head.status != 0 && head.chunked
    requires AreChunks(first) && AreGroups(groups) && AreChunks(last) && IsZero(zero)
    ensures var body := Clip(Payload(first) + PayloadAll(groups) + Payload(last), head.contentLength);
            var segments := EncodedAll(groups) + [Encoded(last) + (zero + DOUBLE_CRLF)];
            Received(h + DOUBLE_CRLF + Encoded(first), segments, head)
            == State(Unpacked(head.encoding, body), head.contentLength, true, head.encoding, true, true)
  {
    var segment, length := Encoded(last) + (zero + DOUBLE_CRLF), head.contentLength;
    var all := Payload(first) + PayloadAll(groups);
    ChunkedBody(h, first, groups, head);
    AppendedAllLast(Created(h + DOUBLE_CRLF + Encoded(first), head), EncodedAll(groups), segment);
    ClipTwice(all, length);
    ClipClip(all, Payload(last), length);
    hide Chunks, Clip, Unpacked, Created, Encoded, Payload, PayloadAll;
    DecodeChunks(last, zero + DOUBLE_CRLF, Clip(all, length), length);
    DecodeLast(zero, "", Clip(all + Payload(last), length), length);
    assert zero + DOUBLE_CRLF + "" == zero + DOUBLE_CRLF;
  }

  lemma NoSegments(s: State)
    ensures AppendedAll(s, []) == s
  {
  }

  /** The same in a single segment. */
  lemma ChunkedAtOnce(h: string, chunks: seq<Chunk>, zero: string, head: Head)
    requires IsHeader(h) && head.status != 0 && head.chunked && AreChunks(chunks) && IsZero(zero)
    ensures var body := Clip(Payload(chunks), head.contentLength);
            Received(h + DOUBLE_CRLF + (Encoded(chunks) + (zero + DOUBLE_CRLF)), [], head)
            == State(Unpacked(head.encoding, body), head.contentLength, true, head.encoding, true, true)
  {
    var length := head.contentLength;
    var body := Clip(Payload(chunks), length);
    hide Chunks, Unpacked, AppendedAll;
    DecodeChunks(chunks, zero + DOUBLE_CRLF, "", length);
    DecodeLast(zero, "", body, length);
    assert zero + DOUBLE_CRLF + "" == zero + DOUBLE_CRLF && "" + Payload(chunks) == Payload(chunks);
    CreatedChunked(h, Encoded(chunks) + (zero + DOUBLE_CRLF), head, body, true);
    NoSegments(Created(h + DOUBLE_CRLF + (Encoded(chunks) + (zero + DOUBLE_CRLF)), head));
  }
}
