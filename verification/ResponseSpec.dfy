/**
  What a response is after the segments received so far, as functions of the bytes:
  the first segment holds the header block, the others only body bytes or chunks.
  Status, content length and transfer encoding are taken as already parsed.
*/
module ResponseSpec {
  import opened CText
  import opened Wrappers
  import Gzip

  const DOUBLE_CRLF: string := "\r\n\r\n"

  /** How the body is encoded; a packed one needs the library, and a stream that starts. */
  datatype Encoding = Identity | Packed(library: Gzip.Library, packing: Gzip.Method, ready: bool)

  /** The status code, content length, transfer encoding and content encoding read from the header block. */
  datatype Head = Head(status: int, contentLength: nat, chunked: bool, encoding: Encoding)

  datatype State = State(
    body: string,
    contentLength: nat,
    chunked: bool,
    encoding: Encoding,
    allChunks: bool,
    finished: bool)

  /** Where a text first occurs in a C string. */
  function StrStr(s: string, pattern: string): (r: Option<nat>)
    ensures r.Some? ==> r.value + |pattern| <= |s| && s[r.value..r.value + |pattern|] == pattern
    decreases |s|
  {
    if pattern <= s then Some(0)
    else if At(s, 0) == NUL then None
    else match StrStr(s[1..], pattern) case None => None case Some(i) => Some(i + 1)
  }

  /** Bytes past a known content length are trash. */
  function Clip(body: string, contentLength: nat): (r: string)
    ensures r == if contentLength == 0 then body else Take(body, contentLength)
  {
    if contentLength > 0 && |body| > contentLength then body[..contentLength] else body
  }

  // ----- Chunk sizes -----

  function HexRun(s: string): (k: nat)
    ensures k <= |s| && AllHex(s[..k]) && !IsHexDigit(At(s, k))
    decreases |s|
  {
    if s != "" && IsHexDigit(s[0]) then 1 + HexRun(s[1..]) else 0
  }

  predicate AllHex(t: string) {
    forall i | 0 <= i < |t| :: IsHexDigit(t[i])
  }

  function HexNumber(t: string): nat
    requires AllHex(t)
    decreases |t|
  {
    if t == "" then 0 else HexNumber(t[..|t| - 1]) * 16 + HexValue(t[|t| - 1])
  }

  predicate IsSpace(c: char) {
    c == ' ' || '\t' <= c <= '\r'
  }

  function SkipSpace(s: string): string
    decreases |s|
  {
    if s != "" && IsSpace(s[0]) then SkipSpace(s[1..]) else s
  }

  function SkipPrefix(s: string): string {
    if At(s, 0) == '0' && (At(s, 1) == 'x' || At(s, 1) == 'X') then s[2..] else s
  }

  /**
    What the conversions %X and %x read into 32 bits: blanks, a sign and a 0x prefix
    may come before the digits, of either case.
  */
  function ScanHex(s: string): (r: Option<nat>)
    ensures r.Some? ==> r.value < 0x1_0000_0000
  {
    var t := SkipSpace(s);
    var negative := At(t, 0) == '-';
    var digits := SkipPrefix(if At(t, 0) == '-' || At(t, 0) == '+' then t[1..] else t);
    var k := HexRun(digits);
    if k == 0 then None
    else
      var n := HexNumber(digits[..k]) % 0x1_0000_0000;
      Some(if negative then (0x1_0000_0000 - n) % 0x1_0000_0000 else n)
  }

  /** The body after the chunks of a segment, and whether the last chunk ends it. */
  function Chunks(s: string, body: string, contentLength: nat): (string, bool)
    decreases |s|
  {
    match ScanHex(s)
    case None => (body, false)
    case Some(size) =>
      var rest := s[HexRun(s)..];
      if size == 0 then (body, DOUBLE_CRLF <= rest)
      else if s == "" then (body, false)
      else Chunks(Drop(rest, 2 + size + 2), Clip(body + Take(Drop(rest, 2), size), contentLength), contentLength)
  }

  /** Every chunk that a segment announces lies in it with the line end after it. */
  predicate ChunksFit(s: string)
    decreases |s|
  {
    match ScanHex(s)
    case None => true
    case Some(size) =>
      size == 0 || (HexRun(s) + 2 + size + 2 <= |s| && ChunksFit(s[HexRun(s) + 2 + size + 2..]))
  }

  // ----- Segments -----

  /** Everything that the header block or the last chunk announces is there. */
  predicate IsComplete(s: State) {
    if s.chunked then s.allChunks else s.contentLength > 0 && s.contentLength == |s.body|
  }

  /** The body decompressed, or as it is when that gives nothing. */
  function Unpacked(encoding: Encoding, body: string): string {
    if encoding.Identity? || !encoding.ready then body
    else
      match Gzip.Decompressed(encoding.library, body, encoding.packing)
      case None => body
      case Some(text) => text
  }

  /** A complete response is unpacked and finished; a finished one stays so. */
  function Finish(s: State): State {
    if IsComplete(s) then s.(body := Unpacked(s.encoding, s.body), finished := true) else s
  }

  /** The response after its first segment. */
  function Created(received: string, head: Head): State {
    if head.status == 0 then Finish(State("", 0, false, Identity, false, false))
    else
      var empty := State("", head.contentLength, head.chunked, head.encoding, false, false);
      match StrStr(received, DOUBLE_CRLF)
      case None => Finish(empty)
      case Some(i) =>
        if i <= 4 then Finish(empty)
        else if head.chunked then
          var (body, all) := Chunks(received[i + 4..], "", head.contentLength);
          Finish(empty.(body := Clip(body, head.contentLength), allChunks := all))
        else Finish(empty.(body := Clip(received[i + 4..], head.contentLength)))
  }

  /** The response after one more segment. */
  function Appended(s: State, received: string): State {
    if s.chunked then
      var (body, all) := Chunks(received, s.body, s.contentLength);
      Finish(s.(body := body, allChunks := s.allChunks || all))
    else Finish(s.(body := Clip(s.body + received, s.contentLength)))
  }

  function AppendedAll(s: State, segments: seq<string>): State
    decreases |segments|
  {
    if segments == [] then s else AppendedAll(Appended(s, segments[0]), segments[1..])
  }

  /** A whole reception: the first segment, and then the others in order. */
  function Received(first: string, segments: seq<string>, head: Head): State {
    AppendedAll(Created(first, head), segments)
  }

  /** No segment arrives after a packed response has finished. */
  predicate Timely(s: State, segments: seq<string>)
    decreases |segments|
  {
    segments == [] || (!(s.finished && s.encoding.Packed?) && Timely(Appended(s, segments[0]), segments[1..]))
  }
}
