/**
  The response object: a body buffer that grows as segments arrive, with the number
  of bytes stored and the number allocated kept apart.
*/
module Response {
  import opened CText
  import opened Wrappers
  import opened ResponseSpec
  import Gzip
  import Zlib

  class Response {
    /** null until the first bytes are stored. */
    var body: array?<char>
    /** Bytes stored. */
    var bodyLen: nat
    /** Bytes allocated. */
    var bodySize: nat
    var contentLength: nat
    var chunked: bool
    var encoding: Encoding
    var allChunks: bool
    var isFinished: bool

    /** What is stored is in the memory; the size kept beside it is right until a packed body is replaced. */
    ghost predicate Valid()
      reads this
    {
      && bodyLen <= (if body == null then 0 else body.Length)
      && (IsSized() || (isFinished && encoding.Packed?))
    }

    ghost predicate IsSized()
      reads this
    {
      bodySize == if body == null then 0 else body.Length
    }

    ghost function Body(): string
      reads this, body
      requires Valid()
    {
      if body == null then "" else body[..bodyLen]
    }

    ghost function View(): State
      reads this, body
      requires Valid()
    {
      State(Body(), contentLength, chunked, encoding, allChunks, isFinished)
    }

    /** The object just after its memory was zeroed. */
    constructor Empty()
      ensures Valid() && IsSized() && View() == State("", 0, false, Identity, false, false) && body == null
    {
      body, bodyLen, bodySize := null, 0, 0;
      contentLength, chunked, encoding, allChunks, isFinished := 0, false, Identity, false, false;
    }

    method FixBodyLen()
      requires Valid()
      modifies this`bodyLen
      ensures Valid() && Body() == Clip(old(Body()), contentLength)
    {
      if contentLength > 0 && bodyLen > contentLength {
        bodyLen := contentLength;
      }
    }

    /** Grows the buffer to exactly what is needed, appends, and drops what is past the content length. */
    method AddBodyData(data: string)
      requires Valid() && IsSized()
      modifies this`body, this`bodyLen, this`bodySize, body
      ensures Valid() && IsSized() && Body() == Clip(old(Body()) + data, contentLength)
      ensures body == old(body) || fresh(body)
    {
      var required := bodyLen + |data|;
      if required > bodySize {
        var grown := new char[required];
        if body != null {
          CopyText(grown, 0, body[..bodyLen]);
        }
        body := grown;
        bodySize := required;
        assert Body() == old(Body());
      }
      if body != null {
        CopyText(body, bodyLen, data);
      }
      bodyLen := bodyLen + |data|;
      FixBodyLen();
    }

    lemma ChunkEnd(str: string, before: string, n: nat)
      ensures ScanHex(str).None? ==> Chunks(str, before, n) == (before, false)
      ensures ScanHex(str) == Some(0) ==> Chunks(str, before, n) == (before, DOUBLE_CRLF <= str[HexRun(str)..])
    {
    }

    lemma ChunkStep(str: string, before: string, n: nat)
      requires ChunksFit(str) && ScanHex(str).Some? && ScanHex(str).value > 0
      ensures var size, rest := ScanHex(str).value, str[HexRun(str)..];
              && 2 + size + 2 <= |rest|
              && ChunksFit(rest[2 + size + 2..])
              && Chunks(str, before, n) == Chunks(rest[2 + size + 2..], Clip(before + rest[2..2 + size], n), n)
    {
      hide ScanHex;
      var size, rest := ScanHex(str).value, str[HexRun(str)..];
      assert str[HexRun(str) + 2 + size + 2..] == rest[2 + size + 2..];
      assert Take(Drop(rest, 2), size) == rest[2..2 + size];
    }

    /** Decodes the chunks of a segment. */
    method ReadChunks(str0: string)
      requires Valid() && IsSized() && ChunksFit(str0)
      modifies this, body
      ensures Valid() && IsSized() && (body == old(body) || fresh(body))
      ensures var (after, all) := Chunks(str0, old(Body()), contentLength);
              View() == old(View()).(body := after, allChunks := old(allChunks) || all)
    {
      hide Chunks, ScanHex, ChunksFit, Clip, HexRun;
      var str := str0;
      var size := ScanHex(str);
      while size.Some?
        invariant Valid() && IsSized() && (body == old(body) || fresh(body))
        invariant size == ScanHex(str) && ChunksFit(str)
        invariant Chunks(str, Body(), contentLength) == Chunks(str0, old(Body()), contentLength)
        invariant View() == old(View()).(body := Body())
        decreases |str|
      {
        var chunkLen := size.value;
        var rest := str[HexRun(str)..];
        ChunkEnd(str, Body(), contentLength);
        if chunkLen == 0 {
          if DOUBLE_CRLF <= rest {
            allChunks := true;
          }
          return;
        }
        ghost var before := Body();
        ChunkStep(str, before, contentLength);
        AddBodyData(rest[2..2 + chunkLen]);
        str := rest[2 + chunkLen + 2..];
        size := ScanHex(str);
      }
      ChunkEnd(str, Body(), contentLength);
    }

    /** Stores the first bytes, in memory for what is announced and a little more, or for what has come. */
    method StoreFirst(data: string)
      requires Valid() && IsSized() && body == null
      modifies this`body, this`bodyLen, this`bodySize
      ensures Valid() && IsSized() && (body == null || fresh(body)) && Body() == data
    {
      bodyLen := |data|;
      bodySize := if contentLength > bodyLen then contentLength + 32 else bodyLen;
      if bodySize == 0 {
        body := null;
      } else {
        body := new char[bodySize];
        CopyText(body, 0, data);
      }
    }

    /** Stores what the first segment has after its header block. */
    method ParseBody(received: string)
      requires Valid() && IsSized() && body == null && Body() == ""
      requires var i := StrStr(received, DOUBLE_CRLF);
               chunked && i.Some? && i.value > 4 ==> ChunksFit(received[i.value + 4..])
      modifies this
      ensures Valid() && IsSized() && (body == null || fresh(body))
      ensures var i := StrStr(received, DOUBLE_CRLF);
              View() == if i.None? || i.value <= 4 then old(View())
                        else if chunked then
                          var (after, all) := Chunks(received[i.value + 4..], "", contentLength);
                          old(View()).(body := Clip(after, contentLength), allChunks := old(allChunks) || all)
                        else old(View()).(body := Clip(received[i.value + 4..], contentLength))
    {
      hide Chunks, ChunksFit, StrStr, Clip;
      var sub := StrStr(received, DOUBLE_CRLF);
      if sub.None? {
        return;
      }
      var skipped := sub.value;
      if skipped > 4 {
        skipped := skipped + 4;
        if chunked {
          ReadChunks(received[skipped..]);
        } else {
          StoreFirst(received[skipped..]);
        }
        FixBodyLen();
      }
    }

    /** Replaces a packed body by what it unpacks to, if anything. */
    method Ungzip(pace: Zlib.Pace)
      requires Valid() && encoding.Packed?
      modifies this`body, this`bodyLen, this`isFinished
      ensures bodyLen <= (if body == null then 0 else body.Length) && (body == old(body) || fresh(body))
      ensures (if body == null then "" else body[..bodyLen]) == Unpacked(encoding, old(Body()))
      ensures isFinished == old(isFinished)
    {
      if body == null || bodyLen == 0 {
        return;
      }
      var text, size := Gzip.Decompress(encoding.library, body[..bodyLen], encoding.packing, encoding.ready, pace);
      if text != null && size > 0 {
        body, bodyLen := text, size;
      }
    }

    method CheckIsFinished(pace: Zlib.Pace)
      requires Valid() && !(isFinished && encoding.Packed?)
      modifies this`body, this`bodyLen, this`isFinished
      ensures Valid() && View() == Finish(old(View())) && (body == old(body) || fresh(body))
    {
      var complete := if chunked then allChunks else contentLength > 0 && contentLength == bodyLen;
      if !complete {
        return;
      }
      if encoding.Packed? {
        Ungzip(pace);
      }
      isFinished := true;
    }

    /** The response that a first segment starts. */
    constructor Create(received: string, head: Head, pace: Zlib.Pace)
      requires var i := StrStr(received, DOUBLE_CRLF);
               head.status != 0 && head.chunked && i.Some? && i.value > 4 ==> ChunksFit(received[i.value + 4..])
      ensures Valid() && View() == Created(received, head) && (body == null || fresh(body))
    {
      body, bodyLen, bodySize := null, 0, 0;
      contentLength, chunked, encoding, allChunks, isFinished := 0, false, Identity, false, false;
      new;
      if head.status != 0 {
        contentLength := head.contentLength;
        chunked, encoding := head.chunked, head.encoding;
        ParseBody(received);
      }
      CheckIsFinished(pace);
    }

    /** Takes in one more segment. */
    method Append(received: string, pace: Zlib.Pace)
      requires Valid() && !(isFinished && encoding.Packed?) && (chunked ==> ChunksFit(received))
      modifies this, body
      ensures Valid() && View() == Appended(old(View()), received)
      ensures body == old(body) || fresh(body)
    {
      if chunked {
        ReadChunks(received);
      } else {
        AddBodyData(received);
      }
      CheckIsFinished(pace);
    }
  }

  /** Feeds a response its segments in the order they arrive. */
  method Receive(first: string, segments: seq<string>, head: Head, pace: Zlib.Pace) returns (r: Response)
    requires var i := StrStr(first, DOUBLE_CRLF);
             head.status != 0 && head.chunked && i.Some? && i.value > 4 ==> ChunksFit(first[i.value + 4..])
    requires head.chunked ==> forall i | 0 <= i < |segments| :: ChunksFit(segments[i])
    requires Timely(Created(first, head), segments)
    ensures fresh(r) && r.Valid() && r.View() == Received(first, segments, head)
  {
    r := new Response.Create(first, head, pace);
    for i := 0 to |segments|
      invariant r.Valid() && fresh(r) && (r.body == null || fresh(r.body))
      invariant r.chunked ==> head.chunked
      invariant Timely(r.View(), segments[i..])
      invariant AppendedAll(r.View(), segments[i..]) == Received(first, segments, head)
    {
      assert segments[i..][0] == segments[i] && segments[i..][1..] == segments[i + 1..];
      r.Append(segments[i], pace);
    }
  }
}
