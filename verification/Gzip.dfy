/**
  Compressing and decompressing message bodies over a growing output buffer, with the
  header and footer of the gzip format (RFC 1952, section 2.3) around a raw stream.
  `uInt` and `uLong` have 32 bits.
*/
module Gzip {
  import opened CText
  import opened Wrappers
  import opened Zlib

  const CHUNK_SIZE: nat := 512
  const HEADER_SIZE: nat := 10
  const FOOTER_SIZE: nat := 8

  datatype Method = Deflate | Gzip

  /** The two formats of the library: with its own framing for deflate, without any for gzip. */
  datatype Library = Library(zlib: Codec, raw: Codec, crc32: string -> nat) {
    function For(m: Method): Codec {
      if m.Deflate? then zlib else raw
    }
  }

  ghost predicate LosslessLibrary(lib: Library) {
    Lossless(lib.zlib) && Lossless(lib.raw)
  }

  // ----- Specification -----

  /** A size as the library's 32-bit counters hold it. */
  function Uint(n: nat): (m: nat)
    ensures m <= n && (m == n <==> n < 0x1_0000_0000)
  {
    n % 0x1_0000_0000
  }

  /** The part of a text that a 32-bit size reaches. */
  function Reached(s: string): string {
    s[..Uint(|s|)]
  }

  function Byte(n: nat): char {
    (n % 0x100) as char
  }

  /** An unsigned 32-bit integer as it lies in memory, least significant byte first. */
  function Word(n: nat): (w: string)
    ensures |w| == 4
  {
    [Byte(n), Byte(n / 0x100), Byte(n / 0x1_0000), Byte(n / 0x100_0000)]
  }

  function WordValue(w: string): nat
    requires |w| == 4
  {
    w[0] as nat + 0x100 * w[1] as nat + 0x1_0000 * w[2] as nat + 0x100_0000 * w[3] as nat
  }

  lemma WordRoundTrip(n: nat)
    ensures WordValue(Word(n)) == Uint(n)
  {
    var n1, n2, n3 := n / 0x100, n / 0x1_0000, n / 0x100_0000;
    assert n2 == n1 / 0x100 && n3 == n2 / 0x100;
    assert n == n % 0x100 + 0x100 * n1 && n1 == n1 % 0x100 + 0x100 * n2 && n2 == n2 % 0x100 + 0x100 * n3;
    assert n3 == n3 % 0x100 + 0x100 * (n3 / 0x100);
    var low := n % 0x100 + 0x100 * (n1 % 0x100) + 0x1_0000 * (n2 % 0x100) + 0x100_0000 * (n3 % 0x100);
    assert n == low + 0x1_0000_0000 * (n3 / 0x100);
  }

  /** Magic bytes, deflate, no flags, the time, no extra flags, and an unused system byte. */
  function Header(time: nat): (h: string)
    ensures |h| == HEADER_SIZE
  {
    ['\U{1F}', '\U{8B}', '\U{8}', NUL] + Word(time) + [NUL, NUL]
  }

  function Footer(crc: nat, size: nat): (f: string)
    ensures |f| == FOOTER_SIZE
  {
    Word(crc) + Word(size)
  }

  predicate IsGzipFile(z: string) {
    |z| > HEADER_SIZE + FOOTER_SIZE && z[0] == '\U{1F}' && z[1] == '\U{8B}'
  }

  /** What nhr_gz_compress makes of `x`. */
  function Compressed(lib: Library, time: nat, x: string, m: Method): Option<string> {
    if x == "" then None
    else
      var body := Reached(lib.For(m).deflate(Reached(x)));
      Some(if m.Gzip? then Header(time) + body + Footer(lib.crc32(Reached(x)), |x|) else body)
  }

  /** The input of the stream that nhr_gz_decompress opens on `z`. */
  function Payload(z: string, m: Method): Option<string> {
    if z == "" then None
    else if m.Deflate? then Some(Reached(z))
    else if IsGzipFile(z) then Some(Reached(z[HEADER_SIZE..|z| - FOOTER_SIZE]))
    else None
  }

  /** What nhr_gz_decompress makes of `z`: nothing unless the stream is complete and not empty. */
  function Decompressed(lib: Library, z: string, m: Method): Option<string> {
    var payload := Payload(z, m);
    if payload.None? then None
    else
      var i := lib.For(m).inflate(payload.value);
      if i.Complete? && i.data != "" then Some(i.data) else None
  }

  // ----- Properties -----

  /** The header and footer that decompression strips are the ones that compression added. */
  lemma StripUndoesFrame(time: nat, body: string, crc: nat, size: nat)
    requires body != ""
    ensures Payload(Header(time) + body + Footer(crc, size), Gzip) == Some(Reached(body))
  {
    var z := Header(time) + body + Footer(crc, size);
    assert z[HEADER_SIZE..|z| - FOOTER_SIZE] == body;
    assert z[0] == Header(time)[0] && z[1] == Header(time)[1];
  }

  /**
    Which format is which: gzip is the library's raw stream between the ten bytes in front
    and the eight behind, deflate its stream with zlib's own frame.
  */
  lemma StreamFormats(lib: Library, time: nat, x: string)
    requires 0 < |x| < 0x1_0000_0000
    requires |lib.raw.deflate(x)| < 0x1_0000_0000 && |lib.zlib.deflate(x)| < 0x1_0000_0000
    ensures var z := Compressed(lib, time, x, Gzip).value;
            |z| >= 18 && z[10..|z| - 8] == lib.raw.deflate(x)
    ensures Compressed(lib, time, x, Deflate) == Some(lib.zlib.deflate(x))
  {
    WholeReached(x);
    WholeReached(lib.raw.deflate(x));
    WholeReached(lib.zlib.deflate(x));
    var z := Compressed(lib, time, x, Gzip).value;
    assert z == Header(time) + lib.raw.deflate(x) + Footer(lib.crc32(x), |x|);
  }

  /** The fields of a compressed file: magic bytes, method, time, checksum and size modulo 2^32. */
  lemma GzipFields(lib: Library, time: nat, x: string)
    requires x != ""
    ensures var z := Compressed(lib, time, x, Gzip).value;
            |z| >= HEADER_SIZE + FOOTER_SIZE
            && z[..4] == ['\U{1F}', '\U{8B}', '\U{8}', NUL]
            && WordValue(z[4..8]) == Uint(time) && z[8..10] == [NUL, NUL]
            && WordValue(z[|z| - 8..|z| - 4]) == Uint(lib.crc32(Reached(x)))
            && WordValue(z[|z| - 4..]) == Uint(|x|)
  {
    var body := Reached(lib.raw.deflate(Reached(x)));
    var crc := lib.crc32(Reached(x));
    var z := Compressed(lib, time, x, Gzip).value;
    assert z == Header(time) + body + Footer(crc, |x|);
    assert z[..4] == Header(time)[..4] && z[4..8] == Header(time)[4..8] == Word(time);
    assert z[8..10] == Header(time)[8..10];
    assert z[|z| - 8..|z| - 4] == Word(crc) && z[|z| - 4..] == Word(|x|);
    WordRoundTrip(time);
    WordRoundTrip(crc);
    WordRoundTrip(|x|);
  }

  lemma CompressedIsSome(lib: Library, time: nat, x: string, m: Method)
    requires x != ""
    ensures var z := Compressed(lib, time, x, m);
            z.Some? && (z == Some("") ==> Decompressed(lib, z.value, m) == None)
  {
  }

  /** The sizes of the text and of its stream that 32 bits can hold. */
  predicate Fits(lib: Library, x: string, m: Method) {
    |x| < 0x1_0000_0000 && |lib.For(m).deflate(x)| < 0x1_0000_0000
  }

  lemma WholeReached(s: string)
    requires |s| < 0x1_0000_0000
    ensures Reached(s) == s
  {
  }

  /** The stream that decompression reads from a compressed text. */
  lemma PayloadOfCompressed(lib: Library, time: nat, x: string, m: Method)
    requires x != ""
    ensures var body := Reached(lib.For(m).deflate(Reached(x)));
            Payload(Compressed(lib, time, x, m).value, m) == if body == "" then None else Some(body)
  {
    var body := Reached(lib.For(m).deflate(Reached(x)));
    var z := Compressed(lib, time, x, m).value;
    WholeReached(body);
    if m.Deflate? {
      assert z == body;
      assert Payload(z, m) == if body == "" then None else Some(body);
    } else if body == "" {
      assert |z| == HEADER_SIZE + FOOTER_SIZE;
      assert Payload(z, m) == None;
    } else {
      StripUndoesFrame(time, body, lib.crc32(Reached(x)), |x|);
      assert Payload(z, m) == Some(body);
    }
  }

  /**
    For every nonempty text and both methods, decompression restores what was compressed
    just when the sizes fit the library's 32-bit counters.
  */
  lemma RoundTrip(lib: Library, time: nat, x: string, m: Method)
    requires LosslessLibrary(lib) && x != ""
    ensures Decompressed(lib, Compressed(lib, time, x, m).value, m) == Some(x) <==> Fits(lib, x, m)
  {
    var codec := lib.For(m);
    var part := Reached(x);
    var full := codec.deflate(part);
    PayloadOfCompressed(lib, time, x, m);
    DeflatedIsNonempty(codec, part);
    if |x| < 0x1_0000_0000 {
      WholeReached(x);
    }
    if |full| < 0x1_0000_0000 {
      WholeReached(full);
    } else {
      assert codec.inflate(full[..Uint(|full|)]).Incomplete?;
    }
  }

  /** What is too short, or does not start with the magic bytes, is no gzip file. */
  lemma NotGzip(lib: Library, z: string)
    requires |z| <= 18 || z[0] != '\U{1F}' || z[1] != '\U{8B}'
    ensures Decompressed(lib, z, Gzip) == None
  {
  }

  lemma Middle(a: string, b: string, c: string, k: nat)
    requires k <= |b|
    ensures (a + b + c)[|a|..|a| + k] == b[..k]
  {
  }

  /** What was compressed and is cut off anywhere is not decompressed, in either format. */
  lemma CutOffFails(lib: Library, time: nat, x: string, m: Method, n: nat)
    requires LosslessLibrary(lib) && x != "" && Fits(lib, x, m)
    requires n < |Compressed(lib, time, x, m).value|
    ensures Decompressed(lib, Compressed(lib, time, x, m).value[..n], m) == None
  {
    var z := Compressed(lib, time, x, m).value;
    var body := lib.For(m).deflate(x);
    WholeReached(x);
    WholeReached(body);
    if m.Deflate? {
      assert z == body;
      CutStreamFails(lib.zlib, x, n);
      if n > 0 { WholeReached(z[..n]); }
    } else if n > HEADER_SIZE + FOOTER_SIZE {
      var k := n - HEADER_SIZE - FOOTER_SIZE;
      assert z == Header(time) + body + Footer(lib.crc32(x), |x|);
      Middle(Header(time), body, Footer(lib.crc32(x), |x|), k);
      assert z[..n][HEADER_SIZE..n - FOOTER_SIZE] == z[HEADER_SIZE..HEADER_SIZE + k];
      CutStreamFails(lib.raw, x, k);
      WholeReached(body[..k]);
    }
  }

  lemma CutStreamFails(c: Codec, x: string, n: nat)
    requires Lossless(c) && n < |c.deflate(x)|
    ensures c.inflate(c.deflate(x)[..n]).Incomplete?
  {
  }

  // ----- The algorithms -----

  /** nhr_realloc to a size that is not smaller. */
  method Realloc(a: array<char>, size: nat) returns (r: array<char>)
    requires size >= a.Length
    ensures fresh(r) && r.Length == size && r[..a.Length] == a[..]
  {
    r := new char[size];
    CopyText(r, 0, a[..]);
  }

  method WriteHeader(buff: array<char>, time: nat)
    requires buff.Length >= HEADER_SIZE
    modifies buff
    ensures buff[..HEADER_SIZE] == Header(time)
  {
    buff[0] := '\U{1F}';
    buff[1] := '\U{8B}';
    buff[2] := '\U{8}';
    buff[3] := NUL;
    CopyText(buff, 4, Word(time));
    buff[8] := NUL;
    buff[9] := NUL;
    assert buff[..8] == ['\U{1F}', '\U{8B}', '\U{8}', NUL] + Word(time);
  }

  method WriteFooter(buff0: array<char>, writed: nat, crc: nat, size: nat) returns (buff: array<char>)
    requires writed <= buff0.Length
    modifies buff0
    ensures buff == buff0 || fresh(buff)
    ensures writed + FOOTER_SIZE <= buff.Length
    ensures buff[..writed + FOOTER_SIZE] == old(buff0[..writed]) + Footer(crc, size)
  {
    buff := buff0;
    if buff.Length - writed < FOOTER_SIZE {
      buff := Realloc(buff, buff.Length + FOOTER_SIZE);
    }
    assert buff[..writed] == old(buff0[..writed]);
    CopyText(buff, writed, Word(crc));
    CopyText(buff, writed + 4, Word(size));
  }

  /** The bytes of the stream so far lie behind the header, and a chunk of the buffer is behind the written part. */
  ghost predicate Filled(out: array<char>, head: string, stream: Deflater, writed: nat, availOut: nat)
    reads out, stream
  {
    && stream.Valid() && out.Length == writed + CHUNK_SIZE && availOut <= CHUNK_SIZE
    && |head| + stream.totalOut == writed + (CHUNK_SIZE - availOut)
    && out[..|head| + stream.totalOut] == head + stream.output[..stream.totalOut]
  }

  lemma Continues(output: string, i: nat, k: nat)
    requires i <= k <= |output|
    ensures output[..i] + output[i..k] == output[..k]
  {
  }

  lemma Joined(head: string, output: string, i: nat, k: nat)
    requires i <= k <= |output|
    ensures head + output[..i] + output[i..k] == head + output[..k]
  {
  }

  method Grow(out0: array<char>, writed0: nat, ghost head: string, stream: Deflater)
    returns (out: array<char>, writed: nat, availOut: nat)
    requires Filled(out0, head, stream, writed0, 0)
    ensures fresh(out) && availOut == CHUNK_SIZE && Filled(out, head, stream, writed, availOut)
  {
    writed := writed0 + CHUNK_SIZE;
    out := Realloc(out0, out0.Length + CHUNK_SIZE);
    availOut := CHUNK_SIZE;
  }

  /** The loop that feeds the stream. */
  method Feed(stream: Deflater, out0: array<char>, writed0: nat, ghost head: string)
    returns (out: array<char>, writed: nat, availOut: nat)
    requires Filled(out0, head, stream, writed0, CHUNK_SIZE)
    modifies stream, out0
    ensures out == out0 || fresh(out)
    ensures Filled(out, head, stream, writed, availOut) && stream.availIn == 0
  {
    out, writed, availOut := out0, writed0, CHUNK_SIZE;
    while stream.availIn > 0
      invariant out == out0 || fresh(out)
      invariant Filled(out, head, stream, writed, availOut) && availOut > 0
      decreases |stream.output| - stream.totalOut, stream.availIn
    {
      ghost var before := stream.totalOut;
      availOut := stream.Deflate(out, writed + (CHUNK_SIZE - availOut), availOut);
      Joined(head, stream.output, before, stream.totalOut);
      if availOut == 0 {
        out, writed, availOut := Grow(out, writed, head, stream);
      }
    }
  }

  /** The loop that finishes the stream. */
  method Drain(stream: Deflater, out0: array<char>, writed0: nat, availOut0: nat, ghost head: string)
    returns (out: array<char>)
    requires Filled(out0, head, stream, writed0, availOut0) && stream.availIn == 0
    modifies stream, out0
    ensures out == out0 || fresh(out)
    ensures stream.totalOut == |stream.output| && |head| + stream.totalOut <= out.Length
    ensures out[..|head| + stream.totalOut] == head + stream.output
  {
    var writed: nat, availOut: nat := writed0, availOut0;
    out := out0;
    var status := Ok;
    while status == Ok
      invariant out == out0 || fresh(out)
      invariant stream.availIn == 0
      invariant Filled(out, head, stream, writed, availOut)
      invariant status == Ok || (status == StreamEnd && stream.totalOut == |stream.output|)
      decreases status == Ok, |stream.output| - stream.totalOut, availOut == 0
    {
      if availOut == 0 {
        out, writed, availOut := Grow(out, writed, head, stream);
      }
      ghost var before := stream.totalOut;
      status, availOut := stream.Finish(out, writed + (CHUNK_SIZE - availOut), availOut);
      Joined(head, stream.output, before, stream.totalOut);
    }
    assert stream.output[..stream.totalOut] == stream.output;
  }

  /** The first buffer, with the header when there is one. */
  method FirstChunk(time: nat, m: Method, stream: Deflater, ghost head: string) returns (out: array<char>, writed: nat)
    requires stream.Valid() && stream.totalOut == 0 && head == if m.Gzip? then Header(time) else ""
    ensures fresh(out) && Filled(out, head, stream, writed, CHUNK_SIZE)
  {
    writed := 0;
    if m.Gzip? {
      out := new char[CHUNK_SIZE + HEADER_SIZE];
      WriteHeader(out, time);
      writed := writed + HEADER_SIZE;
    } else {
      out := new char[CHUNK_SIZE];
    }
    assert out[..writed] == head + stream.output[..0];
  }

  /**
    nhr_gz_compress; `ready` is the result of starting the stream.  The result is null
    exactly when there is nothing to compress or the stream does not start.
  */
  method Compress(lib: Library, time: nat, x: string, m: Method, ready: bool, pace: Pace)
    returns (r: array?<char>, size: nat)
    ensures r == null <==> x == "" || !ready
    ensures r != null ==>
              fresh(r) && size <= r.Length && Some(r[..size]) == Compressed(lib, time, x, m)
  {
    hide Header, Footer, Uint, Filled;
    if |x| == 0 || !ready {
      return null, 0;
    }
    var part := x[..Uint(|x|)];
    var stream := new Deflater(lib.For(m), part, pace);
    ghost var head := if m.Gzip? then Header(time) else "";
    var out, writed := FirstChunk(time, m, stream, head);
    var availOut: nat;
    out, writed, availOut := Feed(stream, out, writed, head);
    out := Drain(stream, out, writed, availOut, head);
    size := Uint(stream.totalOut);
    ghost var body := stream.output[..size];
    assert out[..|head| + size] == head + body;
    if m.Deflate? {
      assert head == "" && out[..size] == body;
    } else {
      out := WriteFooter(out, size + HEADER_SIZE, lib.crc32(part), |x|);
      size := size + HEADER_SIZE + FOOTER_SIZE;
      assert out[..size] == Header(time) + body + Footer(lib.crc32(part), |x|);
    }
    assert body == Reached(lib.For(m).deflate(Reached(x)));
    r := out;
  }

  /** Everything delivered so far is in the buffer, and the rest of it is free. */
  ghost predicate Collected(out: array<char>, stream: Inflater, writed: nat)
    reads out, stream
  {
    && stream.Valid() && out.Length == writed + CHUNK_SIZE
    && writed == stream.totalOut && out[..writed] == stream.inflation.data[..writed]
  }

  /** The stream broke off: nothing more is delivered, although the loop goes on counting. */
  ghost predicate Stalled(stream: Inflater)
    reads stream
  {
    stream.Valid() && stream.Exhausted() && stream.inflation.Incomplete?
  }

  /**
    The loop of nhr_gz_decompress.  It counts what a call delivered by the room that is
    left in a chunk; that is right as long as each call fills the room or ends the stream,
    and when the stream breaks off instead it counts on until it asks for more in vain.
  */
  method InflateAll(stream: Inflater) returns (r: array?<char>, writed: nat)
    requires stream.Valid() && stream.totalOut == 0
    modifies stream
    ensures var i := stream.inflation;
            r == null <==> !(i.Complete? && i.data != "")
    ensures r != null ==> fresh(r) && writed <= r.Length && r[..writed] == stream.inflation.data
  {
    var out := new char[CHUNK_SIZE];
    writed := 0;
    var outSize, availOut := CHUNK_SIZE, CHUNK_SIZE;
    var status := Ok;
    while status != StreamEnd
      invariant fresh(out) && outSize == out.Length && stream.Valid()
      invariant status == StreamEnd || status == Ok || status == BufError
      invariant status == StreamEnd ==> stream.inflation.Complete? && stream.inflation.data != ""
      invariant status == StreamEnd ==> writed <= out.Length && out[..writed] == stream.inflation.data
      invariant 0 < availOut <= CHUNK_SIZE
      invariant status == StreamEnd || Stalled(stream) || (availOut == CHUNK_SIZE && Collected(out, stream, writed))
      invariant status != StreamEnd && availOut < CHUNK_SIZE ==> Stalled(stream) && writed < outSize
      invariant status != StreamEnd && stream.Exhausted() && stream.totalOut > 0 && availOut == CHUNK_SIZE ==>
                  !stream.inflation.Complete?
      decreases status != StreamEnd, |stream.inflation.data| - stream.totalOut,
                if availOut < CHUNK_SIZE then 1 + outSize - writed else 0
    {
      ghost var before, stalled := stream.totalOut, availOut < CHUNK_SIZE || !Collected(out, stream, writed);
      assert !stalled ==> out[..writed] == stream.inflation.data[..before];
      status, availOut := stream.Inflate(out, writed, availOut);
      if status == DataError {
        return null, writed;
      }
      var available := CHUNK_SIZE - availOut;
      if available > 0 {
        Continues(stream.inflation.data, before, stream.totalOut);
        writed := writed + available;
        assert !stalled ==> out[..writed] == stream.inflation.data[..stream.totalOut];
        if writed < outSize {
          availOut := CHUNK_SIZE - available;
        } else {
          outSize := outSize + CHUNK_SIZE;
          out := Realloc(out, out.Length + CHUNK_SIZE);
          availOut := CHUNK_SIZE;
        }
      } else {
        return null, writed;
      }
    }
    r := out;
  }

  /**
    nhr_gz_decompress; `ready` is the result of starting the stream.  The result is null
    exactly when there is no stream, or it is damaged, cut off or empty.
  */
  method Decompress(lib: Library, z: string, m: Method, ready: bool, pace: Pace) returns (r: array?<char>, size: nat)
    ensures r == null <==> !ready || Decompressed(lib, z, m) == None
    ensures r != null ==> fresh(r) && size <= r.Length && Some(r[..size]) == Decompressed(lib, z, m)
  {
    if |z| == 0 || !ready {
      return null, 0;
    }
    var payload: string;
    if m.Deflate? {
      payload := z[..Uint(|z|)];
    } else if IsGzipFile(z) {
      payload := z[HEADER_SIZE..HEADER_SIZE + Uint(|z| - (HEADER_SIZE + FOOTER_SIZE))];
      assert payload == Reached(z[HEADER_SIZE..|z| - FOOTER_SIZE]);
    } else {
      return null, 0;
    }
    var stream := new Inflater(lib.For(m), payload, pace);
    r, size := InflateAll(stream);
  }

  /** Compressing and decompressing again, whatever the paces of the two streams. */
  method CompressAndDecompress(lib: Library, time: nat, x: string, m: Method, pace: Pace, pace': Pace)
    returns (y: Option<string>)
    requires LosslessLibrary(lib) && x != ""
    ensures y == Some(x) <==> Fits(lib, x, m)
  {
    var r, size := Compress(lib, time, x, m, true, pace);
    var z := r[..size];
    var d, n := Decompress(lib, z, m, true, pace');
    RoundTrip(lib, time, x, m);
    y := if d == null then None else Some(d[..n]);
  }
}
