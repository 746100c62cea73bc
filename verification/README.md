# A model of libnhr in Dafny

libnhr is a small HTTP client in C: it composes requests, sends them from a worker
thread, collects the response as segments arrive and hands it to a callback.  Its tests
read JSON bodies with cJSON, which the repository carries along.  This project models
the parts of both that compute or coordinate something and proves what they are for.

Every algorithm that works step by step (parsers, printers, the minifier, linked lists,
size and write loops, the response buffer, the gzip loops) is a method or a class over
arrays, lists and fields, proved equal to a function of its input or of the old state;
the laws are lemmas about those functions.  The two protocols between threads, the
request worker and the thread joiner, are state machines whose runs are sequences of
actions in any interleaving.

| files | what they model |
|---|---|
| `CText`, `Decimal`, `Bits`, `Wrappers` | C strings in memory, numerals, the shifts and ors of `pow2gt` |
| `JsonString`, `JsonUnicode` | string literals: two-pass escaping and unescaping, `\u` escapes and UTF-8 |
| `JsonText`, `JsonParse`, `JsonRoundTrip` | trees, their text, the grammar of the parser, the round trip |
| `JsonGrammar`, `JsonLanguage`, `JsonPrinted` | the grammar of RFC 8259, the documents that the parser accepts, and those that are printed |
| `JsonReader`, `JsonOverrun`, `JsonPrinter`, `JsonBuffer`, `JsonMinify`, `JsonMinifyLaws`, `JsonChildren` | the parser's loops and when they leave the text, the printer that sizes and copies, the printer with one growing buffer, the minifier in place and what it does to any document, the child lists |
| `RequestFields`, `UrlEncoded`, `Multipart`, `PostMessage`, `PostRequest` | the field lists, both kinds of POST body, the message around them |
| `RequestReader`, `ContentCoding`, `FormReader` | a reader of HTTP/1.1 requests, of their content codings and of the parameters in them, against which the message is stated |
| `ResponseSpec`, `ResponseProofs`, `Response` | what a response is after any sequence of segments, and the object that holds it |
| `Worker`, `WorkerEnd`, `WorkerOutcome` | the worker thread, how it ends and with which callback, `nhr_request_send` and `nhr_request_cancel` |
| `Joiner` | finished threads joining one another |
| `Zlib`, `Gzip` | the contract of the compression library, and compression and decompression over a growing buffer |

Main results:

- Printing a tree, formatted or not, at any depth, and parsing the text gives the tree
  back and stops at its end; so two trees never print alike.  The buffered printer gives
  the same text whatever the size of its first buffer.  Minifying formatted text in
  place gives the unformatted text.  What is printed is a document of RFC 8259 that
  means the tree.
- Minifying any document takes out its blanks and comments and nothing else, and parsing
  the result gives the meaning of the document.
- Every document of RFC 8259, with any blanks, escapes and spellings of its numbers, is
  accepted as a whole with its value, unless a string in it has an unpaired surrogate or
  the code point zero; those are rejected.  Conversely the parser accepts nothing but
  the texts of its documents, which are those of RFC 8259 with more freedom in blanks,
  strings and numbers, and returns their meaning; a string that is the whole text may
  lack its closing quote.  An array or object that is cut off anywhere is not accepted.
- The parser runs past its text for a string literal exactly when the literal is not
  closed and the text ends with an unpaired backslash, since the first pass steps over
  two characters at a backslash; it never does for a text that does not end with one.
- The multipart body is split back into its parts exactly when every part is safe, and
  the url-encoded one exactly when no name or value has a separator; a reader that also
  decodes it gets the parameters exactly when they have no "+" and no escape either, and
  gets back whatever a caller has percent-encoded.
- From end to end, a receiver of the message reads exactly the parameters that were
  added, whatever lossless library compresses them, if and only if the caller adds no
  Content-Type and the parameters are as above.  The documented way to ask for
  compression, one Content-Encoding field with `gzip` or `deflate`, is understood by
  every receiver.
- A compressed body is recovered exactly when the Content-Encoding fields of the caller
  are what was applied.  Compression is switched on by any field with the value `gzip`
  or `deflate`, so that a caller who just asks for a compressed response
  (`Accept-Encoding: gzip`) sends a compressed body that nothing announces, and a file
  is never compressed, although `libnhr.h` (lines 307-308) says so of post bodies.
- A reader of HTTP/1.1 requests recovers target, host, port, all fields and the body
  from the message exactly when the path is a target for the host, in origin or absolute
  form, the host a host, and every field of the caller's can be written on a line and
  neither names the host or a transfer coding nor announces another length.  Keeping
  line ends out is not enough: nothing is encoded, so that a blank in the path is
  already too much.  All buffers sized beforehand are large enough, to the byte.
- A response with a content length does not depend on how the bytes were split into
  segments, nor does one without, which is all that comes; chunked decoding inverts
  chunked encoding for every grouping of chunks; and a compressed body is unpacked once,
  when the response finishes.
- In every interleaving of the worker, its sender and one permitted cancel, there is at
  most one callback, justified by an error or a response, and one deletion.  Without a
  cancel the worker ends with exactly one callback after a bounded number of steps, when
  finitely many segments come and at most `k` idle polls see the same reading of the
  clock, for every `k`; while the clock stands still it polls for ever.
- The callback is the right one: a finished response that the worker has found is
  reported, unless the time is over at the next look at the clock; a closed connection
  is reported with what there is; and a run in which nothing fails and the time is never
  over ends with a finished response.
- A cancel is effective exactly when it finds the worker between phases.  `libnhr.h`
  (lines 371-375) asks the caller not to use a request that was cancelled, but the code
  lets a phase that is running overwrite the cancel, so that a callback still comes;
  `WorkerEnd.CancelEffective` says just when.
- Finished threads are joined and freed at most once, never by themselves, and a join
  under the mutex always completes; in the end all but the last one are joined.
- Decompression undoes compression for every nonempty text, either format and every pace
  of the library, exactly when the sizes fit its 32-bit counters.

A `char` is one byte and a `string` is what a pointer into C text points at, up to the
terminator, so that advancing a pointer is dropping a prefix.  Numbers in JSON text are
the exact decimals that their digits spell.

## Model

| member | source | states |
|---|---|---|
| `CText.CopyText` | tests/cJSON/cJSON.c:383-385 | strcpy, memcpy and sprintf without their terminator: the memory before and after the copied text stays |
| `Decimal.Digits` | tests/cJSON/cJSON.c:160 | a decimal numeral is made of digits, is never empty and has no leading zero unless it is zero |
| `Decimal.DigitsValueOfDigits` | src/nhr_request_method_post.c:206-207 | reading a decimal numeral back gives its number, so the announced length is the length that was written |
| `Decimal.IntTextFits` | tests/cJSON/cJSON.c:159-160 | every 32-bit integer fits the 21 bytes asked for |
| `Decimal.ReadDigits` | tests/cJSON/cJSON.c:102 | the digit loop consumes exactly the maximal run of digits and accumulates its value |
| `Bits.Smear` | tests/cJSON/cJSON.c:117 | one smearing step doubles the number of leading ones and leaves the bit length as it was |
| `Bits.Pow2gt` | tests/cJSON/cJSON.c:117 | for 1 to 2^30 the result is the least power of two that is not below the argument |
| `JsonString.ParseHex4OfHex4` | tests/cJSON/cJSON.c:178-189 | parse_hex4 inverts the four digits that the printer writes, for every 16-bit value |
| `JsonString.ParseStringOfQuoted` | tests/cJSON/cJSON.c:193-252 | parsing the printed literal of any NUL-free string gives the string and stops right after the closing quote |
| `JsonString.DecodedFits` | tests/cJSON/cJSON.c:199-251 | for every literal, well formed or not, decoding writes at most as many bytes as the first pass counted |
| `JsonString.ReadUnit` | tests/cJSON/cJSON.c:208-245 | one turn of the decoding loop, with escapes and surrogate pairs, appends exactly the bytes of the unit it reads and stays in bounds |
| `JsonString.DecodeLiteral` | tests/cJSON/cJSON.c:203-247 | the second pass fills the buffer sized by the first with exactly the decoded bytes, and fails exactly on the escapes that cannot be decoded |
| `JsonString.ParseStringLiteral` | tests/cJSON/cJSON.c:193-252 | the two-pass parser equals the specification on every text, malformed and open literals included; where the first pass leaves the text the outcome is an overrun, and nothing is decoded |
| `JsonString.LiteralOverruns` | tests/cJSON/cJSON.c:198 | a literal makes the first pass leave the text if and only if it is not closed and the text ends with an unpaired backslash |
| `JsonString.ShortestOverrun` | tests/cJSON/cJSON.c:198 | three characters that make it leave the text: a quote, a letter and a backslash |
| `JsonOverrun.NoOverrun` | tests/cJSON/cJSON.c:327-341 | no text that does not end with a backslash makes the parser leave it |
| `JsonString.CountEscaped` | tests/cJSON/cJSON.c:281-283 | the counting pass gives the exact length of the escaped text |
| `JsonString.WriteEscaped` | tests/cJSON/cJSON.c:285-310 | the escape pass writes exactly the counted bytes, quotes and terminator, and touches nothing before them |
| `JsonString.WriteLiteral` | tests/cJSON/cJSON.c:269-310 | with and without escapes the literal and its terminator end up at the given place and the bytes before it stay |
| `JsonString.PrintString` | tests/cJSON/cJSON.c:255-311 | print_string_ptr gives the quoted, escaped text in memory of exactly the asked size |
| `JsonPrinted.UnitsOfString` | tests/cJSON/cJSON.c:285-310 | the escaped text of any NUL-free string is a string of RFC 8259, control characters escaped, that stands for it |
| `JsonPrinted.TextIsDocument` | tests/cJSON/cJSON.c:375-406 | for every printable tree, depth and format there is a document of RFC 8259 with the printed text whose meaning is the tree |
| `JsonUnicode.ParseEscapes` | tests/cJSON/cJSON.c:217-243 | a literal of \u escapes, with surrogate pairs above FFFF and hex digits of either case, parses to the UTF-8 encoding of the code points it names |
| `JsonUnicode.CodePointsOfUtf8Text` | tests/cJSON/cJSON.c:235-243 | those bytes are valid UTF-8 (section 4 of RFC 3629) and decode back to the same code points |
| `JsonUnicode.BitForms` | tests/cJSON/cJSON.c:228-242 | the mask-and-shift forms of the code are the quotients and remainders of the model |
| `JsonText.TextIsCString` | tests/cJSON/cJSON.c:375-406 | printed text never contains the terminator |
| `JsonRoundTrip.ParseNumberOfIntText` | tests/cJSON/cJSON.c:96-115 | a printed 32-bit integer parses to itself before any text that does not continue a number |
| `JsonRoundTrip.ParseValueOfText` | tests/cJSON/cJSON.c:360-372 | for every tree, depth and format and any text behind it that does not continue a number, parsing the printed text gives the tree and stops at the end of the text |
| `JsonRoundTrip.ParseArrayOfText` | tests/cJSON/cJSON.c:409-434 | the same for arrays, empty or not |
| `JsonRoundTrip.ParseObjectOfText` | tests/cJSON/cJSON.c:517-550 | the same for objects, empty or not, with any NUL-free names |
| `JsonRoundTrip.ParseOfText` | tests/cJSON/cJSON.c:327-343 | the whole interface: with blanks around it the printed text parses to the tree, whether or not the end of the text is required |
| `JsonRoundTrip.TextIsInjective` | tests/cJSON/cJSON.c:375-406 | two trees with the same text are the same tree |
| `JsonGrammar.ParseLiteral` | tests/cJSON/cJSON.c:193-252 | any string that the parser takes, those of the grammar (section 7 of RFC 8259) among them, parses to its bytes, UTF-16 code units as UTF-8, and is rejected exactly when a surrogate has no partner or a code unit is zero |
| `JsonGrammar.ParseNumeral` | tests/cJSON/cJSON.c:96-115 | any number that the parser takes, those of the grammar (section 6) among them, parses to the exact decimal that it spells |
| `JsonGrammar.ParseSource` | tests/cJSON/cJSON.c:360-372 | any value that the parser takes, with any blanks inside, parses to its meaning and stops at its end, or is rejected when a string in it has none |
| `JsonGrammar.ParseDocument` | tests/cJSON/cJSON.c:327-341 | the whole interface: every document of the grammar, with blanks around it, is accepted as a whole with its meaning, whether or not the end is required, and rejected exactly when it has none |
| `JsonLanguage.AcceptedText` | tests/cJSON/cJSON.c:327-341 | whatever C string is accepted is the text of one of the documents, every bracket, comma and colon in its place, and the result is its meaning; only a string that is the whole text may lack its closing quote |
| `JsonLanguage.Language` | tests/cJSON/cJSON.c:327-341 | for every C string, with the end required, the result is a tree if and only if the text is, with blanks around it, that of a document with this meaning |
| `JsonLanguage.CutOffIsRejected` | tests/cJSON/cJSON.c:409-434 | an array or object that is cut off anywhere is not accepted, whether or not the end is required |
| `JsonReader.SkipBlanks` | tests/cJSON/cJSON.c:324 | skip stops at the first byte above 32 or at the terminator |
| `JsonReader.ReadNumber` | tests/cJSON/cJSON.c:96-115 | the digit, fraction and exponent loops read the exact decimal that the grammar says, and stop where it ends |
| `JsonReader.ReadValue` | tests/cJSON/cJSON.c:360-372 | the recursive-descent parser equals the grammar on every text, rejections and overruns included |
| `JsonReader.ReadArray` | tests/cJSON/cJSON.c:409-434 | the loop that links elements as it reads them builds the list that the grammar gives |
| `JsonReader.ReadObject` | tests/cJSON/cJSON.c:517-550 | the same for members with their names |
| `JsonReader.ParseWithOpts` | tests/cJSON/cJSON.c:327-341 | the entry point equals the grammar, with and without the required end, rejections and overruns included |
| `JsonPrinter.ItemsFit` | tests/cJSON/cJSON.c:480-511 | the size summed over the elements of an array is enough for the composed text and its terminator |
| `JsonPrinter.MembersFit` | tests/cJSON/cJSON.c:613-660 | the same for the members of an object |
| `JsonPrinter.CollectItems` | tests/cJSON/cJSON.c:480-486 | the first pass prints every child once and sums the sizes |
| `JsonPrinter.ComposeItems` | tests/cJSON/cJSON.c:502-511 | the second pass joins the elements, with a separator after all but the last, inside the memory sized before |
| `JsonPrinter.PrintArray` | tests/cJSON/cJSON.c:472-514 | the array printer gives the text of the array |
| `JsonPrinter.CollectMembers` | tests/cJSON/cJSON.c:617-627 | the first pass over members, names included |
| `JsonPrinter.ComposeMembers` | tests/cJSON/cJSON.c:643-657 | the second pass over members, one indented line each when formatted |
| `JsonPrinter.PrintObject` | tests/cJSON/cJSON.c:609-661 | the object printer gives the text of the object |
| `JsonPrinter.PrintValue` | tests/cJSON/cJSON.c:393-406 | the printer that sizes and copies gives the text of every tree, at any depth, with every write in bounds |
| `JsonPrinter.Print` | tests/cJSON/cJSON.c:346-347 | cJSON_Print and cJSON_PrintUnformatted give the formatted and the unformatted text |
| `JsonBuffer.PrintBuffer.constructor` | tests/cJSON/cJSON.c:349-354 | a buffer of the asked size with nothing in it |
| `JsonBuffer.PrintBuffer.Ensure` | tests/cJSON/cJSON.c:121-136 | afterwards there is room at the offset, every byte already in the buffer stays, and a new size is the least power of two that is enough |
| `JsonBuffer.PrintBuffer.Update` | tests/cJSON/cJSON.c:138-144 | the offset that a callee left behind moves to the terminator of what the callee wrote |
| `JsonBuffer.PrintBuffer.PrintNumber` | tests/cJSON/cJSON.c:147-176 | the number and its terminator stand at the offset |
| `JsonBuffer.PrintBuffer.PrintValue` | tests/cJSON/cJSON.c:379-391 | behind everything written before stands the text of the tree and its terminator, with the offset somewhere in it |
| `JsonBuffer.PrintBuffer.PrintArray` | tests/cJSON/cJSON.c:456-471 | the same for an array, its offset left before the closing bracket |
| `JsonBuffer.PrintBuffer.PrintItems` | tests/cJSON/cJSON.c:461-468 | the loop over elements moves the offset past each of them and its separator |
| `JsonBuffer.PrintBuffer.PrintObject` | tests/cJSON/cJSON.c:562-608 | the same for an object, empty or not |
| `JsonBuffer.PrintBuffer.PrintMembers` | tests/cJSON/cJSON.c:579-604 | the loop over members: indentation, name, colon, value, separator |
| `JsonBuffer.PrintBuffered` | tests/cJSON/cJSON.c:349-356 | the buffered printer gives the text of the other printers for every tree, format and first size |
| `JsonMinify.MinifyText` | tests/cJSON/cJSON.c:739-754 | minifying a tree's text, in any surroundings, depth and format, gives its unformatted text and goes on behind it |
| `JsonMinify.MinifyUndoesFormatting` | tests/cJSON/cJSON.c:739-754 | the formatted text minifies to the unformatted text, which minifying leaves alone |
| `JsonMinifyLaws.MinifyLineComment` | tests/cJSON/cJSON.c:748 | a comment to the end of its line is taken out with its line end |
| `JsonMinifyLaws.MinifyBlockComment` | tests/cJSON/cJSON.c:749 | a comment between marks is taken out, where the first closing mark is the one that ends it |
| `JsonMinifyLaws.MinifyDocument` | tests/cJSON/cJSON.c:739-754 | minifying any document of the parser, with comments among its blanks, gives its tokens without blanks and goes on behind it |
| `JsonMinifyLaws.MinifiedIsParsed` | tests/cJSON/cJSON.c:739-754 | a document with comments inside and around it minifies to a text that parses to its meaning |
| `JsonMinifyLaws.MinifyingKeepsMeaning` | tests/cJSON/cJSON.c:739-754 | for every document of RFC 8259, with blanks around it, parsing the minified text gives what parsing the text gives |
| `JsonMinify.MinifyQuoted` | tests/cJSON/cJSON.c:750 | string literals are kept byte for byte, whatever they contain |
| `JsonMinify.CopyLiteral` | tests/cJSON/cJSON.c:750 | the literal loop moves a literal down in place, escapes in steps of two |
| `JsonMinify.SkipComment` | tests/cJSON/cJSON.c:749 | the comment loop stops right behind the end of the comment |
| `JsonMinify.MinifyStep` | tests/cJSON/cJSON.c:744-751 | in every turn the write position stays at or behind the read position and what was and will be written is what the specification says |
| `JsonMinify.Minify` | tests/cJSON/cJSON.c:739-754 | in place, the memory of a text whose comments and literals are closed ends up with the minified text |
| `JsonChildren.ListLaws` | tests/cJSON/cJSON.c:670-692 | in runs of two calls, each of which callers may make, detaching undoes inserting and adding, putting a detached child back undoes detaching, and of two replacements the second counts; past the end inserting is adding and detaching does nothing, and a negative position is the first |
| `JsonChildren.Parent.Walk` | tests/cJSON/cJSON.c:681 | the walk with a countdown finds the child at the position, the first one for negative positions, none past the end |
| `JsonChildren.Parent.AddItem` | tests/cJSON/cJSON.c:670-675 | adding appends to the sequence of children; next and prev stay inverse and the list ends at both ends |
| `JsonChildren.Parent.DetachItem` | tests/cJSON/cJSON.c:681-682 | detaching removes exactly the child at the position and leaves it unlinked; past the end nothing changes |
| `JsonChildren.Parent.InsertItem` | tests/cJSON/cJSON.c:688-689 | inserting puts the child before the position, whatever its links were, or at the end if there is none |
| `JsonChildren.Parent.ReplaceItem` | tests/cJSON/cJSON.c:690-692 | replacing puts the child, whatever its links were, in the place of the one at the position, which is unlinked |
| `JsonChildren.Parent.Run` | tests/cJSON/cJSON.c:670-692 | any run of add, insert, detach and replace calls, each with a node that is out of the list at that time and not deleted, detached ones included, keeps next and prev inverse and the list ended at both ends, and equals the run of the same edits on the sequence |
| `RequestFields.FieldList.Last` | src/nhr_map.c:30-37 | the walk ends at the last node, or at null for no list |
| `RequestFields.FieldList.Append` | src/nhr_map.c:39-46 | a fresh empty node at the end of the list, the first one reused while it is empty; all other fields stay |
| `RequestFields.FieldList.AddText` | src/nhr_request_public.c:107-162 | a header field or parameter with an empty name or value changes nothing, any other is appended to the fields |
| `RequestFields.FieldList.AddFile` | src/nhr_request_public.c:164-207 | the same for a file with its name and content |
| `RequestFields.JoinedSize` | src/nhr_request_method_common.c:28-77 | the summed lengths are the length of the joined text and one separator more |
| `RequestFields.MeasureStrings` | src/nhr_request_method_common.c:28-36 | the length loop sums the names, values and increments of the whole list |
| `RequestFields.WriteFields` | src/nhr_request_method_common.c:38-77 | the write loop fills the measured memory with the joined text and its terminator, and gives null exactly for no fields |
| `UrlEncoded.UrlEncodedRoundTrip` | src/nhr_request_method_common.c:59-77 | the output splits back into the same pairs in order exactly when no name has "=" or "&" and no value "&" |
| `UrlEncoded.FormRoundTrip` | src/nhr_request_method_common.c:59-77 | a reader that also decodes "+" and %HH, as the announced type asks, gets the pairs back if and only if, besides, no name and no value has a "+" or a percent sign with two hexadecimal digits |
| `UrlEncoded.PlusIsRead` | src/nhr_request_method_common.c:59-77 | an input that splits back but is not decoded back: the value 1+1 |
| `UrlEncoded.EncodedByCaller` | libnhr.h:315-322 | what a caller has percent-encoded, as the documentation asks, arrives as it was before, for all names and values |
| `UrlEncoded.UrlEncodedParameters` | src/nhr_request_method_common.c:59-77 | the output is the "&"-join of the list and fills its memory up to the terminator |
| `UrlEncoded.AddParameters` | src/nhr_request_public.c:138-162 | after any run of calls the list holds exactly the accepted pairs in call order |
| `Multipart.FindNoStraddle` | src/nhr_request_method_post.c:124-169 | behind any text the delimiter is first found where it first occurs in the text, or else right at its end; it cannot straddle the end |
| `Multipart.PartLayout` | src/nhr_request_method_post.c:132-158 | the header lines of both kinds of parts, letter by letter |
| `Multipart.FindInPart` | src/nhr_request_method_post.c:124-169 | from the start of a part the first delimiter is the one in its payload, counting the line end before it, or else the one that ends the part |
| `Multipart.ReadPartExact` | src/nhr_request_method_post.c:132-158 | what reads as a part from a start of its text and of what follows is all of its text, and its names have no quote, backslash or line end |
| `Multipart.MultipartRoundTrip` | src/nhr_request_method_post.c:121-172 | splitting the body at the first delimiters, with a backslash in a name quoting what is behind it, recovers kind, name, file name and payload of every part in order exactly when every part is safe: its names have no quote, backslash or line end, and its payload no delimiter |
| `Multipart.SizeArithmetic` | src/nhr_request_method_post.c:89-121 | for n parts and a boundary of twelve the body is exactly n bytes shorter than the counted size |
| `Multipart.MeasureParameters` | src/nhr_request_method_post.c:89-117 | the size loop counts names, payloads, boundaries and constant lines of every parameter |
| `Multipart.WritePart` | src/nhr_request_method_post.c:136-158 | one turn of the write loop writes the part of a file or a text |
| `Multipart.WriteParameters` | src/nhr_request_method_post.c:121-159 | the write loop leaves everything but the closing delimiter in the memory, and what is there and what is still due make up the body |
| `Multipart.CreateDataParameters` | src/nhr_request_method_post.c:81-173 | the write loop and the closing delimiter give the multipart body, with every write and the terminator inside the memory sized before |
| `RequestReader.ReadRequestLineOf` | src/nhr_request_method_post.c:199 | the request line splits at its two single spaces into method, target and version, for targets in origin and in absolute form |
| `RequestReader.ReadFieldOf` | src/nhr_request_method_common.c:38-57 | a field line reads back as its field when the name is a token and the value a field value without outer blanks |
| `RequestReader.ReadHostOf` | src/nhr_request_method_post.c:201-205 | a host with its port, left out when it is 80, reads back as both |
| `PostMessage.BodyFieldsAreClean` | src/nhr_request_method_post.c:44-62 | the fields that describe the body, boundary included, can be written on lines |
| `PostMessage.BodyFieldsAnnounce` | src/nhr_request_method_post.c:161-171 | the fields of the body announce exactly its length, once, and no host or transfer coding |
| `PostMessage.ReadsBody` | src/nhr_request_method_post.c:207-225 | when the caller names no host or transfer coding and announces no other length, the framing gives exactly the body, with one blank line left over behind it |
| `PostMessage.PostFraming` | src/nhr_request_method_post.c:177-229 | a reader written from sections 2.2, 3, 5 and 6 of RFC 9112 recovers target, host, port, all fields in order and the body, with exactly one blank line left over, if and only if the path is an origin form or an absolute form with this host and port, the host a host, and every field of the caller's is a token with a field value that does not name the host or a transfer coding or announce another length |
| `PostMessage.LineEndsAreNotEnough` | src/nhr_request_method_post.c:199 | an input without line ends that is not read back: a blank in the path |
| `PostMessage.CompressedBody` | src/nhr_request_method_post.c:46-57 | decompressing a compressed body gives the url-encoded parameters, for every lossless library and sizes that fit 32 bits |
| `ContentCoding.AnnouncedIsRead` | src/nhr_request_method_post.c:46-57 | when the Content-Encoding fields are what is applied, undoing them gives the body back, for every lossless library whose sizes fit 32 bits |
| `ContentCoding.ContentIsRead` | src/nhr_request_public.c:127-134 | a receiver that undoes the codings of the Content-Encoding fields gets the body back, whatever lossless library compressed it, if and only if those fields are what is applied (gzip or else deflate to url-encoded parameters when some field has that value, nothing to files) |
| `ContentCoding.AcceptEncodingCompresses` | src/nhr_request_public.c:127-134 | a request that is not recovered: Accept-Encoding: gzip compresses its body, and nothing announces it |
| `ContentCoding.FileIsNotCompressed` | src/nhr_request_method_post.c:32-44 | a file that is not recovered: its body is announced as compressed, as the documentation says it is, and sent as it is |
| `FormReader.CallsBuild` | src/nhr_request_public.c:107-207 | after any calls that build a request its compression flags are those of the values of its fields, and it counts as one with files exactly when it has one |
| `FormReader.CallsAdd` | src/nhr_request_public.c:107-207 | any run of calls appends the accepted fields and parameters in call order, and the first boundary stays |
| `FormReader.FirstBoundary` | src/nhr_request_public.c:164-207 | the first file fixes the boundary |
| `FormReader.OnlyFilled` | src/nhr_request_public.c:107-207 | what is added has a name and a value, and a call with both adds them |
| `FormReader.AppliedIs` | src/nhr_request_method_post.c:46-48 | which compression is applied, by the literal values: gzip when some field has the value gzip, or else deflate when one has that, to url-encoded parameters when compression starts; otherwise none |
| `FormReader.AnnouncedIsApplied` | src/nhr_request_public.c:127-134 | when the only field with the value gzip or deflate is the only Content-Encoding field, the announced coding is the applied one |
| `FormReader.DocumentedUse` | src/nhr_request_method_post.c:46-57 | so every receiver gets the url-encoded parameters of such a request, for every lossless library |
| `FormReader.TypeValues` | src/nhr_request_method_post.c:61 | the type of the body, url-encoded or multipart with its boundary, in the words that a receiver looks for |
| `FormReader.LengthAndHost` | src/nhr_request_method_post.c:62 | its length and the host, under the names that a receiver looks for |
| `FormReader.FormIsRead` | src/nhr_request_method_post.c:32-173 | a receiver that goes by the Content-Encoding and Content-Type fields reads exactly the parameters that were added, in order, if and only if the caller adds no Content-Type and the parameters are safe (parts) or separable and plain (url-encoded) |
| `FormReader.MessageIsRead` | src/nhr_request_method_post.c:177-229 | the same from the bytes of the message, for clean requests |
| `PostRequest.Request.constructor` | src/nhr_request_public.c:40-73 | a request to a host and port without fields and parameters |
| `PostRequest.Request.AddHeaderField` | src/nhr_request_public.c:107-136 | appends the accepted field, switches compression on for the values gzip and deflate, and changes nothing else of the request |
| `PostRequest.Request.AddParameter` | src/nhr_request_public.c:138-162 | appends the accepted parameter and changes nothing else of the request |
| `PostRequest.Request.AddDataParameter` | src/nhr_request_public.c:164-207 | appends the accepted file, marks the request, and fixes the boundary with the first file only |
| `PostRequest.Request.WriteBody` | src/nhr_request_method_post.c:32-173 | the body is the multipart text, or the url-encoded text, compressed when a field has asked for it; null exactly when there are no parameters |
| `PostRequest.Request.Pack` | src/nhr_request_method_post.c:46-57 | the text is replaced by its compressed form, gzip before deflate, and kept when there is none |
| `PostRequest.Request.CreateParameters` | src/nhr_request_method_post.c:32-173 | writes the body and appends the content type and the decimal length of what is sent, compressed or not, to the header fields |
| `PostRequest.Request.FieldBuffersFit` | src/nhr_request_method_post.c:83-84 | the local buffers for the content type and the decimal length are large enough for every 64-bit length |
| `PostRequest.Request.MessageSize` | src/nhr_request_method_post.c:193-199 | the 256 bytes set aside are enough for everything that is not path, host, fields or body |
| `PostRequest.Request.Compose` | src/nhr_request_method_post.c:193-229 | the writes that compose the message put its pieces behind one another inside the buffer |
| `PostRequest.Request.CreateHeader` | src/nhr_request_method_post.c:177-229 | the buffer holds the whole message and its terminator, and the size is that of the message |
| `ResponseProofs.ContentLengthBody` | src/nhr_response.c:218-258 | with a content length and no content coding, for every split after the header, the body is the first content-length bytes and the response is finished exactly when that many have come |
| `ResponseProofs.SegmentationIrrelevant` | src/nhr_response.c:218-258 | two splits of the same bytes give the same response |
| `ResponseProofs.UnannouncedBody` | src/nhr_response.c:218-258 | a body that is neither chunked nor announced is everything that comes, for every split and encoding, and the response never finishes by itself |
| `ResponseProofs.NoStatus` | src/nhr_response.c:218-258 | a first segment without a status is dropped, and the body is what comes after it |
| `ResponseProofs.NoHeaderBlock` | src/nhr_response.c:96-128 | a first segment without a complete header block gives nothing to the body, though what its fields announce holds |
| `ResponseProofs.KeptFields` | src/nhr_response.c:204-216 | a finished response never becomes unfinished, whatever comes |
| `ResponseProofs.HeaderEnds` | src/nhr_response.c:96-128 | a header block ends at its first blank line, if it is longer than four bytes and no terminator comes before |
| `ResponseProofs.DamagedBodyIsKept` | src/nhr_response.c:32-51 | a body that cannot be decompressed is kept as it came |
| `ResponseProofs.DecodeChunks` | src/nhr_response.c:77-93 | decoding encoded chunks appends their payloads, cut off at a content length that is announced all the same, and goes on behind them |
| `ResponseProofs.ScanSize` | src/nhr_response.c:79-80 | a size in hexadecimal digits of either case is read modulo 2^32, and skipped |
| `ResponseProofs.ScanForms` | src/nhr_response.c:79 | blanks, a sign and a 0x prefix may come before the digits, as the two conversions allow; a minus is taken modulo 2^32 |
| `ResponseProofs.LastChunkNeedsBlankLine` | src/nhr_response.c:81-85 | a last chunk without the blank line behind it does not end the body |
| `ResponseProofs.NoChunk` | src/nhr_response.c:79 | what does not start as a size can adds nothing |
| `ResponseProofs.ChunkedBody` | src/nhr_response.c:77-128 | before the last chunk the body is the concatenation of the payloads, for every grouping of chunks into segments, cut off at a content length that is announced all the same, and nothing is finished |
| `ResponseProofs.ChunkedEnd` | src/nhr_response.c:249-258 | the segment with the last chunk, and no other, finishes the response, with the concatenation of all payloads, unpacked when it is compressed |
| `ResponseProofs.ChunkedAtOnce` | src/nhr_response.c:218-231 | the same when everything comes in the first segment |
| `ResponseProofs.PackedBody` | src/nhr_response.c:204-258 | for every split, when the announced bytes have come with the last segment, and not before, the body is what they unpack to |
| `ResponseProofs.PackedSegments` | src/nhr_response.c:204-216 | a compressed response is like an uncompressed one until it finishes, and is unpacked then |
| `ResponseProofs.UnpackedText` | src/nhr_response.c:32-51 | what a lossless library compressed is unpacked to the text, for sizes that fit 32 bits |
| `Response.Response.FixBodyLen` | src/nhr_response.c:55-60 | bytes past a known content length are dropped |
| `Response.Response.AddBodyData` | src/nhr_response.c:233-247 | the stored body grows by the data up to the content length, and never exceeds its memory |
| `Response.Response.ReadChunks` | src/nhr_response.c:77-93 | the chunk loop stores what the specification decodes and records the last chunk |
| `Response.Response.ParseBody` | src/nhr_response.c:96-128 | stores what follows the header block, as chunks or as bytes, or nothing without a header block |
| `Response.Response.Ungzip` | src/nhr_response.c:32-51 | the body is replaced by what it decompresses to, and kept when that is nothing |
| `Response.Response.CheckIsFinished` | src/nhr_response.c:195-216 | marks the response finished when all chunks or all announced bytes are there, and unpacks a compressed body |
| `Response.Response.Create` | src/nhr_response.c:218-231 | the first segment gives the response that the specification says |
| `Response.Response.Append` | src/nhr_response.c:249-258 | one more segment turns the response into the one that the specification says |
| `Response.Receive` | src/nhr_request_private.c:76-102 | a whole reception gives the response of the specification for all of its segments |
| `Worker.SafeInEveryRun` | src/nhr_request_private.c:35-71 | in every interleaving: at most one callback, an error callback with an error, a response callback only after a finished response or a closed connection, connect and send entered at most once, and the request deleted exactly once, when the thread is done |
| `Worker.StepKeeps` | src/nhr_request_private.c:35-154 | every step of the worker, the sender and a permitted cancel keeps the invariant |
| `Worker.CancelFindsThread` | src/nhr_request_public.c:233-243 | a permitted cancel always finds the thread, so it only sets the command and deletes nothing |
| `Worker.EndMeansCallback` | src/nhr_request_private.c:38-70 | without a cancel the thread ends only after exactly one callback |
| `Worker.NothingAfterDelete` | src/nhr_request_private.c:69-70 | after the request is deleted no thread takes another step with it |
| `WorkerEnd.StepBringsEnd` | src/nhr_request_private.c:76-154 | when finitely many segments come and at most k idle polls see the same reading of the clock, for any k, every step lowers the bound on the steps left |
| `WorkerEnd.WorkerEnds` | src/nhr_request_private.c:38-70 | without a cancel, under that hypothesis, the thread is done, with exactly one callback and one deletion, after at most as many steps as the bound says |
| `WorkerEnd.StepsAfterSend` | src/nhr_request_private.c:330-337 | the bound in numbers: 56 steps and eight for each of the k polls a second of a whole wait, and for each segment another whole wait and 24 steps |
| `WorkerEnd.RunWorker` | src/nhr_request_private.c:35-71 | the thread's loop terminates with one callback within the bound, whatever the environment answers until its budget is used up |
| `WorkerEnd.NoEndWithoutClock` | src/nhr_request_private.c:330-337 | the hypothesis is needed: a polling worker never ends as long as nothing comes and the clock stands still |
| `WorkerOutcome.FinishedResponse` | src/nhr_request_private.c:104-118 | from every reachable state in which the worker has found a finished response, whatever the environment does, the one callback is that response, the connection open; only when the time is over at the next look at the clock it is the timeout |
| `WorkerOutcome.ClosedResponse` | src/nhr_request_private.c:115-116 | from every reachable state in which the peer has closed the connection, the one callback is the response as far as it came |
| `WorkerOutcome.UnresolvedIsReported` | src/nhr_request_private.c:222-241 | a host that is not resolved ends in the error callback: failed to connect, or timeout if the time is over by then |
| `WorkerOutcome.RefusedIsReported` | src/nhr_request_private.c:243-280 | the same for a refused connection |
| `WorkerOutcome.UnsentIsReported` | src/nhr_request_private.c:143-151 | the same for a request that is not sent |
| `WorkerOutcome.TimeoutNeedsTime` | src/nhr_request_private.c:330-337 | in no run a timeout is reported unless some step found the time over |
| `WorkerOutcome.FailureNeedsCause` | src/nhr_request_private.c:222-280 | in no run a failure to connect or a closed connection is reported unless some step failed |
| `WorkerOutcome.GoodRunEndsWell` | src/nhr_request_private.c:35-71 | in every run in which no step fails and the time is never over, an uncancelled thread ends with the callback of a finished response |
| `WorkerOutcome.ResponseIsReported` | src/nhr_request_private.c:35-71 | there is such a run from the start, for every timeout above zero: every phase succeeds, one segment is the whole response, and the thread ends with it |
| `WorkerOutcome.TimeStarts` | src/nhr_request_private.c:120-125 | the time starts anew with the connect phase, each attempt to connect, the start of the wait and every segment, and at no other step |
| `WorkerOutcome.SocketIsClosed` | src/nhr_request_private.c:68-71 | a thread that is done has left no socket open |
| `WorkerEnd.CancelHonoured` | src/nhr_request_public.c:233-243 | a cancel that finds the worker between phases is followed by no callback |
| `WorkerEnd.CancelOverwritten` | src/nhr_request_private.c:222-280 | a cancel that finds the worker inside a phase can be overwritten: a run is given in which a callback follows |
| `WorkerEnd.CancelEffective` | src/nhr_request_public.c:233-243 | for every cancel under the documented rules, no run after it has a callback if and only if it found the worker between phases |
| `WorkerEnd.CallbackAfterCancel` | src/nhr_request_private.c:222-280 | it happens: for every timeout a run from the start in which a permitted cancel meets the worker resolving its host, and a callback follows |
| `Joiner.SafeInEveryRun` | src/nhr_thread.c:56-94 | in every order of thread exits each thread is joined and freed at most once, never by itself and only when it needs the mutex no more, and at most one finished thread is left unjoined |
| `Joiner.AdvanceKeeps` | src/nhr_thread.c:56-118 | every finished thread is in the slot, in the hands of the owner of the mutex, or joined and freed, and each step keeps that |
| `Joiner.JoinCompletes` | src/nhr_thread.c:82 | the thread that is being joined has exited or exits with its next step |
| `Joiner.NoDeadlock` | src/nhr_thread.c:89-94 | as long as a thread has not exited some thread can go on |
| `Joiner.RunsAreShort` | src/nhr_thread.c:107-118 | every run takes at most nine steps for each thread created |
| `Joiner.AllJoinedButLast` | src/nhr_thread.c:56-94 | when no thread can go on all have exited, and all are joined and freed once except the one in the slot |
| `Zlib.DeflatedIsNonempty` | src/nhr_gz.c:159-164 | a lossless codec never compresses to nothing, so a compressed file is longer than its header and footer |
| `Zlib.LosslessCodecExists` | src/nhr_gz.c:74-235 | the contract of the library can be met |
| `Zlib.Deflater.Deflate` | src/nhr_gz.c:114-126 | the library's contract without flush: input used up or output full |
| `Zlib.Deflater.Finish` | src/nhr_gz.c:128-137 | the library's contract at the end: the end is reported only when everything is delivered |
| `Zlib.Inflater.Inflate` | src/nhr_gz.c:201-211 | the library's contract: output full, input used up or stream ended, the end reported with the last byte |
| `Gzip.WordRoundTrip` | src/nhr_gz.c:69-70 | four bytes give back the value modulo 2^32 |
| `Gzip.WriteHeader` | src/nhr_gz.c:40-55 | the ten bytes of the header |
| `Gzip.WriteFooter` | src/nhr_gz.c:57-72 | checksum and size behind the stream, in memory grown by eight bytes when they do not fit |
| `Gzip.StripUndoesFrame` | src/nhr_gz.c:184-188 | the header and footer that decompression strips are exactly those that compression added |
| `Gzip.GzipFields` | src/nhr_gz.c:40-72 | magic bytes, method, time, checksum and size of a compressed file are where section 2.3 of RFC 1952 puts them |
| `Gzip.StreamFormats` | src/nhr_gz.c:74-157 | gzip has the raw stream between its ten and eight bytes, deflate the stream in zlib's own frame |
| `Gzip.RoundTrip` | src/nhr_gz.c:74-235 | for every nonempty text and both formats, decompressing what was compressed restores it if and only if text and stream fit 32-bit sizes |
| `Gzip.CutOffFails` | src/nhr_gz.c:166-235 | what was compressed and is cut off anywhere is not decompressed, in either format, for every lossless library |
| `Gzip.NotGzip` | src/nhr_gz.c:180-188 | what has no more than eighteen bytes, or not the magic bytes, is no gzip file |
| `Gzip.Grow` | src/nhr_gz.c:119-125 | a growth step keeps every byte and leaves exactly 512 bytes behind the written part |
| `Gzip.Feed` | src/nhr_gz.c:113-126 | the feeding loop ends with all input taken and every delivered byte in place, behind the header |
| `Gzip.Drain` | src/nhr_gz.c:128-137 | the finishing loop ends with the whole stream in the buffer, no byte lost or repeated at a growth step |
| `Gzip.Compress` | src/nhr_gz.c:74-157 | the result is the framed stream, and null exactly for no input or a stream that does not start |
| `Gzip.InflateAll` | src/nhr_gz.c:196-228 | the loop ends for complete, cut-off and damaged streams alike, with the whole data for a complete stream that is not empty and null otherwise |
| `Gzip.Decompress` | src/nhr_gz.c:166-235 | the result is the data of the stream, and null exactly when there is none, or it is damaged, cut off or empty |
| `Gzip.CompressAndDecompress` | tests/test_gz_creation.c:80-110 | running both, whatever their paces, restores the text if and only if the sizes fit |

## Left out

- JSON trees are values, not heap nodes: the parser's and printers' methods keep the
  loops, buffers and recursion of the code and return or take a tree; how nodes are
  allocated and linked is modelled apart, in `JsonChildren`.
- The text of numbers that are not 32-bit integers (`%f`, `%e`, NaN).
- The error pointer `ep`, references, `cJSON_Duplicate`, deletion, allocation hooks, and
  operations that look children up by name.
- Allocation failure, and freeing memory other than in `Joiner`.
- JsonBuffer.PrintBuffered: needs the text and 21 bytes of slack within 2^30, since
  `pow2gt` leaves the range of an int beyond that.
- JsonMinify.Minify: asks that comments and string literals are closed; the code reads
  past the terminator otherwise.
- `nhr_request_create_header_GET`, a simpler copy of the POST head.
- The random boundary and the time stamp are parameters; NULL strings are empty strings.
- RequestReader.ReadHostOf: the address inside the brackets of a host is not looked into;
  the reader has no transfer codings and refuses folded lines and lists of lengths, as a
  server may, and targets in absolute form with a scheme other than http.
- ContentCoding.ContentIsRead: is about bodies below 4 GiB, as what is compressed is cut
  at 32 bits beyond that; the reader takes `gzip`, `x-gzip` and `deflate` for known
  codings, and refuses any other.
- FormReader.FormIsRead: the reader takes the two content types in the letters in which
  they are sent, without other parameters.
- The search for status, content length and encodings in the header block: they are the
  input `Head`.
- Response.Response.ReadChunks: asks that every announced chunk lies in its segment with
  the line end behind it; the code does not support a chunk that is cut.  The end of a
  segment is taken as a terminator, also by `ResponseProofs.ChunkedBody`: the receive
  buffer has none (src/nhr_request_private.c:76-93), and what `sscanf` and `strstr` find
  there behind a segment is left over from an earlier one.
- Response.Response.Append: asks that nothing arrives after a compressed response has
  finished, since `body_size` is not updated when the body is replaced.
- JsonReader.ReadNumber: promises the exact decimal; the rounding to a double and the
  cut to an int are not modelled.
- `ResponseSpec.ScanHex` follows the C standard for `%X` and `%x`: blanks, a sign and a
  0x prefix may come before the digits; larger sizes wrap at 32 bits.
- Sockets, the resolver, sleeps and clocks: each phase of `Worker` asks an environment
  whether it succeeds, whether a segment arrives and how much time passes.  The attempts
  of the connect phase to reach one address after another are one step.
- The worker and the joiner are steps on values, not threads on shared objects; a step
  reaches up to one access to the shared state.  Creating the joiner itself, which is not
  guarded by its mutex, is before every run.
- WorkerEnd.WorkerEnds: assumes that finitely many segments arrive and that at most `k`
  idle polls see the same reading of the clock, for some `k`; with a pause of 5 ms and a
  clock in whole seconds that is about 200.  Each segment starts the wait again, so that
  without the first half a worker can go on for ever.
- zlib is a contract (`Zlib`), and its checksum a parameter; `uInt` and `uLong` have 32
  bits, as the comments of the code say, and compression methods other than the two named
  ones are not modelled.
- `nhr_request_set_url` and the other setters, string helpers, SIGPIPE, Windows and iOS.
