/**
  The multipart body: its size loop against its writing loop, and a reader that splits
  it at the boundary as section 5.1.1 of RFC 2046 and section 4 of RFC 7578 say.  Names
  are quoted strings as RFC 2183 has them from RFC 822: a backslash quotes the character
  behind it.
*/
module Multipart {
  import opened CText
  import opened RequestFields
  import opened Wrappers

  const BOUNDARY_LENGTH: nat := 12

  const DISPOSITION: string := "Content-Disposition: form-data; name=\""
  const FILE_NAME: string := "; filename=\""
  const FILE_TYPE: string := "Content-Type: application/octet-stream"
  const FILE_ENCODING: string := "Content-Transfer-Encoding: binary"

  // ----- The body -----

  /** What is before the payload of a part, up to the line end of its last header line. */
  function PartHead(f: Field): string {
    match f
    case TextField(name, _) => DISPOSITION + name + "\""
    case FileField(name, fileName, _) =>
      DISPOSITION + name + "\"" + FileHead(fileName)
  }

  function FileHead(fileName: string): string {
    FILE_NAME + fileName + "\"" + CRLF + FILE_TYPE + CRLF + FILE_ENCODING
  }

  function Payload(f: Field): string {
    match f
    case TextField(_, value) => value
    case FileField(_, _, data) => data
  }

  function Part(f: Field): string {
    PartHead(f) + CRLF + CRLF + Payload(f)
  }

  function Delimiter(boundary: string): string {
    CRLF + "--" + boundary
  }

  /** What follows a boundary: the next part, or the end. */
  function AfterBoundary(fs: seq<Field>, boundary: string): string {
    if fs == [] then "--"
    else CRLF + Part(fs[0]) + Delimiter(boundary) + AfterBoundary(fs[1..], boundary)
  }

  function Body(fs: seq<Field>, boundary: string): string {
    "--" + boundary + AfterBoundary(fs, boundary)
  }

  // ----- The reader -----

  /** Where a text first occurs in another. */
  function Find(s: string, pattern: string): (r: Option<nat>)
    ensures r.Some? ==> r.value + |pattern| <= |s|
    decreases |s|
  {
    if pattern <= s then Some(0)
    else if s == "" then None
    else Shift(1, Find(s[1..], pattern))
  }

  function Shift(n: nat, r: Option<nat>): Option<nat> {
    match r
    case None => None
    case Some(i) => Some(n + i)
  }

  predicate IsLineEnd(c: char) {
    c == '\r' || c == '\n'
  }

  /** A quoted parameter and what follows its closing quote, if no line ends before it. */
  function ReadQuoted(s: string): Option<(string, string)>
    decreases |s|
  {
    if s == "" || IsLineEnd(s[0]) then None
    else if s[0] == '\"' then Some(("", s[1..]))
    else if s[0] == '\\' then
      if |s| == 1 || IsLineEnd(s[1]) then None
      else (match ReadQuoted(s[2..]) case None => None case Some((t, rest)) => Some(([s[1]] + t, rest)))
    else
      (match ReadQuoted(s[1..]) case None => None case Some((t, rest)) => Some(([s[0]] + t, rest)))
  }

  /** A name that stands for itself between quotes. */
  predicate IsQuotable(t: string) {
    Lacks(t, '\"') && Lacks(t, '\\') && Lacks(t, '\r') && Lacks(t, '\n')
  }

  /** The lines of a file part after the file name. */
  function FileLines(): string {
    CRLF + FILE_TYPE + CRLF + FILE_ENCODING + CRLF + CRLF
  }

  /** What follows a prefix. */
  function After(prefix: string, s: string): (r: Option<string>)
    ensures r.Some? ==> s == prefix + r.value
  {
    if prefix <= s then Some(s[|prefix|..]) else None
  }

  function ReadPart(p: string): Option<Field> {
    match After(DISPOSITION, p)
    case None => None
    case Some(t) =>
      match ReadQuoted(t)
      case None => None
      case Some((name, rest)) =>
        match After(CRLF + CRLF, rest)
        case Some(value) => Some(TextField(name, value))
        case None => ReadFile(name, rest)
  }

  function ReadFile(name: string, rest: string): Option<Field> {
    match After(FILE_NAME, rest)
    case None => None
    case Some(t) =>
      match ReadQuoted(t)
      case None => None
      case Some((fileName, more)) =>
        match After(FileLines(), more)
        case None => None
        case Some(data) => Some(FileField(name, fileName, data))
  }

  /** Reads parts until the closing boundary, each up to the first delimiter. */
  function ReadAfterBoundary(s: string, boundary: string): Option<seq<Field>>
    decreases |s|
  {
    if "--" <= s then Some([])
    else if !(CRLF <= s) then None
    else
      match Find(s[2..], Delimiter(boundary))
      case None => None
      case Some(i) =>
        match ReadPart(s[2..][..i])
        case None => None
        case Some(f) =>
          match ReadAfterBoundary(s[2..][i + |Delimiter(boundary)|..], boundary)
          case None => None
          case Some(more) => Some([f] + more)
  }

  function ReadBody(s: string, boundary: string): Option<seq<Field>> {
    if "--" + boundary <= s then ReadAfterBoundary(s[|"--" + boundary|..], boundary) else None
  }

  // ----- Round trip -----

  /** Names can be quoted, and the delimiter occurs neither in the payload nor at its start. */
  predicate IsSafe(f: Field, boundary: string) {
    && IsQuotable(f.name)
    && (f.FileField? ==> IsQuotable(f.fileName))
    && Find(CRLF + Payload(f), Delimiter(boundary)) == None
  }

  lemma {:induction false} ReadQuotedOf(t: string, rest: string)
    requires IsQuotable(t)
    ensures ReadQuoted(t + "\"" + rest) == Some((t, rest))
    decreases |t|
  {
    var s := t + "\"" + rest;
    if t == "" {
      assert s == "\"" + rest;
    } else {
      assert s[1..] == t[1..] + "\"" + rest;
      ReadQuotedOf(t[1..], rest);
      assert [t[0]] + t[1..] == t;
    }
  }

  lemma AfterOf(prefix: string, rest: string)
    ensures After(prefix, prefix + rest) == Some(rest)
  {
  }

  lemma ReadPartOfText(name: string, value: string)
    requires IsQuotable(name)
    ensures ReadPart(Part(TextField(name, value))) == Some(TextField(name, value))
  {
    hide ReadQuoted, After, DISPOSITION;
    var rest := CRLF + CRLF + value;
    assert Part(TextField(name, value)) == DISPOSITION + (name + "\"" + rest);
    AfterOf(DISPOSITION, name + "\"" + rest);
    ReadQuotedOf(name, rest);
    AfterOf(CRLF + CRLF, value);
  }

  lemma ReadPartOfFile(name: string, fileName: string, data: string)
    requires IsQuotable(name) && IsQuotable(fileName)
    ensures ReadPart(Part(FileField(name, fileName, data))) == Some(FileField(name, fileName, data))
  {
    hide ReadQuoted, After, DISPOSITION, FILE_NAME, FILE_TYPE, FILE_ENCODING;
    var more := FileLines() + data;
    var rest := FILE_NAME + (fileName + "\"" + more);
    FilePart(name, fileName, data);
    AfterOf(DISPOSITION, name + "\"" + rest);
    ReadQuotedOf(name, rest);
    NotALineEnd(fileName + "\"" + more);
    AfterOf(FILE_NAME, fileName + "\"" + more);
    ReadQuotedOf(fileName, more);
    AfterOf(FileLines(), data);
  }

  lemma FilePart(name: string, fileName: string, data: string)
    ensures Part(FileField(name, fileName, data))
            == DISPOSITION + (name + "\"" + (FILE_NAME + (fileName + "\"" + (FileLines() + data))))
  {
    hide DISPOSITION, FileHead, FileLines, CRLF;
    var lines := FileLines() + data;
    FileHeadLines(fileName, data);
    var head, end := FileHead(fileName), CRLF + CRLF + data;
    assert Part(FileField(name, fileName, data)) == DISPOSITION + name + "\"" + head + CRLF + CRLF + data;
    assert DISPOSITION + name + "\"" + head + CRLF + CRLF + data == DISPOSITION + (name + "\"" + (head + end));
  }

  lemma FileHeadLines(fileName: string, data: string)
    ensures FileHead(fileName) + (CRLF + CRLF + data) == FILE_NAME + (fileName + "\"" + (FileLines() + data))
  {
    hide FILE_NAME, FILE_TYPE, FILE_ENCODING, CRLF;
    var lines := CRLF + FILE_TYPE + CRLF + FILE_ENCODING;
    assert FileHead(fileName) == FILE_NAME + (fileName + "\"" + lines);
    assert FileLines() + data == lines + (CRLF + CRLF + data);
  }

  lemma TextPart(name: string, data: string)
    ensures Part(TextField(name, data)) == DISPOSITION + (name + "\"" + (CRLF + CRLF + data))
  {
    hide DISPOSITION, CRLF;
  }

  /** The parts as they are sent: the fields that RFC 7578 asks for, a blank line, and the payload. */
  lemma PartLayout(name: string, fileName: string, data: string)
    ensures Part(TextField(name, data))
         == "Content-Disposition: form-data; name=\"" + (name + "\"" + ("\r\n" + "\r\n" + data))
    ensures var lines := "\r\n" + "Content-Type: application/octet-stream" + "\r\n"
                         + "Content-Transfer-Encoding: binary" + "\r\n" + "\r\n";
            Part(FileField(name, fileName, data))
            == "Content-Disposition: form-data; name=\""
               + (name + "\"" + ("; filename=\"" + (fileName + "\"" + (lines + data))))
  {
    FilePart(name, fileName, data);
    TextPart(name, data);
  }

  lemma NotALineEnd(t: string)
    ensures After(CRLF + CRLF, FILE_NAME + t) == None
  {
    assert (FILE_NAME + t)[0] == ';';
  }

  /** No line ends before `k`, and every quote before it has a backslash in front. */
  predicate IsInside(s: string, k: nat)
    requires k <= |s|
  {
    && (forall i | 0 <= i < k :: s[i] != '\r')
    && (forall i | 0 <= i < k && s[i] == '\"' :: i > 0 && s[i - 1] == '\\')
  }

  /**
    The closing quote of a parameter is at `k`; the parameter ends with the character
    before it, and is as long as its text only if it stands for itself.
  */
  predicate EndsAt(s: string, t: string, rest: string, k: int) {
    && |t| <= k < |s| && s[k] == '\"' && s[k + 1..] == rest
    && (|t| == k ==> t == s[..k] && IsQuotable(t))
    && (if t == "" then k == 0 else t[|t| - 1] == s[k - 1])
    && IsInside(s, k)
  }

  lemma StillInside(s: string, n: nat, k: nat)
    requires n + k <= |s| && IsInside(s[n..], k)
    requires n == (if s != "" && s[0] == '\\' then 2 else 1) && s[0] != '\r' && s[0] != '\"' && s[n - 1] != '\r'
    ensures IsInside(s, n + k)
  {
    forall i | 0 <= i < n + k ensures s[i] != '\r' && (s[i] == '\"' ==> i > 0 && s[i - 1] == '\\') {
      if i >= n {
        var tail, j := s[n..], i - n;
        assert s[i] == tail[j] && (j > 0 ==> s[i - 1] == tail[j - 1]);
        assert tail[j] == '\"' ==> j > 0 && tail[j - 1] == '\\';
      }
    }
  }

  /** One more character that stands for itself. */
  lemma SameQuoted(s: string, t: string, k: nat)
    requires k < |s| - 1 && !IsLineEnd(s[0]) && s[0] != '\"' && s[0] != '\\' && t == s[1..][..k] && IsQuotable(t)
    ensures [s[0]] + t == s[..k + 1] && IsQuotable([s[0]] + t)
  {
  }

  /** One more character in front, or a backslash and what it quotes. */
  lemma EndsLater(s: string, t: string, rest: string, n: nat)
    requires |s| > n && EndsAt(s[n..], t, rest, |s[n..]| - |rest| - 1)
    requires n == (if s[0] == '\\' then 2 else 1) && !IsLineEnd(s[0]) && !IsLineEnd(s[n - 1]) && s[0] != '\"'
    ensures EndsAt(s, [s[n - 1]] + t, rest, |s| - |rest| - 1)
  {
    var tail := s[n..];
    var k := |tail| - |rest| - 1;
    if n == 1 && |t| == k { SameQuoted(s, t, k); }
    StillInside(s, n, k);
    hide IsQuotable, IsInside;
    assert s[n + k] == tail[k] && (k > 0 ==> s[n + k - 1] == tail[k - 1]);
    assert tail[k + 1..] == s[n + k + 1..];
  }

  lemma {:induction false} QuotedEnd(s: string)
    requires ReadQuoted(s).Some?
    ensures var (t, rest) := ReadQuoted(s).value; EndsAt(s, t, rest, |s| - |rest| - 1)
    decreases |s|
  {
    if s[0] != '\"' {
      var n := if s[0] == '\\' then 2 else 1;
      QuotedEnd(s[n..]);
      var (t, rest) := ReadQuoted(s[n..]).value;
      hide ReadQuoted, EndsAt;
      EndsLater(s, t, rest, n);
    }
  }

  /** What may follow a name: the line end, or the file name. */
  predicate FollowsName(next: string) {
    next != "" && (next[0] == '\r' || FILE_NAME <= next)
  }

  lemma FileNameQuote()
    ensures var n := |FILE_NAME| - 1;
            FILE_NAME[n] == '\"' && FILE_NAME[n - 1] == '=' && forall i | 0 <= i < n :: FILE_NAME[i] != '\"'
  {
  }

  /** A name that is read from its own text, or a start of it, ends at its own closing quote. */
  lemma QuotedStays(name: string, next: string, s: string)
    requires FollowsName(next) && s <= name + "\"" + next
    requires ReadQuoted(s).Some? && ReadQuoted(s).value.0 == name
    ensures IsQuotable(name) && s == name + "\"" + ReadQuoted(s).value.1
  {
    QuotedEnd(s);
    hide ReadQuoted, IsQuotable;
    var rest := ReadQuoted(s).value.1;
    var k := |s| - |rest| - 1;
    var whole := name + "\"" + next;
    assert forall i | 0 <= i < |s| :: s[i] == whole[i];
    if k > |name| {
      assert s[|name|] == '\"' && name != "" && s[|name| - 1] == name[|name| - 1] == '\\';
      assert s[|name| + 1] == next[0];
      if FILE_NAME <= next {
        FileNameQuote();
        QuotedInFileName(name, next, s, k);
      }
      assert false;
    }
    assert s == s[..k] + "\"" + s[k + 1..];
  }

  lemma QuotedInFileName(name: string, next: string, s: string, k: nat)
    requires FILE_NAME <= next && s <= name + "\"" + next && |name| < k < |s| && s[k] == '\"'
    requires IsInside(s, k)
    ensures s[k - 1] == '='
  {
    FileNameQuote();
    var n, whole := |FILE_NAME| - 1, name + "\"" + next;
    forall i | |name| < i < |s| && i <= |name| + 1 + n ensures s[i] == FILE_NAME[i - |name| - 1] {
      assert s[i] == whole[i] == next[i - |name| - 1];
    }
    hide FILE_NAME;
    var quote := |name| + 1 + n;
    assert At(s, quote) == (if quote < |s| then '\"' else NUL) && At(s, quote - 1) == '=';
    if quote < k {
      assert false;
    }
  }

  /** What is read as a part from its own text, or a start of it and of what follows, is all of the part. */
  lemma ReadPartExact(f: Field, tail: string, p: string)
    requires p <= Part(f) + tail && ReadPart(p) == Some(f)
    ensures p == Part(f) && IsQuotable(f.name) && (f.FileField? ==> IsQuotable(f.fileName))
  {
    if f.TextField? {
      ReadTextExact(f, tail, p);
    } else {
      ReadFileExact(f, tail, p);
    }
  }

  lemma PrefixAfter(prefix: string, s: string, whole: string)
    requires prefix + s <= prefix + whole
    ensures s <= whole
  {
    var a, b := prefix + s, prefix + whole;
    assert a[|prefix|..] == s && b[|prefix|..] == whole;
  }

  lemma ReadTextExact(f: Field, tail: string, p: string)
    requires f.TextField? && p <= Part(f) + tail && ReadPart(p) == Some(f)
    ensures p == Part(f) && IsQuotable(f.name)
  {
    hide ReadQuoted, IsQuotable, After, DISPOSITION, FILE_NAME, ReadFile;
    var next := CRLF + CRLF + f.value + tail;
    var t := After(DISPOSITION, p).value;
    assert Part(f) + tail == DISPOSITION + (f.name + "\"" + next);
    PrefixAfter(DISPOSITION, t, f.name + "\"" + next);
    ReadsText(f, p);
    QuotedStays(f.name, next, t);
    assert p == DISPOSITION + (f.name + "\"" + (CRLF + CRLF + f.value));
  }

  /** How a part of a text was read. */
  lemma ReadsText(f: Field, p: string)
    requires f.TextField? && ReadPart(p) == Some(f)
    ensures var t := After(DISPOSITION, p);
            && t.Some? && ReadQuoted(t.value).Some? && ReadQuoted(t.value).value.0 == f.name
            && ReadQuoted(t.value).value.1 == CRLF + CRLF + f.value
  {
    hide ReadQuoted;
  }

  /** How a part of a file was read. */
  lemma ReadsFile(f: Field, p: string)
    requires f.FileField? && ReadPart(p) == Some(f)
    ensures var t := After(DISPOSITION, p);
            && t.Some? && ReadQuoted(t.value).Some? && ReadQuoted(t.value).value.0 == f.name
            && var u := After(FILE_NAME, ReadQuoted(t.value).value.1);
            && u.Some? && ReadQuoted(u.value).Some?
            && ReadQuoted(u.value).value == (f.fileName, FileLines() + f.data)
  {
    hide ReadQuoted, FileLines;
  }

  /** The same for what follows the name of a file. */
  lemma FileNameStays(f: Field, tail: string, rest: string)
    requires f.FileField? && rest <= FILE_NAME + (f.fileName + "\"" + (FileLines() + f.data + tail))
    requires var u := After(FILE_NAME, rest);
             u.Some? && ReadQuoted(u.value).Some? && ReadQuoted(u.value).value == (f.fileName, FileLines() + f.data)
    ensures rest == FILE_NAME + (f.fileName + "\"" + (FileLines() + f.data)) && IsQuotable(f.fileName)
  {
    var lines := FileLines() + f.data + tail;
    assert lines[0] == '\r';
    hide ReadQuoted, IsQuotable, FileLines, FILE_NAME;
    var u := After(FILE_NAME, rest).value;
    hide After;
    PrefixAfter(FILE_NAME, u, f.fileName + "\"" + lines);
    QuotedStays(f.fileName, lines, u);
  }

  lemma ReadFileExact(f: Field, tail: string, p: string)
    requires f.FileField? && p <= Part(f) + tail && ReadPart(p) == Some(f)
    ensures p == Part(f) && IsQuotable(f.name) && IsQuotable(f.fileName)
  {
    ReadsFile(f, p);
    hide ReadPart, ReadQuoted, IsQuotable, DISPOSITION, FILE_NAME, FileLines, Part;
    var next := FILE_NAME + (f.fileName + "\"" + (FileLines() + f.data + tail));
    var t := After(DISPOSITION, p).value;
    hide After;
    FileTail(f, tail);
    PrefixAfter(DISPOSITION, t, f.name + "\"" + next);
    QuotedStays(f.name, next, t);
    var rest := ReadQuoted(t).value.1;
    PrefixAfter(f.name + "\"", rest, next);
    FileNameStays(f, tail, rest);
    FilePart(f.name, f.fileName, f.data);
  }

  lemma FileTail(f: Field, tail: string)
    requires f.FileField?
    ensures Part(f) + tail
         == DISPOSITION + (f.name + "\"" + (FILE_NAME + (f.fileName + "\"" + (FileLines() + f.data + tail))))
  {
    hide Part, DISPOSITION, FILE_NAME, FileLines;
    FilePart(f.name, f.fileName, f.data);
    var lines := FileLines() + f.data;
    Associates(f.fileName + "\"", lines, tail);
    Associates(FILE_NAME, f.fileName + "\"" + lines, tail);
    Associates(f.name + "\"", FILE_NAME + (f.fileName + "\"" + lines), tail);
    Associates(DISPOSITION, f.name + "\"" + (FILE_NAME + (f.fileName + "\"" + lines)), tail);
  }

  // ----- Where the first delimiter is -----

  /** The delimiter starts with a CR and has no other. */
  lemma {:induction false} FindAfterPlain(a: string, rest: string, boundary: string)
    requires Lacks(a, '\r')
    ensures Find(a + rest, Delimiter(boundary)) == Shift(|a|, Find(rest, Delimiter(boundary)))
    decreases |a|
  {
    var s := a + rest;
    if a == "" {
      assert s == rest;
    } else {
      assert s[0] == a[0] && Delimiter(boundary)[0] == '\r';
      assert s[1..] == a[1..] + rest;
      FindAfterPlain(a[1..], rest, boundary);
    }
  }

  lemma ShiftShift(m: nat, n: nat, r: Option<nat>)
    ensures Shift(m, Shift(n, r)) == Shift(m + n, r)
  {
  }

  lemma FindLater(t: string, d: string)
    requires t != "" && !(d <= t)
    ensures Find(t, d) == Shift(1, Find(t[1..], d))
  {
  }

  lemma FindAfterLineEnd(rest: string, boundary: string)
    requires rest != "" && rest[0] != '-'
    ensures Find(CRLF + rest, Delimiter(boundary)) == Shift(2, Find(rest, Delimiter(boundary)))
  {
    var d, t := Delimiter(boundary), CRLF + rest;
    assert t[2] == rest[0] && d[2] == '-';
    hide Find, Delimiter;
    assert t[1..] == "\n" + rest;
    FindAfterPlain("\n", rest, boundary);
    FindLater(t, d);
    ShiftShift(1, 1, Find(rest, d));
  }

  lemma FindAfterLine(a: string, rest: string, boundary: string)
    requires Lacks(a, '\r') && rest != "" && rest[0] != '-'
    ensures Find(a + CRLF + rest, Delimiter(boundary)) == Shift(|a| + 2, Find(rest, Delimiter(boundary)))
  {
    hide Find, Delimiter, CRLF, Shift, Lacks;
    Associates(a, CRLF, rest);
    FindAfterPlain(a, CRLF + rest, boundary);
    FindAfterLineEnd(rest, boundary);
    ShiftShift(|a|, 2, Find(rest, Delimiter(boundary)));
  }

  /** A delimiter cannot straddle the end of a payload: its first CR is its only one. */
  lemma {:induction false} FindNoStraddle(q: string, more: string, boundary: string)
    requires Lacks(boundary, '\r')
    ensures var d := Delimiter(boundary);
            Find(q + d + more, d) == (if Find(q, d).Some? then Find(q, d) else Some(|q|))
    decreases |q|
  {
    var d := Delimiter(boundary);
    var s := q + d + more;
    if q == "" {
      assert s == d + more;
      assert s[..|d|] == d;
    } else {
      assert s[|q|] == d[0] == '\r';
      assert |q| < |d| ==> d[|q|] != '\r';
      assert |q| >= |d| ==> s[..|d|] == q[..|d|];
      assert s[1..] == q[1..] + d + more;
      FindNoStraddle(q[1..], more, boundary);
    }
  }

  lemma ConstantLines()
    ensures Lacks(DISPOSITION, '\r') && Lacks(FILE_NAME, '\r') && Lacks(FILE_TYPE, '\r') && Lacks(FILE_ENCODING, '\r')
    ensures FILE_TYPE != "" && FILE_TYPE[0] == 'C' && FILE_ENCODING != "" && FILE_ENCODING[0] == 'C'
  {
  }

  lemma FindAfterFileHead(name: string, fileName: string, tail: string, boundary: string)
    requires Lacks(name, '\r') && Lacks(fileName, '\r') && tail != "" && tail[0] == '\r'
    ensures var head := PartHead(FileField(name, fileName, ""));
            Find(head + CRLF + tail, Delimiter(boundary)) == Shift(|head| + 2, Find(tail, Delimiter(boundary)))
  {
    hide Find, DISPOSITION, FILE_NAME, FILE_TYPE, FILE_ENCODING;
    ConstantLines();
    var line := DISPOSITION + name + "\"" + FILE_NAME + fileName + "\"";
    var rest := FILE_ENCODING + CRLF + tail;
    assert DISPOSITION + name + "\"" + FileHead(fileName) == line + CRLF + FILE_TYPE + CRLF + FILE_ENCODING;
    assert PartHead(FileField(name, fileName, "")) + CRLF + tail == line + CRLF + (FILE_TYPE + CRLF + rest);
    assert (FILE_TYPE + CRLF + rest)[0] == 'C' && rest[0] == 'C';
    FindAfterLine(line, FILE_TYPE + CRLF + rest, boundary);
    FindAfterLine(FILE_TYPE, rest, boundary);
    FindAfterLine(FILE_ENCODING, tail, boundary);
  }

  /** The first delimiter after a part's start is the one after the part, unless the payload has one. */
  lemma FindInPart(f: Field, more: string, boundary: string)
    requires IsQuotable(f.name) && (f.FileField? ==> IsQuotable(f.fileName)) && Lacks(boundary, '\r')
    ensures var d := Delimiter(boundary);
            Find(Part(f) + d + more, d)
            == Shift(|PartHead(f)| + 2,
                     if Find(CRLF + Payload(f), d).Some? then Find(CRLF + Payload(f), d) else Some(2 + |Payload(f)|))
  {
    hide Find, DISPOSITION, FILE_NAME, FILE_TYPE, FILE_ENCODING;
    var d := Delimiter(boundary);
    var tail := CRLF + Payload(f) + d + more;
    assert Part(f) + d + more == PartHead(f) + CRLF + tail;
    FindNoStraddle(CRLF + Payload(f), more, boundary);
    ConstantLines();
    match f
    case TextField(name, _) =>
      FindAfterLine(PartHead(f), tail, boundary);
    case FileField(name, fileName, _) =>
      FindAfterFileHead(name, fileName, tail, boundary);
  }

  // ----- Splitting the body back -----

  lemma ReadPartOf(f: Field)
    requires IsQuotable(f.name) && (f.FileField? ==> IsQuotable(f.fileName))
    ensures ReadPart(Part(f)) == Some(f)
  {
    match f
    case TextField(name, value) => ReadPartOfText(name, value);
    case FileField(name, fileName, data) => ReadPartOfFile(name, fileName, data);
  }

  predicate AllSafe(fs: seq<Field>, boundary: string) {
    forall i | 0 <= i < |fs| :: IsSafe(fs[i], boundary)
  }

  lemma AfterBoundaryParts(fs: seq<Field>, boundary: string)
    requires fs != []
    ensures var s := AfterBoundary(fs, boundary);
            var rest := Part(fs[0]) + Delimiter(boundary) + AfterBoundary(fs[1..], boundary);
            && s == CRLF + rest && CRLF <= s && !("--" <= s) && s[2..] == rest
  {
    hide Part, Delimiter;
    var rest := Part(fs[0]) + Delimiter(boundary) + AfterBoundary(fs[1..], boundary);
    assert AfterBoundary(fs, boundary) == CRLF + rest;
    assert AfterBoundary(fs, boundary)[0] == '\r';
  }

  /** Reading a first part back gives that part exactly when it is safe. */
  lemma ReadFirst(f: Field, more: string, boundary: string)
    requires Lacks(boundary, '\r')
    ensures var d := Delimiter(boundary);
            var s := Part(f) + d + more;
            var i := Find(s, d);
            && (IsSafe(f, boundary) ==>
                  i == Some(|Part(f)|) && s[..i.value] == Part(f) && ReadPart(s[..i.value]) == Some(f))
            && (i.Some? && ReadPart(s[..i.value]) == Some(f) ==> i == Some(|Part(f)|) && IsSafe(f, boundary))
  {
    hide Find, ReadPart, PartHead;
    var d := Delimiter(boundary);
    var s := Part(f) + d + more;
    var i := Find(s, d);
    if IsSafe(f, boundary) {
      FindInPart(f, more, boundary);
      ReadPartOf(f);
      assert s[..|Part(f)|] == Part(f);
    }
    if i.Some? && ReadPart(s[..i.value]) == Some(f) {
      assert s == Part(f) + (d + more);
      ReadPartExact(f, d + more, s[..i.value]);
      assert |s[..i.value]| == |Part(f)|;
      FindInPart(f, more, boundary);
    }
  }

  lemma {:induction false} ReadAfterBoundaryOf(fs: seq<Field>, boundary: string)
    requires Lacks(boundary, '\r')
    ensures ReadAfterBoundary(AfterBoundary(fs, boundary), boundary) == Some(fs) <==> AllSafe(fs, boundary)
    decreases |fs|
  {
    hide Find, ReadPart, Part, Delimiter, IsSafe;
    if fs != [] {
      var d, more := Delimiter(boundary), AfterBoundary(fs[1..], boundary);
      var s := Part(fs[0]) + d + more;
      AfterBoundaryParts(fs, boundary);
      ReadFirst(fs[0], more, boundary);
      assert s[|Part(fs[0])| + |d|..] == more;
      ReadAfterBoundaryOf(fs[1..], boundary);
      SafeSplit(fs, boundary);
    }
  }

  lemma SafeSplit(fs: seq<Field>, boundary: string)
    requires fs != []
    ensures AllSafe(fs, boundary) <==> IsSafe(fs[0], boundary) && AllSafe(fs[1..], boundary)
    ensures [fs[0]] + fs[1..] == fs
  {
    hide IsSafe;
    if AllSafe(fs[1..], boundary) {
      assert forall i | 1 <= i < |fs| :: fs[i] == fs[1..][i - 1];
    }
  }

  /** Splitting the body recovers every part in order exactly when every part is safe. */
  lemma MultipartRoundTrip(fs: seq<Field>, boundary: string)
    requires fs != [] && Lacks(boundary, '\r')
    ensures ReadBody(Body(fs, boundary), boundary) == Some(fs) <==> AllSafe(fs, boundary)
  {
    hide ReadAfterBoundary, AfterBoundary, AllSafe;
    var start, after := "--" + boundary, AfterBoundary(fs, boundary);
    assert Body(fs, boundary) == start + after;
    assert (start + after)[|start|..] == after && start <= start + after;
    ReadAfterBoundaryOf(fs, boundary);
  }

  // ----- The size loop and the writing loop -----

  /** What the size loop counts for one parameter. */
  function FieldSize(f: Field): nat {
    |f.name| + |Payload(f)| + (if f.FileField? then |f.fileName| else 0)
    + BOUNDARY_LENGTH + 2 + 4
    + (if f.FileField? then 124 + 4 * 2 else 40 + 4)
  }

  function FieldsSize(fs: seq<Field>): nat {
    if fs == [] then 0 else FieldSize(fs[0]) + FieldsSize(fs[1..])
  }

  lemma PartSize(f: Field)
    ensures |Part(f)| + BOUNDARY_LENGTH + 6 + 1 == FieldSize(f)
  {
    assert |DISPOSITION| == 38 && |FILE_NAME| == 12 && |FILE_TYPE| == 38 && |FILE_ENCODING| == 33;
  }

  lemma {:induction false} AfterBoundarySize(fs: seq<Field>, boundary: string)
    requires |boundary| == BOUNDARY_LENGTH
    ensures |AfterBoundary(fs, boundary)| + |fs| == FieldsSize(fs) + 2
  {
    if fs != [] {
      hide Part;
      PartSize(fs[0]);
      AfterBoundarySize(fs[1..], boundary);
    }
  }

  /** The body is shorter than the size counted by exactly one byte a parameter. */
  lemma SizeArithmetic(fs: seq<Field>, boundary: string)
    requires |boundary| == BOUNDARY_LENGTH && fs != []
    ensures |Body(fs, boundary)| == FieldsSize(fs) + BOUNDARY_LENGTH + 4 - |fs|
  {
    AfterBoundarySize(fs, boundary);
  }

  lemma FieldsSizeStep(fs: seq<Field>, i: nat)
    requires i < |fs|
    ensures FieldsSize(fs[i..]) == FieldSize(fs[i]) + FieldsSize(fs[i + 1..])
  {
    assert fs[i..][0] == fs[i] && fs[i..][1..] == fs[i + 1..];
  }

  /** What one turn of the size loop adds. */
  method MeasurePart(cur: Node) returns (size: nat)
    ensures size == FieldSize(cur.Field())
  {
    size := |cur.key| + |cur.value| + (if cur.valueType == VALUE_DATA then |cur.reserved| else 0);
    size := size + BOUNDARY_LENGTH + 2;
    size := size + 4;
    if cur.valueType == VALUE_DATA {
      size := size + 124 + 4 * 2;
    } else {
      size := size + 40 + 4;
    }
  }

  method MeasureParameters(list: FieldList) returns (size: nat)
    requires list.Valid()
    ensures size == FieldsSize(list.Fields())
  {
    size := 0;
    var cur := list.head;
    ghost var i, fs := 0, list.Fields();
    while cur != null
      invariant i <= |fs| && cur == if i < |fs| then list.nodes[i] else null
      invariant size + FieldsSize(fs[i..]) == FieldsSize(fs)
      decreases |fs| - i
    {
      hide FieldsSize, FieldSize;
      assert fs[i] == cur.Field();
      FieldsSizeStep(fs, i);
      var part := MeasurePart(cur);
      size := size + part;
      cur, i := cur.next, i + 1;
    }
  }

  /** What is left to write before parameter `i`. */
  function Remaining(fs: seq<Field>, i: nat, boundary: string): string
    requires i <= |fs|
  {
    (if i > 0 then CRLF else "") + "--" + boundary + AfterBoundary(fs[i..], boundary)
  }

  /** The boundary line before a part. */
  function Lead(isFirst: bool, boundary: string): string {
    (if isFirst then "" else CRLF) + "--" + boundary + CRLF
  }

  lemma RemainingIs(fs: seq<Field>, i: nat, boundary: string)
    requires i < |fs|
    ensures Remaining(fs, i, boundary) == Lead(i == 0, boundary) + Part(fs[i]) + Remaining(fs, i + 1, boundary)
  {
    hide Part;
    assert fs[i..][0] == fs[i] && fs[i..][1..] == fs[i + 1..];
    var lead, more := Lead(i == 0, boundary), AfterBoundary(fs[i + 1..], boundary);
    assert Remaining(fs, i + 1, boundary) == Delimiter(boundary) + more;
    assert Remaining(fs, i, boundary) == lead + Part(fs[i]) + (Delimiter(boundary) + more);
  }

  lemma RemainingStep(fs: seq<Field>, i: nat, boundary: string, done: string)
    requires i < |fs|
    ensures var lead := Lead(i == 0, boundary);
            && done + Remaining(fs, i, boundary) == (done + lead + Part(fs[i])) + Remaining(fs, i + 1, boundary)
            && |done| + |lead| + |Part(fs[i])| <= |done + Remaining(fs, i, boundary)|
  {
    RemainingIs(fs, i, boundary);
    hide Part, Remaining, Lead;
    var lead, part, rest := Lead(i == 0, boundary), Part(fs[i]), Remaining(fs, i + 1, boundary);
    Associates(done, lead, part);
    Associates(done, lead + part, rest);
  }

  lemma PartPieces(name: string, fileName: string, data: string)
    ensures Part(FileField(name, fileName, data))
            == (DISPOSITION + name + "\"" + FILE_NAME + fileName + "\"" + CRLF)
               + (FILE_TYPE + CRLF) + (FILE_ENCODING + CRLF + CRLF) + data
  {
    hide DISPOSITION, FILE_NAME, FILE_TYPE, FILE_ENCODING, CRLF;
    var line := DISPOSITION + name + "\"" + FILE_NAME + fileName + "\"" + CRLF;
    assert PartHead(FileField(name, fileName, data)) == line + (FILE_TYPE + CRLF) + FILE_ENCODING;
    assert Part(FileField(name, fileName, data)) == line + (FILE_TYPE + CRLF) + FILE_ENCODING + CRLF + CRLF + data;
  }

  /** Writes one parameter behind its boundary line. */
  method WritePart(out: array<char>, at: nat, cur: Node) returns (end: nat)
    requires at + |Part(cur.Field())| <= out.Length
    modifies out
    ensures end == at + |Part(cur.Field())| && out[..end] == old(out[..at]) + Part(cur.Field())
  {
    hide DISPOSITION, FILE_NAME, FILE_TYPE, FILE_ENCODING, CRLF;
    ghost var before := out[..at];
    assert before == before + "";
    if cur.valueType == VALUE_DATA {
      var head := DISPOSITION + cur.key + "\"" + FILE_NAME + cur.reserved + "\"" + CRLF;
      PartPieces(cur.key, cur.reserved, cur.value);
      assert "" + head == head;
      end := Append(out, at, head, before, "");
      end := Append(out, end, FILE_TYPE + CRLF, before, head);
      end := Append(out, end, FILE_ENCODING + CRLF + CRLF, before, head + (FILE_TYPE + CRLF));
      end := Append(out, end, cur.value, before, head + (FILE_TYPE + CRLF) + (FILE_ENCODING + CRLF + CRLF));
    } else {
      var head := DISPOSITION + cur.key + "\"" + CRLF + CRLF;
      assert "" + head == head;
      end := Append(out, at, head, before, "");
      end := Append(out, end, cur.value, before, head);
    }
  }

  lemma AfterNothing(boundary: string)
    ensures AfterBoundary([], boundary) == "--"
  {
  }

  lemma RemainingEnds(fs: seq<Field>, boundary: string)
    requires fs != []
    ensures "" + Remaining(fs, 0, boundary) == Body(fs, boundary)
    ensures Remaining(fs, |fs|, boundary) == CRLF + "--" + boundary + "--"
  {
    hide Part, AfterBoundary;
    AfterNothing(boundary);
    assert fs[0..] == fs && fs[|fs|..] == [];
  }

  /** The memory up to `at` and what is still to be written make up the body. */
  ghost predicate IsDone(out: array<char>, at: nat, fs: seq<Field>, i: nat, boundary: string)
    requires i <= |fs|
    reads out
  {
    at <= out.Length && out[..at] + Remaining(fs, i, boundary) == Body(fs, boundary)
  }

  /** The boundary line and the part, behind the text `done`. */
  method WriteTurn(out: array<char>, at: nat, isFirst: bool, boundary: string, cur: Node, ghost done: string)
    returns (end: nat)
    requires at <= out.Length && out[..at] == done
    requires |done| + |Lead(isFirst, boundary)| + |Part(cur.Field())| <= out.Length
    modifies out
    ensures end <= out.Length && out[..end] == done + Lead(isFirst, boundary) + Part(cur.Field())
  {
    hide Part, Lead;
    var lead := Lead(isFirst, boundary);
    CopyText(out, at, lead);
    end := WritePart(out, at + |lead|, cur);
  }

  /** One turn of the writing loop. */
  method WriteNext(out: array<char>, at: nat, isFirst: bool, boundary: string, cur: Node,
      ghost fs: seq<Field>, ghost i: nat)
    returns (end: nat)
    requires i < |fs| && cur.Field() == fs[i] && (isFirst <==> i == 0)
    requires |Body(fs, boundary)| <= out.Length && IsDone(out, at, fs, i, boundary)
    modifies out
    ensures IsDone(out, end, fs, i + 1, boundary)
  {
    ghost var done := out[..at];
    RemainingStep(fs, i, boundary, done);
    hide Part, Lead, Remaining, Body;
    end := WriteTurn(out, at, isFirst, boundary, cur, done);
  }

  lemma NothingDone(out: array<char>, fs: seq<Field>, boundary: string)
    requires fs != []
    ensures IsDone(out, 0, fs, 0, boundary)
  {
    RemainingEnds(fs, boundary);
    hide Remaining, Body;
    assert out[..0] == "";
  }

  /** The writing loop: everything but the closing delimiter. */
  method WriteParameters(buff: array<char>, list: FieldList, boundary: string, ghost fs: seq<Field>)
    returns (written: nat)
    requires list.Valid() && list.Fields() == fs && fs != [] && |boundary| == BOUNDARY_LENGTH
    requires buff.Length == FieldsSize(fs) + BOUNDARY_LENGTH + 8
    modifies buff
    ensures IsDone(buff, written, fs, |fs|, boundary)
  {
    SizeArithmetic(fs, boundary);
    NothingDone(buff, fs, boundary);
    hide IsDone, Body, FieldsSize;
    written := 0;
    var isFirst := true;
    var cur := list.head;
    ghost var i := 0;
    while cur != null
      invariant i <= |fs| && cur == if i < |fs| then list.nodes[i] else null
      invariant (isFirst <==> i == 0) && IsDone(buff, written, fs, i, boundary)
      decreases |fs| - i
    {
      assert fs[i] == cur.Field();
      written := WriteNext(buff, written, isFirst, boundary, cur, fs, i);
      isFirst := false;
      cur, i := cur.next, i + 1;
    }
  }

  /** The body of a request with data parameters, in memory sized beforehand. */
  method CreateDataParameters(list: FieldList, boundary: string) returns (buff: array<char>, length: nat)
    requires list.Valid() && list.Fields() != [] && |boundary| == BOUNDARY_LENGTH
    ensures fresh(buff) && buff.Length == FieldsSize(list.Fields()) + BOUNDARY_LENGTH + 8
    ensures length == |Body(list.Fields(), boundary)| && Holds(buff, 0, Body(list.Fields(), boundary))
  {
    hide FieldsSize, AfterBoundary, Part, Remaining, Body, FieldList.Fields;
    var size := MeasureParameters(list);
    size := size + BOUNDARY_LENGTH + 4;
    buff := new char[size + 4];
    ghost var fs := list.Fields();
    SizeArithmetic(fs, boundary);
    RemainingEnds(fs, boundary);
    var written := WriteParameters(buff, list, boundary, fs);
    var last := CRLF + "--" + boundary + "--";
    CopyText(buff, written, last);
    length := written + |last|;
    buff[length] := NUL;
    assert buff[0..length] == buff[..length];
  }
}
