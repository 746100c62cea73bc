/**
  The in-place minifier, and its meaning on printed text: it turns the formatted
  text of a tree into the unformatted one.
*/
module JsonMinify {
  import opened CText
  import opened Decimal
  import opened JsonString
  import opened JsonText
  import opened Wrappers

  predicate IsSpace(c: char) {
    c == ' ' || c == '\t' || c == '\r' || c == '\n'
  }

  /** Length of a // comment, up to its line end. */
  function LineLength(s: string): (n: nat)
    ensures n <= |s|
    decreases |s|
  {
    if s == "" || s[0] == '\n' then 0 else 1 + LineLength(s[1..])
  }

  /** Where the closing star and slash of a comment are, if anywhere. */
  function CommentLength(s: string): (n: Option<nat>)
    ensures n.Some? ==> n.value + 2 <= |s|
    decreases |s|
  {
    if s == "" then None
    else if s[0] == '*' && At(s, 1) == '/' then Some(0)
    else match CommentLength(s[1..]) case None => None case Some(n) => Some(n + 1)
  }

  /**
    The text without spaces and comments outside of literals.  None when a literal or
    a comment is not closed: there the source reads on past the end of the text.
  */
  function Minified(s: string): Option<string>
    decreases |s|
  {
    if s == "" then Some("")
    else if IsSpace(s[0]) then Minified(s[1..])
    else if s[0] == '/' && At(s, 1) == '/' then
      assert LineLength(s) >= 1;
      Minified(s[LineLength(s)..])
    else if s[0] == '/' && At(s, 1) == '*' then
      match CommentLength(s)
      case None => None
      case Some(n) => Minified(s[n + 2..])
    else if s[0] == '\"' then
      var n := BodyLength(s[1..]) + 2;
      if n > |s| then None else Prepend(s[..n], Minified(s[n..]))
    else Prepend([s[0]], Minified(s[1..]))
  }

  // ----- Minifying printed text -----

  lemma {:induction false} MinifySpaces(t: string, rest: string)
    requires forall i | 0 <= i < |t| :: IsSpace(t[i])
    ensures Minified(t + rest) == Minified(rest)
  {
    if t == "" {
      assert t + rest == rest;
    } else {
      assert (t + rest)[1..] == t[1..] + rest;
      MinifySpaces(t[1..], rest);
    }
  }

  predicate IsPlain(c: char) {
    !IsSpace(c) && c != '/' && c != '\"'
  }

  lemma {:induction false} MinifyPlain(t: string, rest: string)
    requires forall i | 0 <= i < |t| :: IsPlain(t[i])
    ensures Minified(t + rest) == Prepend(t, Minified(rest))
  {
    if t == "" {
      assert t + rest == rest;
      PrependPrepend("", "", Minified(rest));
    } else {
      assert (t + rest)[1..] == t[1..] + rest;
      MinifyPlain(t[1..], rest);
      PrependPrepend([t[0]], t[1..], Minified(rest));
      assert [t[0]] + t[1..] == t;
    }
  }

  /** A printed literal is kept byte for byte, whatever it contains. */
  lemma MinifyQuoted(s: string, rest: string)
    requires IsCString(s)
    ensures Minified(Quoted(s) + rest) == Prepend(Quoted(s), Minified(rest))
  {
    hide Escaped, BodyLength;
    var text := Quoted(s) + rest;
    assert text[0] == '\"' && text[1..] == Escaped(s) + "\"" + rest;
    BodyLengthOfEscaped(s, rest);
    assert text[..|Quoted(s)|] == Quoted(s) && text[|Quoted(s)|..] == rest;
  }

  lemma MinifyDigits(n: int, rest: string)
    ensures Minified(IntText(n) + rest) == Prepend(IntText(n), Minified(rest))
  {
    assert forall i | 0 <= i < |IntText(n)| :: IntText(n)[i] == '-' || IsDigit(IntText(n)[i]);
    MinifyPlain(IntText(n), rest);
  }

  /** Minifying a printed tree, formatted or not, gives its unformatted text and goes on with what follows. */
  lemma {:induction false} MinifyText(v: Json, depth: nat, fmt: bool, rest: string)
    requires Printable(v)
    ensures Minified(Text(v, depth, fmt) + rest) == Prepend(Text(v, depth, false), Minified(rest))
    decreases v
  {
    match v
    case Null => MinifyPlain("null", rest);
    case False => MinifyPlain("false", rest);
    case True => MinifyPlain("true", rest);
    case Number(n, _) => MinifyDigits(n, rest);
    case String(s) => MinifyQuoted(s, rest);
    case Array(items) => MinifyArray(items, depth, fmt, rest);
    case Object(members) => MinifyObject(members, depth, fmt, rest);
  }

  lemma {:induction false} MinifyArray(items: Items, depth: nat, fmt: bool, rest: string)
    requires PrintableItems(items)
    ensures Minified(Text(Array(items), depth, fmt) + rest) == Prepend(Text(Array(items), depth, false), Minified(rest))
    decreases items, 1
  {
    hide Minified;
    var inside := ItemsText(items, depth + 1, fmt);
    assert Text(Array(items), depth, fmt) + rest == "[" + (inside + ("]" + rest));
    MinifyPlain("[", inside + ("]" + rest));
    MinifyItems(items, depth + 1, fmt, "]" + rest);
    MinifyPlain("]", rest);
    var short := ItemsText(items, depth + 1, false);
    PrependPrepend(short, "]", Minified(rest));
    PrependPrepend("[", short + "]", Minified(rest));
    assert Text(Array(items), depth, false) == "[" + (short + "]");
  }

  lemma {:induction false} MinifyItems(items: Items, depth: nat, fmt: bool, rest: string)
    requires PrintableItems(items)
    ensures Minified(ItemsText(items, depth, fmt) + rest) == Prepend(ItemsText(items, depth, false), Minified(rest))
    decreases items, 0
  {
    hide Minified, Text;
    match items
    case NoItems => assert "" + rest == rest; PrependPrepend("", "", Minified(rest));
    case Item(v, next) =>
      var comma, space := When(next.Item?, ","), When(next.Item? && fmt, " ");
      var more := ItemsText(next, depth, fmt) + rest;
      assert ItemsText(items, depth, fmt) + rest == Text(v, depth, fmt) + (comma + (space + more));
      MinifyText(v, depth, fmt, comma + (space + more));
      MinifyPlain(comma, space + more);
      MinifySpaces(space, more);
      MinifyItems(next, depth, fmt, rest);
      var short := ItemsText(next, depth, false);
      PrependPrepend(comma, short, Minified(rest));
      PrependPrepend(Text(v, depth, false), comma + short, Minified(rest));
      assert ItemsText(items, depth, false) == Text(v, depth, false) + (comma + short);
  }

  lemma {:induction false} MinifyObject(members: Members, depth: nat, fmt: bool, rest: string)
    requires PrintableMembers(members)
    ensures Minified(Text(Object(members), depth, fmt) + rest)
         == Prepend(Text(Object(members), depth, false), Minified(rest))
    decreases members, 1
  {
    hide Minified, Text, MembersText;
    var inside, short := MembersText(members, depth + 1, fmt), MembersText(members, depth + 1, false);
    ObjectTextBefore(members, depth, fmt, rest);
    MinifyMembers(members, depth + 1, fmt, When(fmt, Tabs(depth)) + ("}" + rest));
    MinifyBraces(inside, short, depth, fmt, rest);
    ObjectText(members, depth, false);
    assert Text(Object(members), depth, false) == "{" + (short + "}");
  }

  /** The braces of an object, with the line ends and tabs of formatted text. */
  lemma MinifyBraces(inside: string, short: string, depth: nat, fmt: bool, rest: string)
    requires var indented := When(fmt, Tabs(depth)) + ("}" + rest);
             Minified(inside + indented) == Prepend(short, Minified(indented))
    ensures Minified("{" + (When(fmt, "\n") + (inside + (When(fmt, Tabs(depth)) + ("}" + rest)))))
         == Prepend("{" + (short + "}"), Minified(rest))
  {
    hide Minified;
    var close := "}" + rest;
    var indented := When(fmt, Tabs(depth)) + close;
    MinifyPlain("{", When(fmt, "\n") + (inside + indented));
    MinifySpaces(When(fmt, "\n"), inside + indented);
    MinifySpaces(When(fmt, Tabs(depth)), close);
    MinifyPlain("}", rest);
    PrependPrepend(short, "}", Minified(rest));
    PrependPrepend("{", short + "}", Minified(rest));
  }

  lemma {:induction false} MinifyMembers(members: Members, depth: nat, fmt: bool, rest: string)
    requires PrintableMembers(members)
    ensures Minified(MembersText(members, depth, fmt) + rest)
         == Prepend(MembersText(members, depth, false), Minified(rest))
    decreases members, 0
  {
    hide Minified, Text, Quoted, MemberLine;
    match members
    case NoMembers => assert "" + rest == rest; PrependPrepend("", "", Minified(rest));
    case Member(name, v, next) =>
      var last, t, short := next.NoMembers?, Text(v, depth, fmt), Text(v, depth, false);
      var more := MembersText(next, depth, fmt) + rest;
      var tail := When(!last, ",") + (When(fmt, "\n") + more);
      MinifyText(v, depth, fmt, tail);
      MinifyLine(name, t, short, last, depth, fmt, more);
      MinifyMembers(next, depth, fmt, rest);
      var line := MemberLine(Quoted(name), short, last, depth, false);
      PrependPrepend(line, MembersText(next, depth, false), Minified(rest));
      assert MembersText(members, depth, fmt) + rest == MemberLine(Quoted(name), t, last, depth, fmt) + more;
  }

  lemma MinifyLine(name: string, t: string, short: string, last: bool, depth: nat, fmt: bool, more: string)
    requires IsCString(name)
    requires var tail := When(!last, ",") + (When(fmt, "\n") + more);
             Minified(t + tail) == Prepend(short, Minified(tail))
    ensures Minified(MemberLine(Quoted(name), t, last, depth, fmt) + more)
         == Prepend(MemberLine(Quoted(name), short, last, depth, false), Minified(more))
  {
    hide Minified, Quoted;
    var comma := When(!last, ",");
    var tail := comma + (When(fmt, "\n") + more);
    var value := t + tail;
    var colon := ":" + (When(fmt, "\t") + value);
    assert MemberLine(Quoted(name), t, last, depth, fmt) + more == When(fmt, Tabs(depth)) + (Quoted(name) + colon);
    MinifySpaces(When(fmt, Tabs(depth)), Quoted(name) + colon);
    MinifyQuoted(name, colon);
    MinifyPlain(":", When(fmt, "\t") + value);
    MinifySpaces(When(fmt, "\t"), value);
    MinifyPlain(comma, When(fmt, "\n") + more);
    MinifySpaces(When(fmt, "\n"), more);
    PrependPrepend(short, comma, Minified(more));
    PrependPrepend(":", short + comma, Minified(more));
    PrependPrepend(Quoted(name), ":" + (short + comma), Minified(more));
    assert MemberLine(Quoted(name), short, last, depth, false) == Quoted(name) + (":" + (short + comma));
  }

  /** In particular, minifying the whole formatted text gives the unformatted text, which minifying leaves alone. */
  lemma MinifyUndoesFormatting(v: Json)
    requires Printable(v)
    ensures Minified(Text(v, 0, true)) == Some(Text(v, 0, false))
    ensures Minified(Text(v, 0, false)) == Some(Text(v, 0, false))
  {
    hide Text;
    MinifyText(v, 0, true, "");
    MinifyText(v, 0, false, "");
    assert Text(v, 0, true) + "" == Text(v, 0, true) && Text(v, 0, false) + "" == Text(v, 0, false);
  }

  // ----- The minifier in place -----

  /** From `json` on the memory still holds what is left of the text. */
  ghost predicate Unread(a: array<char>, json: nat, s: string)
    reads a
  {
    json <= |s| < a.Length && a[json..|s|] == s[json..] && a[|s|] == NUL
  }

  lemma ReadByte(a: array<char>, json: nat, s: string)
    requires Unread(a, json, s) && IsCString(s)
    ensures a[json] == At(s[json..], 0)
    ensures json < |s| ==> a[json] == s[json] != NUL && a[json + 1] == At(s[json..], 1) && Unread(a, json + 1, s)
  {
    if json < |s| {
      assert a[json] == a[json..|s|][0];
      assert a[json + 1..|s|] == a[json..|s|][1..];
      assert json + 1 < |s| ==> a[json + 1] == a[json..|s|][1];
    }
  }

  method SkipLine(a: array<char>, json0: nat, ghost s: string) returns (json: nat)
    requires Unread(a, json0, s) && IsCString(s)
    ensures json == json0 + LineLength(s[json0..]) && Unread(a, json, s)
  {
    json := json0;
    ReadByte(a, json, s);
    while a[json] != NUL && a[json] != '\n'
      invariant Unread(a, json, s) && a[json] == At(s[json..], 0)
      invariant json + LineLength(s[json..]) == json0 + LineLength(s[json0..])
      decreases |s| - json
    {
      ReadByte(a, json, s);
      assert s[json..][1..] == s[json + 1..];
      json := json + 1;
      ReadByte(a, json, s);
    }
  }

  method SkipComment(a: array<char>, json0: nat, ghost s: string) returns (json: nat)
    requires Unread(a, json0, s) && IsCString(s) && CommentLength(s[json0..]).Some?
    ensures json == json0 + CommentLength(s[json0..]).value + 2 && Unread(a, json, s)
  {
    json := json0;
    ReadByte(a, json, s);
    while a[json] != NUL && !(a[json] == '*' && a[json + 1] == '/')
      invariant Unread(a, json, s) && json < |s| && a[json] == At(s[json..], 0) && a[json + 1] == At(s[json..], 1)
      invariant CommentLength(s[json..]).Some?
      invariant json + CommentLength(s[json..]).value == json0 + CommentLength(s[json0..]).value
      decreases |s| - json
    {
      ReadByte(a, json, s);
      assert s[json..][1..] == s[json + 1..];
      json := json + 1;
      ReadByte(a, json, s);
    }
    ReadByte(a, json, s);
    ReadByte(a, json + 1, s);
    json := json + 2;
  }

  /** Copies one byte down; the write position is not past the read position. */
  method CopyDown(a: array<char>, json: nat, into: nat, ghost s: string)
    requires into <= json < |s| && Unread(a, json, s) && IsCString(s)
    modifies a
    ensures Unread(a, json + 1, s) && a[..into + 1] == old(a[..into]) + [s[json]]
  {
    ReadByte(a, json, s);
    ghost var rest := a[json + 1..|s|];
    a[into] := a[json];
    assert a[json + 1..|s|] == rest;
  }

  /** Copies one character of a literal's body down, or an escaped pair. */
  method CopyUnit(a: array<char>, json0: nat, into0: nat, ghost s: string) returns (json: nat, into: nat)
    requires into0 <= json0 < |s| && Unread(a, json0, s) && IsCString(s)
    requires s[json0] != '\"' && json0 + BodyLength(s[json0..]) < |s|
    modifies a
    ensures json0 < json && into == into0 + (json - json0)
    ensures Unread(a, json, s) && a[..into] == old(a[..into0]) + s[json0..json]
    ensures json + BodyLength(s[json..]) == json0 + BodyLength(s[json0..])
  {
    json, into := json0, into0;
    ReadByte(a, json, s);
    BodyStep(s, json);
    if a[json] == '\\' {
      CopyDown(a, json, into, s);
      json, into := json + 1, into + 1;
    }
    CopyDown(a, json, into, s);
    json, into := json + 1, into + 1;
  }

  lemma BodyStep(s: string, i: nat)
    requires IsCString(s) && i < |s| && s[i] != '\"' && i + BodyLength(s[i..]) < |s|
    ensures var n := if s[i] == '\\' then 2 else 1;
            i + n <= |s| && BodyLength(s[i..]) == n + BodyLength(s[i + n..])
  {
    var t := s[i..];
    assert t[1..] == s[i + 1..];
    assert |t| >= 2 ==> Drop(t, 2) == s[i + 2..];
  }

  lemma SliceJoin(before: string, s: string, i: nat, j: nat, k: nat)
    requires i <= j <= k <= |s|
    ensures before + s[i..j] + s[j..k] == before + s[i..k]
    ensures before + s[i..i] == before
  {
  }

  /** Copies the body of a literal down. */
  method CopyBody(a: array<char>, json0: nat, into0: nat, ghost s: string) returns (json: nat, into: nat)
    requires into0 <= json0 <= |s| && Unread(a, json0, s) && IsCString(s)
    requires json0 + BodyLength(s[json0..]) < |s|
    modifies a
    ensures json == json0 + BodyLength(s[json0..]) && into == into0 + (json - json0)
    ensures Unread(a, json, s) && a[..into] == old(a[..into0]) + s[json0..json]
  {
    json, into := json0, into0;
    ghost var before := a[..into0];
    SliceJoin(before, s, json, json, json);
    ReadByte(a, json, s);
    while a[json] != NUL && a[json] != '\"'
      invariant json0 <= json <= |s| && into == into0 + (json - json0) && Unread(a, json, s)
      invariant a[json] == At(s[json..], 0)
      invariant json + BodyLength(s[json..]) == json0 + BodyLength(s[json0..])
      invariant a[..into] == before + s[json0..json]
      decreases |s| - json
    {
      hide BodyLength;
      ghost var from := json;
      json, into := CopyUnit(a, json, into, s);
      SliceJoin(before, s, json0, from, json);
      ReadByte(a, json, s);
    }
  }

  /** Copies a literal down, byte for byte. */
  method CopyLiteral(a: array<char>, json0: nat, into0: nat, ghost s: string) returns (json: nat, into: nat)
    requires into0 <= json0 < |s| && s[json0] == '\"' && Unread(a, json0, s) && IsCString(s)
    requires json0 + BodyLength(s[json0 + 1..]) + 2 <= |s|
    modifies a
    ensures json == json0 + BodyLength(s[json0 + 1..]) + 2 && into == into0 + (json - json0)
    ensures Unread(a, json, s) && a[..into] == old(a[..into0]) + s[json0..json]
  {
    hide BodyLength;
    ghost var before := a[..into0];
    CopyDown(a, json0, into0, s);
    assert [s[json0]] == s[json0..json0 + 1];
    json, into := CopyBody(a, json0 + 1, into0 + 1, s);
    SliceJoin(before, s, json0, json0 + 1, json);
    assert a[..into] == before + s[json0..json];
    CopyDown(a, json, into, s);
    assert [s[json]] == s[json..json + 1];
    SliceJoin(before, s, json0, json, json + 1);
    json, into := json + 1, into + 1;
  }

  predicate StartsLine(t: string) {
    At(t, 0) == '/' && At(t, 1) == '/'
  }

  predicate StartsComment(t: string) {
    At(t, 0) == '/' && At(t, 1) == '*'
  }

  lemma MinifiedSpace(t: string)
    requires t != "" && IsSpace(t[0])
    ensures Minified(t) == Minified(t[1..])
  {
  }

  lemma MinifiedLine(t: string)
    requires t != "" && StartsLine(t)
    ensures LineLength(t) >= 1 && Minified(t) == Minified(t[LineLength(t)..])
  {
    assert LineLength(t) >= 1;
    hide LineLength;
  }

  lemma MinifiedComment(t: string)
    requires t != "" && StartsComment(t) && Minified(t).Some?
    ensures CommentLength(t).Some? && Minified(t) == Minified(t[CommentLength(t).value + 2..])
  {
    hide CommentLength;
  }

  lemma MinifiedLiteral(t: string)
    requires t != "" && t[0] == '\"' && Minified(t).Some?
    ensures var n := BodyLength(t[1..]) + 2; n <= |t| && Minified(t) == Prepend(t[..n], Minified(t[n..]))
  {
    hide BodyLength;
  }

  lemma MinifiedOther(t: string)
    requires t != "" && !IsSpace(t[0]) && t[0] != '\"' && !StartsLine(t) && !StartsComment(t)
    ensures Minified(t) == Prepend([t[0]], Minified(t[1..]))
  {
  }

  /** One turn of the minifier's loop. */
  method MinifyStep(a: array<char>, json0: nat, into0: nat, ghost s: string) returns (json: nat, into: nat)
    requires into0 <= json0 < |s| && Unread(a, json0, s) && IsCString(s) && Minified(s[json0..]).Some?
    modifies a
    ensures json0 < json && into <= json && Unread(a, json, s)
    ensures Prepend(a[..into], Minified(s[json..])) == Prepend(old(a[..into0]), Minified(s[json0..]))
  {
    hide Minified, BodyLength, LineLength, CommentLength;
    json, into := json0, into0;
    ReadByte(a, json, s);
    ghost var t := s[json..];
    assert t[1..] == s[json + 1..];
    if a[json] == ' ' || a[json] == '\t' || a[json] == '\r' || a[json] == '\n' {
      MinifiedSpace(t);
      json := json + 1;
    } else if a[json] == '/' && a[json + 1] == '/' {
      MinifiedLine(t);
      json := SkipLine(a, json, s);
      assert t[LineLength(t)..] == s[json..];
    } else if a[json] == '/' && a[json + 1] == '*' {
      MinifiedComment(t);
      json := SkipComment(a, json, s);
      assert t[json - json0..] == s[json..];
    } else if a[json] == '\"' {
      MinifiedLiteral(t);
      json, into := CopyLiteral(a, json, into, s);
      assert t[..json - json0] == s[json0..json] && t[json - json0..] == s[json..];
      PrependPrepend(old(a[..into0]), s[json0..json], Minified(s[json..]));
    } else {
      MinifiedOther(t);
      CopyDown(a, json, into, s);
      PrependPrepend(old(a[..into0]), [s[json]], Minified(s[json + 1..]));
      json, into := json + 1, into + 1;
    }
  }

  /** Minifies the C string in `a` in place. */
  method Minify(a: array<char>, ghost s: string)
    requires Holds(a, 0, s) && IsCString(s) && Minified(s).Some?
    modifies a
    ensures Holds(a, 0, Minified(s).value)
  {
    var json: nat, into: nat := 0, 0;
    assert s[0..] == s && a[..0] == "";
    PrependPrepend("", "", Minified(s));
    ReadByte(a, json, s);
    while a[json] != NUL
      invariant into <= json && Unread(a, json, s) && a[json] == At(s[json..], 0)
      invariant Prepend(a[..into], Minified(s[json..])) == Minified(s)
      decreases |s| - json
    {
      json, into := MinifyStep(a, json, into, s);
      ReadByte(a, json, s);
    }
    assert a[..into] + "" == a[..into];
    a[into] := NUL;
  }
}
