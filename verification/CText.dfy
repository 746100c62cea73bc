/**
  C strings.  A `char` stands for one byte and a `string` for the text that a
  `const char *` points at, up to but not including its terminator.  Advancing a
  pointer is dropping a prefix, and a read at or past the end yields NUL.
*/
module CText {

  const NUL: char := '\0'
  const BACKSPACE: char := '\U{8}'
  const FORM_FEED: char := '\U{C}'
  const CRLF: string := "\r\n"

  /** A text that a C string can hold: the terminator does not occur in it. */
  predicate IsCString(s: string) {
    NUL !in s
  }

  function At(s: string, i: nat): char {
    if i < |s| then s[i] else NUL
  }

  function Take(s: string, n: nat): string {
    if n <= |s| then s[..n] else s
  }

  function Drop(s: string, n: nat): string {
    if n <= |s| then s[n..] else ""
  }

  /** The character does not occur in the text. */
  predicate Lacks(t: string, c: char) {
    forall i | 0 <= i < |t| :: t[i] != c
  }

  lemma Associates(a: string, b: string, c: string)
    ensures a + b + c == a + (b + c)
  {
  }

  predicate IsDigit(c: char) {
    '0' <= c <= '9'
  }

  function DigitValue(c: char): nat
    requires IsDigit(c)
  {
    c as nat - '0' as nat
  }

  predicate IsHexDigit(c: char) {
    '0' <= c <= '9' || 'A' <= c <= 'F' || 'a' <= c <= 'f'
  }

  function HexValue(c: char): (v: nat)
    requires IsHexDigit(c)
    ensures v < 16
  {
    if c <= '9' then c as nat - '0' as nat
    else if c <= 'F' then 10 + (c as nat - 'A' as nat)
    else 10 + (c as nat - 'a' as nat)
  }

  /** The lower-case hexadecimal digit of a value, as the conversions %x write it. */
  function HexDigit(v: nat): (c: char)
    requires v < 16
    ensures IsHexDigit(c) && HexValue(c) == v
  {
    if v < 10 then ('0' as nat + v) as char else ('a' as nat + (v - 10)) as char
  }

  /** The memory of `a` from `i` on holds the C string `t`, terminator included. */
  ghost predicate Holds(a: array<char>, i: nat, t: string)
    reads a
  {
    i + |t| < a.Length && a[i..i + |t|] == t && a[i + |t|] == NUL
  }

  /** Copies `t` to `a[at..]`, as memcpy, strcpy and sprintf("%s") do without the terminator. */
  method CopyText(a: array<char>, at: nat, t: string)
    requires at + |t| <= a.Length
    modifies a
    ensures a[..at + |t|] == old(a[..at]) + t
    ensures a[at + |t|..] == old(a[at + |t|..])
  {
    for i := 0 to |t|
      invariant a[..at + i] == old(a[..at]) + t[..i]
      invariant a[at + i..] == old(a[at + i..])
    {
      a[at + i] := t[i];
    }
  }

  /** Writes `t` at `at`, after the text `done` that was written behind the memory `before`. */
  method Append(a: array<char>, at: nat, t: string, ghost before: string, ghost done: string) returns (end: nat)
    requires at + |t| <= a.Length && a[..at] == before + done
    modifies a
    ensures end == at + |t| && a[..end] == before + (done + t)
    ensures a[end..] == old(a[end..])
  {
    CopyText(a, at, t);
    end := at + |t|;
    assert (before + done) + t == before + (done + t);
  }

  /** Length of the C string at `a[at..]`. */
  method StrLen(a: array<char>, at: nat, ghost t: string) returns (n: nat)
    requires Holds(a, at, t) && IsCString(t)
    ensures n == |t|
  {
    n := 0;
    assert forall k | 0 <= k < |t| :: a[at + k] == t[k];
    while a[at + n] != NUL
      invariant n <= |t|
      decreases |t| - n
    {
      n := n + 1;
    }
  }
}
