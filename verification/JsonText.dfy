/**
  JSON trees and the text that stands for them.

  A tree's children are the linked list that the source threads through `next`.
  A number is the exact decimal mantissa * 10^exponent that its digits spell,
  before the source rounds it to a double.
*/
module JsonText {
  import opened CText
  import opened JsonString
  import opened Decimal

  datatype Json =
    | Null
    | False
    | True
    | Number(mantissa: int, exponent: int)
    | String(text: string)
    | Array(items: Items)
    | Object(members: Members)

  datatype Items = NoItems | Item(value: Json, next: Items)

  datatype Members = NoMembers | Member(name: string, value: Json, next: Members)

  /** The trees of this model's printer: 32-bit integers, and strings that a C string can hold. */
  predicate Printable(v: Json) {
    match v
    case Null | False | True => true
    case Number(n, e) => e == 0 && -0x8000_0000 <= n < 0x8000_0000
    case String(s) => IsCString(s)
    case Array(items) => PrintableItems(items)
    case Object(members) => PrintableMembers(members)
  }

  predicate PrintableItems(items: Items) {
    items.Item? ==> Printable(items.value) && PrintableItems(items.next)
  }

  predicate PrintableMembers(members: Members) {
    members.Member? ==> IsCString(members.name) && Printable(members.value) && PrintableMembers(members.next)
  }

  function Tabs(n: nat): (t: string)
    ensures |t| == n && forall i | 0 <= i < n :: t[i] == '\t'
  {
    seq(n, _ => '\t')
  }

  function When(b: bool, t: string): string {
    if b then t else ""
  }

  /**
    The text of a tree nested `depth` levels deep.  Formatted text puts each member
    on a line of its own, indented by tabs, and a space after the commas of arrays.
  */
  function Text(v: Json, depth: nat, fmt: bool): string {
    match v
    case Null => "null"
    case False => "false"
    case True => "true"
    case Number(n, _) => IntText(n)
    case String(s) => Quoted(s)
    case Array(items) => "[" + ItemsText(items, depth + 1, fmt) + "]"
    case Object(members) =>
      "{" + When(fmt, "\n") + MembersText(members, depth + 1, fmt) + When(fmt, Tabs(depth)) + "}"
  }

  function ItemsText(items: Items, depth: nat, fmt: bool): string {
    match items
    case NoItems => ""
    case Item(v, next) =>
      Text(v, depth, fmt) + When(next.Item?, "," + When(fmt, " ")) + ItemsText(next, depth, fmt)
  }

  function MembersText(members: Members, depth: nat, fmt: bool): string {
    match members
    case NoMembers => ""
    case Member(name, v, next) =>
      MemberLine(Quoted(name), Text(v, depth, fmt), next.NoMembers?, depth, fmt) + MembersText(next, depth, fmt)
  }

  /** One member of an object: its literal name and its value's text, with a comma unless it is the last. */
  function MemberLine(name: string, value: string, last: bool, depth: nat, fmt: bool): string {
    When(fmt, Tabs(depth)) + name + ":" + When(fmt, "\t") + value + When(!last, ",") + When(fmt, "\n")
  }

  lemma ArrayText(items: Items, depth: nat, fmt: bool)
    ensures Text(Array(items), depth, fmt) == "[" + ItemsText(items, depth + 1, fmt) + "]"
    ensures items.NoItems? ==> Text(Array(items), depth, fmt) == "[]"
  {
  }

  /** The text of an object, up to its first line, its members, and its last line. */
  lemma ObjectText(members: Members, depth: nat, fmt: bool)
    ensures var open, close := "{" + When(fmt, "\n"), When(fmt, Tabs(depth)) + "}";
            && Text(Object(members), depth, fmt) == open + MembersText(members, depth + 1, fmt) + close
            && Text(Object(members), depth, fmt)
               == open + (MembersText(members, depth + 1, fmt) + When(fmt, Tabs(depth)) + "}")
    ensures members.NoMembers? ==> |Text(Object(members), depth, fmt)| < if fmt then depth + 4 else 3
  {
    hide Tabs, MembersText;
    NoChildrenText(depth + 1, fmt);
    var open, text, close := "{" + When(fmt, "\n"), MembersText(members, depth + 1, fmt), When(fmt, Tabs(depth)) + "}";
    assert Text(Object(members), depth, fmt) == open + text + close;
    assert open + text + close == open + (text + When(fmt, Tabs(depth)) + "}");
  }

  /** An object and what follows it, piece by piece. */
  lemma ObjectTextBefore(members: Members, depth: nat, fmt: bool, rest: string)
    ensures Text(Object(members), depth, fmt) + rest
         == "{" + (When(fmt, "\n") + (MembersText(members, depth + 1, fmt) + (When(fmt, Tabs(depth)) + ("}" + rest))))
  {
    ObjectText(members, depth, fmt);
    hide Text, MembersText, When, Tabs;
  }

  lemma NoChildrenText(depth: nat, fmt: bool)
    ensures ItemsText(NoItems, depth, fmt) == "" && MembersText(NoMembers, depth, fmt) == ""
  {
  }

  // ----- The text of a tree is a C string -----

  lemma {:induction false} DigitsAreCString(n: nat)
    ensures IsCString(Digits(n))
  {
    assert forall c | c in Digits(n) :: IsDigit(c);
  }

  lemma {:induction false} EscapedIsCString(s: string)
    requires IsCString(s)
    ensures IsCString(Escaped(s))
  {
    if s != "" {
      assert NUL !in EscapeChar(s[0]);
      EscapedIsCString(s[1..]);
    }
  }

  lemma QuotedIsCString(s: string)
    requires IsCString(s)
    ensures IsCString(Quoted(s))
  {
    EscapedIsCString(s);
  }

  lemma ObjectIsCString(members: Members, depth: nat, fmt: bool)
    requires IsCString(MembersText(members, depth + 1, fmt))
    ensures IsCString(Text(Object(members), depth, fmt))
  {
    hide MembersText;
  }

  lemma {:induction false} TextIsCString(v: Json, depth: nat, fmt: bool)
    requires Printable(v)
    ensures IsCString(Text(v, depth, fmt))
    decreases v, 1
  {
    match v
    case Null =>
    case False =>
    case True =>
    case Number(n, _) => DigitsAreCString(if n < 0 then -n else n);
    case String(s) => EscapedIsCString(s);
    case Array(items) => ItemsTextIsCString(items, depth + 1, fmt);
    case Object(members) =>
      MembersTextIsCString(members, depth + 1, fmt);
      ObjectIsCString(members, depth, fmt);
  }

  lemma {:induction false} ItemsTextIsCString(items: Items, depth: nat, fmt: bool)
    requires PrintableItems(items)
    ensures IsCString(ItemsText(items, depth, fmt))
    decreases items
  {
    if items.Item? {
      TextIsCString(items.value, depth, fmt);
      ItemsTextIsCString(items.next, depth, fmt);
    }
  }

  lemma {:induction false} MembersTextIsCString(members: Members, depth: nat, fmt: bool)
    requires PrintableMembers(members)
    ensures IsCString(MembersText(members, depth, fmt))
    decreases members
  {
    if members.Member? {
      EscapedIsCString(members.name);
      TextIsCString(members.value, depth, fmt);
      MembersTextIsCString(members.next, depth, fmt);
    }
  }
}
