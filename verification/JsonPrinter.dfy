/**
  The printer that sizes and then copies: every value is printed into memory of its
  own, and a container adds up the lengths of its children, allocates, and copies
  their texts.  Every write stays inside the memory allocated for it.
*/
module JsonPrinter {
  import opened CText
  import opened Decimal
  import opened JsonString
  import opened JsonText

  /** A C string in memory of its own (strdup). */
  method Duplicate(t: string) returns (out: array<char>)
    ensures fresh(out) && Holds(out, 0, t)
  {
    out := new char[|t| + 1];
    CopyText(out, 0, t);
    out[|t|] := NUL;
  }

  method PrintNumber(n: int) returns (out: array<char>)
    requires -0x8000_0000 <= n < 0x8000_0000
    ensures fresh(out) && Holds(out, 0, IntText(n))
  {
    if n == 0 {
      out := new char[2];
      CopyText(out, 0, "0");
      out[1] := NUL;
    } else {
      IntTextFits(n);
      out := new char[21];
      CopyText(out, 0, IntText(n));
      out[|IntText(n)|] := NUL;
    }
  }

  // ----- Children's texts, one by one -----

  function ItemTexts(items: Items, depth: nat, fmt: bool): seq<string> {
    match items
    case NoItems => []
    case Item(v, next) => [Text(v, depth, fmt)] + ItemTexts(next, depth, fmt)
  }

  function MemberTexts(members: Members, depth: nat, fmt: bool): seq<(string, string)> {
    match members
    case NoMembers => []
    case Member(name, v, next) => [(Quoted(name), Text(v, depth, fmt))] + MemberTexts(next, depth, fmt)
  }

  function JoinItems(entries: seq<string>, fmt: bool): string {
    if entries == [] then ""
    else entries[0] + When(|entries| > 1, "," + When(fmt, " ")) + JoinItems(entries[1..], fmt)
  }

  function JoinMembers(entries: seq<(string, string)>, depth: nat, fmt: bool): string {
    if entries == [] then ""
    else
      MemberLine(entries[0].0, entries[0].1, |entries| == 1, depth, fmt) + JoinMembers(entries[1..], depth, fmt)
  }

  lemma {:induction false} JoinItemTexts(items: Items, depth: nat, fmt: bool)
    ensures JoinItems(ItemTexts(items, depth, fmt), fmt) == ItemsText(items, depth, fmt)
  {
    if items.Item? {
      JoinItemTexts(items.next, depth, fmt);
      assert ItemTexts(items, depth, fmt)[1..] == ItemTexts(items.next, depth, fmt);
    }
  }

  lemma {:induction false} JoinMemberTexts(members: Members, depth: nat, fmt: bool)
    ensures JoinMembers(MemberTexts(members, depth, fmt), depth, fmt) == MembersText(members, depth, fmt)
  {
    if members.Member? {
      JoinMemberTexts(members.next, depth, fmt);
      assert MemberTexts(members, depth, fmt)[1..] == MemberTexts(members.next, depth, fmt);
    }
  }

  // ----- Sizes -----

  /** What the collecting loop of an array adds for its entries. */
  function ItemsSize(entries: seq<string>, fmt: bool): nat {
    if entries == [] then 0
    else |entries[0]| + 2 + (if fmt then 1 else 0) + ItemsSize(entries[1..], fmt)
  }

  function MembersSize(entries: seq<(string, string)>, depth: nat, fmt: bool): nat {
    if entries == [] then 0
    else |entries[0].0| + |entries[0].1| + 2 + (if fmt then 2 + depth else 0) + MembersSize(entries[1..], depth, fmt)
  }

  lemma {:induction false} ItemsFit(entries: seq<string>, fmt: bool)
    ensures |JoinItems(entries, fmt)| <= ItemsSize(entries, fmt)
  {
    if entries != [] {
      ItemsFit(entries[1..], fmt);
    }
  }

  lemma {:induction false} MembersFit(entries: seq<(string, string)>, depth: nat, fmt: bool)
    ensures |JoinMembers(entries, depth, fmt)| <= MembersSize(entries, depth, fmt)
  {
    if entries != [] {
      MembersFit(entries[1..], depth, fmt);
    }
  }

  lemma {:induction false} ItemsSizeAppend(entries: seq<string>, last: string, fmt: bool)
    ensures ItemsSize(entries + [last], fmt) == ItemsSize(entries, fmt) + |last| + 2 + (if fmt then 1 else 0)
  {
    if entries == [] {
      assert ([last])[1..] == [] && [] + [last] == [last];
    } else {
      assert (entries + [last])[1..] == entries[1..] + [last];
      ItemsSizeAppend(entries[1..], last, fmt);
    }
  }

  lemma {:induction false} MembersSizeAppend(
      entries: seq<(string, string)>, last: (string, string), depth: nat, fmt: bool)
    ensures MembersSize(entries + [last], depth, fmt)
         == MembersSize(entries, depth, fmt) + |last.0| + |last.1| + 2 + (if fmt then 2 + depth else 0)
  {
    if entries == [] {
      assert ([last])[1..] == [] && [] + [last] == [last];
    } else {
      assert (entries + [last])[1..] == entries[1..] + [last];
      MembersSizeAppend(entries[1..], last, depth, fmt);
    }
  }

  lemma EmptySizes(depth: nat, fmt: bool)
    ensures ItemsSize([], fmt) == 0 && MembersSize([], depth, fmt) == 0
  {
  }

  // ----- Copying -----

  lemma JoinItemsStep(entries: seq<string>, i: nat, fmt: bool, before: string, done: string)
    requires i < |entries|
    ensures var sep := When(i != |entries| - 1, "," + When(fmt, " "));
            && done + JoinItems(entries[i..], fmt) == (done + entries[i] + sep) + JoinItems(entries[i + 1..], fmt)
            && before + done + entries[i] + sep == before + (done + entries[i] + sep)
  {
    assert entries[i..][0] == entries[i] && entries[i..][1..] == entries[i + 1..];
  }

  /** Copies the entries of an array to `out[1..]`, with commas between them. */
  method ComposeItems(out: array<char>, entries: seq<string>, fmt: bool) returns (ptr: nat)
    requires 1 + |JoinItems(entries, fmt)| <= out.Length
    modifies out
    ensures ptr == 1 + |JoinItems(entries, fmt)|
    ensures out[..ptr] == old(out[..1]) + JoinItems(entries, fmt)
  {
    hide JoinItems;
    ptr := 1;
    ghost var done := "";
    for i := 0 to |entries|
      invariant ptr == 1 + |done| && done + JoinItems(entries[i..], fmt) == JoinItems(entries, fmt)
      invariant out[..ptr] == old(out[..1]) + done
    {
      var sep := When(i != |entries| - 1, "," + When(fmt, " "));
      JoinItemsStep(entries, i, fmt, old(out[..1]), done);
      CopyText(out, ptr, entries[i]);
      ptr := ptr + |entries[i]|;
      CopyText(out, ptr, sep);
      ptr := ptr + |sep|;
      done := done + entries[i] + sep;
    }
    JoinNothing(entries, fmt);
  }

  lemma JoinNothing(entries: seq<string>, fmt: bool)
    ensures JoinItems(entries[|entries|..], fmt) == ""
  {
  }

  lemma JoinMembersStep(entries: seq<(string, string)>, i: nat, depth: nat, fmt: bool, before: string, done: string)
    requires i < |entries|
    ensures var line := MemberLine(entries[i].0, entries[i].1, i == |entries| - 1, depth, fmt);
            && done + JoinMembers(entries[i..], depth, fmt) == (done + line) + JoinMembers(entries[i + 1..], depth, fmt)
            && before + done + line == before + (done + line)
  {
    hide MemberLine;
    assert entries[i..][0] == entries[i] && entries[i..][1..] == entries[i + 1..];
  }

  /** Writes one member to `out[ptr..]`. */
  method ComposeMember(out: array<char>, ptr0: nat, name: string, value: string, last: bool, depth: nat, fmt: bool)
    returns (ptr: nat)
    requires ptr0 + |MemberLine(name, value, last, depth, fmt)| <= out.Length
    modifies out
    ensures ptr == ptr0 + |MemberLine(name, value, last, depth, fmt)|
    ensures out[..ptr] == old(out[..ptr0]) + MemberLine(name, value, last, depth, fmt)
  {
    ghost var before, done := out[..ptr0], When(fmt, Tabs(depth));
    ptr := ptr0;
    assert out[..ptr] == before + "";
    if fmt {
      ptr := Append(out, ptr, Tabs(depth), before, "");
      assert "" + Tabs(depth) == done;
    }
    ptr := Append(out, ptr, name, before, done);
    ptr := Append(out, ptr, ":", before, done + name);
    ptr := Append(out, ptr, When(fmt, "\t"), before, done + name + ":");
    ptr := Append(out, ptr, value, before, done + name + ":" + When(fmt, "\t"));
    ptr := Append(out, ptr, When(!last, ","), before, done + name + ":" + When(fmt, "\t") + value);
    ptr := Append(out, ptr, When(fmt, "\n"), before, done + name + ":" + When(fmt, "\t") + value + When(!last, ","));
  }

  /** Copies the members of an object to `out[start..]`. */
  method ComposeMembers(out: array<char>, start: nat, entries: seq<(string, string)>, depth: nat, fmt: bool)
    returns (ptr: nat)
    requires start + |JoinMembers(entries, depth, fmt)| <= out.Length
    modifies out
    ensures ptr == start + |JoinMembers(entries, depth, fmt)|
    ensures out[..ptr] == old(out[..start]) + JoinMembers(entries, depth, fmt)
  {
    hide JoinMembers, MemberLine;
    ptr := start;
    ghost var done := "";
    for i := 0 to |entries|
      invariant ptr == start + |done|
      invariant done + JoinMembers(entries[i..], depth, fmt) == JoinMembers(entries, depth, fmt)
      invariant out[..ptr] == old(out[..start]) + done
    {
      JoinMembersStep(entries, i, depth, fmt, old(out[..start]), done);
      var (name, value) := entries[i];
      ptr := ComposeMember(out, ptr, name, value, i == |entries| - 1, depth, fmt);
      done := done + MemberLine(name, value, i == |entries| - 1, depth, fmt);
    }
    JoinNoMembers(entries, depth, fmt);
  }

  lemma JoinNoMembers(entries: seq<(string, string)>, depth: nat, fmt: bool)
    ensures JoinMembers(entries[|entries|..], depth, fmt) == ""
  {
  }

  // ----- The printer -----

  method PrintValue(v: Json, depth: nat, fmt: bool) returns (out: array<char>)
    requires Printable(v)
    ensures fresh(out) && Holds(out, 0, Text(v, depth, fmt))
    decreases v, 4
  {
    match v {
      case Null => out := Duplicate("null");
      case False => out := Duplicate("false");
      case True => out := Duplicate("true");
      case Number(n, _) => out := PrintNumber(n);
      case String(s) => out := PrintString(s);
      case Array(items) => out := PrintArray(items, depth, fmt);
      case Object(members) => out := PrintObject(members, depth, fmt);
    }
  }

  /** The C string that a child prints as. */
  method PrintEntry(v: Json, depth: nat, fmt: bool) returns (entry: string)
    requires Printable(v)
    ensures entry == Text(v, depth, fmt)
    decreases v, 5
  {
    hide Text;
    var ret := PrintValue(v, depth, fmt);
    TextIsCString(v, depth, fmt);
    var n := StrLen(ret, 0, Text(v, depth, fmt));
    return ret[..n];
  }

  method PrintName(name: string) returns (entry: string)
    requires IsCString(name)
    ensures entry == Quoted(name)
  {
    hide Quoted;
    var ret := PrintString(name);
    QuotedIsCString(name);
    var n := StrLen(ret, 0, Quoted(name));
    return ret[..n];
  }

  /** Prints each child and adds up what the text of the array will need. */
  method CollectItems(items: Items, depth: nat, fmt: bool) returns (entries: seq<string>, len: nat)
    requires PrintableItems(items)
    ensures entries == ItemTexts(items, depth, fmt)
    ensures len == 5 + ItemsSize(entries, fmt)
    decreases items, 2
  {
    hide Text, ItemsSize, ItemTexts;
    NoItemTexts(depth, fmt);
    entries, len := [], 5;
    EmptySizes(depth, fmt);
    var child := items;
    while child.Item?
      invariant child == items || child < items
      invariant PrintableItems(child)
      invariant entries + ItemTexts(child, depth, fmt) == ItemTexts(items, depth, fmt)
      invariant len == 5 + ItemsSize(entries, fmt)
      decreases child
    {
      var ret := PrintEntry(child.value, depth, fmt);
      ItemsSizeAppend(entries, ret, fmt);
      ItemTextsStep(entries, child, depth, fmt);
      entries := entries + [ret];
      len := len + |ret| + 2 + (if fmt then 1 else 0);
      child := child.next;
    }
  }

  lemma NoItemTexts(depth: nat, fmt: bool)
    ensures ItemTexts(NoItems, depth, fmt) == []
  {
  }

  lemma ItemTextsStep(entries: seq<string>, items: Items, depth: nat, fmt: bool)
    requires items.Item?
    ensures entries + ItemTexts(items, depth, fmt)
         == entries + [Text(items.value, depth, fmt)] + ItemTexts(items.next, depth, fmt)
  {
    hide Text;
  }

  method PrintArray(items: Items, depth: nat, fmt: bool) returns (out: array<char>)
    requires PrintableItems(items)
    ensures fresh(out) && Holds(out, 0, Text(Array(items), depth, fmt))
    decreases items, 3
  {
    hide Text, ItemsText, JoinItems, ItemTexts, ItemsSize, PrintableItems;
    ArrayText(items, depth, fmt);
    if items.NoItems? {
      out := Duplicate("[]");
      return;
    }
    var entries, len := CollectItems(items, depth + 1, fmt);
    JoinItemTexts(items, depth + 1, fmt);
    ItemsFit(entries, fmt);
    out := new char[len];
    CopyText(out, 0, "[");
    var ptr := ComposeItems(out, entries, fmt);
    CopyText(out, ptr, "]");
    out[ptr + 1] := NUL;
  }

  method CollectMembers(members: Members, depth: nat, fmt: bool) returns (entries: seq<(string, string)>, len: nat)
    requires PrintableMembers(members)
    ensures entries == MemberTexts(members, depth, fmt)
    ensures len == 7 + (if fmt then depth else 0) + MembersSize(entries, depth, fmt)
    decreases members, 2
  {
    hide Text, Quoted, MembersSize;
    EmptySizes(depth, fmt);
    entries, len := [], 7 + if fmt then depth else 0;
    var child := members;
    while child.Member?
      invariant child == members || child < members
      invariant PrintableMembers(child)
      invariant entries + MemberTexts(child, depth, fmt) == MemberTexts(members, depth, fmt)
      invariant len == 7 + (if fmt then depth else 0) + MembersSize(entries, depth, fmt)
      decreases child
    {
      var name := PrintName(child.name);
      var ret := PrintEntry(child.value, depth, fmt);
      MembersSizeAppend(entries, (name, ret), depth, fmt);
      entries := entries + [(name, ret)];
      len := len + |ret| + |name| + 2 + (if fmt then 2 + depth else 0);
      child := child.next;
    }
  }

  method PrintEmptyObject(depth: nat, fmt: bool) returns (out: array<char>)
    ensures fresh(out) && Holds(out, 0, Text(Object(NoMembers), depth, fmt))
  {
    out := new char[if fmt then depth + 4 else 3];
    var text := "{" + When(fmt, "\n" + Tabs(depth)) + "}";
    CopyText(out, 0, text);
    out[|text|] := NUL;
    assert text == Text(Object(NoMembers), depth, fmt);
  }

  method PrintObject(members: Members, depth: nat, fmt: bool) returns (out: array<char>)
    requires PrintableMembers(members)
    ensures fresh(out) && Holds(out, 0, Text(Object(members), depth, fmt))
    decreases members, 3
  {
    hide Text, MembersText, JoinMembers, MemberTexts, MembersSize, PrintableMembers;
    if members.NoMembers? {
      out := PrintEmptyObject(depth, fmt);
      return;
    }
    var entries, len := CollectMembers(members, depth + 1, fmt);
    JoinMemberTexts(members, depth + 1, fmt);
    MembersFit(entries, depth + 1, fmt);
    out := new char[len];
    var open := "{" + When(fmt, "\n");
    CopyText(out, 0, open);
    var ptr := ComposeMembers(out, |open|, entries, depth + 1, fmt);
    ghost var text := MembersText(members, depth + 1, fmt);
    ptr := Append(out, ptr, When(fmt, Tabs(depth)), open, text);
    ptr := Append(out, ptr, "}", open, text + When(fmt, Tabs(depth)));
    out[ptr] := NUL;
    ObjectText(members, depth, fmt);
  }

  /** The texts of cJSON_Print and cJSON_PrintUnformatted. */
  method Print(v: Json, fmt: bool) returns (out: array<char>)
    requires Printable(v)
    ensures fresh(out) && Holds(out, 0, Text(v, 0, fmt))
  {
    out := PrintValue(v, 0, fmt);
  }
}
