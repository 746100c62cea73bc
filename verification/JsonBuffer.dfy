/**
  The printer that writes into one growing buffer.  A leaf leaves the offset where it
  was, a container leaves it before its closing bracket, and the caller moves it to
  the terminator; the text is that of the printer that sizes and copies.
*/
module JsonBuffer {
  import opened Bits
  import opened CText
  import opened Decimal
  import opened JsonString
  import opened JsonText

  /** The size beyond which rounding up to a power of two leaves the source's int. */
  const MAX_SIZE: nat := 0x4000_0000

  /** Bytes that printing may ask for past the end of its text: the room set aside for a number. */
  const SLACK: nat := 21

  class PrintBuffer {
    var buffer: array<char>
    var length: nat
    var offset: nat

    ghost predicate Valid()
      reads this
    {
      length == buffer.Length && offset <= length
    }

    /** The text before the offset. */
    ghost function Before(): string
      reads this, buffer
      requires Valid()
    {
      buffer[..offset]
    }

    /** After `base` comes `t` and a terminator, and the offset is somewhere in `t`. */
    ghost predicate Printed(base: string, t: string)
      reads this, buffer
    {
      && Valid()
      && |base| <= offset <= |base| + |t| < length
      && buffer[..|base| + |t|] == base + t
      && buffer[|base| + |t|] == NUL
    }

    constructor (prebuffer: nat)
      ensures Valid() && fresh(buffer) && offset == 0 && length == prebuffer
    {
      buffer := new char[prebuffer];
      length := prebuffer;
      offset := 0;
    }

    /** Makes room for `needed` bytes at the offset; every byte already in the buffer stays. */
    method Ensure(needed0: nat)
      requires Valid() && needed0 >= 1 && offset + needed0 <= MAX_SIZE
      modifies this
      ensures Valid() && offset == old(offset) && offset + needed0 <= length
      ensures buffer == old(buffer) || fresh(buffer)
      ensures old(length) <= length && buffer[..old(length)] == old(buffer[..])
      ensures length != old(length) ==> exists n: nat :: length == Pow2(n) && (n > 0 ==> Pow2(n - 1) < offset + needed0)
    {
      var needed := needed0 + offset;
      if needed <= length {
        return;
      }
      var newSize := Pow2gt(needed);
      var newBuffer := new char[newSize];
      CopyText(newBuffer, 0, buffer[..length]);
      length := newSize;
      buffer := newBuffer;
    }

    /** Makes room and writes `t` at the offset, without terminator. */
    method Put(needed: nat, t: string)
      requires Valid() && 1 <= needed && |t| <= needed && offset + needed <= MAX_SIZE
      modifies this, buffer
      ensures Valid() && offset == old(offset) && offset + needed <= length
      ensures buffer == old(buffer) || fresh(buffer)
      ensures buffer[..offset + |t|] == old(Before()) + t
    {
      Ensure(needed);
      assert buffer[..offset] == buffer[..old(length)][..offset];
      CopyText(buffer, offset, t);
    }

    /** Writes `t` and a terminator at the offset. */
    method PutString(needed: nat, t: string)
      requires Valid() && |t| < needed && offset + needed <= MAX_SIZE
      modifies this, buffer
      ensures buffer == old(buffer) || fresh(buffer)
      ensures offset == old(offset) && Printed(old(Before()), t)
    {
      Put(needed, t);
      buffer[offset + |t|] := NUL;
    }

    /** Writes `t` without terminator and moves past it. */
    method Write(needed: nat, t: string)
      requires Valid() && 1 <= needed && |t| <= needed && offset + needed <= MAX_SIZE
      modifies this, buffer
      ensures Valid() && old(offset) + needed <= length
      ensures buffer == old(buffer) || fresh(buffer)
      ensures offset == old(offset) + |t| && Before() == old(Before()) + t
    {
      Put(needed, t);
      offset := offset + |t|;
    }

    /** Where the terminator after the offset is. */
    method Update(ghost base: string, ghost t: string) returns (end: nat)
      requires Printed(base, t) && IsCString(t)
      ensures end == |base| + |t|
    {
      ghost var rest := t[offset - |base|..];
      assert buffer[offset..|base| + |t|] == (base + t)[offset..] == rest;
      var n := StrLen(buffer, offset, rest);
      return offset + n;
    }

    method PrintNumber(n: int)
      requires Valid() && -0x8000_0000 <= n < 0x8000_0000
      requires offset + SLACK <= MAX_SIZE
      modifies this, buffer
      ensures buffer == old(buffer) || fresh(buffer)
      ensures offset == old(offset) && Printed(old(Before()), IntText(n))
    {
      if n == 0 {
        PutString(2, "0");
      } else {
        IntTextFits(n);
        PutString(21, IntText(n));
      }
    }

    method PrintString(s: string)
      requires Valid() && offset + |Quoted(s)| + 1 <= MAX_SIZE
      modifies this, buffer
      ensures buffer == old(buffer) || fresh(buffer)
      ensures offset == old(offset) && Printed(old(Before()), Quoted(s))
    {
      hide Quoted, Escaped;
      var size, flag := LiteralSize(s);
      Ensure(size);
      assert buffer[..offset] == buffer[..old(length)][..offset];
      WriteLiteral(buffer, offset, s, flag);
    }

    /** Prints a name and moves the offset to its terminator. */
    method PrintName(name: string)
      requires Valid() && IsCString(name) && offset + |Quoted(name)| + 1 <= MAX_SIZE
      modifies this, buffer
      ensures buffer == old(buffer) || fresh(buffer)
      ensures Valid() && Before() == old(Before()) + Quoted(name)
    {
      hide Quoted;
      ghost var before := Before();
      PrintString(name);
      QuotedIsCString(name);
      var end := Update(before, Quoted(name));
      offset := end;
    }

    method PrintValue(v: Json, depth: nat, fmt: bool)
      requires Valid() && Printable(v) && offset + |Text(v, depth, fmt)| + SLACK <= MAX_SIZE
      modifies this, buffer
      ensures buffer == old(buffer) || fresh(buffer)
      ensures Printed(old(Before()), Text(v, depth, fmt))
      decreases v, 5
    {
      match v {
        case Null => PutString(5, "null");
        case False => PutString(6, "false");
        case True => PutString(5, "true");
        case Number(n, _) => PrintNumber(n);
        case String(s) => PrintString(s);
        case Array(items) => PrintArray(items, depth, fmt);
        case Object(members) => PrintObject(members, depth, fmt);
      }
    }

    /** Prints a child and moves the offset to its terminator. */
    method PrintChild(v: Json, depth: nat, fmt: bool)
      requires Valid() && Printable(v) && offset + |Text(v, depth, fmt)| + SLACK <= MAX_SIZE
      modifies this, buffer
      ensures buffer == old(buffer) || fresh(buffer)
      ensures Valid() && Before() == old(Before()) + Text(v, depth, fmt)
      decreases v, 6
    {
      hide Text;
      ghost var before := Before();
      PrintValue(v, depth, fmt);
      TextIsCString(v, depth, fmt);
      var end := Update(before, Text(v, depth, fmt));
      offset := end;
    }

    /** What is printed after `base + done` makes, with `done`, what is printed after `base`. */
    lemma PrintedFrom(base: string, done: string, t: string)
      requires Printed(base + done, t)
      ensures Printed(base, done + t)
    {
      assert (base + done) + t == base + (done + t);
    }

    /** The closing line, behind which the offset is not moved. */
    method PrintClose(ghost base: string, ghost done: string, close: string)
      requires Valid() && Before() == base + done && close != "" && offset + |close| + 1 <= MAX_SIZE
      modifies this, buffer
      ensures buffer == old(buffer) || fresh(buffer)
      ensures Printed(base, done + close)
    {
      PutString(|close| + 1, close);
      PrintedFrom(base, done, close);
    }

    method PrintArray(items: Items, depth: nat, fmt: bool)
      requires Valid() && PrintableItems(items) && offset + |Text(Array(items), depth, fmt)| + SLACK <= MAX_SIZE
      modifies this, buffer
      ensures buffer == old(buffer) || fresh(buffer)
      ensures Printed(old(Before()), Text(Array(items), depth, fmt))
      decreases items, 3
    {
      hide Text, ItemsText;
      ArrayText(items, depth, fmt);
      if items.NoItems? {
        PutString(3, "[]");
        return;
      }
      ghost var base := Before();
      Put(1, "[");
      offset := offset + 1;
      PrintItems(items, depth + 1, fmt);
      ghost var done := "[" + ItemsText(items, depth + 1, fmt);
      assert Before() == base + done;
      PrintClose(base, done, "]");
    }

    /** The loop over the entries of an array. */
    method PrintItems(items: Items, depth: nat, fmt: bool)
      requires Valid() && PrintableItems(items) && offset + |ItemsText(items, depth, fmt)| + SLACK <= MAX_SIZE
      modifies this, buffer
      ensures buffer == old(buffer) || fresh(buffer)
      ensures Valid() && Before() == old(Before()) + ItemsText(items, depth, fmt)
      decreases items, 2
    {
      hide Text, ItemsText;
      ghost var base, done := Before(), "";
      var child := items;
      while child.Item?
        invariant child == items || child < items
        invariant PrintableItems(child)
        invariant Valid() && (buffer == old(buffer) || fresh(buffer))
        invariant Before() == base + done
        invariant done + ItemsText(child, depth, fmt) == ItemsText(items, depth, fmt)
        decreases child
      {
        ItemsStep(child, depth, fmt, base, done);
        PrintChild(child.value, depth, fmt);
        var sep := When(child.next.Item?, "," + When(fmt, " "));
        if child.next.Item? {
          PutString(|sep| + 1, sep);
          offset := offset + |sep|;
        }
        done := done + Text(child.value, depth, fmt) + sep;
        child := child.next;
      }
      NoChildrenText(depth, fmt);
      assert done + "" == done;
    }

    method PrintObject(members: Members, depth: nat, fmt: bool)
      requires Valid() && PrintableMembers(members) && offset + |Text(Object(members), depth, fmt)| + SLACK <= MAX_SIZE
      modifies this, buffer
      ensures buffer == old(buffer) || fresh(buffer)
      ensures Printed(old(Before()), Text(Object(members), depth, fmt))
      decreases members, 4
    {
      hide Text, MembersText, Tabs;
      ObjectText(members, depth, fmt);
      if members.NoMembers? {
        PutString(if fmt then depth + 4 else 3, Text(Object(members), depth, fmt));
      } else {
        PrintFilledObject(members, depth, fmt);
      }
    }

    method PrintFilledObject(members: Members, depth: nat, fmt: bool)
      requires Valid() && PrintableMembers(members) && offset + |Text(Object(members), depth, fmt)| + SLACK <= MAX_SIZE
      modifies this, buffer
      ensures buffer == old(buffer) || fresh(buffer)
      ensures Printed(old(Before()), Text(Object(members), depth, fmt))
      decreases members, 3
    {
      hide Text, MembersText, Tabs;
      ObjectText(members, depth, fmt);
      ghost var base := Before();
      var open := "{" + When(fmt, "\n");
      PutString(|open| + 1, open);
      offset := offset + |open|;
      PrintMembers(members, depth + 1, fmt);
      ghost var done := open + MembersText(members, depth + 1, fmt);
      Associates(base, open, MembersText(members, depth + 1, fmt));
      hide When;
      var close := When(fmt, Tabs(depth)) + "}";
      PrintClose(base, done, close);
    }

    /** The loop over the members of an object. */
    method PrintMembers(members: Members, depth: nat, fmt: bool)
      requires Valid() && PrintableMembers(members) && offset + |MembersText(members, depth, fmt)| + SLACK <= MAX_SIZE
      requires fmt ==> depth >= 1
      modifies this, buffer
      ensures buffer == old(buffer) || fresh(buffer)
      ensures Valid() && Before() == old(Before()) + MembersText(members, depth, fmt)
      decreases members, 2
    {
      hide Text, MembersText, MemberLine, Quoted;
      ghost var base, done := Before(), "";
      var child := members;
      while child.Member?
        invariant child == members || child < members
        invariant PrintableMembers(child)
        invariant Valid() && (buffer == old(buffer) || fresh(buffer))
        invariant Before() == base + done
        invariant done + MembersText(child, depth, fmt) == MembersText(members, depth, fmt)
        decreases child
      {
        MembersStep(child, depth, fmt, base, done);
        PrintMember(child.name, child.value, child.next.NoMembers?, depth, fmt);
        done := done + MemberLine(Quoted(child.name), Text(child.value, depth, fmt), child.next.NoMembers?, depth, fmt);
        child := child.next;
      }
      NoChildrenText(depth, fmt);
      assert done + "" == done;
    }

    /** One turn of the object loop: indentation, name, colon, value, comma and line end. */
    method PrintMember(name: string, v: Json, last: bool, depth: nat, fmt: bool)
      requires Valid() && IsCString(name) && Printable(v)
      requires offset + |MemberLine(Quoted(name), Text(v, depth, fmt), last, depth, fmt)| + SLACK <= MAX_SIZE
      requires fmt ==> depth >= 1
      modifies this, buffer
      ensures buffer == old(buffer) || fresh(buffer)
      ensures Valid() && Before() == old(Before()) + MemberLine(Quoted(name), Text(v, depth, fmt), last, depth, fmt)
      decreases v, 7
    {
      hide Text, Quoted, Tabs, MemberLine;
      MemberLineParts(Quoted(name), Text(v, depth, fmt), last, depth, fmt, Before());
      if fmt {
        Write(depth, Tabs(depth));
      }
      PrintName(name);
      var colon := ":" + When(fmt, "\t");
      Write(|colon|, colon);
      PrintChild(v, depth, fmt);
      var tail := When(!last, ",") + When(fmt, "\n");
      Write(|tail| + 1, tail);
      buffer[offset] := NUL;
    }
  }

  lemma MemberLineParts(name: string, value: string, last: bool, depth: nat, fmt: bool, base: string)
    ensures var colon, tail := ":" + When(fmt, "\t"), When(!last, ",") + When(fmt, "\n");
            && MemberLine(name, value, last, depth, fmt) == When(fmt, Tabs(depth)) + name + colon + value + tail
            && base + MemberLine(name, value, last, depth, fmt)
               == (if fmt then base + Tabs(depth) else base) + name + colon + value + tail
  {
    hide Tabs;
    var colon, tail := ":" + When(fmt, "\t"), When(!last, ",") + When(fmt, "\n");
    var line := When(fmt, Tabs(depth)) + name + colon + value + tail;
    assert MemberLine(name, value, last, depth, fmt) == line;
    if !fmt {
      assert base + name + colon + value + tail == base + line;
    }
  }

  lemma MembersStep(members: Members, depth: nat, fmt: bool, base: string, done: string)
    requires members.Member?
    ensures var value, last := Text(members.value, depth, fmt), members.next.NoMembers?;
            var line := MemberLine(Quoted(members.name), value, last, depth, fmt);
            && done + MembersText(members, depth, fmt) == (done + line) + MembersText(members.next, depth, fmt)
            && base + done + line == base + (done + line)
  {
    hide Text, MemberLine, Quoted;
  }

  lemma ItemsStep(items: Items, depth: nat, fmt: bool, base: string, done: string)
    requires items.Item?
    ensures var t, sep := Text(items.value, depth, fmt), When(items.next.Item?, "," + When(fmt, " "));
            && done + ItemsText(items, depth, fmt) == (done + t + sep) + ItemsText(items.next, depth, fmt)
            && base + done + t + sep == base + (done + t + sep)
            && (sep == "" ==> done + t + sep == done + t && base + done + t == base + (done + t))
  {
    hide Text;
  }

  /** cJSON_PrintBuffered: the same text as the other printer's, whatever the size of the first buffer. */
  method PrintBuffered(v: Json, prebuffer: nat, fmt: bool) returns (out: array<char>)
    requires Printable(v) && prebuffer >= 1
    requires |Text(v, 0, fmt)| + SLACK <= MAX_SIZE
    ensures fresh(out) && Holds(out, 0, Text(v, 0, fmt))
  {
    hide Text;
    var p := new PrintBuffer(prebuffer);
    p.PrintValue(v, 0, fmt);
    out := p.buffer;
    assert out[0..|Text(v, 0, fmt)|] == Text(v, 0, fmt);
  }
}
