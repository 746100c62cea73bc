/**
  The parameters and header fields of a request: a singly linked list whose first
  node is created empty, and the functions that walk it to size and write text.
*/
module RequestFields {
  import opened CText

  /** A parameter or header field: text, or the contents of a file. */
  datatype Field =
    | TextField(name: string, value: string)
    | FileField(name: string, fileName: string, data: string)

  /** A call with an empty name or value adds nothing. */
  function Accepted(name: string, value: string): seq<Field> {
    if name == "" || value == "" then [] else [TextField(name, value)]
  }

  function AcceptedFile(name: string, fileName: string, data: string): seq<Field> {
    if name == "" || fileName == "" || data == "" then [] else [FileField(name, fileName, data)]
  }

  const VALUE_NONE: nat := 0
  const VALUE_DATA: nat := 1
  const VALUE_STRING: nat := 2

  class Node {
    var key: string
    var value: string
    var reserved: string
    var valueType: nat
    var next: Node?

    constructor ()
      ensures key == value == reserved == "" && valueType == VALUE_NONE && next == null
    {
      key, value, reserved, valueType, next := "", "", "", VALUE_NONE, null;
    }

    method Fill(key: string, value: string, valueType: nat)
      modifies this`key, this`value, this`valueType
      ensures this.key == key && this.value == value && this.valueType == valueType
    {
      this.key, this.value, this.valueType := key, value, valueType;
    }

    function Field(): Field
      reads this
    {
      if valueType == VALUE_DATA then FileField(key, reserved, value) else TextField(key, value)
    }
  }

  /** The linked list under one pointer of a request. */
  class FieldList {
    var head: Node?
    ghost var nodes: seq<Node>
    ghost var Repr: set<object>

    /** The nodes are linked in order from the head, and each but possibly the last has been filled. */
    ghost predicate Linked()
      reads this, Repr
      ensures Linked() ==> this in Repr
    {
      && this in Repr && (forall i | 0 <= i < |nodes| :: nodes[i] in Repr)
      && (forall i, j | 0 <= i < j < |nodes| :: nodes[i] != nodes[j])
      && head == (if nodes == [] then null else nodes[0])
      && (nodes != [] ==> nodes[|nodes| - 1].next == null)
      && (forall i {:trigger nodes[i].next} | 0 <= i < |nodes| - 1 :: nodes[i].next == nodes[i + 1])
    }

    ghost predicate Valid()
      reads this, Repr
      ensures Valid() ==> this in Repr
    {
      && Linked()
      && (forall i | 0 <= i < |nodes| :: nodes[i].valueType == VALUE_DATA || nodes[i].valueType == VALUE_STRING)
    }

    ghost function Fields(): (fs: seq<Field>)
      reads this, Repr
      requires Linked()
      ensures |fs| == |nodes| && forall i | 0 <= i < |nodes| :: fs[i] == nodes[i].Field()
    {
      seq(|nodes|, i requires 0 <= i < |nodes| && nodes[i] in Repr reads this, Repr => nodes[i].Field())
    }

    constructor ()
      ensures Valid() && Fields() == [] && fresh(Repr)
    {
      head, nodes, Repr := null, [], {this};
    }

    method Last() returns (last: Node?)
      requires Linked()
      ensures last == if nodes == [] then null else nodes[|nodes| - 1]
    {
      var cur := head;
      last := head;
      ghost var i := 0;
      while cur != null
        invariant i <= |nodes| && cur == (if i < |nodes| then nodes[i] else null)
        invariant last == if i > 0 then nodes[i - 1] else head
        decreases |nodes| - i
      {
        last := cur;
        cur, i := cur.next, i + 1;
      }
    }

    /** A node to fill: the first one, made on demand, as long as it is empty; then a new one after the last. */
    method Append() returns (node: Node)
      requires Valid()
      modifies Repr
      ensures Linked() && fresh(Repr - old(Repr)) && node in Repr
      ensures fresh(node) && node.valueType == VALUE_NONE && node.reserved == ""
      ensures nodes == old(nodes) + [node]
      ensures forall i | 0 <= i < |old(nodes)| ::
                nodes[i].Field() == old(nodes[i].Field()) && nodes[i].valueType == old(nodes[i].valueType)
    {
      if head == null {
        head := new Node();
        nodes, Repr := [head], Repr + {head};
      }
      var last := Last();
      if last.valueType != VALUE_NONE {
        node := new Node();
        last.next := node;
        nodes, Repr := nodes + [node], Repr + {node};
      } else {
        node := last;
      }
    }

    /** Adds a text field; an empty name or value is ignored. */
    method AddText(name: string, value: string)
      requires Valid()
      modifies Repr
      ensures Valid() && fresh(Repr - old(Repr))
      ensures Fields() == old(Fields()) + Accepted(name, value)
    {
      if |name| == 0 || |value| == 0 {
        return;
      }
      var last := Append();
      last.Fill(name, value, VALUE_STRING);
    }

    /** Adds a file; an empty name, file name or content is ignored. */
    method AddFile(name: string, fileName: string, data: string)
      requires Valid()
      modifies Repr
      ensures Valid() && fresh(Repr - old(Repr))
      ensures Fields() == old(Fields()) + AcceptedFile(name, fileName, data)
    {
      if |data| == 0 || |name| == 0 || |fileName| == 0 {
        return;
      }
      var last := Append();
      last.Fill(name, data, VALUE_DATA);
      last.reserved := fileName;
    }
  }

  // ----- Joining fields to text -----

  predicate AllText(fs: seq<Field>) {
    forall i | 0 <= i < |fs| :: fs[i].TextField?
  }

  /** The fields as name, `eq`, value, with `sep` between them. */
  function Joined(fs: seq<Field>, sep: string, eq: string): string
    requires AllText(fs)
  {
    if fs == [] then ""
    else fs[0].name + eq + fs[0].value + (if |fs| > 1 then sep else "") + Joined(fs[1..], sep, eq)
  }

  function StringsLength(fs: seq<Field>, increment: nat): nat
    requires AllText(fs)
  {
    if fs == [] then 0
    else |fs[0].name| + |fs[0].value| + increment + StringsLength(fs[1..], increment)
  }

  /** The size that is allocated exceeds the text by exactly one separator. */
  lemma {:induction false} JoinedSize(fs: seq<Field>, sep: string, eq: string)
    requires AllText(fs) && fs != []
    ensures StringsLength(fs, |sep| + |eq|) == |Joined(fs, sep, eq)| + |sep|
  {
    if |fs| > 1 {
      JoinedSize(fs[1..], sep, eq);
    } else {
      assert fs[1..] == [];
    }
  }

  /** Adds up the lengths of names and values. */
  method MeasureStrings(list: FieldList, increment: nat) returns (len: nat)
    requires list.Valid() && AllText(list.Fields())
    ensures len == StringsLength(list.Fields(), increment)
  {
    len := 0;
    var cur := list.head;
    ghost var i, fs := 0, list.Fields();
    while cur != null
      invariant i <= |fs| && cur == if i < |fs| then list.nodes[i] else null
      invariant len + StringsLength(fs[i..], increment) == StringsLength(fs, increment)
      decreases |fs| - i
    {
      assert fs[i] == cur.Field() && fs[i..][0] == fs[i] && fs[i..][1..] == fs[i + 1..];
      len := len + |cur.key| + |cur.value| + increment;
      cur, i := cur.next, i + 1;
    }
  }

  /**
    Writes the fields to memory sized by MeasureStrings; null for no fields.  The source
    has this loop once for parameters and once for header fields.
  */
  method WriteFields(list: FieldList, sep: string, eq: string) returns (buff: array?<char>, length: nat)
    requires list.Valid() && AllText(list.Fields()) && sep != "" && eq != ""
    ensures list.Fields() == [] ==> buff == null && length == 0
    ensures list.Fields() != [] ==>
              && buff != null && fresh(buff)
              && length == |Joined(list.Fields(), sep, eq)| && length + |sep| == buff.Length
              && Holds(buff, 0, Joined(list.Fields(), sep, eq))
  {
    hide Joined, StringsLength, Rest;
    var size := MeasureStrings(list, |sep| + |eq|);
    ghost var i, fs := 0, list.Fields();
    LengthZero(fs, |sep| + |eq|);
    if size == 0 {
      return null, 0;
    }
    JoinedSize(fs, sep, eq);
    var out := new char[size];
    var written: nat := 0;
    var cur := list.head;
    ghost var done := "";
    RestStart(fs, sep, eq);
    while cur != null
      invariant i <= |fs| && cur == if i < |fs| then list.nodes[i] else null
      invariant written == |done| && (written > 0 <==> i > 0)
      invariant done + Rest(fs, i, sep, eq) == Joined(fs, sep, eq)
      invariant written < size && out[..written] == done
      decreases |fs| - i
    {
      assert fs[i] == cur.Field();
      RestStep(fs, i, sep, eq, done);
      var lead := if written > 0 then sep else "";
      written := WriteField(out, written, lead, cur.key, eq, cur.value);
      done := done + (lead + cur.key + eq + cur.value);
      cur, i := cur.next, i + 1;
    }
    RestEnd(fs, sep, eq, done);
    out[written] := NUL;
    return out, written;
  }

  lemma LengthZero(fs: seq<Field>, increment: nat)
    requires AllText(fs) && increment > 0
    ensures StringsLength(fs, increment) == 0 <==> fs == []
  {
  }

  lemma RestStart(fs: seq<Field>, sep: string, eq: string)
    requires AllText(fs)
    ensures "" + Rest(fs, 0, sep, eq) == Joined(fs, sep, eq)
  {
    assert fs[0..] == fs;
  }

  /** One sprintf of the writing loop. */
  method WriteField(out: array<char>, at: nat, lead: string, name: string, eq: string, value: string) returns (end: nat)
    requires at + |lead + name + eq + value| <= out.Length
    modifies out
    ensures end == at + |lead + name + eq + value|
    ensures out[..end] == old(out[..at]) + (lead + name + eq + value)
  {
    ghost var before := out[..at];
    assert before == before + "";
    end := Append(out, at, lead, before, "");
    assert "" + lead == lead;
    end := Append(out, end, name, before, lead);
    end := Append(out, end, eq, before, lead + name);
    end := Append(out, end, value, before, lead + name + eq);
  }

  /** What is left to write from field `i` on, with the separator that is due. */
  function Rest(fs: seq<Field>, i: nat, sep: string, eq: string): string
    requires AllText(fs) && i <= |fs|
  {
    (if 0 < i < |fs| then sep else "") + Joined(fs[i..], sep, eq)
  }

  lemma RestStep(fs: seq<Field>, i: nat, sep: string, eq: string, done: string)
    requires AllText(fs) && i < |fs|
    ensures var f, lead := fs[i], if i > 0 then sep else "";
            done + Rest(fs, i, sep, eq) == (done + (lead + f.name + eq + f.value)) + Rest(fs, i + 1, sep, eq)
  {
    assert fs[i..][0] == fs[i] && fs[i..][1..] == fs[i + 1..];
    var f, lead, next := fs[i], if i > 0 then sep else "", Joined(fs[i + 1..], sep, eq);
    assert Joined(fs[i..], sep, eq) == f.name + eq + f.value + (if i + 1 < |fs| then sep else "") + next;
  }

  lemma RestEnd(fs: seq<Field>, sep: string, eq: string, done: string)
    requires AllText(fs)
    ensures done + Rest(fs, |fs|, sep, eq) == done
  {
  }
}
