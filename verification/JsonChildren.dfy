/**
  The child lists of arrays and objects: doubly linked, without a tail pointer, the
  first node reached from the parent.  Each operation is its counterpart on the
  sequence of children.
*/
module JsonChildren {

  class Node {
    var next: Node?
    var prev: Node?

    constructor ()
      ensures next == null && prev == null
    {
      next, prev := null, null;
    }

    /** Belongs to no list. */
    predicate Detached()
      reads this
    {
      next == null && prev == null
    }
  }

  /** The position at which the walk with a countdown stops. */
  function Position(which: int): nat {
    if which > 0 then which else 0
  }

  function Removed<T>(s: seq<T>, k: nat): seq<T>
    requires k < |s|
  {
    s[..k] + s[k + 1..]
  }

  function Inserted<T>(s: seq<T>, k: nat, x: T): seq<T> {
    if k < |s| then s[..k] + [x] + s[k..] else s + [x]
  }

  function Replaced<T>(s: seq<T>, k: nat, x: T): seq<T> {
    if k < |s| then s[k := x] else s
  }

  /** A call that changes a child list. */
  datatype Edit =
    | Add(item: Node)
    | Insert(which: int, item: Node)
    | Detach(which: int)
    | Replace(which: int, item: Node)

  /** What a call makes of the sequence of children. */
  function Edited(s: seq<Node>, e: Edit): seq<Node> {
    match e
    case Add(item) => s + [item]
    case Insert(which, item) => Inserted(s, Position(which), item)
    case Detach(which) => if Position(which) < |s| then Removed(s, Position(which)) else s
    case Replace(which, item) => Replaced(s, Position(which), item)
  }

  function EditedAll(s: seq<Node>, edits: seq<Edit>): seq<Node>
    decreases |edits|
  {
    if edits == [] then s else EditedAll(Edited(s, edits[0]), edits[1..])
  }

  /** The node that a call brings in. */
  function Brought(e: Edit): set<Node> {
    if e.Detach? then {} else {e.item}
  }

  function AllBrought(edits: seq<Edit>): set<Node> {
    if edits == [] then {} else Brought(edits[0]) + AllBrought(edits[1..])
  }

  /** Which call brings in a node. */
  lemma {:induction false} BroughtBy(edits: seq<Edit>, n: Node) returns (i: nat)
    requires n in AllBrought(edits)
    ensures i < |edits| && !edits[i].Detach? && edits[i].item == n
    decreases |edits|
  {
    if n in Brought(edits[0]) {
      i := 0;
    } else {
      var k := BroughtBy(edits[1..], n);
      i := k + 1;
    }
  }

  /** The child that a call deletes: replacing a child frees it, detaching does not. */
  function Deleted(s: seq<Node>, e: Edit): set<Node> {
    if e.Replace? && Position(e.which) < |s| then {s[Position(e.which)]} else {}
  }

  /** Each call brings in a node that is out of the list at that time and has not been deleted. */
  predicate IsAllowed(s: seq<Node>, gone: set<Node>, edits: seq<Edit>)
    decreases |edits|
  {
    edits == []
    || ((forall n | n in Brought(edits[0]) :: n !in s && n !in gone)
        && IsAllowed(Edited(s, edits[0]), gone + Deleted(s, edits[0]), edits[1..]))
  }

  /** What a call leaves in the list, and what it takes out. */
  lemma StayOrGo(s: seq<Node>, e: Edit)
    ensures e.Add? || e.Insert? ==> forall n | n in s || n in Brought(e) :: n in Edited(s, e)
    ensures e.Detach? || e.Replace? ==>
              var k := Position(e.which);
              && (k < |s| ==> forall n | n in s && n != s[k] :: n in Edited(s, e))
              && (e.Replace? && k < |s| ==> e.item in Edited(s, e))
              && (k >= |s| ==> Edited(s, e) == s)
  {
    if e.Detach? || e.Replace? {
      var k := Position(e.which);
      if k < |s| {
        forall n | n in s && n != s[k] ensures n in Edited(s, e) {
          var i :| 0 <= i < |s| && s[i] == n;
          assert e.Detach? ==> n == Edited(s, e)[if i < k then i else i - 1];
          assert e.Replace? ==> n == Edited(s, e)[i];
        }
        assert e.Replace? ==> Edited(s, e)[k] == e.item;
      }
    } else {
      var k := if e.Add? then |s| else Position(e.which);
      var at := if k < |s| then k else |s|;
      assert Edited(s, e)[at] == e.item;
      forall n | n in s ensures n in Edited(s, e) {
        var i :| 0 <= i < |s| && s[i] == n;
        assert n == Edited(s, e)[if i < at then i else i + 1];
      }
    }
  }

  /** A call keeps nodes out of the list that it does not bring in. */
  lemma EditedItems(s: seq<Node>, e: Edit)
    ensures forall n | n in Edited(s, e) :: n in s || n in Brought(e)
  {
  }

  lemma TwoEdits(s: seq<Node>, e: Edit, e': Edit)
    ensures EditedAll(s, [e, e']) == Edited(Edited(s, e), e')
  {
    hide Edited;
    var edits, rest := [e, e'], [e'];
    assert edits[0] == e && edits[1..] == rest && rest[0] == e' && rest[1..] == [];
    assert EditedAll(Edited(s, e), rest) == EditedAll(Edited(Edited(s, e), e'), []);
  }

  lemma RemoveUndoesInsert<T>(s: seq<T>, k: nat, x: T)
    requires k < |s|
    ensures |Inserted(s, k, x)| == |s| + 1 && Removed(Inserted(s, k, x), k) == s
    ensures Removed(s + [x], |s|) == s
  {
  }

  lemma InsertUndoesRemove<T>(s: seq<T>, k: nat)
    requires k < |s|
    ensures Inserted(Removed(s, k), k, s[k]) == s
  {
    var r := Removed(s, k);
    if k < |r| {
      assert r[..k] + [s[k]] + r[k..] == s;
    } else {
      assert r + [s[k]] == s;
    }
  }

  lemma DetachUndoes(s: seq<Node>, k: nat, x: Node)
    requires k < |s|
    ensures Edited(Edited(s, Insert(k, x)), Detach(k)) == s
    ensures Edited(Edited(s, Add(x)), Detach(|s|)) == s
  {
    RemoveUndoesInsert(s, k, x);
    hide Inserted, Removed, Replaced;
  }

  lemma InsertUndoes(s: seq<Node>, k: nat)
    requires k < |s|
    ensures Edited(Edited(s, Detach(k)), Insert(k, s[k])) == s
  {
    InsertUndoesRemove(s, k);
    hide Inserted, Removed, Replaced;
  }

  predicate Distinct<T(==)>(s: seq<T>) {
    forall i, j | 0 <= i < j < |s| :: s[i] != s[j]
  }

  /** Runs of two calls: the second one uses no node that the first one put in or deleted. */
  lemma AllowedPair(s: seq<Node>, e: Edit, e': Edit)
    requires forall n | n in Brought(e) :: n !in s
    requires forall n | n in Brought(e') :: n !in Edited(s, e) && n !in Deleted(s, e)
    ensures IsAllowed(s, {}, [e, e'])
  {
    hide Edited, Deleted, Brought;
    var edits, rest := [e, e'], [e'];
    assert edits[0] == e && edits[1..] == rest && rest[0] == e' && rest[1..] == [];
    assert IsAllowed(Edited(Edited(s, e), e'), {} + Deleted(s, e) + Deleted(Edited(s, e), e'), []);
    assert IsAllowed(Edited(s, e), {} + Deleted(s, e), rest);
  }

  lemma RemovedIsOut(s: seq<Node>, k: nat)
    requires Distinct(s) && k < |s|
    ensures s[k] !in Removed(s, k)
  {
  }

  lemma AllowedRuns(s: seq<Node>, k: nat, x: Node, y: Node)
    requires k < |s| && Distinct(s) && x !in s && y !in s && x != y
    ensures IsAllowed(s, {}, [Insert(k, x), Detach(k)]) && IsAllowed(s, {}, [Add(x), Detach(|s|)])
    ensures IsAllowed(s, {}, [Detach(k), Insert(k, s[k])])
    ensures IsAllowed(s, {}, [Replace(k, x), Replace(k, y)])
  {
    RemovedIsOut(s, k);
    EditedItems(s, Replace(k, x));
    hide Removed, Inserted, Replaced, IsAllowed, Distinct;
    AllowedPair(s, Insert(k, x), Detach(k));
    AllowedPair(s, Add(x), Detach(|s|));
    AllowedPair(s, Detach(k), Insert(k, s[k]));
    AllowedPair(s, Replace(k, x), Replace(k, y));
  }

  lemma ReplaceReplaces(s: seq<Node>, k: nat, x: Node, y: Node)
    requires k < |s|
    ensures Edited(Edited(s, Replace(k, x)), Replace(k, y)) == Edited(s, Replace(k, y))
  {
    hide Inserted, Removed;
  }

  lemma PastTheEnd(s: seq<Node>, x: Node)
    ensures forall j | j >= |s| :: Edited(s, Insert(j, x)) == Edited(s, Add(x)) && Edited(s, Detach(j)) == s
    ensures forall j | j < 0 ::
              Edited(s, Insert(j, x)) == Edited(s, Insert(0, x)) && Edited(s, Detach(j)) == Edited(s, Detach(0))
  {
  }

  /**
    Inserting and then detaching at the same place, and putting a detached child back,
    leave a list as it was; of two replacements the second counts; past the end, inserting
    is adding and detaching does nothing, and a negative position is the first.  The runs
    are runs that callers may make.
  */
  lemma ListLaws(s: seq<Node>, k: nat, x: Node, y: Node)
    requires k < |s|
    ensures EditedAll(s, [Insert(k, x), Detach(k)]) == s
    ensures EditedAll(s, [Detach(k), Insert(k, s[k])]) == s
    ensures EditedAll(s, [Replace(k, x), Replace(k, y)]) == Edited(s, Replace(k, y))
    ensures EditedAll(s, [Add(x), Detach(|s|)]) == s
    ensures forall j | j >= |s| :: Edited(s, Insert(j, x)) == Edited(s, Add(x)) && Edited(s, Detach(j)) == s
    ensures forall j | j < 0 ::
              Edited(s, Insert(j, x)) == Edited(s, Insert(0, x)) && Edited(s, Detach(j)) == Edited(s, Detach(0))
    ensures Distinct(s) && x !in s && y !in s && x != y ==>
              && IsAllowed(s, {}, [Insert(k, x), Detach(k)]) && IsAllowed(s, {}, [Detach(k), Insert(k, s[k])])
              && IsAllowed(s, {}, [Replace(k, x), Replace(k, y)]) && IsAllowed(s, {}, [Add(x), Detach(|s|)])
  {
    PastTheEnd(s, x);
    hide EditedAll, Edited, Inserted, Removed, Replaced, IsAllowed, Distinct;
    if Distinct(s) && x !in s && y !in s && x != y {
      AllowedRuns(s, k, x, y);
    }
    TwoEdits(s, Insert(k, x), Detach(k));
    TwoEdits(s, Detach(k), Insert(k, s[k]));
    TwoEdits(s, Replace(k, x), Replace(k, y));
    TwoEdits(s, Add(x), Detach(|s|));
    DetachUndoes(s, k, x);
    InsertUndoes(s, k);
    ReplaceReplaces(s, k, x, y);
  }

  lemma DistinctAt<T>(s: seq<T>, k: nat)
    requires Distinct(s)
    ensures k < |s| ==> forall i | 0 <= i < |s| && i != k :: s[i] != s[k]
  {
  }

  lemma RemovedKeeps<T>(s: seq<T>, k: nat)
    requires Distinct(s) && k < |s|
    ensures var r := Removed(s, k);
            && Distinct(r) && |r| == |s| - 1
            && (forall i {:trigger r[i]} | 0 <= i < k :: r[i] == s[i])
            && (forall i {:trigger r[i]} | k <= i < |r| :: r[i] == s[i + 1])
  {
  }

  lemma InsertedKeeps<T>(s: seq<T>, k: nat, x: T)
    requires Distinct(s) && k < |s| && x !in s
    ensures var r := Inserted(s, k, x);
            && Distinct(r) && |r| == |s| + 1
            && forall i {:trigger r[i]} | 0 <= i < |r| :: r[i] == if i < k then s[i] else if i == k then x else s[i - 1]
  {
  }

  lemma ReplacedKeeps<T>(s: seq<T>, k: nat, x: T)
    requires Distinct(s) && k < |s| && x !in s
    ensures var r := Replaced(s, k, x);
            Distinct(r) && |r| == |s| && forall i {:trigger r[i]} | 0 <= i < |r| :: r[i] == if i == k then x else s[i]
  {
  }

  class Parent {
    var child: Node?
    /** The children, first to last. */
    ghost var items: seq<Node>

    /** `next` and `prev` run through the children in both directions and end at both ends. */
    ghost predicate Valid()
      reads this, items
    {
      && Distinct(items)
      && child == (if items == [] then null else items[0])
      && (forall i | 0 <= i < |items| :: LinksAt(i))
    }

    /** The child at `i` points to its neighbours, or nowhere at the ends. */
    ghost predicate LinksAt(i: nat)
      reads this, items
      requires i < |items|
    {
      && items[i].next == (if i + 1 < |items| then items[i + 1] else null)
      && items[i].prev == (if i > 0 then items[i - 1] else null)
    }

    constructor ()
      ensures Valid() && items == []
    {
      child, items := null, [];
    }

    /** Walks `which` steps along the list. */
    method Walk(which0: int) returns (c: Node?)
      requires Valid()
      ensures c == if Position(which0) < |items| then items[Position(which0)] else null
    {
      c := child;
      var which := which0;
      ghost var i := 0;
      while c != null && which > 0
        invariant i <= |items| && c == if i < |items| then items[i] else null
        invariant Position(which) + i == Position(which0)
        decreases |items| - i
      {
        assert LinksAt(i);
        c, which, i := c.next, which - 1, i + 1;
      }
    }

    /** Can be added at the end: what the links of the node are is only changed where there is a neighbour. */
    ghost predicate CanAppend(item: Node)
      reads this, item
    {
      item.next == null && (items == [] ==> item.prev == null)
    }

    /** Adds at the end. */
    method AddItem(item: Node)
      requires Valid() && item !in items && CanAppend(item)
      modifies this, items, item
      ensures Valid() && items == old(items) + [item]
    {
      var c := child;
      if c == null {
        child := item;
      } else {
        ghost var i := 0;
        while c.next != null
          invariant i < |items| && c == items[i]
          decreases |items| - i
        {
          assert LinksAt(i);
          c, i := c.next, i + 1;
        }
        assert LinksAt(i);
        assert i == |items| - 1;
        DistinctAt(items, i);
        c.next := item;
        item.prev := c;
      }
      items := items + [item];
      forall i | 0 <= i < |items| ensures LinksAt(i) {
        assert i < |old(items)| ==> old(LinksAt(i));
      }
    }

    /** Takes a child out of the list; null if there is none at that position. */
    method DetachItem(which: int) returns (c: Node?)
      requires Valid()
      modifies this, items
      ensures Valid()
      ensures Position(which) >= |old(items)| ==> c == null && items == old(items)
      ensures Position(which) < |old(items)| ==>
                c == old(items)[Position(which)] && c.Detached() && items == Removed(old(items), Position(which))
    {
      c := Walk(which);
      if c == null {
        return;
      }
      ghost var k := Position(which);
      DistinctAt(items, k);
      DistinctAt(items, k + 1);
      if k > 0 { DistinctAt(items, k - 1); }
      RemovedKeeps(items, k);
      hide Distinct, Removed;
      assert LinksAt(k);
      if c.prev != null {
        c.prev.next := c.next;
      }
      if c.next != null {
        c.next.prev := c.prev;
      }
      if c == child {
        child := c.next;
      }
      c.prev, c.next := null, null;
      items := Removed(items, k);
      forall i | 0 <= i < |items| ensures LinksAt(i) {
        assert old(LinksAt(if i < k then i else i + 1));
      }
    }

    /** Inserts before the child at a position, or at the end if there is none. */
    method InsertItem(which: int, newItem: Node)
      requires Valid() && newItem !in items && (Position(which) >= |items| ==> CanAppend(newItem))
      modifies this, items, newItem
      ensures Valid() && items == Inserted(old(items), Position(which), newItem)
    {
      var c := Walk(which);
      if c == null {
        AddItem(newItem);
        return;
      }
      ghost var k := Position(which);
      DistinctAt(items, k);
      if k > 0 { DistinctAt(items, k - 1); }
      InsertedKeeps(items, k, newItem);
      hide Distinct, Inserted;
      assert LinksAt(k);
      newItem.next := c;
      newItem.prev := c.prev;
      c.prev := newItem;
      if c == child {
        child := newItem;
      } else {
        newItem.prev.next := newItem;
      }
      items := Inserted(items, k, newItem);
      forall i | 0 <= i < |items| ensures LinksAt(i) {
        assert i < k ==> old(LinksAt(i));
        assert i > k ==> old(LinksAt(i - 1));
      }
    }

    /** Puts a node in the place of the child at a position, which leaves the list; the source then deletes it. */
    method ReplaceItem(which: int, newItem: Node)
      requires Valid() && newItem !in items
      modifies this, items, newItem
      ensures Valid() && items == Replaced(old(items), Position(which), newItem)
      ensures Position(which) < |old(items)| ==> old(items)[Position(which)].Detached()
      ensures Position(which) >= |old(items)| ==> newItem.next == old(newItem.next) && newItem.prev == old(newItem.prev)
    {
      var c := Walk(which);
      if c == null {
        return;
      }
      ghost var k := Position(which);
      DistinctAt(items, k);
      DistinctAt(items, k + 1);
      if k > 0 { DistinctAt(items, k - 1); }
      ReplacedKeeps(items, k, newItem);
      hide Distinct, Replaced;
      assert LinksAt(k);
      newItem.next := c.next;
      newItem.prev := c.prev;
      if newItem.next != null {
        newItem.next.prev := newItem;
      }
      if c == child {
        child := newItem;
      } else {
        newItem.prev.next := newItem;
      }
      c.next, c.prev := null, null;
      items := Replaced(items, k, newItem);
      forall i | 0 <= i < |items| ensures LinksAt(i) {
        assert old(LinksAt(i));
      }
    }

    /** Every node is in the list or detached. */
    ghost predicate AreReady(nodes: set<Node>)
      reads this, nodes
    {
      forall n | n in nodes :: n in items || n.Detached()
    }

    /** A single call; what it takes out of the list is detached. */
    method Apply(e: Edit)
      requires Valid() && (!e.Detach? ==> e.item !in items && e.item.Detached())
      modifies this, items, Brought(e)
      ensures Valid() && items == Edited(old(items), e)
      ensures forall n | n in old(items) || n in Brought(e) :: n in items || n.Detached()
    {
      StayOrGo(items, e);
      match e {
        case Add(item) => AddItem(item);
        case Insert(which, item) => InsertItem(which, item);
        case Detach(which) => var _ := DetachItem(which);
        case Replace(which, item) => ReplaceItem(which, item);
      }
    }

    /**
      Any run of calls, each with a node that is then out of the list and not deleted, keeps the
      links right and is the run of their counterparts on the sequence.
    */
    method Run(edits: seq<Edit>, ghost gone: set<Node>)
      requires Valid() && AreReady(AllBrought(edits)) && IsAllowed(items, gone, edits)
      modifies this, items, AllBrought(edits)
      ensures Valid() && items == EditedAll(old(items), edits)
      decreases |edits|
    {
      hide Valid, Edited, Deleted;
      if edits != [] {
        var e := edits[0];
        EditedItems(items, e);
        ghost var later, before := AllBrought(edits[1..]), items;
        assert Brought(e) <= AllBrought(edits) && later <= AllBrought(edits);
        assert forall n | n in later :: n in before || n in Brought(e) || n.Detached();
        Apply(e);
        forall n | n in later ensures n in items || n.Detached() {
          var i := BroughtBy(edits, n);
          assert n == edits[i].item;
        }
        Run(edits[1..], gone + Deleted(before, e));
      }
    }
  }
}
