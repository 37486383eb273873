/**
  Editing the children of an array or object: append, insert, detach and replace rewire
  the doubly linked list exactly as the corresponding edit of the sequence of children.

  The item that is added is fresh or detached: it is in no list, and its blocks are not
  the parent's.
*/
module ChildList {
  import opened Bytes
  import opened Json
  import opened Nodes

  function Insert<T>(s: seq<T>, i: nat, x: T): seq<T>
    requires i <= |s|
  {
    s[..i] + [x] + s[i..]
  }

  function Min(a: int, b: int): int {
    if a < b then a else b
  }

  function Remove<T>(s: seq<T>, i: nat): seq<T>
    requires i < |s|
  {
    s[..i] + s[i + 1..]
  }

  /** Inserting moves what stands from i on by one, and removing undoes it. */
  lemma InsertPlaces<T>(s: seq<T>, i: nat, x: T)
    requires i <= |s|
    ensures |Insert(s, i, x)| == |s| + 1 && Insert(s, i, x)[i] == x
    ensures forall k | 0 <= k < |s| :: Insert(s, i, x)[if k < i then k else k + 1] == s[k]
    ensures Remove(Insert(s, i, x), i) == s
  {
    assert Remove(Insert(s, i, x), i) == s[..i] + s[i..];
  }

  /** A node whose children are a well-linked list of trees it owns. */
  ghost predicate Listed(parent: Node)
    reads parent, parent.repr
    ensures Listed(parent) ==> forall o | o in parent.repr :: o is Node || o is array<byte>
  {
    parent.Owned() && parent.KidsBackward()
  }

  /** A tree in no list. */
  ghost predicate Loose(item: Node)
    reads item, item.repr
    ensures Loose(item) ==> forall o | o in item.repr :: o is Node || o is array<byte>
  {
    item.Owned() && item.next == null && item.prev == null
  }

  lemma InsertAt<T>(s: seq<T>, i: nat, x: T)
    requires i <= |s|
    ensures |Insert(s, i, x)| == |s| + 1
    ensures forall k {:trigger Insert(s, i, x)[k]} | 0 <= k <= |s| ::
      Insert(s, i, x)[k] == if k < i then s[k] else if k == i then x else s[k - 1]
  {
  }

  lemma InsertLast<T>(s: seq<T>, x: T)
    ensures Insert(s, |s|, x) == s + [x]
  {
  }

  lemma RemoveAt<T>(s: seq<T>, i: nat)
    requires i < |s|
    ensures |Remove(s, i)| == |s| - 1
    ensures forall k {:trigger Remove(s, i)[k]} | 0 <= k < |s| - 1 ::
      Remove(s, i)[k] == if k < i then s[k] else s[k + 1]
  {
  }

  lemma InsertRemove<T>(s: seq<T>, i: nat, x: T)
    requires i < |s|
    ensures |Insert(s, i, x)| == |s| + 1 && Insert(s, i, x)[i + 1] == s[i]
      && Remove(Insert(s, i, x), i + 1) == s[i := x]
  {
  }

  lemma InsertHas<T>(s: seq<T>, i: nat, x: T)
    requires i <= |s|
    ensures x in Insert(s, i, x) && forall y | y in s :: y in Insert(s, i, x)
  {
    assert s == s[..i] + s[i..];
  }

  lemma RemoveHas<T>(s: seq<T>, i: nat)
    requires i < |s|
    ensures forall y | y in Remove(s, i) :: y in s
  {
  }

  // ---- Blocks of edited lists ----

  lemma {:induction false} InBlocks(ns: seq<Node>, o: object)
    ensures o in Blocks(ns) <==> exists i | 0 <= i < |ns| :: o in ns[i].repr
  {
    if o in Blocks(ns) {
      var last := |ns| - 1;
      if o !in ns[last].repr {
        InBlocks(ns[..last], o);
        var i :| 0 <= i < last && o in ns[..last][i].repr;
        assert o in ns[i].repr;
      }
    } else {
      forall i | 0 <= i < |ns| ensures o !in ns[i].repr {
        BlocksHave(ns, i);
      }
    }
  }

  lemma BlocksOfInsert(ns: seq<Node>, i: nat, n: Node)
    requires i <= |ns| && Disjoint(ns) && n.repr !! Blocks(ns)
    ensures Blocks(Insert(ns, i, n)) == Blocks(ns) + n.repr
    ensures Disjoint(Insert(ns, i, n))
  {
    hide Blocks;
    var ms := Insert(ns, i, n);
    assert forall k | 0 <= k < |ms| :: ms[k] == if k < i then ns[k] else if k == i then n else ns[k - 1];
    forall o | o in Blocks(ms) ensures o in Blocks(ns) + n.repr {
      InBlocks(ms, o);
      InBlocks(ns, o);
    }
    forall o | o in Blocks(ns) + n.repr ensures o in Blocks(ms) {
      InBlocks(ms, o);
      InBlocks(ns, o);
      if k :| 0 <= k < |ns| && o in ns[k].repr {
        assert ms[if k < i then k else k + 1] == ns[k];
      }
      assert ms[i] == n;
    }
    forall k | 0 <= k < |ns| ensures ns[k].repr <= Blocks(ns) {
      BlocksHave(ns, k);
    }
    forall a, b | 0 <= a < b < |ms| ensures ms[a].repr !! ms[b].repr {
      if a != i && b != i {
        assert ms[a] == ns[if a < i then a else a - 1] && ms[b] == ns[if b < i then b else b - 1];
      } else if a == i {
        assert ms[b] == ns[b - 1];
      } else {
        assert ms[a] == ns[a];
      }
    }
  }

  lemma BlocksOfRemove(ns: seq<Node>, i: nat)
    requires i < |ns| && Disjoint(ns)
    ensures Blocks(ns) == Blocks(Remove(ns, i)) + ns[i].repr
    ensures Blocks(Remove(ns, i)) !! ns[i].repr
    ensures Disjoint(Remove(ns, i))
  {
    hide Blocks;
    var ms := Remove(ns, i);
    assert forall k | 0 <= k < |ms| :: ms[k] == if k < i then ns[k] else ns[k + 1];
    forall o | o in Blocks(ns) ensures o in Blocks(ms) + ns[i].repr {
      InBlocks(ms, o);
      InBlocks(ns, o);
      if k :| 0 <= k < |ns| && k != i && o in ns[k].repr {
        assert ms[if k < i then k else k - 1] == ns[k];
      }
    }
    forall o | o in Blocks(ms) ensures o in Blocks(ns) && o !in ns[i].repr {
      InBlocks(ms, o);
      InBlocks(ns, o);
      if k :| 0 <= k < |ms| && o in ms[k].repr {
        assert ms[k] == ns[if k < i then k else k + 1];
      }
    }
    BlocksHave(ns, i);
    forall a, b | 0 <= a < b < |ms| ensures ms[a].repr !! ms[b].repr {
      assert ms[a] == ns[if a < i then a else a + 1] && ms[b] == ns[if b < i then b else b + 1];
    }
  }

  // ---- Trees that can be put in a list ----

  /** What the trees of a list own besides their roots. */
  ghost function Inner(ns: seq<Node>): (inner: set<object>)
    reads ns`repr
    ensures forall i | 0 <= i < |ns| :: ns[i].repr - {ns[i]} <= inner
  {
    set i, o | 0 <= i < |ns| && o in ns[i].repr && o != ns[i] :: o
  }

  /** These trees could be the children of the node: whatever their links, they are separate. */
  ghost predicate Arranged(parent: Node, ns: seq<Node>)
    reads parent`valuestring, parent`name, Optional(parent.valuestring), Optional(parent.name)
    reads ns`child, ns`valuestring, ns`name, ns`kids, ns`repr, Inner(ns)
  {
    && (forall i | 0 <= i < |ns| :: ns[i].Owned())
    && Disjoint(ns)
    && ({parent} + Optional(parent.valuestring) + Optional(parent.name)) !! Blocks(ns)
    && (parent.valuestring != null ==> parent.valuestring != parent.name)
    && HoldsText(parent.valuestring) && HoldsText(parent.name)
  }

  lemma ListedArranged(parent: Node)
    requires Listed(parent)
    ensures Arranged(parent, parent.kids)
    ensures Forward(parent.child, parent.kids) && Backward(parent.kids)
    ensures parent.repr == {parent} + Optional(parent.valuestring) + Optional(parent.name) + Blocks(parent.kids)
  {
    hide Node.Owned, Blocks, Disjoint;
    OwnedParts(parent);
    assert parent.Owned() && parent.KidsBackward();
  }

  lemma ArrangedListed(parent: Node)
    requires Arranged(parent, parent.kids)
    requires Forward(parent.child, parent.kids) && Backward(parent.kids)
    requires parent.repr == {parent} + Optional(parent.valuestring) + Optional(parent.name) + Blocks(parent.kids)
    ensures Listed(parent)
  {
    hide Node.Owned, Blocks, Disjoint;
    OwnedIntro(parent);
  }

  /** No root is a block of another tree, and the parent is a block of none. */
  lemma ArrangedApart(parent: Node, ns: seq<Node>) returns (inner: set<object>)
    requires Arranged(parent, ns)
    ensures inner == Inner(ns)
    ensures parent !in inner && forall n | n in ns :: n !in inner && n != parent
    ensures Distinct(ns)
  {
    hide Node.Owned, Blocks;
    inner := Inner(ns);
    forall i | 0 <= i < |ns| ensures ns[i].repr <= Blocks(ns) && ns[i] in ns[i].repr {
      BlocksHave(ns, i);
    }
    forall i, j | 0 <= i < j < |ns| ensures ns[i] != ns[j] {
      assert ns[i].repr !! ns[j].repr;
    }
    forall n | n in ns ensures n !in Inner(ns) {
      var j :| 0 <= j < |ns| && n == ns[j];
      forall i | 0 <= i < |ns| ensures n == ns[i] || n !in ns[i].repr {
        assert if i < j then ns[i].repr !! ns[j].repr else i == j || ns[j].repr !! ns[i].repr;
      }
    }
  }

  lemma ArrangedInsert(parent: Node, ns: seq<Node>, i: nat, n: Node)
    requires Arranged(parent, ns) && i <= |ns| && n.Owned()
    requires n.repr !! {parent} + Optional(parent.valuestring) + Optional(parent.name) + Blocks(ns)
    ensures Arranged(parent, Insert(ns, i, n)) && n !in ns
    ensures Blocks(Insert(ns, i, n)) == Blocks(ns) + n.repr
  {
    hide Node.Owned, Blocks, Disjoint;
    BlocksOfInsert(ns, i, n);
    forall k | 0 <= k < |ns| ensures n != ns[k] {
      BlocksHave(ns, k);
    }
  }

  lemma ArrangedRemove(parent: Node, ns: seq<Node>, i: nat)
    requires Arranged(parent, ns) && i < |ns|
    ensures Arranged(parent, Remove(ns, i)) && ns[i].Owned()
    ensures ns[i].repr !! {parent} + Optional(parent.valuestring) + Optional(parent.name) + Blocks(Remove(ns, i))
    ensures Blocks(ns) == Blocks(Remove(ns, i)) + ns[i].repr
  {
    hide Node.Owned, Blocks, Disjoint;
    BlocksOfRemove(ns, i);
  }

  lemma Swapped(blocks: set<object>, kids: set<object>, before: set<object>, after: set<object>, rest: set<object>)
    requires kids + after == rest + before && rest !! before && after <= rest && kids <= blocks
    ensures blocks - before + after == blocks - kids + rest
  {
    forall o ensures o in blocks - before + after <==> o in blocks - kids + rest {
      assert o in kids + after <==> o in rest + before;
    }
  }

  // ---- What the children stand for ----

  /** An array or object with these children; the elements of an array have no keys. */
  function Branch(kind: Kind, members: seq<Member>): J {
    if kind == KArray then Arr(Values(members)) else Obj(members)
  }

  /** The item stands for a member of such a branch: for its value, under its key in an object. */
  ghost predicate StandsFor(item: Node, kind: Kind, m: Member)
    reads item`child, item`valuestring, item`name, item`kids, item`repr, item.repr - {item}
    reads item`kind, item`valueint, item`valuedouble
  {
    && item.Owned() && item.Denotes(m.value) && Printable(m.value)
    && (kind == KObject ==> item.name != null && Holds(item.name, m.key))
  }

  ghost predicate AllStandFor(ns: seq<Node>, kind: Kind, members: seq<Member>)
    reads ns`child, ns`valuestring, ns`name, ns`kids, ns`repr, Inner(ns), ns`kind, ns`valueint, ns`valuedouble
  {
    |ns| == |members| && forall i | 0 <= i < |ns| :: StandsFor(ns[i], kind, members[i])
  }

  /** The parent stands for an array or object with these children. */
  ghost predicate Lists(parent: Node, members: seq<Member>)
    reads parent, parent.repr
  {
    (parent.kind == KArray || parent.kind == KObject) && Stands(parent, Branch(parent.kind, members))
  }

  lemma ListsChildren(parent: Node, members: seq<Member>)
    requires Lists(parent, members)
    ensures parent.kind == KArray || parent.kind == KObject
    ensures parent.valuestring == null && AllStandFor(parent.kids, parent.kind, members)
    ensures |members| == |parent.kids|
  {
    if parent.kind == KArray {
      assert forall i | 0 <= i < |members| :: Values(members)[i] in Values(members);
    }
  }

  lemma ChildrenList(parent: Node, members: seq<Member>)
    requires Listed(parent) && (parent.kind == KArray || parent.kind == KObject) && parent.valuestring == null
    requires AllStandFor(parent.kids, parent.kind, members)
    ensures Lists(parent, members)
  {
    hide Node.Owned, Holds;
    assert forall i | 0 <= i < |members| :: StandsFor(parent.kids[i], parent.kind, members[i]);
    if parent.kind == KArray {
      ArrayOf(parent, Values(members));
    } else {
      ObjectOf(parent, members);
    }
  }

  lemma ArrayOf(parent: Node, items: seq<J>)
    requires Listed(parent) && parent.kind == KArray && parent.valuestring == null && |parent.kids| == |items|
    requires forall i | 0 <= i < |items| ::
      parent.kids[i].Owned() && parent.kids[i].Denotes(items[i]) && Printable(items[i])
    ensures Stands(parent, Arr(items))
  {
    hide Node.Owned;
  }

  lemma ObjectOf(parent: Node, members: seq<Member>)
    requires Listed(parent) && parent.kind == KObject && parent.valuestring == null && |parent.kids| == |members|
    requires forall i | 0 <= i < |members| ::
      && parent.kids[i].Owned() && parent.kids[i].Denotes(members[i].value) && Printable(members[i].value)
      && parent.kids[i].name != null && Holds(parent.kids[i].name, members[i].key)
    ensures Stands(parent, Obj(members))
  {
    hide Node.Owned, Holds;
  }

  lemma AllListed(parent: Node)
    ensures forall members | Lists(parent, members) ::
      && (parent.kind == KArray || parent.kind == KObject) && |members| == |parent.kids|
      && parent.valuestring == null && AllStandFor(parent.kids, parent.kind, members)
  {
    hide Lists, AllStandFor;
    forall members | Lists(parent, members)
      ensures (parent.kind == KArray || parent.kind == KObject) && |members| == |parent.kids|
      ensures parent.valuestring == null && AllStandFor(parent.kids, parent.kind, members)
    {
      ListsChildren(parent, members);
    }
  }

  lemma InsertStands(ns: seq<Node>, kind: Kind, members: seq<Member>, i: nat, n: Node, m: Member)
    requires AllStandFor(ns, kind, members) && i <= |ns| && StandsFor(n, kind, m)
    ensures AllStandFor(Insert(ns, i, n), kind, Insert(members, i, m))
  {
    hide StandsFor;
    InsertAt(ns, i, n);
    InsertAt(members, i, m);
  }

  lemma RemoveStands(ns: seq<Node>, kind: Kind, members: seq<Member>, i: nat)
    requires AllStandFor(ns, kind, members) && i < |ns|
    ensures AllStandFor(Remove(ns, i), kind, Remove(members, i)) && StandsFor(ns[i], kind, members[i])
  {
    hide StandsFor;
    RemoveAt(ns, i);
    RemoveAt(members, i);
  }

  // ---- Rewiring ----

  ghost predicate Distinct(ns: seq<Node>) {
    forall i, j | 0 <= i < j < |ns| :: ns[i] != ns[j]
  }

  lemma DistinctWithout(ns: seq<Node>, i: nat, n: Node)
    requires i <= |ns| && Distinct(Insert(ns, i, n))
    ensures Distinct(ns)
  {
    InsertAt(ns, i, n);
    var ms := Insert(ns, i, n);
    hide Insert;
    assert forall k | 0 <= k < |ns| :: ns[k] == ms[if k < i then k else k + 1];
  }

  /** The pointer updates of add_item_to_array. */
  method LinkLast(parent: Node, item: Node)
    requires Forward(parent.child, parent.kids) && Backward(parent.kids)
    requires Distinct(parent.kids) && item !in parent.kids && item.next == null
    modifies parent`child, parent`kids, parent`repr, parent.kids`next, parent.kids`prev, item`next, item`prev
    ensures parent.kids == old(parent.kids) + [item] && parent.repr == old(parent.repr) + item.repr
    ensures Forward(parent.child, parent.kids) && Backward(parent.kids)
  {
    var child := parent.child;
    if child == null {
      parent.child := item;
      item.prev := item;
      item.next := null;
    } else {
      // child.prev is the last child, never null
      var last := child.prev;
      last.next := item;
      item.prev := last;
      parent.child.prev := item;
    }
    parent.kids := parent.kids + [item];
    parent.repr := parent.repr + item.repr;
  }

  /** The pointer updates of cJSON_InsertItemInArray, node by node. */
  method LinkBefore(parent: Node, after: Node, item: Node, ghost ns: seq<Node>, ghost i: nat)
    requires Forward(parent.child, ns) && Backward(ns)
    requires Distinct(ns) && item !in ns && i < |ns| && after == ns[i]
    modifies parent`child, ns`next, ns`prev, item`next, item`prev
    ensures item.next == after && item.prev == old(after.prev) && after.prev == item
    ensures parent.child == if i == 0 then item else ns[0]
    ensures forall k {:trigger ns[k].next} | 0 <= k < |ns| :: ns[k].next == if k + 1 == i then item else old(ns[k].next)
    ensures forall k {:trigger ns[k].prev} | 0 <= k < |ns| && k != i :: ns[k].prev == old(ns[k].prev)
  {
    item.next := after;
    item.prev := after.prev;
    after.prev := item;
    if after == parent.child {
      parent.child := item;
    } else {
      item.prev.next := item;
    }
  }

  /** The pointer updates of cJSON_DetachItemViaPointer, node by node. */
  method Unlink(parent: Node, item: Node, ghost ns: seq<Node>, ghost i: nat)
    requires Forward(parent.child, ns) && Backward(ns)
    requires Distinct(ns) && i < |ns| && item == ns[i]
    modifies parent`child, ns`next, ns`prev
    ensures item.next == null && item.prev == null
    ensures parent.child == if i == 0 then old(item.next) else ns[0]
    ensures forall k {:trigger ns[k].next} | 0 <= k < |ns| && k != i ::
      ns[k].next == if k + 1 == i then old(item.next) else old(ns[k].next)
    ensures forall k {:trigger ns[k].prev} | 0 <= k < |ns| && k != i ::
      ns[k].prev == if k == i + 1 || (k == 0 && i + 1 == |ns|) then old(item.prev) else old(ns[k].prev)
  {
    if item != parent.child {
      item.prev.next := item.next;
    }
    if item.next != null {
      item.next.prev := item.prev;
    }
    if item == parent.child {
      parent.child := item.next;
    } else if item.next == null {
      parent.child.prev := item.prev;
    }
    item.prev := null;
    item.next := null;
  }

  /** The pointer updates of cJSON_ReplaceItemViaPointer, node by node. */
  method Relink(parent: Node, item: Node, replacement: Node, ghost ns: seq<Node>, ghost i: nat)
    requires Forward(parent.child, ns) && Backward(ns)
    requires Distinct(ns) && i < |ns| && item == ns[i] && replacement !in ns
    modifies parent`child, ns`next, ns`prev, replacement`next, replacement`prev
    ensures item.next == null && item.prev == null
    ensures replacement.next == old(item.next)
    ensures replacement.prev == if |ns| == 1 then replacement else old(item.prev)
    ensures parent.child == if i == 0 then replacement else ns[0]
    ensures forall k {:trigger ns[k].next} | 0 <= k < |ns| && k != i ::
      ns[k].next == if k + 1 == i then replacement else old(ns[k].next)
    ensures forall k {:trigger ns[k].prev} | 0 <= k < |ns| && k != i ::
      ns[k].prev == if k == i + 1 || (k == 0 && i + 1 == |ns|) then replacement else old(ns[k].prev)
  {
    replacement.next := item.next;
    replacement.prev := item.prev;
    if replacement.next != null {
      replacement.next.prev := replacement;
    }
    if parent.child == item {
      if parent.child.prev == parent.child {
        replacement.prev := replacement;
      }
      parent.child := replacement;
    } else {
      if replacement.prev != null {
        replacement.prev.next := replacement;
      }
      if replacement.next == null {
        parent.child.prev := replacement;
      }
    }
    item.next := null;
    item.prev := null;
  }

  // ---- Splicing: the chain after an edit runs through the edited sequence ----

  method SpliceIn(parent: Node, after: Node, item: Node, ghost i: nat)
    requires Forward(parent.child, parent.kids) && Backward(parent.kids)
    requires Distinct(parent.kids) && item !in parent.kids
    requires i < |parent.kids| && after == parent.kids[i]
    modifies parent`child, parent`kids, parent`repr, parent.kids`next, parent.kids`prev, item`next, item`prev
    ensures parent.kids == Insert(old(parent.kids), i, item)
    ensures parent.repr == old(parent.repr) + old(item.repr)
    ensures Forward(parent.child, parent.kids) && Backward(parent.kids)
  {
    ghost var ns := parent.kids;
    InsertAt(ns, i, item);
    hide Insert, Distinct;
    LinkBefore(parent, after, item, ns, i);
    ghost var ms := Insert(ns, i, item);
    assert Forward(parent.child, ms);
    assert Backward(ms);
    hide Forward, Backward;
    parent.repr := parent.repr + item.repr;
    parent.kids := ms;
  }

  method SpliceOut(parent: Node, item: Node, ghost i: nat)
    requires Forward(parent.child, parent.kids) && Backward(parent.kids)
    requires Distinct(parent.kids) && i < |parent.kids| && item == parent.kids[i]
    modifies parent`child, parent`kids, parent`repr, parent.kids`next, parent.kids`prev
    ensures parent.kids == Remove(old(parent.kids), i)
    ensures parent.repr == old(parent.repr) - old(item.repr)
    ensures Forward(parent.child, parent.kids) && Backward(parent.kids)
    ensures item.next == null && item.prev == null
  {
    ghost var ns := parent.kids;
    RemoveAt(ns, i);
    hide Remove, Distinct;
    Unlink(parent, item, ns, i);
    ghost var ms := Remove(ns, i);
    assert Forward(parent.child, ms);
    assert Backward(ms);
    hide Forward, Backward;
    parent.repr := parent.repr - item.repr;
    parent.kids := ms;
  }

  method SpliceOver(parent: Node, item: Node, replacement: Node, ghost i: nat)
    requires Forward(parent.child, parent.kids) && Backward(parent.kids)
    requires Distinct(parent.kids) && i < |parent.kids| && item == parent.kids[i] && replacement !in parent.kids
    modifies parent`child, parent`kids, parent`repr, parent.kids`next, parent.kids`prev
    modifies replacement`next, replacement`prev
    ensures parent.kids == old(parent.kids)[i := replacement]
    ensures parent.repr == old(parent.repr) - old(item.repr) + old(replacement.repr)
    ensures Forward(parent.child, parent.kids) && Backward(parent.kids)
    ensures item.next == null && item.prev == null
  {
    ghost var ns := parent.kids;
    hide Distinct;
    Relink(parent, item, replacement, ns, i);
    ghost var ms := ns[i := replacement];
    assert Forward(parent.child, ms);
    assert Backward(ms);
    hide Forward, Backward;
    parent.repr := parent.repr - item.repr + replacement.repr;
    parent.kids := ms;
  }

  // ---- Edits of a list ----

  /** Appending to the list of a node a tree that is in no list. */
  method Append(parent: Node, item: Node)
    requires Listed(parent) && Loose(item) && parent.repr !! item.repr
    modifies parent`child, parent`kids, parent`repr, parent.kids`next, parent.kids`prev, item`next, item`prev
    ensures Listed(parent) && parent.kids == old(parent.kids) + [item]
    ensures parent.repr == old(parent.repr) + item.repr
    ensures forall n, kind, m | n in old(parent.kids) + [item] && old(StandsFor(n, kind, m)) :: StandsFor(n, kind, m)
  {
    hide Listed, Node.Owned, Disjoint, Blocks, Arranged, Inner, StandsFor, Insert, Forward, Backward, Distinct;
    ghost var ns := parent.kids;
    ListedArranged(parent);
    ArrangedInsert(parent, ns, |ns|, item);
    ghost var ms := ns + [item];
    InsertLast(ns, item);
    ghost var inner := ArrangedApart(parent, ms);
    DistinctWithout(ns, |ns|, item);
    assert item in ms && forall n | n in ns :: n in ms;
    LinkLast(parent, item);
    assert unchanged(inner);
    assert Arranged(parent, ms) && Blocks(ms) == old(Blocks(ms));
    ArrangedListed(parent);
  }

  method Prepend(parent: Node, after: Node, item: Node, ghost i: nat)
    requires Listed(parent) && Loose(item) && parent.repr !! item.repr
    requires i < |parent.kids| && after == parent.kids[i]
    modifies parent`child, parent`kids, parent`repr, parent.kids`next, parent.kids`prev, item`next, item`prev
    ensures Listed(parent) && parent.kids == Insert(old(parent.kids), i, item)
    ensures parent.repr == old(parent.repr) + item.repr
    ensures forall n, kind, m | n in old(parent.kids) + [item] && old(StandsFor(n, kind, m)) :: StandsFor(n, kind, m)
  {
    hide Listed, Node.Owned, Disjoint, Blocks, Arranged, Inner, Insert, StandsFor;
    ghost var ns := parent.kids;
    ListedArranged(parent);
    ArrangedInsert(parent, ns, i, item);
    ghost var ms := Insert(ns, i, item);
    ghost var inner := ArrangedApart(parent, ms);
    DistinctWithout(ns, i, item);
    InsertHas(ns, i, item);
    assert forall k | 0 <= k < |ms| :: ms[k] in ms;
    SpliceIn(parent, after, item, i);
    assert unchanged(inner);
    assert old(Arranged(parent, ms)) && inner == old(Inner(ms));
    assert Arranged(parent, ms) && Blocks(ms) == old(Blocks(ms));
    ArrangedListed(parent);
  }

  method Extract(parent: Node, item: Node, ghost i: nat)
    requires Listed(parent) && i < |parent.kids| && item == parent.kids[i]
    modifies parent`child, parent`kids, parent`repr, parent.kids`next, parent.kids`prev
    ensures Listed(parent) && parent.kids == Remove(old(parent.kids), i)
    ensures parent.repr == old(parent.repr) - item.repr && item.repr <= old(parent.repr)
    ensures Loose(item) && parent.repr !! item.repr && item != parent
    ensures forall n, kind, m | n in old(parent.kids) && old(StandsFor(n, kind, m)) :: StandsFor(n, kind, m)
  {
    hide Listed, Node.Owned, Disjoint, Blocks, Arranged, Inner, Remove, StandsFor;
    ghost var ns := parent.kids;
    ListedArranged(parent);
    ArrangedRemove(parent, ns, i);
    ghost var ms := Remove(ns, i);
    ghost var inner := ArrangedApart(parent, ns);
    RemoveHas(ns, i);
    SpliceOut(parent, item, i);
    assert unchanged(inner);
    assert Arranged(parent, ns) && Blocks(ms) == old(Blocks(ms));
    ArrangedRemove(parent, ns, i);
    ArrangedListed(parent);
  }

  method Exchange(parent: Node, item: Node, replacement: Node, ghost i: nat)
    requires Listed(parent) && Loose(replacement) && parent.repr !! replacement.repr
    requires i < |parent.kids| && item == parent.kids[i]
    modifies parent`child, parent`kids, parent`repr, parent.kids`next, parent.kids`prev
    modifies replacement`next, replacement`prev
    ensures Listed(parent) && parent.kids == old(parent.kids)[i := replacement]
    ensures parent.repr == old(parent.repr) - item.repr + replacement.repr && item.repr <= old(parent.repr)
    ensures Loose(item) && parent.repr !! item.repr
    ensures forall n, kind, m | n in old(parent.kids) + [replacement] && old(StandsFor(n, kind, m)) ::
      StandsFor(n, kind, m)
  {
    hide Listed, Node.Owned, Disjoint, Blocks, Arranged, Inner, Insert, Remove, StandsFor;
    ghost var ns := parent.kids;
    ListedArranged(parent);
    ghost var all := Insert(ns, i, replacement);
    ArrangedInsert(parent, ns, i, replacement);
    ghost var inner := ArrangedApart(parent, all);
    DistinctWithout(ns, i, replacement);
    InsertHas(ns, i, replacement);
    assert forall k | 0 <= k < |all| :: all[k] in all;
    SpliceOver(parent, item, replacement, i);
    assert unchanged(inner);
    assert old(Arranged(parent, all)) && inner == old(Inner(all));
    assert Arranged(parent, all) && Blocks(all) == old(Blocks(all));
    Exchanged(parent, ns, replacement, i, old(parent.repr), old(Blocks(ns)));
  }

  /** The list with a replacement in it, seen as one into which it was inserted before the item was removed. */
  lemma Exchanged(parent: Node, ns: seq<Node>, replacement: Node, i: nat, before: set<object>, kids: set<object>)
    requires i < |ns| && parent.kids == ns[i := replacement]
    requires Arranged(parent, Insert(ns, i, replacement))
    requires Forward(parent.child, parent.kids) && Backward(parent.kids)
    requires Blocks(Insert(ns, i, replacement)) == kids + replacement.repr
    requires before == {parent} + Optional(parent.valuestring) + Optional(parent.name) + kids
    requires before !! replacement.repr && parent.repr == before - ns[i].repr + replacement.repr
    ensures Listed(parent) && ns[i].repr <= before && parent.repr !! ns[i].repr && ns[i].Owned()
  {
    hide Listed, Node.Owned, Disjoint, Blocks, Arranged, Inner, Insert, Remove, Forward, Backward;
    var all := Insert(ns, i, replacement);
    InsertRemove(ns, i, replacement);
    ArrangedRemove(parent, all, i + 1);
    BlocksHave(parent.kids, i);
    Swapped(before, kids, ns[i].repr, replacement.repr, Blocks(parent.kids));
    ArrangedListed(parent);
  }

  // ---- Operations ----

  ghost function Just(n: Node?): set<Node> {
    if n == null then {} else {n}
  }

  /** The nodes whose links an edit of the list may change. */
  ghost function Linked(parent: Node?, item: Node?): set<Node>
    reads Just(parent)`kids
  {
    (if parent == null then {} else set k | k in parent.kids) + Just(item)
  }

  /** get_array_item, after the sign check of cJSON_GetArrayItem. */
  method GetArrayItem(parent: Node?, which: int) returns (item: Node?)
    requires parent != null ==> Forward(parent.child, parent.kids)
    ensures item == if parent == null || which < 0 || |parent.kids| <= which then null else parent.kids[which]
  {
    if which < 0 || parent == null {
      return null;
    }
    item := parent.child;
    var index := which;
    ghost var k := 0;
    while item != null && index > 0
      invariant 0 <= k <= |parent.kids| && 0 <= index && k + index == which
      invariant item == if k < |parent.kids| then parent.kids[k] else null
      decreases index
    {
      index := index - 1;
      item := item.next;
      k := k + 1;
    }
  }

  // ---- Edits of a branch: what it stands for is edited the same way ----

  method AppendChild(parent: Node, item: Node)
    requires Listed(parent) && Loose(item) && parent.repr !! item.repr
    modifies parent`child, parent`kids, parent`repr, parent.kids`next, parent.kids`prev, item`next, item`prev
    ensures Listed(parent) && parent.kids == old(parent.kids) + [item]
    ensures parent.repr == old(parent.repr) + item.repr
    ensures forall members, m | old(Lists(parent, members)) && old(StandsFor(item, parent.kind, m)) ::
      Lists(parent, Insert(members, |members|, m))
  {
    hide Listed, Loose, Lists, StandsFor, Insert;
    ghost var ns := parent.kids;
    AllListed(parent);
    InsertLast(ns, item);
    Append(parent, item);
    forall members, m | old(Lists(parent, members)) && old(StandsFor(item, parent.kind, m))
      ensures Lists(parent, Insert(members, |members|, m))
    {
      assert old(AllStandFor(ns, parent.kind, members));
      assert AllStandFor(ns, parent.kind, members);
      InsertStands(ns, parent.kind, members, |ns|, item, m);
      ChildrenList(parent, Insert(members, |members|, m));
    }
  }

  method PrependChild(parent: Node, after: Node, item: Node, ghost i: nat)
    requires Listed(parent) && Loose(item) && parent.repr !! item.repr
    requires i < |parent.kids| && after == parent.kids[i]
    modifies parent`child, parent`kids, parent`repr, parent.kids`next, parent.kids`prev, item`next, item`prev
    ensures Listed(parent) && parent.kids == Insert(old(parent.kids), i, item)
    ensures parent.repr == old(parent.repr) + item.repr
    ensures forall members, m | old(Lists(parent, members)) && old(StandsFor(item, parent.kind, m)) ::
      i < |members| && Lists(parent, Insert(members, i, m))
  {
    hide Listed, Loose, Lists, StandsFor, Insert;
    ghost var ns := parent.kids;
    AllListed(parent);
    Prepend(parent, after, item, i);
    forall members, m | old(Lists(parent, members)) && old(StandsFor(item, parent.kind, m))
      ensures i < |members| && Lists(parent, Insert(members, i, m))
    {
      assert old(AllStandFor(ns, parent.kind, members));
      assert AllStandFor(ns, parent.kind, members);
      InsertStands(ns, parent.kind, members, i, item, m);
      ChildrenList(parent, Insert(members, i, m));
    }
  }

  method ExtractChild(parent: Node, item: Node, ghost i: nat)
    requires Listed(parent) && i < |parent.kids| && item == parent.kids[i]
    modifies parent`child, parent`kids, parent`repr, parent.kids`next, parent.kids`prev
    ensures Listed(parent) && parent.kids == Remove(old(parent.kids), i)
    ensures parent.repr == old(parent.repr) - item.repr && item.repr <= old(parent.repr)
    ensures Loose(item) && parent.repr !! item.repr && item != parent
    ensures forall members | old(Lists(parent, members)) ::
      i < |members| && Lists(parent, Remove(members, i)) && StandsFor(item, parent.kind, members[i])
  {
    hide Listed, Loose, Lists, StandsFor, Remove;
    ghost var ns := parent.kids;
    AllListed(parent);
    Extract(parent, item, i);
    forall members | old(Lists(parent, members))
      ensures i < |members| && Lists(parent, Remove(members, i)) && StandsFor(item, parent.kind, members[i])
    {
      assert old(AllStandFor(ns, parent.kind, members));
      assert AllStandFor(ns, parent.kind, members);
      RemoveStands(ns, parent.kind, members, i);
      ChildrenList(parent, Remove(members, i));
    }
  }

  method ExchangeChild(parent: Node, item: Node, replacement: Node, ghost i: nat)
    requires Listed(parent) && Loose(replacement) && parent.repr !! replacement.repr
    requires i < |parent.kids| && item == parent.kids[i]
    modifies parent`child, parent`kids, parent`repr, parent.kids`next, parent.kids`prev
    modifies replacement`next, replacement`prev
    ensures Listed(parent) && parent.kids == old(parent.kids)[i := replacement]
    ensures parent.repr == old(parent.repr) - item.repr + replacement.repr && item.repr <= old(parent.repr)
    ensures Loose(item) && parent.repr !! item.repr
    ensures forall members, m | old(Lists(parent, members)) && old(StandsFor(replacement, parent.kind, m)) ::
      i < |members| && Lists(parent, members[i := m])
  {
    hide Listed, Loose, Lists, StandsFor;
    ghost var ns := parent.kids;
    AllListed(parent);
    Exchange(parent, item, replacement, i);
    forall members, m | old(Lists(parent, members)) && old(StandsFor(replacement, parent.kind, m))
      ensures i < |members| && Lists(parent, members[i := m])
    {
      assert old(AllStandFor(ns, parent.kind, members));
      assert AllStandFor(ns, parent.kind, members);
      ChildrenList(parent, members[i := m]);
    }
  }

  /** A fresh or detached tree that may be put in the list of the parent. */
  ghost predicate Addable(parent: Node?, item: Node?)
    reads Just(parent)`repr, Just(item), if item == null then {} else item.repr
  {
    item != null && item != parent ==> Loose(item) && (parent != null ==> parent.repr !! item.repr)
  }

  /** add_item_to_array: appends, and refuses null arguments and adding a node to itself. */
  method AddItemToArray(parent: Node?, item: Node?) returns (ok: bool)
    requires (parent != null ==> Listed(parent)) && Addable(parent, item)
    modifies Just(parent)`child, Just(parent)`kids, Just(parent)`repr
    modifies Linked(parent, item)`next, Linked(parent, item)`prev
    ensures ok == (parent != null && item != null && parent != item)
    ensures !ok ==> unchanged(Just(parent)) && unchanged(old(Linked(parent, item)))
    ensures ok ==> Listed(parent) && parent.kids == old(parent.kids) + [item]
    ensures ok ==> parent.repr == old(parent.repr) + item.repr
    ensures ok ==> forall members, m | old(Lists(parent, members)) && old(StandsFor(item, parent.kind, m)) ::
      Lists(parent, members + [m])
  {
    hide Listed, Loose, Lists, StandsFor, AllStandFor, Insert;
    if item == null || parent == null || parent == item {
      return false;
    }
    ghost var ns := parent.kids;
    InsertLast(ns, item);
    AppendChild(parent, item);
    forall members, m | old(Lists(parent, members)) && old(StandsFor(item, parent.kind, m))
      ensures Lists(parent, members + [m])
    {
      InsertLast(members, m);
    }
    ok := true;
  }

  /**
    cJSON_InsertItemInArray: the item comes to stand at position `which`, or at the end
    when there is no such position.
  */
  method InsertItemInArray(parent: Node?, which: int, item: Node?) returns (ok: bool)
    requires (parent != null ==> Listed(parent)) && Addable(parent, item)
    requires parent != null && item == parent ==> which < 0 || |parent.kids| <= which
    modifies Just(parent)`child, Just(parent)`kids, Just(parent)`repr
    modifies Linked(parent, item)`next, Linked(parent, item)`prev
    ensures ok == (0 <= which && parent != null && item != null && parent != item)
    ensures ok ==>
      forall members, m | old(Lists(parent, members)) && old(StandsFor(item, parent.kind, m)) ::
        Lists(parent, Insert<Member>(members, Min(which, |members|), m))
    ensures !ok ==> unchanged(Just(parent)) && unchanged(old(Linked(parent, item)))
    ensures ok ==> Listed(parent)
    ensures ok ==> parent.kids == Insert<Node>(old(parent.kids), Min(which, |old(parent.kids)|), item)
    ensures ok ==> parent.repr == old(parent.repr) + item.repr
  {
    hide Listed, Loose, Insert, Arranged, Blocks, Lists, StandsFor, AllStandFor;
    if which < 0 || item == null {
      return false;
    }
    if parent != null {
      ListedArranged(parent);
      InsertLast<Node>(parent.kids, item);
      AllListed(parent);
    }
    var after := GetArrayItem(parent, which);
    if after == null {
      if parent != null {
        assert forall members | old(Lists(parent, members)) :: Lists(parent, members) && |members| <= which;
        assert forall m | old(StandsFor(item, parent.kind, m)) :: StandsFor(item, parent.kind, m);
      }
      ok := AddItemToArray(parent, item);
      forall members: seq<Member>, m ensures Insert(members, |members|, m) == members + [m] {
        InsertLast(members, m);
      }
      return;
    }
    if after != parent.child && after.prev == null {
      // a corrupted list
      assert false;
      return false;
    }
    PrependChild(parent, after, item, which);
    ok := true;
  }

  /** cJSON_DetachItemViaPointer, for an item that is child number `i` of the parent. */
  method DetachItemViaPointer(parent: Node?, item: Node?, ghost i: nat) returns (detached: Node?)
    requires parent != null && item != null ==> Listed(parent) && i < |parent.kids| && item == parent.kids[i]
    modifies Just(parent)`child, Just(parent)`kids, Just(parent)`repr
    modifies Linked(parent, null)`next, Linked(parent, null)`prev
    ensures detached == if parent == null then null else item
    ensures detached == null ==> unchanged(Just(parent)) && unchanged(old(Linked(parent, null)))
    ensures detached != null ==> Listed(parent) && parent.kids == Remove(old(parent.kids), i)
    ensures detached != null ==> parent.repr == old(parent.repr) - item.repr && item.repr <= old(parent.repr)
    ensures detached != null ==> Addable(parent, item) && item != parent
    ensures detached != null ==> forall members | old(Lists(parent, members)) ::
      i < |members| && Lists(parent, Remove(members, i)) && StandsFor(item, parent.kind, members[i])
  {
    hide Listed, Loose, Lists, StandsFor;
    if parent == null || item == null {
      return null;
    }
    ExtractChild(parent, item, i);
    detached := item;
  }

  method DetachItemFromArray(parent: Node?, which: int) returns (detached: Node?)
    requires parent != null ==> Listed(parent)
    modifies Just(parent)`child, Just(parent)`kids, Just(parent)`repr
    modifies Linked(parent, null)`next, Linked(parent, null)`prev
    ensures detached == old(if parent == null || which < 0 || |parent.kids| <= which then null else parent.kids[which])
    ensures detached == null ==> unchanged(Just(parent)) && unchanged(old(Linked(parent, null)))
    ensures detached != null ==> Listed(parent) && parent.kids == Remove(old(parent.kids), which)
    ensures detached != null ==> parent.repr == old(parent.repr) - detached.repr && detached.repr <= old(parent.repr)
    ensures detached != null ==> Addable(parent, detached) && detached != parent
    ensures detached != null ==> forall members | old(Lists(parent, members)) ::
      which < |members| && Lists(parent, Remove(members, which)) && StandsFor(detached, parent.kind, members[which])
  {
    hide Listed, Loose, Addable, Remove, Arranged, Blocks, Backward, Lists, StandsFor;
    if which < 0 {
      return null;
    }
    if parent != null {
      ListedArranged(parent);
    }
    var item := GetArrayItem(parent, which);
    detached := DetachItemViaPointer(parent, item, which);
  }

  /** cJSON_DeleteItemFromArray frees exactly the blocks of the removed child. */
  method DeleteItemFromArray(parent: Node?, which: int, heap: Allocator)
    requires parent != null ==> Listed(parent) && parent.repr <= heap.live
    modifies Just(parent)`child, Just(parent)`kids, Just(parent)`repr
    modifies Linked(parent, null)`next, Linked(parent, null)`prev, heap`live
    ensures parent == null || which < 0 || old(|parent.kids|) <= which ==>
      unchanged(Just(parent)) && unchanged(old(Linked(parent, null))) && heap.live == old(heap.live)
    ensures parent != null && 0 <= which < old(|parent.kids|) ==>
      Listed(parent) && parent.kids == Remove(old(parent.kids), which)
    ensures parent != null && 0 <= which < old(|parent.kids|) ==> forall members | old(Lists(parent, members)) ::
      which < |members| && Lists(parent, Remove(members, which))
    ensures parent != null ==>
      heap.live - old(heap.live) == {} && old(heap.live) - heap.live == old(parent.repr) - parent.repr
  {
    hide Listed, Node.Owned, Remove, Lists, StandsFor;
    var item := DetachItemFromArray(parent, which);
    if item != null {
      DeleteOne(item, heap);
    }
  }

  /** cJSON_ReplaceItemViaPointer, for an item that is child number `i` of the parent. */
  method ReplaceItemViaPointer(parent: Node?, item: Node?, replacement: Node?, heap: Allocator, ghost i: nat)
      returns (ok: bool)
    requires parent != null && parent.child != null && item != null ==>
      Listed(parent) && parent.repr <= heap.live && i < |parent.kids| && item == parent.kids[i]
    requires replacement != item ==> Addable(parent, replacement) && (replacement != null ==> replacement != parent)
    modifies Just(parent)`child, Just(parent)`kids, Just(parent)`repr
    modifies Linked(parent, replacement)`next, Linked(parent, replacement)`prev, heap`live
    ensures ok == (parent != null && old(parent.child) != null && replacement != null && item != null)
    ensures !ok || replacement == item ==>
      unchanged(Just(parent)) && unchanged(old(Linked(parent, replacement))) && heap.live == old(heap.live)
    ensures ok && replacement != item ==> Listed(parent) && parent.kids == old(parent.kids)[i := replacement]
    ensures ok && replacement != item ==> parent.repr == old(parent.repr) - old(item.repr) + replacement.repr
    ensures ok && replacement != item ==> heap.live == old(heap.live) - old(item.repr)
    ensures ok && replacement != item ==>
      forall members, m | old(Lists(parent, members)) && old(StandsFor(replacement, parent.kind, m)) ::
        i < |members| && Lists(parent, members[i := m])
  {
    hide Listed, Node.Owned, Lists, StandsFor;
    if parent == null || parent.child == null || replacement == null || item == null {
      return false;
    }
    if replacement == item {
      return true;
    }
    ExchangeChild(parent, item, replacement, i);
    DeleteOne(item, heap);
    ok := true;
  }

  method ReplaceItemInArray(parent: Node?, which: int, item: Node?, heap: Allocator) returns (ok: bool)
    requires parent != null ==> Listed(parent) && parent.repr <= heap.live
    requires (parent != null && 0 <= which < |parent.kids| && item == parent.kids[which])
      || (Addable(parent, item) && (item != null ==> item != parent))
    modifies Just(parent)`child, Just(parent)`kids, Just(parent)`repr
    modifies Linked(parent, item)`next, Linked(parent, item)`prev, heap`live
    ensures ok == (parent != null && item != null && 0 <= which < |old(parent.kids)|)
    ensures !ok || old(parent.kids[which]) == item ==>
      unchanged(Just(parent)) && unchanged(old(Linked(parent, item))) && heap.live == old(heap.live)
    ensures ok ==> Listed(parent) && parent.kids == old(parent.kids)[which := item]
    ensures ok && old(parent.kids[which]) != item ==>
      && parent.repr == old(parent.repr) - old(parent.kids[which].repr) + item.repr
      && heap.live == old(heap.live) - old(parent.kids[which].repr)
    ensures ok && old(parent.kids[which]) != item ==>
      forall members, m | old(Lists(parent, members)) && old(StandsFor(item, parent.kind, m)) ::
        which < |members| && Lists(parent, members[which := m])
  {
    hide Listed, Loose, Addable, Arranged, Blocks, Backward, Lists, StandsFor;
    if which < 0 {
      return false;
    }
    if parent != null {
      ListedArranged(parent);
    }
    var replaced := GetArrayItem(parent, which);
    if parent != null && item != null {
      assert forall members | old(Lists(parent, members)) :: Lists(parent, members);
      assert forall m | old(StandsFor(item, parent.kind, m)) :: StandsFor(item, parent.kind, m);
    }
    ok := ReplaceItemViaPointer(parent, replaced, item, heap, which);
  }
}
