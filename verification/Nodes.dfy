/**
  The cJSON structure on the heap: nodes linked into trees, the allocator they come
  from, and cJSON_Delete.

  The allocator keeps a ghost ledger of the blocks handed out and not yet freed; any
  allocation may fail.
*/
module Nodes {
  import opened Bytes
  import opened Json

  datatype Kind = KInvalid | KFalse | KTrue | KNull | KNumber | KString | KArray | KObject

  class Allocator {
    ghost var live: set<object>
    /** How many allocations have failed. */
    ghost var failures: nat

    constructor ()
      ensures live == {} && failures == 0
    {
      live, failures := {}, 0;
    }

    method NewItem() returns (n: Node?)
      modifies `live, `failures
      ensures n == null ==> failures == old(failures) + 1 && live == old(live)
      ensures n != null ==> fresh(n) && live == old(live) + {n} && failures == old(failures)
      ensures n != null ==> n.Zeroed()
    {
      if * {
        n := new Node();
        live := live + {n};
      } else {
        n := null;
        failures := failures + 1;
      }
    }

    method NewBytes(size: nat) returns (a: array?<byte>)
      modifies `live, `failures
      ensures a == null ==> failures == old(failures) + 1 && live == old(live)
      ensures a != null ==> fresh(a) && a.Length == size && live == old(live) + {a} && failures == old(failures)
    {
      if * {
        a := new byte[size];
        live := live + {a};
      } else {
        a := null;
        failures := failures + 1;
      }
    }

    /** realloc: a block of another size, with the bytes of the old one that fit. */
    method Reallocate(a: array<byte>, size: nat) returns (b: array?<byte>)
      requires a in live
      modifies `live, `failures
      ensures b == null ==> failures == old(failures) + 1 && live == old(live)
      ensures b != null ==> fresh(b) && b.Length == size && failures == old(failures)
      ensures b != null ==> forall i | 0 <= i < a.Length && i < size :: b[i] == a[i]
      ensures b != null ==> live == old(live) - {a} + {b}
    {
      if * {
        b := new byte[size];
        forall i | 0 <= i < a.Length && i < size {
          b[i] := a[i];
        }
        live := live - {a} + {b};
      } else {
        b := null;
        failures := failures + 1;
      }
    }

    /** free: a block is released once, and only while it is live. */
    method Free(o: object?)
      requires o != null ==> o in live
      modifies `live
      ensures live == old(live) - {o}
    {
      live := live - {o};
    }
  }

  /** The array holds s as a C string (s may itself hold NULs). */
  ghost predicate Holds(a: array<byte>, s: Text)
    reads a
  {
    |s| < a.Length && a[..|s|] == s && a[|s|] == NUL
  }

  /** The array, if there is one, holds a C string. */
  ghost predicate HoldsText(a: array?<byte>)
    reads if a == null then {} else {a}
  {
    a != null ==> NUL in a[..]
  }

  lemma HoldsIsText(a: array<byte>, s: Text)
    requires Holds(a, s)
    ensures HoldsText(a)
  {
    assert a[..][|s|] == NUL;
  }

  /** The chain of next pointers that starts at head runs through ns and ends. */
  ghost predicate Forward(head: Node?, ns: seq<Node>)
    reads ns`next
  {
    && head == (if ns == [] then null else ns[0])
    && forall i {:trigger ns[i].next} | 0 <= i < |ns| :: ns[i].next == (if i + 1 < |ns| then ns[i + 1] else null)
  }

  /** Each prev pointer leads to the node before, and that of the first node to the last. */
  ghost predicate Backward(ns: seq<Node>)
    reads ns`prev
  {
    && (forall i {:trigger ns[i].prev} | 0 < i < |ns| :: ns[i].prev == ns[i - 1])
    && (ns != [] ==> ns[0].prev == ns[|ns| - 1])
  }

  ghost function Optional(o: object?): set<object> {
    if o == null then {} else {o}
  }

  ghost function Union(sets: seq<set<object>>): set<object> {
    if sets == [] then {} else Union(sets[..|sets| - 1]) + sets[|sets| - 1]
  }

  lemma {:induction false} UnionHas(sets: seq<set<object>>, i: nat)
    requires i < |sets|
    ensures sets[i] <= Union(sets)
  {
    if i < |sets| - 1 {
      UnionHas(sets[..|sets| - 1], i);
    }
  }

  /** The blocks of each of some trees. */
  ghost function Reprs(ns: seq<Node>): (sets: seq<set<object>>)
    reads ns`repr
    ensures |sets| == |ns| && forall i | 0 <= i < |ns| :: sets[i] == ns[i].repr
  {
    if ns == [] then [] else Reprs(ns[..|ns| - 1]) + [ns[|ns| - 1].repr]
  }

  /** All blocks of some trees. */
  ghost function Blocks(ns: seq<Node>): set<object>
    reads ns`repr
  {
    Union(Reprs(ns))
  }

  ghost predicate Disjoint(ns: seq<Node>)
    reads ns`repr
  {
    forall i, j | 0 <= i < j < |ns| :: ns[i].repr !! ns[j].repr
  }

  class Node {
    var next: Node?
    var prev: Node?
    var child: Node?
    var kind: Kind
    var valuestring: array?<byte>
    var valueint: int32
    var valuedouble: real
    var name: array?<byte>

    /** The children in order, and all blocks of the tree: its nodes and their strings. */
    ghost var kids: seq<Node>
    ghost var repr: set<object>

    constructor ()
      ensures Zeroed()
    {
      next, prev, child, kind := null, null, null, KInvalid;
      valuestring, valueint, valuedouble, name := null, 0, 0.0, null;
      kids, repr := [], {this};
    }

    ghost predicate Zeroed()
      reads this
    {
      && next == null && prev == null && child == null && kind == KInvalid
      && valuestring == null && name == null && kids == [] && repr == {this}
    }

    /** The node's blocks are itself, its strings and those of its children, which are linked. */
    ghost predicate Linked()
      requires this in repr && Optional(valuestring) + Optional(name) <= repr
      requires forall i | 0 <= i < |kids| :: kids[i] in repr && kids[i] != this
      reads this`child, this`valuestring, this`name, this`kids, this`repr, repr - {this}
    {
      && HoldsText(valuestring) && HoldsText(name)
      && Disjoint(kids)
      && child == (if kids == [] then null else kids[0])
      && (forall i {:trigger kids[i].next} | 0 <= i < |kids| ::
           kids[i].next == (if i + 1 < |kids| then kids[i + 1] else null))
      && repr == {this} + Optional(valuestring) + Optional(name) + Blocks(kids)
      && this !in Blocks(kids)
      && (valuestring != null ==> valuestring !in Blocks(kids) && valuestring != name)
      && (name != null ==> name !in Blocks(kids))
    }

    /**
      The tree below this node owns the blocks in `repr`, each reachable along one path of
      child and next pointers. The node's own next and prev belong to the list it is in.
    */
    ghost predicate Owned()
      reads this`child, this`valuestring, this`name, this`kids, this`repr, repr - {this}
      ensures Owned() ==> this in repr && Optional(valuestring) + Optional(name) <= repr
      ensures Owned() ==> forall o | o in repr :: o is Node || o is array<byte>
      decreases repr
    {
      && this in repr && Optional(valuestring) + Optional(name) <= repr
      && (forall o | o in repr :: o is Node || o is array<byte>)
      && (forall i | 0 <= i < |kids| ::
           && kids[i] in repr && kids[i] != this && this !in kids[i].repr
           && kids[i].repr < repr && kids[i].Owned())
      && Linked()
    }

    /** The tree below this node stands for v, and all its child lists are well linked. */
    ghost predicate Denotes(v: J)
      requires Owned()
      reads this`child, this`valuestring, this`name, this`kids, this`repr, repr - {this}
      reads this`kind, this`valueint, this`valuedouble
      decreases v
    {
      match v
      case Null => kind == KNull && Leaf()
      case Bool(b) => kind == (if b then KTrue else KFalse) && Leaf()
      case Num(n) => kind == KNumber && valueint == n && valuedouble == n as real && Leaf()
      case Inexact(n) => kind == KNumber && valueint == n && valuedouble != n as real && Leaf()
      case Str(s) => kind == KString && kids == [] && valuestring != null && Holds(valuestring, s)
      case Arr(items) =>
        && kind == KArray && valuestring == null && |kids| == |items|
        && (forall i | 0 <= i < |kids| :: kids[i].Denotes(items[i]))
        && KidsBackward()
      case Obj(members) =>
        && kind == KObject && valuestring == null && |kids| == |members|
        && (forall i | 0 <= i < |kids| ::
             kids[i].name != null && Holds(kids[i].name, members[i].key) && kids[i].Denotes(members[i].value))
        && KidsBackward()
    }

    ghost predicate Leaf()
      reads this`valuestring, this`kids
    {
      valuestring == null && kids == []
    }

    ghost predicate KidsBackward()
      requires Owned()
      reads this`child, this`valuestring, this`name, this`kids, this`repr, repr - {this}
    {
      && (forall i {:trigger kids[i].prev} | 0 < i < |kids| :: kids[i].prev == kids[i - 1])
      && (kids != [] ==> kids[0].prev == kids[|kids| - 1])
    }
  }

  /** A printable tree of nodes that stands for v. */
  ghost predicate Stands(item: Node, v: J)
    reads item, item.repr
    ensures Stands(item, v) ==> item in item.repr && Optional(item.name) <= item.repr
    ensures Stands(item, v) ==> forall o | o in item.repr :: o is Node || o is array<byte>
  {
    item.Owned() && item.Denotes(v) && Printable(v)
  }

  lemma ArrayKids(item: Node, items: seq<J>)
    requires Stands(item, Arr(items))
    ensures |item.kids| == |items| && item.child == (if items == [] then null else item.kids[0])
  {
  }

  lemma ArrayKid(item: Node, items: seq<J>, i: nat)
    requires Stands(item, Arr(items)) && i < |items|
    ensures |item.kids| == |items|
    ensures item.kids[i].next == (if i + 1 < |items| then item.kids[i + 1] else null)
    ensures Stands(item.kids[i], items[i])
    ensures item.kids[i].repr <= item.repr
  {
  }

  lemma ObjectKids(item: Node, members: seq<Member>)
    requires Stands(item, Obj(members))
    ensures |item.kids| == |members| && item.child == (if members == [] then null else item.kids[0])
  {
  }

  lemma ObjectKid(item: Node, members: seq<Member>, i: nat)
    requires Stands(item, Obj(members)) && i < |members|
    ensures |item.kids| == |members|
    ensures item.kids[i].next == (if i + 1 < |members| then item.kids[i + 1] else null)
    ensures Stands(item.kids[i], members[i].value)
    ensures item.kids[i].name != null && item.kids[i].name in item.repr && Holds(item.kids[i].name, members[i].key)
    ensures item.kids[i].repr <= item.repr
  {
  }

  lemma BlocksOfNext(chain: seq<Node>, k: nat)
    requires k < |chain|
    ensures Blocks(chain[..k + 1]) == Blocks(chain[..k]) + chain[k].repr
  {
    assert Reprs(chain[..k + 1])[..k] == Reprs(chain[..k]);
  }

  /** Blocks of one tree are not blocks of those before it. */
  lemma {:induction false} BlocksBefore(chain: seq<Node>, k: nat, j: nat)
    requires j <= k < |chain| && Disjoint(chain)
    ensures Blocks(chain[..j]) !! chain[k].repr
  {
    if j > 0 {
      BlocksBefore(chain, k, j - 1);
      BlocksOfNext(chain, j - 1);
    }
  }

  /** What owning a tree says about its root: its blocks, and the list of its children. */
  lemma OwnedParts(n: Node)
    requires n.Owned()
    ensures Forward(n.child, n.kids) && Disjoint(n.kids)
    ensures forall i | 0 <= i < |n.kids| :: n.kids[i].Owned()
    ensures n.repr == {n} + Optional(n.valuestring) + Optional(n.name) + Blocks(n.kids)
    ensures n !in Blocks(n.kids)
    ensures n.valuestring != null ==> n.valuestring !in Blocks(n.kids) && n.valuestring != n.name
    ensures n.name != null ==> n.name !in Blocks(n.kids)
    ensures HoldsText(n.valuestring) && HoldsText(n.name)
  {
  }

  /** The converse: what it takes to own a tree. */
  lemma OwnedIntro(n: Node)
    requires Forward(n.child, n.kids) && Disjoint(n.kids)
    requires forall i | 0 <= i < |n.kids| :: n.kids[i].Owned()
    requires n.repr == {n} + Optional(n.valuestring) + Optional(n.name) + Blocks(n.kids)
    requires n !in Blocks(n.kids)
    requires n.valuestring != null ==> n.valuestring !in Blocks(n.kids) && n.valuestring != n.name
    requires n.name != null ==> n.name !in Blocks(n.kids)
    requires HoldsText(n.valuestring) && HoldsText(n.name)
    ensures n.Owned()
  {
    hide Blocks, Disjoint;
    forall i | 0 <= i < |n.kids| ensures n.kids[i].repr <= Blocks(n.kids) {
      BlocksHave(n.kids, i);
    }
    BlocksTyped(n.kids, |n.kids|);
    assert n.kids[..|n.kids|] == n.kids;
  }

  lemma {:induction false} BlocksTyped(ns: seq<Node>, k: nat)
    requires k <= |ns| && forall i | 0 <= i < |ns| :: ns[i].Owned()
    ensures forall o | o in Blocks(ns[..k]) :: o is Node || o is array<byte>
  {
    if k > 0 {
      BlocksTyped(ns, k - 1);
      BlocksOfNext(ns, k - 1);
    }
  }

  /**
    cJSON_Delete on a list of sibling trees: every block of every tree is freed, each
    exactly once.
  */
  method Delete(first: Node?, heap: Allocator, ghost chain: seq<Node>)
    requires Forward(first, chain) && Disjoint(chain)
    requires forall i | 0 <= i < |chain| :: chain[i].Owned()
    requires Blocks(chain) <= heap.live
    modifies heap`live
    ensures heap.live == old(heap.live) - Blocks(chain)
    decreases Blocks(chain), 1
  {
    hide Node.Owned, Blocks, Disjoint;
    var item := first;
    ghost var k: nat := 0;
    assert Blocks(chain[..0]) == {} by { NoBlocks(chain); }
    while item != null
      invariant k <= |chain| && item == (if k < |chain| then chain[k] else null)
      invariant heap.live == old(heap.live) - Blocks(chain[..k])
      decreases |chain| - k
    {
      assert Forward(first, chain);
      var next := item.next;
      assert next == (if k + 1 < |chain| then chain[k + 1] else null);
      BlocksOfNext(chain, k);
      BlocksBefore(chain, k, k);
      BlocksHave(chain, k);
      DeleteItem(item, heap);
      item := next;
      k := k + 1;
    }
    assert chain[..k] == chain;
  }

  /** The body of the loop of cJSON_Delete: a node with its children and strings. */
  method DeleteItem(item: Node, heap: Allocator)
    requires item.Owned() && item.repr <= heap.live
    modifies heap`live
    ensures heap.live == old(heap.live) - item.repr
    decreases item.repr, 0
  {
    hide Node.Owned, Blocks, Disjoint;
    OwnedParts(item);
    if item.child != null {
      Delete(item.child, heap, item.kids);
    } else {
      NoBlocks(item.kids);
    }
    if item.valuestring != null {
      heap.Free(item.valuestring);
    }
    if item.name != null {
      heap.Free(item.name);
    }
    heap.Free(item);
  }

  lemma BlocksHave(chain: seq<Node>, k: nat)
    requires k < |chain|
    ensures chain[k].repr <= Blocks(chain)
  {
    UnionHas(Reprs(chain), k);
  }

  lemma NoBlocks(ns: seq<Node>)
    ensures Blocks(ns[..0]) == {}
    ensures ns == [] ==> Blocks(ns) == {}
  {
  }

  lemma BlocksOfOne(item: Node)
    ensures Blocks([item]) == item.repr
  {
    BlocksOfNext([item], 0);
    NoBlocks([item]);
    assert [item][..1] == [item];
  }

  /** cJSON_Delete on a tree that is in no list. */
  method DeleteOne(item: Node, heap: Allocator)
    requires item.Owned() && item.next == null && item.repr <= heap.live
    modifies heap`live
    ensures heap.live == old(heap.live) - item.repr
  {
    hide Node.Owned;
    BlocksOfOne(item);
    Delete(item, heap, [item]);
  }
}
