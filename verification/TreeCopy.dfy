/**
  cJSON_Duplicate: the copy of a tree stands for the same value, but for strings and keys
  that hold a NUL, which strdup cuts there. A copy compares equal to its original exactly if
  the original is consistent.
*/
module TreeCopy {
  import opened Bytes
  import opened Json
  import opened Nodes
  import opened Comparison
  import opened TreeParser

  // ---- Values ----

  lemma FoldOfCut(key: Text, caseSensitive: bool)
    ensures Fold(CString(key), caseSensitive) == Fold(key, caseSensitive)
  {
    CStringOfNulFree(CString(key));
  }

  lemma {:induction false} FirstAtOfCut(members: seq<Member>, key: Text, caseSensitive: bool)
    ensures FirstAt(CutMembers(members), key, caseSensitive) == FirstAt(members, key, caseSensitive)
  {
    hide Fold, Cut;
    if members != [] {
      FoldOfCut(members[0].key, caseSensitive);
      FirstAtOfCut(members[1..], key, caseSensitive);
      assert CutMembers(members)[1..] == CutMembers(members[1..]);
    }
  }

  lemma LookupOfCut(members: seq<Member>, key: Text, caseSensitive: bool)
    ensures Lookup(CutMembers(members), key, caseSensitive) ==
      match Lookup(members, key, caseSensitive)
      case Some(v) => Some(Cut(v))
      case None => None
  {
    hide FirstAt, Fold, Cut;
    FirstAtOfCut(members, key, caseSensitive);
  }

  /** Cutting at NULs changes neither what a tree means nor whether it is consistent. */
  lemma {:induction false} MeansOfCut(v: J, caseSensitive: bool)
    ensures Means(Cut(v), caseSensitive) == Means(v, caseSensitive)
    ensures Consistent(Cut(v), caseSensitive) == Consistent(v, caseSensitive)
    decreases Height(v), 1
  {
    CutParts(v);
    match v
    case Str(s) => CStringOfNulFree(CString(s));
    case Arr(items) => MeansOfCutItems(items, caseSensitive);
    case Obj(members) =>
      hide Fields, Agreed;
      MeansOfCutMembers(members, caseSensitive);
    case _ =>
  }

  lemma {:induction false} MeansOfCutItems(items: seq<J>, caseSensitive: bool)
    ensures Means(Arr(CutItems(items)), caseSensitive) == Means(Arr(items), caseSensitive)
    ensures Consistent(Arr(CutItems(items)), caseSensitive) == Consistent(Arr(items), caseSensitive)
    decreases Height(Arr(items)), 0
  {
    var cut := CutItems(items);
    forall i | 0 <= i < |items|
      ensures Means(cut[i], caseSensitive) == Means(items[i], caseSensitive)
      ensures Consistent(cut[i], caseSensitive) == Consistent(items[i], caseSensitive)
    {
      ItemLower(items, items[i]);
      MeansOfCut(items[i], caseSensitive);
    }
    hide Cut;
    assert Means(Arr(cut), caseSensitive).parts == Means(Arr(items), caseSensitive).parts;
    if Consistent(Arr(cut), caseSensitive) {
      forall x | x in items ensures Consistent(x, caseSensitive) {
        var i :| 0 <= i < |items| && items[i] == x;
        assert cut[i] in cut;
      }
    }
  }

  lemma {:induction false} MeansOfCutMembers(members: seq<Member>, caseSensitive: bool)
    ensures Fields(CutMembers(members), caseSensitive) == Fields(members, caseSensitive)
    ensures Agreed(CutMembers(members), caseSensitive) == Agreed(members, caseSensitive)
    decreases Height(Obj(members)), 0
  {
    hide Cut, Fields, Means, Consistent, Lookup, Fold, Agreed;
    var cut := CutMembers(members);
    var p, q := Fields(cut, caseSensitive), Fields(members, caseSensitive);
    forall key | key in p || key in q
      ensures key in p && key in q && p[key] == q[key]
    {
      FieldOfCut(members, key, caseSensitive);
    }
    assert p == q;
    AgreedOfCut(members, caseSensitive);
  }

  lemma {:induction false} FieldOfCut(members: seq<Member>, key: Text, caseSensitive: bool)
    ensures key in Fields(CutMembers(members), caseSensitive) <==> key in Fields(members, caseSensitive)
    ensures key in Fields(members, caseSensitive) ==>
      Fields(CutMembers(members), caseSensitive)[key] == Fields(members, caseSensitive)[key]
    decreases MembersHeight(members), 2
  {
    hide *;
    Field(members, key, caseSensitive);
    Field(CutMembers(members), key, caseSensitive);
    LookupOfCut(members, key, caseSensitive);
    if Lookup(members, key, caseSensitive).Some? {
      var m := FoundMember(members, key, caseSensitive);
      MeansOfCut(m.value, caseSensitive);
    }
  }

  lemma {:induction false} AgreedOfCut(members: seq<Member>, caseSensitive: bool)
    ensures Agreed(CutMembers(members), caseSensitive) == Agreed(members, caseSensitive)
    decreases MembersHeight(members), 3
  {
    hide Cut, Means, Consistent, Lookup, Fold, First;
    var cut := CutMembers(members);
    forall i | 0 <= i < |members|
      ensures Consistent(cut[i].value, caseSensitive) == Consistent(members[i].value, caseSensitive)
      ensures Means(cut[i].value, caseSensitive) == Means(members[i].value, caseSensitive)
      ensures Means(First(cut, cut[i], caseSensitive), caseSensitive)
           == Means(First(members, members[i], caseSensitive), caseSensitive)
    {
      MemberOfCut(members, i, caseSensitive);
    }
    if Agreed(cut, caseSensitive) {
      forall m | m in members
        ensures Consistent(m.value, caseSensitive)
          && Means(m.value, caseSensitive) == Means(First(members, m, caseSensitive), caseSensitive)
      {
        var i :| 0 <= i < |members| && members[i] == m;
        assert cut[i] in cut;
      }
    }
  }

  lemma {:induction false} MemberOfCut(members: seq<Member>, i: nat, caseSensitive: bool)
    requires i < |members|
    ensures var cut := CutMembers(members);
      && Consistent(cut[i].value, caseSensitive) == Consistent(members[i].value, caseSensitive)
      && Means(cut[i].value, caseSensitive) == Means(members[i].value, caseSensitive)
      && Means(First(cut, cut[i], caseSensitive), caseSensitive)
         == Means(First(members, members[i], caseSensitive), caseSensitive)
    decreases MembersHeight(members), 2
  {
    hide Cut, Means, Consistent, Lookup, Fold, First;
    var key := Fold(members[i].key, caseSensitive);
    ValueLower(members, members[i]);
    MeansOfCut(members[i].value, caseSensitive);
    FoldOfCut(members[i].key, caseSensitive);
    LookupOfCut(members, key, caseSensitive);
    MeansOfCut(First(members, members[i], caseSensitive), caseSensitive);
  }

  /** A copy compares equal to its original exactly if the original is consistent. */
  lemma CopyComparesEqual(v: J, caseSensitive: bool)
    ensures Cmp(v, Cut(v), caseSensitive) <==> Consistent(v, caseSensitive)
  {
    hide Cmp, Means, Consistent, Cut;
    MeansOfCut(v, caseSensitive);
    CmpDecides(v, Cut(v), caseSensitive);
  }

  // ---- Strings ----

  /** cJSON_strdup. */
  method Strdup(s: array<byte>, heap: Allocator) returns (copy: array?<byte>)
    requires NUL in s[..]
    modifies heap`live, heap`failures
    ensures copy == null ==> heap.failures > old(heap.failures) && heap.live == old(heap.live)
    ensures copy != null ==> fresh(copy) && Holds(copy, CString(s[..]))
    ensures copy != null ==> heap.live == old(heap.live) + {copy} && heap.failures == old(heap.failures)
  {
    ghost var t := CString(s[..]);
    assert |t| < s.Length && s[|t|] == NUL && s[..|t|] == t;
    assert forall k | 0 <= k < |t| :: s[k] == t[k] && t[k] in t;
    hide CString;
    var length := 0;
    while s[length] != NUL
      invariant 0 <= length <= |t|
      decreases |t| - length
    {
      length := length + 1;
    }
    copy := heap.NewBytes(length + 1);
    if copy != null {
      var k := 0;
      while k < length + 1
        invariant 0 <= k <= length + 1 && copy[..k] == s[..k]
        invariant heap.live == old(heap.live) + {copy} && heap.failures == old(heap.failures)
      {
        copy[k] := s[k];
        k := k + 1;
        assert copy[..k] == s[..k];
      }
      assert copy[..length + 1][..length] == t && copy[..length + 1][length] == NUL;
    }
  }

  // ---- Nodes ----

  ghost predicate Copied(from: array?<byte>, to: array?<byte>)
    reads if from == null then {} else {from}, if to == null then {} else {to}
  {
    (from == null <==> to == null) && (from != null && to != null ==> Holds(to, CString(from[..])))
  }

  /** A node on its own, with the strings it owns. */
  ghost predicate Single(n: Node)
    reads n, if n.valuestring == null then {} else {n.valuestring}, if n.name == null then {} else {n.name}
  {
    && n.next == null && n.prev == null && n.child == null && n.kids == []
    && n.repr == {n} + Optional(n.valuestring) + Optional(n.name)
    && (n.valuestring != null ==> n.valuestring != n.name)
    && HoldsText(n.valuestring) && HoldsText(n.name)
  }

  lemma SingleOwned(n: Node)
    requires Single(n)
    ensures n.Owned()
  {
    NoBlocks(n.kids);
  }

  /** The value string of the copy; if there is no memory for it the copy is deleted. */
  method CopyValue(copy: Node, source: array?<byte>, heap: Allocator) returns (ok: bool)
    requires Single(copy) && copy.valuestring == null && copy.name == null && copy.repr <= heap.live
    requires HoldsText(source)
    modifies heap`live, heap`failures, copy`valuestring, copy`repr
    ensures !ok ==> heap.failures > old(heap.failures) && heap.live == old(heap.live) - old(copy.repr)
    ensures ok ==> Single(copy) && Copied(source, copy.valuestring) && fresh(copy.repr - old(copy.repr))
    ensures ok ==> heap.live == old(heap.live) + copy.repr && heap.failures == old(heap.failures)
  {
    ok := true;
    if source != null {
      copy.valuestring := Strdup(source, heap);
      if copy.valuestring == null {
        SingleOwned(copy);
        DeleteOne(copy, heap);
        return false;
      }
      copy.repr := copy.repr + {copy.valuestring};
    }
  }

  /** The name of the copy; if there is no memory for it the copy is deleted. */
  method CopyName(copy: Node, source: array?<byte>, heap: Allocator) returns (ok: bool)
    requires Single(copy) && copy.name == null && copy.repr <= heap.live
    requires HoldsText(source)
    modifies heap`live, heap`failures, copy`name, copy`repr
    ensures !ok ==> heap.failures > old(heap.failures) && heap.live == old(heap.live) - old(copy.repr)
    ensures ok ==> Single(copy) && Copied(source, copy.name) && fresh(copy.repr - old(copy.repr))
    ensures ok ==> heap.live == old(heap.live) + copy.repr && heap.failures == old(heap.failures)
  {
    ok := true;
    if source != null {
      copy.name := Strdup(source, heap);
      if copy.name == null {
        SingleOwned(copy);
        DeleteOne(copy, heap);
        return false;
      }
      copy.repr := copy.repr + {copy.name};
    }
  }

  /** The part of cJSON_Duplicate about the node itself. */
  method CopyNode(item: Node, heap: Allocator) returns (copy: Node?)
    requires HoldsText(item.valuestring) && HoldsText(item.name)
    modifies heap`live, heap`failures
    ensures copy == null ==> heap.failures > old(heap.failures) && heap.live == old(heap.live)
    ensures copy != null ==> fresh(copy) && fresh(copy.repr) && Single(copy)
    ensures copy != null ==>
      copy.kind == item.kind && copy.valueint == item.valueint && copy.valuedouble == item.valuedouble
    ensures copy != null ==> Copied(item.valuestring, copy.valuestring) && Copied(item.name, copy.name)
    ensures copy != null ==> heap.live == old(heap.live) + copy.repr && heap.failures == old(heap.failures)
    ensures copy != null ==> copy.repr !! old(heap.live)
  {
    hide Copied;
    copy := heap.NewItem();
    if copy == null {
      return null;
    }
    copy.kind, copy.valueint, copy.valuedouble := item.kind, item.valueint, item.valuedouble;
    assert Single(copy);
    var ok := CopyValue(copy, item.valuestring, heap);
    if ok {
      ok := CopyName(copy, item.name, heap);
    }
    if !ok {
      copy := null;
    }
  }

  // ---- Trees ----

  /** The values of the children of a node that stands for v. */
  ghost function KidValues(v: J): seq<J> {
    match v
    case Arr(items) => items
    case Obj(members) => Values(members)
    case _ => []
  }

  lemma KidsOf(item: Node, v: J)
    requires item.Owned() && item.Denotes(v)
    ensures |item.kids| == |KidValues(v)| && item.child == if item.kids == [] then null else item.kids[0]
  {
  }

  lemma KidOf(item: Node, v: J, k: nat)
    requires item.Owned() && item.Denotes(v) && k < |item.kids|
    ensures |item.kids| == |KidValues(v)|
    ensures var kid := item.kids[k];
      && kid.Owned() && kid.Denotes(KidValues(v)[k]) && kid.repr < item.repr
      && kid.next == if k + 1 < |item.kids| then item.kids[k + 1] else null
  {
    hide Blocks, Disjoint;
  }

  ghost predicate NamesCopied(kids: seq<Node>, ns: seq<Node>)
    reads kids`name, ns`name
    reads set i | 0 <= i < |kids| && kids[i].name != null :: kids[i].name
    reads set i | 0 <= i < |ns| && ns[i].name != null :: ns[i].name
  {
    |ns| <= |kids| && forall i | 0 <= i < |ns| :: Copied(kids[i].name, ns[i].name)
  }

  lemma NamesCopiedNext(kids: seq<Node>, ns: seq<Node>, n: Node)
    requires NamesCopied(kids, ns) && |ns| < |kids| && Copied(kids[|ns|].name, n.name)
    ensures NamesCopied(kids, ns + [n])
  {
    hide Copied;
  }

  /** The loop of cJSON_Duplicate. If a copy fails the copies made so far are deleted. */
  method DuplicateChildren(item: Node, heap: Allocator, ghost v: J)
      returns (head: Node?, current: Node?, ghost ns: seq<Node>, ok: bool)
    requires item.Owned() && item.Denotes(v)
    modifies heap`live, heap`failures
    ensures !ok ==> heap.failures > old(heap.failures) && heap.live == old(heap.live)
    ensures ok ==> Growing(head, current, ns) && Trees(ns, CutItems(KidValues(v)))
    ensures ok ==> fresh(Blocks(ns)) && (head != null ==> fresh(head)) && NamesCopied(item.kids, ns)
    ensures ok ==>
      |ns| == |item.kids| && heap.live == old(heap.live) + Blocks(ns) && heap.failures == old(heap.failures)
    decreases item.repr, 1
  {
    hide Node.Owned, Node.Denotes, Blocks, Disjoint, Growing, Trees, Cut, Copied, NamesCopied, KidValues, CutItems;
    ghost var vs := KidValues(v);
    head, current, ns := null, null, [];
    EmptyList();
    NoBlocks(ns);
    KidsOf(item, v);
    NoNamesCopied(item.kids);
    var child := item.child;
    ghost var k := 0;
    assert CutItems(vs[..0]) == [];
    while child != null
      invariant 0 <= k <= |item.kids| && child == if k < |item.kids| then item.kids[k] else null
      invariant |ns| == k && Growing(head, current, ns) && Trees(ns, CutItems(vs[..k]))
      invariant fresh(Blocks(ns)) && (head != null ==> fresh(head)) && (current != null ==> fresh(current))
      invariant NamesCopied(item.kids, ns)
      invariant heap.live == old(heap.live) + Blocks(ns) && heap.failures == old(heap.failures)
      decreases |item.kids| - k
    {
      KidOf(item, v, k);
      var copied;
      head, current, ns, copied := DuplicateKid(item, child, heap, v, head, current, ns);
      if !copied {
        return null, null, [], false;
      }
      child := child.next;
      k := k + 1;
    }
    assert vs[..k] == vs;
    ok := true;
  }

  lemma NoNamesCopied(kids: seq<Node>)
    ensures NamesCopied(kids, [])
  {
  }

  /** One turn of the loop. */
  method DuplicateKid(item: Node, child: Node, heap: Allocator, ghost v: J,
                      head: Node?, current: Node?, ghost ns: seq<Node>)
      returns (head': Node?, n: Node?, ghost ns': seq<Node>, ok: bool)
    requires item.Owned() && item.Denotes(v) && |ns| < |item.kids| == |KidValues(v)| && child == item.kids[|ns|]
    requires Growing(head, current, ns) && Trees(ns, CutItems(KidValues(v)[..|ns|])) && Blocks(ns) <= heap.live
    requires NamesCopied(item.kids, ns)
    modifies heap`live, heap`failures, (if current == null then {} else {current})`next
    ensures !ok ==> heap.failures > old(heap.failures) && heap.live == old(heap.live) - old(Blocks(ns))
    ensures ok ==> n != null && ns' == ns + [n] && Growing(head', n, ns')
    ensures ok ==> Trees(ns', CutItems(KidValues(v)[..|ns| + 1])) && NamesCopied(item.kids, ns')
    ensures ok ==> head' == (if head == null then n else head) && fresh(n)
    ensures ok ==> Blocks(ns') == old(Blocks(ns)) + n.repr && fresh(n.repr)
    ensures ok ==> heap.live == old(heap.live) + n.repr && heap.failures == old(heap.failures)
    decreases item.repr, 0
  {
    hide Node.Owned, Node.Denotes, Blocks, Disjoint, Growing, Trees, Cut, Copied, NamesCopied, KidValues;
    ghost var vs, k := KidValues(v), |ns|;
    KidOf(item, v, k);
    head', n, ns', ok := DuplicateNext(child, heap, vs[k], head, current, ns, CutItems(vs[..k]));
    if ok {
      NamesCopiedNext(item.kids, ns, n);
      assert CutItems(vs[..k + 1]) == CutItems(vs[..k]) + [Cut(vs[k])];
    }
  }

  /** A child is copied and becomes the last of the list. */
  method DuplicateNext(child: Node, heap: Allocator, ghost v: J,
                       head: Node?, current: Node?, ghost ns: seq<Node>, ghost vs: seq<J>)
      returns (head': Node?, n: Node?, ghost ns': seq<Node>, ok: bool)
    requires child.Owned() && child.Denotes(v)
    requires Growing(head, current, ns) && Trees(ns, vs) && Blocks(ns) <= heap.live
    modifies heap`live, heap`failures, (if current == null then {} else {current})`next
    ensures !ok ==> heap.failures > old(heap.failures) && heap.live == old(heap.live) - old(Blocks(ns))
    ensures ok ==> n != null && ns' == ns + [n] && Growing(head', n, ns') && Trees(ns', vs + [Cut(v)])
    ensures ok ==> head' == (if head == null then n else head) && fresh(n)
    ensures ok ==> Blocks(ns') == old(Blocks(ns)) + n.repr && fresh(n.repr)
    ensures ok ==> Copied(child.name, n.name)
    ensures ok ==> heap.live == old(heap.live) + n.repr && heap.failures == old(heap.failures)
    decreases child.repr, 4
  {
    hide Node.Owned, Node.Denotes, Blocks, Disjoint, Growing, Trees, Cut, Copied;
    n := Duplicate(child, true, heap, v);
    if n == null {
      GrowingParts(head, current, ns);
      Delete(head, heap, ns);
      return null, null, [], false;
    }
    head' := Attach(head, current, n, ns, vs);
    ns' := ns + [n];
    TreesAppend(ns, vs, n, Cut(v));
    BlocksAppend(ns, n);
    ok := true;
  }

  lemma CStringOfHeld(a: array<byte>, s: Text)
    requires Holds(a, s)
    ensures NUL in a[..] && CString(a[..]) == CString(s)
  {
    assert a[..] == s + ([NUL] + a[|s| + 1..]);
    assert a[..][|s|] == NUL;
    CStringBefore(s, [NUL] + a[|s| + 1..]);
  }

  lemma {:induction false} CStringBefore(s: Text, rest: Text)
    requires rest != [] && rest[0] == NUL
    ensures CString(s + rest) == CString(s)
  {
    if s == [] {
      assert s + rest == rest;
    } else if s[0] != NUL {
      CStringBefore(s[1..], rest);
      assert (s + rest)[1..] == s[1..] + rest;
    }
  }

  /** A copied node without children, of a node without children. */
  lemma LeafCopied(item: Node, copy: Node, v: J)
    requires item.Owned() && item.Denotes(v) && item.kids == [] && copy.Owned() && copy.kids == []
    requires copy.kind == item.kind && copy.valueint == item.valueint && copy.valuedouble == item.valuedouble
    requires Copied(item.valuestring, copy.valuestring)
    ensures copy.Denotes(Cut(v))
  {
    CutParts(v);
    if v.Str? {
      CStringOfHeld(item.valuestring, v.s);
    }
  }

  lemma NamesCut(item: Node, ns: seq<Node>, members: seq<Member>)
    requires item.Owned() && item.Denotes(Obj(members)) && |ns| == |item.kids| && NamesCopied(item.kids, ns)
    ensures Named(ns, CutMembers(members))
  {
    hide Node.Owned, Cut;
    forall i | 0 <= i < |ns| ensures ns[i].name != null && Holds(ns[i].name, CString(members[i].key)) {
      CStringOfHeld(item.kids[i].name, members[i].key);
    }
  }

  /** With its copied children the copy stands for the cut value. */
  lemma BranchCopied(item: Node, copy: Node, ns: seq<Node>, v: J)
    requires item.Owned() && item.Denotes(v) && item.kids != []
    requires copy.Owned() && copy.KidsBackward() && copy.kids == ns
    requires copy.kind == item.kind && copy.valuestring == null
    requires Trees(ns, CutItems(KidValues(v))) && |ns| == |item.kids| && NamesCopied(item.kids, ns)
    ensures copy.Denotes(Cut(v))
  {
    hide Node.Owned, Node.Denotes, Cut, Trees, NamesCopied, Node.KidsBackward, CutItems, CutMembers, Named, Values;
    CutParts(v);
    BranchKind(item, v);
    if v.Arr? {
      ArrayDenotes(copy, CutItems(v.items));
    } else {
      NamesCut(item, ns, v.members);
      ValuesCut(v.members);
      ObjectDenotes(copy, CutMembers(v.members));
    }
  }

  lemma ValuesCut(members: seq<Member>)
    ensures Values(CutMembers(members)) == CutItems(Values(members))
  {
    hide Cut;
  }

  lemma BranchKind(item: Node, v: J)
    requires item.Owned() && item.Denotes(v) && item.kids != []
    ensures (v.Arr? && item.kind == KArray) || (v.Obj? && item.kind == KObject)
    ensures item.valuestring == null
  {
  }

  lemma ListOfNone(head: Node?, current: Node?, ns: seq<Node>)
    requires Growing(head, current, ns)
    ensures head == null <==> ns == []
  {
  }

  /** The copies of the children become the children of the copy. */
  method Finish(item: Node, copy: Node, head: Node?, current: Node?, ghost ns: seq<Node>, ghost v: J)
    requires item.Owned() && item.Denotes(v) && item.repr !! copy.repr + Blocks(ns)
    requires Single(copy) && copy.kind == item.kind && Copied(item.valuestring, copy.valuestring)
    requires copy.valueint == item.valueint && copy.valuedouble == item.valuedouble
    requires Growing(head, current, ns) && Trees(ns, CutItems(KidValues(v))) && Blocks(ns) !! copy.repr
    requires |ns| == |item.kids| && NamesCopied(item.kids, ns)
    modifies copy`kind, copy`child, copy`kids, copy`repr, (if head == null then {} else {head})`prev
    ensures copy.Owned() && copy.repr == old(copy.repr) + old(Blocks(ns)) && copy.Denotes(Cut(v))
  {
    hide Node.Owned, Node.Denotes, Node.KidsBackward, Growing, Trees;
    hide Cut, NamesCopied, Blocks, Single, CutItems, KidValues;
    ListOfNone(head, current, ns);
    SingleOwned(copy);
    SingleLeaf(copy);
    if head == null {
      NoBlocks(ns);
      LeafCopied(item, copy, v);
      assert copy.repr == copy.repr + Blocks(ns);
    } else {
      BranchKind(item, v);
      HeadIn(head, current, ns);
      Adopt(copy, copy.kind, head, current, ns, CutItems(KidValues(v)));
      BranchCopied(item, copy, ns, v);
    }
  }

  lemma SingleLeaf(n: Node)
    requires Single(n)
    ensures n.kids == [] && n in n.repr
  {
  }

  lemma HeadIn(head: Node?, current: Node?, ns: seq<Node>)
    requires Growing(head, current, ns) && forall i | 0 <= i < |ns| :: ns[i].Owned()
    ensures head != null ==> head in Blocks(ns)
  {
    hide Node.Owned, Blocks;
    if ns != [] {
      BlocksHave(ns, 0);
      assert ns[0] in ns[0].repr;
    }
  }

  method Duplicate(item: Node?, recurse: bool, heap: Allocator, ghost v: J) returns (copy: Node?)
    requires item != null ==> item.Owned() && item.Denotes(v)
    modifies heap`live, heap`failures
    ensures copy == null ==> heap.live == old(heap.live) && (item == null || heap.failures > old(heap.failures))
    ensures copy != null ==> item != null && copy.Owned() && copy.next == null && copy.prev == null
    ensures copy != null ==> fresh(copy) && fresh(copy.repr) && Copied(item.name, copy.name)
    ensures copy != null ==> heap.live == old(heap.live) + copy.repr && heap.failures == old(heap.failures)
    ensures copy != null && recurse ==> copy.Denotes(Cut(v))
    ensures copy != null && !recurse ==> copy.kind == item.kind && copy.kids == []
    ensures copy != null && !recurse ==> copy.valueint == item.valueint && copy.valuedouble == item.valuedouble
    ensures copy != null && !recurse ==> Copied(item.valuestring, copy.valuestring)
    decreases if item == null then {} else item.repr, 3
  {
    hide Node.Owned, Node.Denotes, Copied, Single, Cut;
    if item == null {
      return null;
    }
    OwnStrings(item);
    copy := CopyNode(item, heap);
    if copy == null {
      return null;
    }
    SingleOwned(copy);
    SingleLeaf(copy);
    SingleNext(copy);
    if recurse {
      var ok := DuplicateBelow(item, copy, heap, v);
      if !ok {
        copy := null;
      }
    }
  }

  lemma OwnStrings(item: Node)
    requires item.Owned()
    ensures HoldsText(item.valuestring) && HoldsText(item.name)
  {
    hide Node.Owned, Blocks;
    OwnedParts(item);
  }

  /** The recursive part of cJSON_Duplicate; if a copy fails the whole copy is deleted. */
  method DuplicateBelow(item: Node, copy: Node, heap: Allocator, ghost v: J) returns (ok: bool)
    requires item.Owned() && item.Denotes(v) && item.repr !! copy.repr && copy.repr <= heap.live
    requires Single(copy) && copy.kind == item.kind && Copied(item.valuestring, copy.valuestring)
    requires copy.valueint == item.valueint && copy.valuedouble == item.valuedouble
    modifies heap`live, heap`failures, copy`kind, copy`child, copy`kids, copy`repr
    ensures !ok ==> heap.failures > old(heap.failures) && heap.live == old(heap.live) - old(copy.repr)
    ensures ok ==> copy.Owned() && copy.Denotes(Cut(v))
    ensures ok ==> old(copy.repr) <= copy.repr && fresh(copy.repr - old(copy.repr))
    ensures ok ==> heap.live == old(heap.live) + copy.repr && heap.failures == old(heap.failures)
    decreases item.repr, 2
  {
    hide Node.Owned, Node.Denotes, Blocks, Disjoint, Growing, Trees, Cut, Copied, NamesCopied, Single;
    var head, current, ns, done := DuplicateChildren(item, heap, v);
    if !done {
      SingleOwned(copy);
      SingleNext(copy);
      DeleteOne(copy, heap);
      return false;
    }
    Finish(item, copy, head, current, ns, v);
    ok := true;
  }

  lemma SingleNext(n: Node)
    requires Single(n)
    ensures n.next == null && n.prev == null
  {
  }
}
