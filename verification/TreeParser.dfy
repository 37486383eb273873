/**
  The recursive-descent parser: parse_value, parse_array, parse_object and
  cJSON_ParseWithLengthOpts, building a tree of nodes from an allocator that may fail.
*/
module TreeParser {
  import opened Bytes
  import opened Json
  import opened Nodes
  import opened LiteralParser
  import Grammar
  import Numerals
  import Spec = ParseSpec

  // ---- Lists under construction ----

  /** The links of a list under construction: next pointers, and prev pointers but the head's. */
  ghost predicate Growing(head: Node?, current: Node?, ns: seq<Node>)
    reads ns`next, ns`prev, ns`repr
  {
    && Forward(head, ns) && Disjoint(ns)
    && current == (if ns == [] then null else ns[|ns| - 1])
    && forall i {:trigger ns[i].prev} | 0 < i < |ns| :: ns[i].prev == ns[i - 1]
  }

  /** The trees of a list stand for the values vs. */
  ghost predicate Trees(ns: seq<Node>, vs: seq<J>)
    reads ns, set i, o | 0 <= i < |ns| && o in ns[i].repr :: o
    ensures Trees(ns, vs) ==> |ns| == |vs| && forall i | 0 <= i < |ns| :: ns[i].Owned()
  {
    |ns| == |vs| && forall i | 0 <= i < |ns| :: ns[i].Owned() && ns[i].Denotes(vs[i])
  }

  lemma TreesAppend(ns: seq<Node>, vs: seq<J>, n: Node, v: J)
    requires Trees(ns, vs) && n.Owned() && n.Denotes(v)
    ensures Trees(ns + [n], vs + [v])
  {
    hide Node.Owned, Node.Denotes;
  }

  function PrependItems<T>(items: seq<T>, r: Spec.Parsed<seq<T>>): Spec.Parsed<seq<T>> {
    if r.Fail? then Spec.Fail else Spec.Ok(items + r.value, r.end)
  }

  /** Sibling trees that own their blocks separately are different nodes. */
  lemma Distinct(ns: seq<Node>)
    requires Disjoint(ns) && forall i | 0 <= i < |ns| :: ns[i].Owned()
    ensures forall i, j | 0 <= i < j < |ns| :: ns[i] != ns[j]
  {
    hide Node.Owned;
    forall i, j | 0 <= i < j < |ns| ensures ns[i] != ns[j] {
      assert ns[i] in ns[i].repr;
    }
  }

  lemma EmptyList()
    ensures Growing(null, null, []) && Trees([], [])
  {
  }

  lemma DisjointAppend(ns: seq<Node>, n: Node)
    requires Disjoint(ns) && forall i | 0 <= i < |ns| :: ns[i].repr !! n.repr
    ensures Disjoint(ns + [n])
  {
  }

  lemma DisjointLast(ns: seq<Node>, n: Node)
    requires Disjoint(ns + [n])
    ensures Disjoint(ns) && forall i | 0 <= i < |ns| :: ns[i].repr !! n.repr
  {
    var list := ns + [n];
    assert list[|ns|] == n && forall i | 0 <= i < |ns| :: list[i] == ns[i];
  }

  /** The new item becomes the last of a list under construction. */
  method Attach(head: Node?, current: Node?, n: Node, ghost ns: seq<Node>, ghost vs: seq<J>) returns (head': Node)
    requires Growing(head, current, ns) && Trees(ns, vs)
    requires n.next == null && n in n.repr && forall i | 0 <= i < |ns| :: ns[i].repr !! n.repr
    modifies (if current == null then {} else {current})`next, n`prev
    ensures Growing(head', n, ns + [n]) && head' == (if head == null then n else head)
    ensures Trees(ns, vs)
  {
    hide Node.Owned, Node.Denotes, Disjoint;
    Distinct(ns);
    DisjointAppend(ns, n);
    CurrentApart(ns);
    if current == null {
      head' := n;
    } else {
      assert n !in ns by {
        assert forall i | 0 <= i < |ns| :: ns[i] in ns[i].repr;
      }
      head' := head;
      current.next := n;
      n.prev := current;
    }
  }

  lemma LeafOwned(n: Node)
    requires n.Zeroed()
    ensures n.Owned()
  {
  }

  lemma BlocksAppend(ns: seq<Node>, n: Node)
    ensures Blocks(ns + [n]) == Blocks(ns) + n.repr
  {
    BlocksOfNext(ns + [n], |ns|);
    assert (ns + [n])[..|ns|] == ns;
    assert (ns + [n])[..|ns| + 1] == ns + [n];
  }

  /**
    The step that starts a turn of both parsing loops: allocate an item and attach it.
    If there is no memory the list is deleted.
  */
  method NextItem(head: Node?, current: Node?, heap: Allocator, ghost ns: seq<Node>, ghost vs: seq<J>)
    returns (head': Node?, n: Node?)
    requires Growing(head, current, ns) && Blocks(ns) <= heap.live
    requires Trees(ns, vs)
    modifies heap`live, heap`failures, (if current == null then {} else {current})`next
    ensures n == null ==> heap.failures > old(heap.failures) && heap.live == old(heap.live) - Blocks(ns)
    ensures n != null ==> head' == if head == null then n else head
    ensures n != null ==> fresh(n) && Growing(head', n, ns + [n]) && heap.live == old(heap.live) + {n}
    ensures n != null ==>
      n.Owned() && n.Leaf() && n.name == null && n.repr == {n} && heap.failures == old(heap.failures)
    ensures n != null ==> Trees(ns, vs)
    ensures n != null ==> Blocks(ns) == old(Blocks(ns))
  {
    hide Trees, Node.Owned, Node.Denotes, Growing, Blocks;
    n := heap.NewItem();
    if n == null {
      GrowingParts(head, current, ns);
      Delete(head, heap, ns);
      return null, null;
    }
    LeafOwned(n);
    head' := Attach(head, current, n, ns, vs);
  }

  lemma GrowingParts(head: Node?, current: Node?, ns: seq<Node>)
    requires Growing(head, current, ns)
    ensures Forward(head, ns) && Disjoint(ns)
  {
  }

  /** The tail of a list is no block of the trees before it. */
  lemma CurrentApart(ns: seq<Node>)
    requires Disjoint(ns) && forall i | 0 <= i < |ns| :: ns[i].Owned()
    ensures forall i | 0 <= i < |ns| - 1 :: ns[|ns| - 1] !in ns[i].repr
  {
    hide Node.Owned;
    if ns != [] {
      assert ns[|ns| - 1] in ns[|ns| - 1].repr;
    }
  }

  /**
    The assignments both parsing functions end with: a finished list becomes the children
    of the item, and its head's prev leads to its tail.
  */
  method Adopt(item: Node, kind: Kind, head: Node?, current: Node?, ghost ns: seq<Node>, ghost vs: seq<J>)
    requires item.Owned() && item.Leaf() && Blocks(ns) !! item.repr
    requires Growing(head, current, ns)
    requires Trees(ns, vs)
    modifies item`kind, item`child, item`kids, item`repr, (if head == null then {} else {head})`prev
    ensures item.Owned() && item.kids == ns && item.repr == old(item.repr) + old(Blocks(ns))
    ensures item.KidsBackward() && item.kind == kind
    ensures Trees(ns, vs)
  {
    hide Node.Owned, Node.Denotes, Disjoint, Blocks, Union, Growing, Trees;
    OwnedParts(item);
    NoBlocks(item.kids);
    GrowingParts(head, current, ns);
    HeadApart(ns);
    NotIn(ns, item);
    ghost var blocks := Blocks(ns);
    CloseList(head, current, ns, vs);
    SetChildren(item, kind, head, ns, blocks);
    assert Trees(ns, vs) && Blocks(ns) == blocks && Disjoint(ns);
    assert Forward(item.child, item.kids) && Backward(item.kids);
    assert item.repr == {item} + Optional(item.valuestring) + Optional(item.name) + blocks;
    OwnedIntro(item);
  }

  /** An item with separate blocks is none of the trees of a list, and no block of them. */
  lemma NotIn(ns: seq<Node>, item: Node)
    requires item.Owned() && Blocks(ns) !! item.repr && forall i | 0 <= i < |ns| :: ns[i].Owned()
    ensures forall i | 0 <= i < |ns| :: ns[i] in ns[i].repr && item !in ns[i].repr
    ensures item !in ns
  {
    hide Node.Owned, Blocks;
    forall i | 0 <= i < |ns| ensures ns[i] in ns[i].repr && item !in ns[i].repr {
      BlocksHave(ns, i);
    }
  }

  method SetChildren(item: Node, kind: Kind, head: Node?, ghost ns: seq<Node>, ghost blocks: set<object>)
    modifies item`kind, item`child, item`kids, item`repr
    ensures item.kind == kind && item.child == head && item.kids == ns && item.repr == old(item.repr) + blocks
  {
    item.kind, item.child := kind, head;
    item.kids, item.repr := ns, item.repr + blocks;
  }

  /** The first node of the finished list leads back to the last one. */
  method CloseList(head: Node?, current: Node?, ghost ns: seq<Node>, ghost vs: seq<J>)
    requires Growing(head, current, ns) && Trees(ns, vs)
    modifies (if head == null then {} else {head})`prev
    ensures Forward(head, ns) && Backward(ns) && Trees(ns, vs)
  {
    hide Node.Owned, Node.Denotes, Disjoint, Blocks, Union;
    HeadApart(ns);
    if head != null {
      head.prev := current;
    }
  }

  lemma ArrayDenotes(item: Node, vs: seq<J>)
    requires item.Owned() && item.kind == KArray && item.valuestring == null
    requires item.KidsBackward() && Trees(item.kids, vs)
    ensures item.Denotes(Arr(vs))
  {
  }

  /** The head of a list is no block of the trees behind it. */
  lemma HeadApart(ns: seq<Node>)
    requires Disjoint(ns) && forall i | 0 <= i < |ns| :: ns[i].Owned()
    ensures forall i | 0 < i < |ns| :: ns[0] !in ns[i].repr
    ensures forall i | 0 <= i < |ns| :: ns[i].repr <= Blocks(ns)
  {
    hide Node.Owned, Blocks;
    forall i | 0 <= i < |ns| ensures ns[i].repr <= Blocks(ns) {
      BlocksHave(ns, i);
    }
    forall i | 0 < i < |ns| ensures ns[0] !in ns[i].repr {
      assert ns[0] in ns[0].repr;
    }
  }

  // ---- The parser ----

  method ParseValue(item: Node, input: ParseBuffer) returns (ok: bool)
    requires input.Framed()
    requires item.Owned() && item.Leaf() && item.repr <= input.heap.live
    modifies input`offset, input`depth, input.heap`live, input.heap`failures
    modifies item`kind, item`child, item`kids, item`repr, item`valuestring, item`valueint, item`valuedouble
    ensures input.Framed() && old(input.offset) <= input.offset
    ensures ok ==> input.depth == old(input.depth)
    ensures ok ==> Spec.ParseValue(input.content, old(input.offset), old(input.depth)).Ok?
    ensures ok ==> input.offset == Spec.ParseValue(input.content, old(input.offset), old(input.depth)).end
    ensures ok ==>
      item.Owned() && item.Denotes(Spec.ParseValue(input.content, old(input.offset), old(input.depth)).value)
    ensures ok ==> old(item.repr) <= item.repr && fresh(item.repr - old(item.repr))
    ensures ok ==> input.heap.live == old(input.heap.live) + item.repr
    ensures !ok ==> item.Owned() && item.Leaf() && item.repr == old(item.repr)
    ensures !ok ==> input.heap.live == old(input.heap.live)
    ensures !ok ==>
      || input.heap.failures > old(input.heap.failures)
      || Spec.ParseValue(input.content, old(input.offset), old(input.depth)).Fail?
    ensures old(input.heap.failures) <= input.heap.failures
    decreases |input.content| - input.offset, 7
  {
    hide Node.Owned, StandsAt, Spec.ParseString, Spec.ParseNumber, Spec.ParseArray, Spec.ParseObject;
    hide Numerals.NumeralIn, Numerals.Truncated;
    var c := input.content;
    var p := input.offset;
    if StandsAt(c, p, NULL_TEXT) {
      StandsAtHead(c, p, NULL_TEXT);
      item.kind := KNull;
      input.offset := p + 4;
      return true;
    }
    if StandsAt(c, p, FALSE_TEXT) {
      StandsAtHead(c, p, FALSE_TEXT);
      item.kind := KFalse;
      input.offset := p + 5;
      return true;
    }
    if StandsAt(c, p, TRUE_TEXT) {
      StandsAtHead(c, p, TRUE_TEXT);
      item.kind := KTrue;
      item.valueint := 1;
      input.offset := p + 4;
      return true;
    }
    if Spec.Sees(c, p, QUOTE) {
      ok := input.ParseString(item);
      return;
    }
    if Spec.StartsNumber(c, p) {
      ok := input.ParseNumber(item);
      return;
    }
    if Spec.Sees(c, p, OPEN_BRACKET) {
      ok := ParseArray(item, input);
      return;
    }
    if Spec.Sees(c, p, OPEN_BRACE) {
      ok := ParseObject(item, input);
      return;
    }
    ok := false;
  }

  /**
    What both parsing loops end a turn with: parse_value on the last item of the list,
    behind one more character and blanks, and the blanks behind it. A failure deletes the
    list, as the source does after jumping out of its loops.
  */
  method ParseLast(head: Node?, n: Node, input: ParseBuffer, ghost ns: seq<Node>, ghost vs: seq<J>)
    returns (ghost v: J, ok: bool)
    requires input.Framed() && input.offset + 1 < |input.content|
    requires Growing(head, n, ns + [n]) && Trees(ns, vs) && Blocks(ns) + n.repr <= input.heap.live
    requires n.Owned() && n.Leaf()
    modifies input`offset, input`depth, input.heap`live, input.heap`failures
    modifies n`kind, n`child, n`kids, n`repr, n`valuestring, n`valueint, n`valuedouble
    ensures input.Framed() && old(input.offset) <= input.offset
    ensures ok ==> input.depth == old(input.depth)
    ensures ok ==> ElementAt(input.content, old(input.offset) + 1, old(input.depth)) == Spec.Ok(v, input.offset)
    ensures ok ==> Growing(head, n, ns + [n]) && old(n.repr) <= n.repr && fresh(n.repr - old(n.repr))
    ensures ok ==> Trees(ns + [n], vs + [v])
    ensures ok ==> input.heap.live == old(input.heap.live) + n.repr && Blocks(ns) == old(Blocks(ns))
    ensures !ok ==> input.heap.live == old(input.heap.live) - old(Blocks(ns)) - old(n.repr)
    ensures !ok && input.heap.failures == old(input.heap.failures) ==>
      ElementAt(input.content, old(input.offset) + 1, old(input.depth)).Fail?
    ensures old(input.heap.failures) <= input.heap.failures
    decreases |input.content| - input.offset, 1
  {
    hide Node.Owned, Node.Denotes, Disjoint, Blocks, ElementAt;
    NotAmong(ns, n);
    DisjointLast(ns, n);
    BlocksAppend(ns, n);
    v, ok := ParseNext(n, input);
    DisjointAppend(ns, n);
    if ok {
      TreesAppend(ns, vs, n, v);
    } else {
      BlocksAppend(ns, n);
      Delete(head, input.heap, ns + [n]);
    }
  }

  /** parse_value behind one more character and blanks, and the blanks behind it. */
  method ParseNext(n: Node, input: ParseBuffer) returns (ghost v: J, ok: bool)
    requires input.Framed() && input.offset + 1 < |input.content|
    requires n.Owned() && n.Leaf() && n.repr <= input.heap.live
    modifies input`offset, input`depth, input.heap`live, input.heap`failures
    modifies n`kind, n`child, n`kids, n`repr, n`valuestring, n`valueint, n`valuedouble
    ensures input.Framed() && old(input.offset) <= input.offset
    ensures ok ==> input.depth == old(input.depth)
    ensures ok ==> ElementAt(input.content, old(input.offset) + 1, old(input.depth)) == Spec.Ok(v, input.offset)
    ensures ok ==> n.Owned() && n.Denotes(v)
    ensures ok ==> old(n.repr) <= n.repr && fresh(n.repr - old(n.repr))
    ensures ok ==> input.heap.live == old(input.heap.live) + n.repr
    ensures !ok ==> n.Owned() && n.Leaf() && n.repr == old(n.repr)
    ensures !ok ==> input.heap.live == old(input.heap.live)
    ensures !ok && input.heap.failures == old(input.heap.failures) ==>
      ElementAt(input.content, old(input.offset) + 1, old(input.depth)).Fail?
    ensures old(input.heap.failures) <= input.heap.failures
    decreases |input.content| - input.offset, 0
  {
    hide Node.Owned, Node.Denotes, Spec.ParseValue, Spec.Skip;
    input.offset := input.offset + 1;
    input.SkipWhitespace();
    v := ValueAt(input.content, input.offset, input.depth);
    ok := ParseValue(n, input);
    if ok {
      input.SkipWhitespace();
    }
  }

  /** One turn of the loop of parse_array. */
  method ParseElement(head: Node?, current: Node?, input: ParseBuffer, ghost ns: seq<Node>, ghost vs: seq<J>)
    returns (head': Node?, n: Node?, ghost v: J, ok: bool)
    requires input.Framed() && input.offset + 1 < |input.content|
    requires Growing(head, current, ns) && Trees(ns, vs) && Blocks(ns) <= input.heap.live
    modifies input`offset, input`depth, input.heap`live, input.heap`failures
    modifies (if current == null then {} else {current})`next
    ensures input.Framed() && old(input.offset) <= input.offset
    ensures ok ==> input.depth == old(input.depth)
    ensures ok ==> ElementAt(input.content, old(input.offset) + 1, old(input.depth)) == Spec.Ok(v, input.offset)
    ensures ok ==> head' == if head == null then n else head
    ensures ok ==> n != null && fresh(n) && Growing(head', n, ns + [n]) && fresh(n.repr)
    ensures ok ==> Trees(ns + [n], vs + [v])
    ensures ok ==> input.heap.live == old(input.heap.live) + n.repr && Blocks(ns) == old(Blocks(ns))
    ensures !ok ==> input.heap.live == old(input.heap.live) - old(Blocks(ns))
    ensures !ok && input.heap.failures == old(input.heap.failures) ==>
      ElementAt(input.content, old(input.offset) + 1, old(input.depth)).Fail?
    ensures old(input.heap.failures) <= input.heap.failures
    decreases |input.content| - input.offset, 2
  {
    hide Trees, Node.Owned, Node.Denotes, Blocks, Growing, ElementAt;
    v := Null;
    head', n := NextItem(head, current, input.heap, ns, vs);
    if n == null {
      return head', n, v, false;
    }
    v, ok := ParseLast(head', n, input, ns, vs);
  }

  lemma NotAmong(ns: seq<Node>, n: Node)
    requires Disjoint(ns + [n]) && n.Owned()
    requires forall i | 0 <= i < |ns| :: ns[i].Owned()
    ensures forall i | 0 <= i < |ns| :: n !in ns[i].repr && n != ns[i]
  {
    hide Node.Owned;
    forall i | 0 <= i < |ns| ensures n !in ns[i].repr && n != ns[i] {
      assert (ns + [n])[i] == ns[i] && (ns + [n])[|ns|] == n;
    }
  }

  ghost function ValueAt(c: Text, p: nat, depth: nat): J
    requires p <= |c|
  {
    if Spec.ParseValue(c, p, depth).Ok? then Spec.ParseValue(c, p, depth).value else Null
  }

  /** The value behind the blanks at p, and where the blanks behind it end. */
  ghost function ElementAt(c: Text, p: nat, depth: nat): Spec.Parsed<J>
    requires p <= |c|
  {
    var r := Spec.ParseValue(c, Spec.Skip(c, p), depth);
    if r.Ok? then Spec.Ok(r.value, Spec.Skip(c, r.end)) else Spec.Fail
  }

  lemma PrependItem<T>(items: seq<T>, x: T, r: Spec.Parsed<seq<T>>)
    ensures PrependItems(items, PrependItems([x], r)) == PrependItems(items + [x], r)
  {
    if r.Ok? {
      assert items + ([x] + r.value) == items + [x] + r.value;
    }
  }

  lemma PrependLast<T>(items: seq<T>, x: T, e: nat)
    ensures PrependItems(items, Spec.Ok([x], e)) == Spec.Ok(items + [x], e)
  {
  }

  lemma PrependNoItems<T>(r: Spec.Parsed<seq<T>>)
    ensures PrependItems([], r) == r
  {
    if r.Ok? {
      assert [] + r.value == r.value;
    }
  }

  lemma ElementStep(c: Text, p: nat, depth: nat)
    requires p <= |c|
    ensures ElementAt(c, p, depth).Ok? ==> p < ElementAt(c, p, depth).end
    ensures Spec.ParseElements(c, p, depth)
         == match ElementAt(c, p, depth)
            case Fail => Spec.Fail
            case Ok(v, e) =>
              if Spec.Sees(c, e, COMMA) then PrependItems([v], Spec.ParseElements(c, e + 1, depth)) else Spec.Ok([v], e)
  {
  }

  /** The loop of parse_array over the elements, from the offset before the first one. */
  method ParseElements(input: ParseBuffer)
    returns (head: Node?, current: Node?, ghost ns: seq<Node>, ghost vs: seq<J>, ok: bool)
    requires input.Framed() && input.offset + 1 < |input.content|
    modifies input`offset, input`depth, input.heap`live, input.heap`failures
    ensures input.Framed() && old(input.offset) <= input.offset
    ensures ok ==> input.depth == old(input.depth)
    ensures ok ==>
      Spec.ParseElements(input.content, old(input.offset) + 1, old(input.depth)) == Spec.Ok(vs, input.offset)
    ensures ok ==> Growing(head, current, ns) && fresh(Blocks(ns))
    ensures ok && head != null ==> fresh(head)
    ensures ok ==> Blocks(ns) !! old(input.heap.live)
    ensures ok ==> Trees(ns, vs)
    ensures ok ==> input.heap.live == old(input.heap.live) + Blocks(ns)
    ensures !ok ==> input.heap.live == old(input.heap.live)
    ensures !ok && input.heap.failures == old(input.heap.failures) ==>
      Spec.ParseElements(input.content, old(input.offset) + 1, old(input.depth)).Fail?
    ensures old(input.heap.failures) <= input.heap.failures
    decreases |input.content| - input.offset, 3
  {
    hide Trees, Node.Owned, Node.Denotes, Disjoint, Blocks, Growing, Spec.ParseElements, ElementAt;
    head, current, ns, vs := null, null, [], [];
    PrependNoItems(Spec.ParseElements(input.content, input.offset + 1, input.depth));
    NoBlocks(ns);
    EmptyList();
    var more := true;
    while more
      invariant input.Framed() && old(input.offset) <= input.offset
      invariant input.depth == old(input.depth)
      invariant more ==> input.offset + 1 < |input.content|
      invariant more ==>
        Spec.ParseElements(input.content, old(input.offset) + 1, input.depth)
        == PrependItems(vs, Spec.ParseElements(input.content, input.offset + 1, input.depth))
      invariant !more ==>
        Spec.ParseElements(input.content, old(input.offset) + 1, input.depth) == Spec.Ok(vs, input.offset)
      invariant Growing(head, current, ns) && fresh(Blocks(ns))
      invariant (current != null ==> fresh(current)) && (head != null ==> fresh(head))
      invariant Blocks(ns) !! old(input.heap.live)
      invariant Trees(ns, vs)
      invariant input.heap.live == old(input.heap.live) + Blocks(ns)
      invariant old(input.heap.failures) <= input.heap.failures
      decreases |input.content| - input.offset, more
    {
      ghost var v;
      var n;
      ghost var here := input.offset;
      head, n, v, ok := ParseElement(head, current, input, ns, vs);
      ElementStep(input.content, here + 1, old(input.depth));
      if !ok {
        return;
      }
      more := Spec.Sees(input.content, input.offset, COMMA);
      if more {
        PrependItem(vs, v, Spec.ParseElements(input.content, input.offset + 1, input.depth));
      }
      BlocksAppend(ns, n);
      current, ns, vs := n, ns + [n], vs + [v];
    }
    ok := true;
  }

  /** parse_array between its brackets; the offset stops on the closing one. */
  method ParseBracketed(input: ParseBuffer)
    returns (head: Node?, current: Node?, ghost ns: seq<Node>, ghost vs: seq<J>, ok: bool)
    requires input.Framed() && Spec.Sees(input.content, input.offset, OPEN_BRACKET)
    requires 0 < input.depth <= Spec.NESTING_LIMIT
    modifies input`offset, input`depth, input.heap`live, input.heap`failures
    ensures input.Framed() && old(input.offset) <= input.offset
    ensures ok ==> input.depth == old(input.depth) && input.offset < |input.content|
    ensures ok ==>
      Spec.ParseArray(input.content, old(input.offset), old(input.depth) - 1) == Spec.Ok(Arr(vs), input.offset + 1)
    ensures ok ==> Growing(head, current, ns) && fresh(Blocks(ns))
    ensures ok && head != null ==> fresh(head)
    ensures ok ==> Trees(ns, vs)
    ensures ok ==> input.heap.live == old(input.heap.live) + Blocks(ns) && Blocks(ns) !! old(input.heap.live)
    ensures !ok ==> input.heap.live == old(input.heap.live)
    ensures !ok && input.heap.failures == old(input.heap.failures) ==>
      Spec.ParseArray(input.content, old(input.offset), old(input.depth) - 1).Fail?
    ensures old(input.heap.failures) <= input.heap.failures
    decreases |input.content| - input.offset, 4
  {
    hide Node.Owned, Node.Denotes, Disjoint, Blocks, Spec.ParseElements, Spec.Skip;
    head, current, ns, vs := null, null, [], [];
    NoBlocks(ns);
    EmptyList();
    input.offset := input.offset + 1;
    input.SkipWhitespace();
    if Spec.Sees(input.content, input.offset, CLOSE_BRACKET) {
      return head, current, ns, vs, true;
    }
    // The source's check for the end of the buffer cannot fire: the buffer ends in a NUL.
    input.offset := input.offset - 1;
    head, current, ns, vs, ok := ParseElements(input);
    if ok && !Spec.Sees(input.content, input.offset, CLOSE_BRACKET) {
      Delete(head, input.heap, ns);
      ok := false;
    }
  }

  lemma TooDeepArray(c: Text, off: nat, depth: nat)
    requires Spec.Sees(c, off, OPEN_BRACKET)
    ensures depth >= Spec.NESTING_LIMIT ==> Spec.ParseArray(c, off, depth).Fail?
  {
  }

  method AdoptElements(item: Node, head: Node?, current: Node?, ghost ns: seq<Node>, ghost vs: seq<J>)
    requires item.Owned() && item.Leaf() && Blocks(ns) !! item.repr
    requires Growing(head, current, ns) && Trees(ns, vs)
    modifies item`kind, item`child, item`kids, item`repr, (if head == null then {} else {head})`prev
    ensures item.Owned() && item.repr == old(item.repr) + old(Blocks(ns)) && item.Denotes(Arr(vs))
  {
    hide Trees, Node.Owned, Node.Denotes, Node.KidsBackward, Growing, Blocks;
    Adopt(item, KArray, head, current, ns, vs);
    ArrayDenotes(item, vs);
  }

  method ParseArray(item: Node, input: ParseBuffer) returns (ok: bool)
    requires input.Framed() && Spec.Sees(input.content, input.offset, OPEN_BRACKET)
    requires item.Owned() && item.Leaf() && item.repr <= input.heap.live
    modifies input`offset, input`depth, input.heap`live, input.heap`failures, item`kind, item`child
    modifies item`kids, item`repr
    ensures input.Framed() && old(input.offset) <= input.offset
    ensures ok ==> input.depth == old(input.depth)
    ensures ok ==> Spec.ParseArray(input.content, old(input.offset), old(input.depth)).Ok?
    ensures ok ==> input.offset == Spec.ParseArray(input.content, old(input.offset), old(input.depth)).end
    ensures ok ==>
      item.Owned() && item.Denotes(Spec.ParseArray(input.content, old(input.offset), old(input.depth)).value)
    ensures ok ==> old(item.repr) <= item.repr && fresh(item.repr - old(item.repr))
    ensures ok ==> input.heap.live == old(input.heap.live) + item.repr
    ensures !ok ==> unchanged(item) && input.heap.live == old(input.heap.live)
    ensures !ok ==>
      || input.heap.failures > old(input.heap.failures)
      || Spec.ParseArray(input.content, old(input.offset), old(input.depth)).Fail?
    ensures old(input.heap.failures) <= input.heap.failures
    decreases |input.content| - input.offset, 5
  {
    hide Trees, Node.Owned, Node.Denotes, Node.KidsBackward, Growing, Blocks, Spec.ParseArray;
    TooDeepArray(input.content, input.offset, input.depth);
    if input.depth >= Spec.NESTING_LIMIT {
      return false;
    }
    input.depth := input.depth + 1;
    ghost var ns, vs;
    var head, current;
    head, current, ns, vs, ok := ParseBracketed(input);
    if ok {
      AdoptElements(item, head, current, ns, vs);
      input.depth := input.depth - 1;
      input.offset := input.offset + 1;
    }
  }

  // ---- Objects ----

  /** The items of a list carry the keys of these members as names. */
  ghost predicate Named(ns: seq<Node>, ms: seq<Member>)
    reads ns`name, set i | 0 <= i < |ns| && ns[i].name != null :: ns[i].name
  {
    |ms| == |ns| && forall i | 0 <= i < |ns| :: ns[i].name != null && Holds(ns[i].name, ms[i].key)
  }

  /** The key behind the blanks at p, and the offset of the colon behind it. */
  ghost function KeyAt(c: Text, p: nat): (r: Spec.Parsed<Text>)
    requires p <= |c|
    ensures r.Ok? ==> p < r.end && Spec.Sees(c, r.end, COLON)
  {
    match Spec.ParseString(c, Spec.Skip(c, p))
    case Fail => Spec.Fail
    case Ok(key, end) =>
      if Spec.Sees(c, Spec.Skip(c, end), COLON) then Spec.Ok(key, Spec.Skip(c, end)) else Spec.Fail
  }

  /** The first half of a turn of the loop of parse_object: the name of the new last item. */
  method ParseKey(head: Node?, n: Node, input: ParseBuffer, ghost ns: seq<Node>, ghost vs: seq<J>)
    returns (ghost key: Text, ok: bool)
    requires input.Framed() && input.offset + 1 < |input.content|
    requires Growing(head, n, ns + [n]) && Blocks(ns) + n.repr <= input.heap.live
    requires Trees(ns, vs)
    requires n.Owned() && n.Leaf() && n.name == null && n.repr == {n}
    modifies input`offset, input.heap`live, input.heap`failures, n`kind, n`valuestring, n`name, n`repr
    ensures input.Framed() && old(input.offset) <= input.offset
    ensures ok ==> Trees(ns, vs) && input.offset + 1 < |input.content|
    ensures ok ==> KeyAt(input.content, old(input.offset) + 1) == Spec.Ok(key, input.offset)
    ensures ok ==> n.name != null && fresh(n.name) && Holds(n.name, key)
    ensures ok ==> Growing(head, n, ns + [n]) && n.Owned() && n.Leaf() && n.repr == {n, n.name}
    ensures ok ==> input.heap.live == old(input.heap.live) + n.repr && Blocks(ns) == old(Blocks(ns))
    ensures !ok ==> input.heap.live == old(input.heap.live) - old(Blocks(ns)) - {n}
    ensures !ok && input.heap.failures == old(input.heap.failures) ==> KeyAt(input.content, old(input.offset) + 1).Fail?
    ensures old(input.heap.failures) <= input.heap.failures
  {
    hide Node.Owned, Node.Denotes, Disjoint, Blocks, KeyAt;
    NotAmong(ns, n);
    DisjointLast(ns, n);
    BlocksAppend(ns, n);
    input.offset := input.offset + 1;
    key, ok := ReadName(n, input);
    DisjointAppend(ns, n);
    if !ok {
      BlocksAppend(ns, n);
      Delete(head, input.heap, ns + [n]);
    }
  }

  /** A string literal becomes the name of an item, and a colon must follow. */
  method ReadName(n: Node, input: ParseBuffer) returns (ghost key: Text, ok: bool)
    requires input.Framed() && input.offset < |input.content|
    requires n.Owned() && n.Leaf() && n.name == null && n.repr == {n}
    modifies input`offset, input.heap`live, input.heap`failures, n`kind, n`valuestring, n`name, n`repr
    ensures input.Framed() && old(input.offset) <= input.offset
    ensures n.Owned() && n.Leaf() && n.child == old(n.child)
    ensures n.repr == {n} + Optional(n.name) && (n.name != null ==> fresh(n.name))
    ensures input.heap.live == old(input.heap.live) + Optional(n.name)
    ensures ok ==> KeyAt(input.content, old(input.offset)) == Spec.Ok(key, input.offset)
    ensures ok ==> n.name != null && Holds(n.name, key)
    ensures !ok && input.heap.failures == old(input.heap.failures) ==> KeyAt(input.content, old(input.offset)).Fail?
    ensures old(input.heap.failures) <= input.heap.failures
  {
    hide Node.Owned, Spec.ParseString, Spec.Skip;
    OwnedParts(n);
    input.SkipWhitespace();
    key := StringAt(input.content, input.offset);
    ok := input.ParseString(n);
    if ok {
      n.name := n.valuestring;
      n.valuestring := null;
      HoldsIsText(n.name, key);
      Renamed(n);
      input.SkipWhitespace();
      ok := Spec.Sees(input.content, input.offset, COLON);
    }
  }

  lemma Renamed(n: Node)
    requires n.Leaf() && n.child == null && n.name != null && n.repr == {n, n.name} && HoldsText(n.name)
    ensures n.Owned()
  {
    OwnedIntro(n);
  }

  ghost function StringAt(c: Text, p: nat): Text {
    if Spec.ParseString(c, p).Ok? then Spec.ParseString(c, p).value else []
  }

  lemma MemberAt(c: Text, p: nat, depth: nat)
    requires p <= |c|
    ensures Spec.ParseMember(c, p, depth)
         == match KeyAt(c, p)
            case Fail => Spec.Fail
            case Ok(key, colon) =>
              match ElementAt(c, colon + 1, depth)
              case Fail => Spec.Fail
              case Ok(v, end) => Spec.Ok(Member(key, v), end)
  {
    hide Spec.Skip, Spec.ParseValue, Spec.ParseString;
  }

  /** Key, colon and value of the last item of the list. */
  method ParseEntry(head: Node?, n: Node, input: ParseBuffer, ghost ns: seq<Node>, ghost vs: seq<J>)
    returns (ghost m: Member, ok: bool)
    requires input.Framed() && input.offset + 1 < |input.content|
    requires Growing(head, n, ns + [n]) && Trees(ns, vs) && Blocks(ns) + n.repr <= input.heap.live
    requires n.Owned() && n.Leaf() && n.name == null && n.repr == {n}
    modifies input`offset, input`depth, input.heap`live, input.heap`failures
    modifies n`kind, n`child, n`kids, n`repr, n`valuestring, n`valueint, n`valuedouble, n`name
    ensures input.Framed() && old(input.offset) <= input.offset
    ensures ok ==> input.depth == old(input.depth)
    ensures ok ==> Spec.ParseMember(input.content, old(input.offset) + 1, old(input.depth)) == Spec.Ok(m, input.offset)
    ensures ok ==> Growing(head, n, ns + [n]) && n in n.repr && fresh(n.repr - {n})
    ensures ok ==> n.name != null && Holds(n.name, m.key) && Trees(ns + [n], vs + [m.value])
    ensures ok ==> input.heap.live == old(input.heap.live) + n.repr && Blocks(ns) == old(Blocks(ns))
    ensures !ok ==> input.heap.live == old(input.heap.live) - old(Blocks(ns)) - {n}
    ensures !ok && input.heap.failures == old(input.heap.failures) ==>
      Spec.ParseMember(input.content, old(input.offset) + 1, old(input.depth)).Fail?
    ensures old(input.heap.failures) <= input.heap.failures
    decreases |input.content| - input.offset, 2
  {
    hide Trees, Node.Owned, Node.Denotes, Blocks, Growing, Spec.ParseMember, KeyAt, ElementAt;
    m := Member([], Null);
    ghost var key, v;
    MemberAt(input.content, input.offset + 1, input.depth);
    key, ok := ParseKey(head, n, input, ns, vs);
    if ok {
      v, ok := ParseLast(head, n, input, ns, vs);
      m := Member(key, v);
    }
  }

  /** One turn of the loop of parse_object. */
  method ParseMember(
    head: Node?, current: Node?, input: ParseBuffer, ghost ns: seq<Node>, ghost ms: seq<Member>)
    returns (head': Node?, n: Node?, ghost m: Member, ok: bool)
    requires input.Framed() && input.offset + 1 < |input.content|
    requires Growing(head, current, ns) && Named(ns, ms) && Trees(ns, Values(ms)) && Blocks(ns) <= input.heap.live
    modifies input`offset, input`depth, input.heap`live, input.heap`failures
    modifies (if current == null then {} else {current})`next
    ensures input.Framed() && old(input.offset) <= input.offset
    ensures ok ==> input.depth == old(input.depth)
    ensures ok ==> Spec.ParseMember(input.content, old(input.offset) + 1, old(input.depth)) == Spec.Ok(m, input.offset)
    ensures ok ==> head' == if head == null then n else head
    ensures ok ==> n != null && fresh(n) && Growing(head', n, ns + [n]) && fresh(n.repr)
    ensures ok ==> Named(ns + [n], ms + [m]) && Trees(ns + [n], Values(ms + [m]))
    ensures ok ==> input.heap.live == old(input.heap.live) + n.repr && Blocks(ns) == old(Blocks(ns))
    ensures !ok ==> input.heap.live == old(input.heap.live) - old(Blocks(ns))
    ensures !ok && input.heap.failures == old(input.heap.failures) ==>
      Spec.ParseMember(input.content, old(input.offset) + 1, old(input.depth)).Fail?
    ensures old(input.heap.failures) <= input.heap.failures
    decreases |input.content| - input.offset, 3
  {
    hide Trees, Node.Owned, Node.Denotes, Blocks, Growing, Named, Spec.ParseMember;
    m := Member([], Null);
    head', n := NextItem(head, current, input.heap, ns, Values(ms));
    if n == null {
      return head', n, m, false;
    }
    m, ok := ParseEntry(head', n, input, ns, Values(ms));
    if ok {
      NamedAppend(ns, ms, n, m);
      assert Values(ms + [m]) == Values(ms) + [m.value];
    }
  }

  lemma MemberStep(c: Text, p: nat, depth: nat)
    requires p <= |c|
    ensures Spec.ParseMembers(c, p, depth)
         == match Spec.ParseMember(c, p, depth)
            case Fail => Spec.Fail
            case Ok(m, e) =>
              if Spec.Sees(c, e, COMMA) then PrependItems([m], Spec.ParseMembers(c, e + 1, depth)) else Spec.Ok([m], e)
  {
  }

  /**
    These are the members from `start` on up to the one before the offset p of a comma, or, if
    there are no more, all of them.
  */
  ghost predicate MembersTo(c: Text, start: nat, depth: nat, ms: seq<Member>, p: nat, more: bool)
    requires start <= |c| && (more ==> p < |c|)
  {
    Spec.ParseMembers(c, start, depth)
    == if more then PrependItems(ms, Spec.ParseMembers(c, p + 1, depth)) else Spec.Ok(ms, p)
  }

  lemma MembersAtFirst(c: Text, p: nat, depth: nat)
    requires p < |c|
    ensures MembersTo(c, p + 1, depth, [], p, true)
  {
    PrependNoItems(Spec.ParseMembers(c, p + 1, depth));
  }

  lemma MembersNext(c: Text, start: nat, depth: nat, ms: seq<Member>, p: nat, m: Member, e: nat)
    requires start <= |c| && p < |c| && MembersTo(c, start, depth, ms, p, true)
    requires Spec.ParseMember(c, p + 1, depth) == Spec.Ok(m, e)
    ensures MembersTo(c, start, depth, ms + [m], e, Spec.Sees(c, e, COMMA))
  {
    hide Spec.ParseMembers, Spec.ParseMember, PrependItems;
    MemberStep(c, p + 1, depth);
    if Spec.Sees(c, e, COMMA) {
      PrependItem(ms, m, Spec.ParseMembers(c, e + 1, depth));
    } else {
      PrependLast(ms, m, e);
    }
  }

  lemma MembersFail(c: Text, start: nat, depth: nat, ms: seq<Member>, p: nat)
    requires start <= |c| && p < |c| && MembersTo(c, start, depth, ms, p, true)
    ensures Spec.ParseMember(c, p + 1, depth).Fail? ==> Spec.ParseMembers(c, start, depth).Fail?
  {
    MemberStep(c, p + 1, depth);
  }

  lemma MembersAll(c: Text, start: nat, depth: nat, ms: seq<Member>, p: nat)
    requires start <= |c| && MembersTo(c, start, depth, ms, p, false)
    ensures Spec.ParseMembers(c, start, depth) == Spec.Ok(ms, p)
  {
  }

  /** The loop of parse_object over the members, from the offset before the first one. */
  method ParseMembers(input: ParseBuffer)
    returns (head: Node?, current: Node?, ghost ns: seq<Node>, ghost ms: seq<Member>, ok: bool)
    requires input.Framed() && input.offset + 1 < |input.content|
    modifies input`offset, input`depth, input.heap`live, input.heap`failures
    ensures input.Framed() && old(input.offset) <= input.offset
    ensures ok ==> input.depth == old(input.depth)
    ensures ok ==>
      Spec.ParseMembers(input.content, old(input.offset) + 1, old(input.depth)) == Spec.Ok(ms, input.offset)
    ensures ok ==> Growing(head, current, ns) && fresh(Blocks(ns)) && Named(ns, ms)
    ensures ok && head != null ==> fresh(head)
    ensures ok ==> Blocks(ns) !! old(input.heap.live)
    ensures ok ==> Trees(ns, Values(ms))
    ensures ok ==> input.heap.live == old(input.heap.live) + Blocks(ns)
    ensures !ok ==> input.heap.live == old(input.heap.live)
    ensures !ok && input.heap.failures == old(input.heap.failures) ==>
      Spec.ParseMembers(input.content, old(input.offset) + 1, old(input.depth)).Fail?
    ensures old(input.heap.failures) <= input.heap.failures
    decreases |input.content| - input.offset, 4
  {
    hide Trees, Node.Owned, Node.Denotes, Disjoint, Blocks, Growing, Named, Spec.ParseMembers, Spec.ParseMember;
    hide Spec.Skip, Spec.ParseString, Spec.ParseValue, MembersTo, Values;
    head, current, ns, ms := null, null, [], [];
    MembersAtFirst(input.content, input.offset, input.depth);
    NoBlocks(ns);
    EmptyList();
    NoNames();
    var more := true;
    while more
      invariant input.Framed() && old(input.offset) <= input.offset
      invariant input.depth == old(input.depth)
      invariant more ==> input.offset + 1 < |input.content|
      invariant MembersTo(input.content, old(input.offset) + 1, input.depth, ms, input.offset, more)
      invariant Growing(head, current, ns) && fresh(Blocks(ns)) && Named(ns, ms)
      invariant (current != null ==> fresh(current)) && (head != null ==> fresh(head))
      invariant Blocks(ns) !! old(input.heap.live)
      invariant Trees(ns, Values(ms))
      invariant input.heap.live == old(input.heap.live) + Blocks(ns)
      invariant old(input.heap.failures) <= input.heap.failures
      decreases |input.content| - input.offset, more
    {
      ghost var m;
      var n;
      ghost var here := input.offset;
      MembersFail(input.content, old(input.offset) + 1, input.depth, ms, here);
      head, n, m, ok := ParseMember(head, current, input, ns, ms);
      if !ok {
        return;
      }
      MembersNext(input.content, old(input.offset) + 1, input.depth, ms, here, m, input.offset);
      more := Spec.Sees(input.content, input.offset, COMMA);
      BlocksAppend(ns, n);
      current, ns, ms := n, ns + [n], ms + [m];
    }
    MembersAll(input.content, old(input.offset) + 1, input.depth, ms, input.offset);
    ok := true;
  }

  lemma NamedAppend(ns: seq<Node>, ms: seq<Member>, n: Node, m: Member)
    requires Named(ns, ms) && n.name != null && Holds(n.name, m.key)
    ensures Named(ns + [n], ms + [m])
  {
  }

  lemma NoNames()
    ensures Named([], []) && Values([]) == []
  {
  }

  /** parse_object between its braces; the offset stops on the closing one. */
  method ParseBraced(input: ParseBuffer)
    returns (head: Node?, current: Node?, ghost ns: seq<Node>, ghost ms: seq<Member>, ok: bool)
    requires input.Framed() && Spec.Sees(input.content, input.offset, OPEN_BRACE)
    requires 0 < input.depth <= Spec.NESTING_LIMIT
    modifies input`offset, input`depth, input.heap`live, input.heap`failures
    ensures input.Framed() && old(input.offset) <= input.offset
    ensures ok ==> input.depth == old(input.depth) && input.offset < |input.content|
    ensures ok ==>
      Spec.ParseObject(input.content, old(input.offset), old(input.depth) - 1) == Spec.Ok(Obj(ms), input.offset + 1)
    ensures ok ==> Growing(head, current, ns) && fresh(Blocks(ns)) && Named(ns, ms)
    ensures ok && head != null ==> fresh(head)
    ensures ok ==> Trees(ns, Values(ms))
    ensures ok ==> input.heap.live == old(input.heap.live) + Blocks(ns) && Blocks(ns) !! old(input.heap.live)
    ensures !ok ==> input.heap.live == old(input.heap.live)
    ensures !ok && input.heap.failures == old(input.heap.failures) ==>
      Spec.ParseObject(input.content, old(input.offset), old(input.depth) - 1).Fail?
    ensures old(input.heap.failures) <= input.heap.failures
    decreases |input.content| - input.offset, 5
  {
    hide Node.Owned, Node.Denotes, Disjoint, Blocks, Spec.ParseMembers, Spec.Skip;
    head, current, ns, ms := null, null, [], [];
    NoBlocks(ns);
    EmptyList();
    assert Values([]) == [];
    input.offset := input.offset + 1;
    input.SkipWhitespace();
    if Spec.Sees(input.content, input.offset, CLOSE_BRACE) {
      return head, current, ns, ms, true;
    }
    // The source's check for the end of the buffer cannot fire: the buffer ends in a NUL.
    input.offset := input.offset - 1;
    head, current, ns, ms, ok := ParseMembers(input);
    if ok && !Spec.Sees(input.content, input.offset, CLOSE_BRACE) {
      Delete(head, input.heap, ns);
      ok := false;
    }
  }

  lemma ObjectDenotes(item: Node, ms: seq<Member>)
    requires item.Owned() && item.kind == KObject && item.valuestring == null
    requires item.KidsBackward() && Named(item.kids, ms) && Trees(item.kids, Values(ms))
    ensures item.Denotes(Obj(ms))
  {
  }

  lemma TooDeepObject(c: Text, off: nat, depth: nat)
    requires Spec.Sees(c, off, OPEN_BRACE)
    ensures depth >= Spec.NESTING_LIMIT ==> Spec.ParseObject(c, off, depth).Fail?
  {
  }

  method AdoptMembers(item: Node, head: Node?, current: Node?, ghost ns: seq<Node>, ghost ms: seq<Member>)
    requires item.Owned() && item.Leaf() && Blocks(ns) !! item.repr
    requires Growing(head, current, ns) && Trees(ns, Values(ms)) && Named(ns, ms)
    modifies item`kind, item`child, item`kids, item`repr, (if head == null then {} else {head})`prev
    ensures item.Owned() && item.repr == old(item.repr) + old(Blocks(ns)) && item.Denotes(Obj(ms))
  {
    hide Trees, Node.Owned, Node.Denotes, Node.KidsBackward, Growing, Named, Blocks, Values;
    Adopt(item, KObject, head, current, ns, Values(ms));
    ObjectDenotes(item, ms);
  }

  method ParseObject(item: Node, input: ParseBuffer) returns (ok: bool)
    requires input.Framed() && Spec.Sees(input.content, input.offset, OPEN_BRACE)
    requires item.Owned() && item.Leaf() && item.repr <= input.heap.live
    modifies input`offset, input`depth, input.heap`live, input.heap`failures, item`kind, item`child
    modifies item`kids, item`repr
    ensures input.Framed() && old(input.offset) <= input.offset
    ensures ok ==> input.depth == old(input.depth)
    ensures ok ==> Spec.ParseObject(input.content, old(input.offset), old(input.depth)).Ok?
    ensures ok ==> input.offset == Spec.ParseObject(input.content, old(input.offset), old(input.depth)).end
    ensures ok ==>
      item.Owned() && item.Denotes(Spec.ParseObject(input.content, old(input.offset), old(input.depth)).value)
    ensures ok ==> old(item.repr) <= item.repr && fresh(item.repr - old(item.repr))
    ensures ok ==> input.heap.live == old(input.heap.live) + item.repr
    ensures !ok ==> unchanged(item) && input.heap.live == old(input.heap.live)
    ensures !ok ==>
      || input.heap.failures > old(input.heap.failures)
      || Spec.ParseObject(input.content, old(input.offset), old(input.depth)).Fail?
    ensures old(input.heap.failures) <= input.heap.failures
    decreases |input.content| - input.offset, 6
  {
    hide Trees, Node.Owned, Node.Denotes, Node.KidsBackward, Growing, Named, Blocks, Spec.ParseObject, Values;
    TooDeepObject(input.content, input.offset, input.depth);
    if input.depth >= Spec.NESTING_LIMIT {
      return false;
    }
    input.depth := input.depth + 1;
    ghost var ns, ms;
    var head, current;
    head, current, ns, ms, ok := ParseBraced(input);
    if ok {
      AdoptMembers(item, head, current, ns, ms);
      input.depth := input.depth - 1;
      input.offset := input.offset + 1;
    }
  }

  // ---- The entry point ----

  /**
    cJSON_ParseWithLengthOpts on a buffer that is empty or ends in a NUL. `position` is
    where *return_parse_end and the error pointer point.
  */
  method Parse(value: Text, requireNul: bool, heap: Allocator) returns (item: Node?, position: nat)
    requires value != [] ==> value[|value| - 1] == NUL
    modifies heap`live, heap`failures
    ensures item != null ==> ParseResult(value, requireNul).Ok? && ParseResult(value, requireNul).end == position
    ensures item != null ==> item.Owned() && item.Denotes(ParseResult(value, requireNul).value)
    ensures item != null ==> Grammar.Accepts(value, requireNul, ParseResult(value, requireNul).value, position)
    ensures item != null ==> item.next == null && item.prev == null && item.name == null
    ensures item != null ==> fresh(item.repr) && heap.live == old(heap.live) + item.repr
    ensures item == null ==> heap.live == old(heap.live)
    ensures item == null ==> heap.failures > old(heap.failures) || ParseResult(value, requireNul).Fail?
    ensures item == null ==> heap.failures > old(heap.failures) || Grammar.Refused(value, requireNul)
    ensures item == null && value != [] ==> position < |value|
    ensures item == null ==> heap.failures > old(heap.failures) || Grammar.StopsAt(value, position)
    ensures old(heap.failures) <= heap.failures
  {
    hide Node.Owned, Node.Denotes, Spec.ParseText, FailedAt, Grammar.Accepts, Grammar.Refused, Grammar.StopsAt;
    FollowsGrammar(value, requireNul);
    position := 0;
    if value == [] {
      Grammar.NothingStops();
      return null, 0;
    }
    item := heap.NewItem();
    if item == null {
      return null, 0;
    }
    LeafOwned(item);
    var input := new ParseBuffer(value, heap);
    var ok := ParseInto(item, input, requireNul);
    if ok {
      position := input.offset;
    } else {
      if FailedAt(value, requireNul, input.offset) {
        ErrorPosition(value, requireNul, input.offset);
      }
      DeleteOne(item, heap);
      item := null;
      position := if input.offset < |value| then input.offset else |value| - 1;
    }
  }

  /** What stands between a byte order mark and the end of the value, or the NUL if that is asked for. */
  method ParseInto(item: Node, input: ParseBuffer, requireNul: bool) returns (ok: bool)
    requires input.Framed() && input.offset == 0 && input.depth == 0
    requires item.Owned() && item.Leaf() && item.repr <= input.heap.live
    modifies input`offset, input`depth, input.heap`live, input.heap`failures
    modifies item`kind, item`child, item`kids, item`repr, item`valuestring, item`valueint, item`valuedouble
    ensures ok ==> Spec.ParseText(input.content, requireNul).Ok?
    ensures ok ==> input.offset == Spec.ParseText(input.content, requireNul).end
    ensures item.Owned() && old(item.repr) <= item.repr && fresh(item.repr - old(item.repr))
    ensures ok ==> item.Denotes(Spec.ParseText(input.content, requireNul).value)
    ensures input.heap.live == old(input.heap.live) + item.repr
    ensures !ok ==> input.heap.failures > old(input.heap.failures) || FailedAt(input.content, requireNul, input.offset)
    ensures old(input.heap.failures) <= input.heap.failures
  {
    hide Node.Owned, Node.Denotes, Spec.ParseValue, Spec.Skip;
    input.offset := Spec.BomEnd(input.content);
    input.SkipWhitespace();
    ok := ParseValue(item, input);
    if ok && requireNul {
      input.SkipWhitespace();
      ok := Spec.Sees(input.content, input.offset, NUL);
    }
  }

  /** The whole text fails, with the parser's offset where it is then. */
  ghost predicate FailedAt(c: Text, requireNul: bool, offset: nat) {
    Spec.ParseText(c, requireNul).Fail? && Grammar.Stopped(c, offset)
  }

  /** The error position is the offset, but not behind the last byte. */
  lemma ErrorPosition(c: Text, requireNul: bool, offset: nat)
    requires Grammar.Closed(c) && FailedAt(c, requireNul, offset)
    ensures Spec.ParseText(c, requireNul).Fail?
    ensures Grammar.StopsAt(c, if offset < |c| then offset else |c| - 1)
  {
    hide Spec.ParseValue;
    Grammar.StopsInside(c, offset);
    Grammar.StopsExactly(c, requireNul, if offset < |c| then offset else |c| - 1);
  }

  lemma FollowsGrammar(value: Text, requireNul: bool)
    requires value == [] || Grammar.Closed(value)
    ensures match ParseResult(value, requireNul)
      case Fail => Grammar.Refused(value, requireNul)
      case Ok(v, end) => Grammar.Accepts(value, requireNul, v, end)
  {
    hide Spec.ParseText, Grammar.Accepts, Grammar.Refused;
    if value == [] {
      Grammar.EmptyRefused(requireNul);
    } else {
      Grammar.RefusesExactly(value, requireNul);
      var r := Spec.ParseText(value, requireNul);
      if r.Ok? {
        Grammar.AcceptsExactly(value, requireNul, r.value, r.end);
      }
    }
  }

  ghost function ParseResult(value: Text, requireNul: bool): Spec.Parsed<J> {
    if value == [] then Spec.Fail else Spec.ParseText(value, requireNul)
  }
}
