/**
  print_value, print_array, print_object, and the entry points that print a whole tree
  into a growing or a given buffer.
*/
module TreePrinter {
  import opened Bytes
  import opened Json
  import opened Strings
  import opened Rendering
  import opened Nodes
  import opened PrintBuffers
  import Layout

  /** print_value on a tree of nodes that stands for v. */
  method PrintValue(item: Node, p: PrintBuffer, ghost v: J) returns (ok: bool)
    requires p.Ready() && p.buffer !in item.repr
    requires Stands(item, v)
    modifies p`buffer, p`length, p`offset, p`depth, p`copied, p.heap`live, p.heap`failures, p.buffer
    ensures p.Printed(ok, Render(v, p.format, old(p.depth)))
    decreases v, 1
  {
    match item.kind
    case KNull =>
      ok := p.PrintWord(NULL_TEXT);
    case KFalse =>
      ok := p.PrintWord(FALSE_TEXT);
    case KTrue =>
      ok := p.PrintWord(TRUE_TEXT);
    case KNumber =>
      ok := p.PrintNumber(item.valueint);
    case KString =>
      ok := p.PrintStringPtr(item.valuestring, CString(v.s));
    case KArray =>
      ok := PrintArray(item, p, v.items);
    case KObject =>
      ok := PrintObject(item, p, v.members);
    case KInvalid =>
      ok := false;
  }

  /** One turn of the loop of print_array. */
  method PrintItem(current: Node, p: PrintBuffer, ghost v: J) returns (ok: bool)
    requires p.Ready() && p.buffer !in current.repr
    requires Stands(current, v)
    modifies p`buffer, p`length, p`offset, p`depth, p`copied, p.heap`live, p.heap`failures, p.buffer
    ensures ok ==> p.depth == old(p.depth)
    ensures p.Appended(ok, Render(v, p.format, old(p.depth))
                           + (if current.next == null then [] else ItemSeparator(p.format)), 2)
    decreases v, 2
  {
    hide Render, Stands, ItemSeparator;
    hide PrintBuffer.Before, PrintBuffer.Shows, PrintBuffer.Balanced, PrintBuffer.Ready, PrintBuffer.Limit;
    ghost var w := p.Before();
    ghost var text := Render(v, p.format, p.depth);
    ghost var whole := p.Before() + text;
    ok := PrintValue(current, p, v);
    if !ok {
      return;
    }
    p.UpdateOffset(whole);
    if current.next != null {
      ok := p.Append(ItemSeparator(p.format), true);
      Concat3(w, text, ItemSeparator(p.format));
    } else {
      assert text + [] == text;
    }
  }

  /** The loop of print_array: the items between the brackets. */
  method PrintItems(item: Node, p: PrintBuffer, ghost items: seq<J>) returns (ok: bool)
    requires p.Ready() && p.buffer !in item.repr
    requires Stands(item, Arr(items))
    modifies p`buffer, p`length, p`offset, p`depth, p`copied, p.heap`live, p.heap`failures, p.buffer
    ensures ok ==> p.depth == old(p.depth)
    ensures p.Appended(ok, RenderItems(items, p.format, old(p.depth)), if items == [] then 0 else 2)
    decreases items, 3
  {
    hide Render, RenderItems, Stands;
    hide PrintBuffer.Before, PrintBuffer.Shows, PrintBuffer.Balanced, PrintBuffer.Ready, PrintBuffer.Limit;
    ArrayKids(item, items);
    ghost var w, text, done := p.Before(), RenderItems(items, p.format, p.depth), [];
    assert items[0..] == items;
    var current := item.child;
    ghost var i: nat := 0;
    ok := true;
    while current != null
      invariant i <= |items| && current == (if i < |items| then item.kids[i] else null)
      invariant ok && p.Ready() && p.depth == old(p.depth) && old(p.heap.failures) <= p.heap.failures
      invariant (p.noalloc ==> p.buffer == old(p.buffer) && p.length == old(p.length)) && p.Limit() == old(p.Limit())
      invariant p.buffer == old(p.buffer) || (fresh(p.buffer) && !p.noalloc)
      invariant p.length == old(p.length) || (i > 0 && p.length <= 2 * (p.offset + 2))
      invariant i > 0 ==> p.offset + 2 <= p.Limit()
      invariant p.Before() == w + done && done + RenderItems(items[i..], p.format, p.depth) == text
      decreases |items| - i
    {
      ArrayKid(item, items, i);
      ItemsFrom(items, i, p.format, p.depth);
      ghost var rest := RenderItems(items[i + 1..], p.format, p.depth);
      ghost var piece := Render(items[i], p.format, p.depth)
        + (if i + 1 == |items| then [] else ItemSeparator(p.format));
      ok := PrintItem(current, p, items[i]);
      Concat3(done, piece, rest);
      if !ok {
        return;
      }
      Concat3(w, done, piece);
      done := done + piece;
      i := i + 1;
      current := current.next;
    }
    NoItems(items[i..], p.format, p.depth);
  }

  lemma NoItems(items: seq<J>, format: bool, depth: nat)
    ensures items == [] ==> RenderItems(items, format, depth) == []
  {
  }

  lemma Concat3(a: Text, b: Text, c: Text)
    ensures a + b + c == a + (b + c)
  {
  }

  lemma ItemsFrom(items: seq<J>, i: nat, format: bool, depth: nat)
    requires i < |items|
    ensures RenderItems(items[i..], format, depth)
         == Render(items[i], format, depth)
            + (if i + 1 == |items| then [] else ItemSeparator(format))
            + RenderItems(items[i + 1..], format, depth)
  {
    assert items[i..][1..] == items[i + 1..];
  }

  method PrintArray(item: Node, p: PrintBuffer, ghost items: seq<J>) returns (ok: bool)
    requires p.Ready() && p.buffer !in item.repr
    requires Stands(item, Arr(items))
    modifies p`buffer, p`length, p`offset, p`depth, p`copied, p.heap`live, p.heap`failures, p.buffer
    ensures p.Printed(ok, Render(Arr(items), p.format, old(p.depth)))
    decreases items, 5
  {
    hide Stands, RenderItems;
    hide PrintBuffer.Before, PrintBuffer.Shows, PrintBuffer.Balanced, PrintBuffer.Ready, PrintBuffer.Limit;
    ghost var w := p.Before();
    ghost var opening := [OPEN_BRACKET] + RenderItems(items, p.format, p.depth + 1);
    ok := OpenArray(item, p, items);
    if !ok {
      return;
    }
    ok := p.PrintWord([CLOSE_BRACKET]);
    Concat3(w, opening, [CLOSE_BRACKET]);
    p.depth := p.depth - 1;
  }

  lemma NothingRendered(format: bool, depth: nat)
    ensures RenderItems([], format, depth) == []
  {
  }

  /** The opening bracket and the elements. */
  method OpenArray(item: Node, p: PrintBuffer, ghost items: seq<J>) returns (ok: bool)
    requires p.Ready() && p.buffer !in item.repr
    requires Stands(item, Arr(items))
    modifies p`buffer, p`length, p`offset, p`depth, p`copied, p.heap`live, p.heap`failures, p.buffer
    ensures p.Appended(
      ok, [OPEN_BRACKET] + RenderItems(items, p.format, old(p.depth) + 1), if items == [] then 1 else 2)
    ensures ok ==> p.depth == old(p.depth) + 1
    decreases items, 4
  {
    hide Stands, RenderItems;
    hide PrintBuffer.Before, PrintBuffer.Shows, PrintBuffer.Balanced, PrintBuffer.Ready, PrintBuffer.Limit;
    ghost var w, text := p.Before(), RenderItems(items, p.format, p.depth + 1);
    NothingRendered(p.format, p.depth + 1);
    ok := p.Append([OPEN_BRACKET], false);
    if !ok {
      return;
    }
    p.depth := p.depth + 1;
    ok := PrintItems(item, p, items);
    Concat3(w, [OPEN_BRACKET], text);
  }

  // ---- Objects ----

  lemma HoldsCString(a: array<byte>, s: Text)
    requires Holds(a, s)
    ensures Holds(a, CString(s)) && NUL !in CString(s)
  {
    assert a[..|CString(s)|] == a[..|s|][..|CString(s)|];
  }

  /** The indentation, the key and the colon of a member. */
  method PrintKey(current: Node, p: PrintBuffer, ghost m: Member) returns (ok: bool)
    requires p.Ready()
    requires current.name != null && current.name != p.buffer && Holds(current.name, m.key)
    modifies p`buffer, p`length, p`offset, p`depth, p`copied, p.heap`live, p.heap`failures, p.buffer
    ensures ok ==> p.depth == old(p.depth)
    ensures p.Appended(ok, Indent(p.format, old(p.depth)) + (Literal(m.key) + KeySeparator(p.format)), 1)
  {
    hide Escape, CString;
    hide PrintBuffer.Before, PrintBuffer.Shows, PrintBuffer.Balanced, PrintBuffer.Ready, PrintBuffer.Limit;
    ghost var w := p.Before();
    ghost var indent, key := Indent(p.format, p.depth), Literal(m.key);
    var colon := KeySeparator(p.format);
    HoldsCString(current.name, m.key);
    ok := PrintIndent(p);
    if !ok {
      return;
    }
    ghost var whole := p.Before() + key;
    ok := p.PrintStringPtr(current.name, CString(m.key));
    if !ok {
      return;
    }
    p.UpdateOffset(whole);
    ok := p.Append(colon, false);
    Concat3(w, indent, key);
    Concat3(w, indent + key, colon);
    Concat3(indent, key, colon);
  }

  /** The tabs in front of a key, in the formatted layout only. */
  method PrintIndent(p: PrintBuffer) returns (ok: bool)
    requires p.Ready()
    modifies p`buffer, p`length, p`offset, p`copied, p.heap`live, p.heap`failures, p.buffer
    ensures p.Appended(ok, Indent(p.format, p.depth), if p.format then 1 else 0)
  {
    if p.format {
      ok := p.Append(Tabs(p.depth), false);
    } else {
      ok := true;
      assert p.Before() == old(p.Before()) + Indent(p.format, p.depth);
    }
  }

  /** The value of a member, and what ends its line. */
  method PrintMemberValue(current: Node, p: PrintBuffer, ghost m: Member) returns (ok: bool)
    requires p.Ready() && p.buffer !in current.repr
    requires Stands(current, m.value)
    modifies p`buffer, p`length, p`offset, p`depth, p`copied, p.heap`live, p.heap`failures, p.buffer
    ensures ok ==> p.depth == old(p.depth)
    ensures p.Appended(ok, Render(m.value, p.format, old(p.depth)) + MemberEnd(p.format, current.next == null), 2)
    decreases m, 2
  {
    hide Render, Stands, MemberEnd;
    hide PrintBuffer.Before, PrintBuffer.Shows, PrintBuffer.Balanced, PrintBuffer.Ready, PrintBuffer.Limit;
    ghost var w := p.Before();
    ghost var text := Render(m.value, p.format, p.depth);
    ghost var whole := p.Before() + text;
    ok := PrintValue(current, p, m.value);
    if !ok {
      return;
    }
    p.UpdateOffset(whole);
    ok := p.Append(MemberEnd(p.format, current.next == null), true);
    Concat3(w, text, MemberEnd(p.format, current.next == null));
  }

  /** One turn of the loop of print_object. */
  method PrintMember(current: Node, p: PrintBuffer, ghost m: Member) returns (ok: bool)
    requires p.Ready() && p.buffer !in current.repr
    requires Stands(current, m.value) && current.name != null && Holds(current.name, m.key)
    modifies p`buffer, p`length, p`offset, p`depth, p`copied, p.heap`live, p.heap`failures, p.buffer
    ensures ok ==> p.depth == old(p.depth)
    ensures p.Appended(ok, RenderMember(m, p.format, old(p.depth), current.next == null), 2)
    decreases m, 3
  {
    hide Render, RenderMember, Stands, MemberEnd, Literal, KeySeparator, Indent;
    hide PrintBuffer.Before, PrintBuffer.Shows, PrintBuffer.Balanced, PrintBuffer.Ready, PrintBuffer.Limit;
    ghost var w := p.Before();
    ghost var head := Indent(p.format, p.depth) + (Literal(m.key) + KeySeparator(p.format));
    ghost var tail := Render(m.value, p.format, p.depth) + MemberEnd(p.format, current.next == null);
    MemberText(m, p.format, p.depth, current.next == null);
    ok := PrintKey(current, p, m);
    if !ok {
      return;
    }
    ok := PrintMemberValue(current, p, m);
    Concat3(w, head, tail);
  }

  lemma MemberText(m: Member, format: bool, depth: nat, last: bool)
    ensures RenderMember(m, format, depth, last)
         == Indent(format, depth) + (Literal(m.key) + KeySeparator(format))
            + (Render(m.value, format, depth) + MemberEnd(format, last))
  {
    hide Render, Indent, Literal, KeySeparator, MemberEnd;
  }

  lemma MembersFrom(members: seq<Member>, i: nat, format: bool, depth: nat)
    requires i < |members|
    ensures RenderMembers(members[i..], format, depth)
         == RenderMember(members[i], format, depth, i + 1 == |members|) + RenderMembers(members[i + 1..], format, depth)
  {
    assert members[i..][1..] == members[i + 1..];
  }

  /** The loop of print_object: the members between the braces. */
  method PrintMembers(item: Node, p: PrintBuffer, ghost members: seq<Member>) returns (ok: bool)
    requires p.Ready() && p.buffer !in item.repr
    requires Stands(item, Obj(members))
    modifies p`buffer, p`length, p`offset, p`depth, p`copied, p.heap`live, p.heap`failures, p.buffer
    ensures ok ==> p.depth == old(p.depth)
    ensures p.Appended(ok, RenderMembers(members, p.format, old(p.depth)), if members == [] then 0 else 2)
    decreases members, 4
  {
    hide RenderMember, RenderMembers, Stands;
    hide PrintBuffer.Before, PrintBuffer.Shows, PrintBuffer.Balanced, PrintBuffer.Ready, PrintBuffer.Limit;
    ObjectKids(item, members);
    ghost var w, text, done := p.Before(), RenderMembers(members, p.format, p.depth), [];
    assert members[0..] == members;
    var current := item.child;
    ghost var i: nat := 0;
    ok := true;
    while current != null
      invariant i <= |members| && current == (if i < |members| then item.kids[i] else null)
      invariant ok && p.Ready() && p.depth == old(p.depth) && old(p.heap.failures) <= p.heap.failures
      invariant (p.noalloc ==> p.buffer == old(p.buffer) && p.length == old(p.length)) && p.Limit() == old(p.Limit())
      invariant p.buffer == old(p.buffer) || (fresh(p.buffer) && !p.noalloc)
      invariant p.length == old(p.length) || (i > 0 && p.length <= 2 * (p.offset + 2))
      invariant i > 0 ==> p.offset + 2 <= p.Limit()
      invariant p.Before() == w + done && done + RenderMembers(members[i..], p.format, p.depth) == text
      decreases |members| - i
    {
      ObjectKid(item, members, i);
      MembersFrom(members, i, p.format, p.depth);
      ghost var rest := RenderMembers(members[i + 1..], p.format, p.depth);
      ghost var piece := RenderMember(members[i], p.format, p.depth, i + 1 == |members|);
      ok := PrintMember(current, p, members[i]);
      Concat3(done, piece, rest);
      if !ok {
        return;
      }
      Concat3(w, done, piece);
      done := done + piece;
      i := i + 1;
      current := current.next;
    }
    NoMembers(members[i..], p.format, p.depth);
  }

  lemma NoMembers(members: seq<Member>, format: bool, depth: nat)
    ensures members == [] ==> RenderMembers(members, format, depth) == []
  {
  }

  /** print_object up to the end of its last member. */
  method PrintOpened(item: Node, p: PrintBuffer, ghost members: seq<Member>) returns (ok: bool)
    requires p.Ready() && p.buffer !in item.repr
    requires Stands(item, Obj(members))
    modifies p`buffer, p`length, p`offset, p`depth, p`copied, p.heap`live, p.heap`failures, p.buffer
    ensures ok ==> p.depth == old(p.depth) + 1
    ensures p.Appended(ok, ObjectOpening(p.format) + RenderMembers(members, p.format, old(p.depth) + 1), 2)
    decreases members, 5
  {
    hide Stands, RenderMembers, ObjectOpening;
    hide PrintBuffer.Before, PrintBuffer.Shows, PrintBuffer.Balanced, PrintBuffer.Ready, PrintBuffer.Limit;
    ghost var w := p.Before();
    ok := p.Append(ObjectOpening(p.format), true);
    if !ok {
      return;
    }
    p.depth := p.depth + 1;
    ok := PrintMembers(item, p, members);
    Concat3(w, ObjectOpening(p.format), RenderMembers(members, p.format, old(p.depth) + 1));
    if members == [] {
      NoMembers(members, p.format, old(p.depth) + 1);
    }
  }

  method PrintObject(item: Node, p: PrintBuffer, ghost members: seq<Member>) returns (ok: bool)
    requires p.Ready() && p.buffer !in item.repr
    requires Stands(item, Obj(members))
    modifies p`buffer, p`length, p`offset, p`depth, p`copied, p.heap`live, p.heap`failures, p.buffer
    ensures p.Printed(ok, Render(Obj(members), p.format, old(p.depth)))
    decreases members, 6
  {
    hide Stands, RenderMembers, ObjectOpening, ObjectClosing;
    hide PrintBuffer.Before, PrintBuffer.Shows, PrintBuffer.Balanced, PrintBuffer.Ready, PrintBuffer.Limit;
    ghost var w := p.Before();
    ghost var opening := ObjectOpening(p.format) + RenderMembers(members, p.format, p.depth + 1);
    ghost var closing := ObjectClosing(p.format, p.depth);
    ok := PrintOpened(item, p, members);
    if !ok {
      return;
    }
    ClosingHasNoNul(p.format, p.depth - 1);
    ok := p.PrintWord(ObjectClosing(p.format, p.depth - 1));
    Concat3(w, opening, closing);
    p.depth := p.depth - 1;
  }

  lemma ClosingHasNoNul(format: bool, depth: nat)
    ensures NUL !in ObjectClosing(format, depth)
  {
  }

  // ---- Entry points ----

  const DEFAULT_BUFFER_SIZE: nat := 256

  lemma PrintIsLaid(item: Node, v: J, format: bool)
    requires Stands(item, v)
    ensures Layout.LaidOut(Render(v, format, 0), format)
  {
    Layout.PrintIsLaid(v, format);
  }

  /**
    cJSON_Print and cJSON_PrintUnformatted: a new block of exactly the printed size.
    `size` is the final length of the working buffer and `copied` what its regrowths copied.
  */
  method Print(item: Node, format: bool, heap: Allocator, ghost v: J)
    returns (printed: array?<byte>, ghost size: nat, ghost copied: nat)
    requires Stands(item, v)
    modifies heap`live, heap`failures
    ensures printed != null ==> fresh(printed) && Holds(printed, Render(v, format, 0))
    ensures printed != null ==> printed.Length == |Render(v, format, 0)| + 1 && heap.live == old(heap.live) + {printed}
    ensures printed != null ==> Layout.LaidOut(Render(v, format, 0), format)
    ensures printed != null ==> |Render(v, format, 0)| + 2 <= INT_MAX
    ensures printed != null ==> copied <= 2 * size && (size < INT_MAX ==> copied <= size)
    ensures printed != null ==> size == 256 || size <= 2 * (|Render(v, format, 0)| + 2)
    ensures printed == null ==> heap.live == old(heap.live)
    ensures old(heap.failures) <= heap.failures
    ensures printed == null && heap.failures == old(heap.failures) ==> |Render(v, format, 0)| + 2 > INT_MAX
  {
    hide Stands, Render, PrintBuffer.Before, Layout.LaidOut;
    PrintIsLaid(item, v, format);
    ghost var text := Render(v, format, 0);
    size, copied := 0, 0;
    var buffer := heap.NewBytes(DEFAULT_BUFFER_SIZE);
    if buffer == null {
      return null, size, copied;
    }
    var p := new PrintBuffer(buffer, false, format, heap);
    var ok := PrintValue(item, p, v);
    if !ok {
      heap.Free(p.buffer);
      return null, size, copied;
    }
    p.UpdateOffset(text);
    size, copied := p.length, p.copied;
    printed := heap.Reallocate(p.buffer, p.offset + 1);
    if printed == null {
      heap.Free(p.buffer);
    }
  }

  /** cJSON_PrintBuffered: the working buffer itself, started at a size the caller guesses. */
  method PrintBuffered(item: Node, prebuffer: int32, format: bool, heap: Allocator, ghost v: J)
    returns (printed: array?<byte>)
    requires Stands(item, v)
    modifies heap`live, heap`failures
    ensures printed != null ==> prebuffer >= 0 && fresh(printed) && Holds(printed, Render(v, format, 0))
    ensures printed != null ==> heap.live == old(heap.live) + {printed} && |Render(v, format, 0)| + 2 <= INT_MAX
    ensures printed == null ==> heap.live == old(heap.live)
    ensures old(heap.failures) <= heap.failures
    ensures printed == null && heap.failures == old(heap.failures) && prebuffer >= 0 ==>
      |Render(v, format, 0)| + 2 > INT_MAX
  {
    hide Stands, Render;
    if prebuffer < 0 {
      return null;
    }
    var buffer := heap.NewBytes(prebuffer);
    if buffer == null {
      return null;
    }
    var p := new PrintBuffer(buffer, false, format, heap);
    var ok := PrintValue(item, p, v);
    if !ok {
      heap.Free(p.buffer);
      return null;
    }
    printed := p.buffer;
  }

  /** cJSON_PrintPreallocated into a buffer of `length` bytes: exactly two bytes more than the text are needed. */
  method PrintPreallocated(item: Node, buffer: array?<byte>, length: int32, format: bool, heap: Allocator, ghost v: J)
    returns (ok: bool)
    requires Stands(item, v) && buffer !in item.repr
    requires buffer != null && length >= 0 ==> buffer.Length == length
    modifies heap`live, heap`failures, buffer
    ensures ok <==> buffer != null && |Render(v, format, 0)| + 2 <= length
    ensures ok ==> Holds(buffer, Render(v, format, 0))
    ensures heap.live == old(heap.live) && old(heap.failures) <= heap.failures
  {
    hide Stands, Render;
    if length < 0 || buffer == null {
      return false;
    }
    var p := new PrintBuffer(buffer, true, format, heap);
    ok := PrintValue(item, p, v);
  }
}
