/**
  What the operations on trees come to one after the other: a tree that is parsed is released by
  one deletion, one that is printed parses back, and one that is copied compares equal to its
  copy exactly if it is consistent. Only memory, size and nesting can get in the way.
*/
module TreeRoundTrip {
  import opened Bytes
  import opened Json
  import opened Rendering
  import Spec = ParseSpec
  import opened RoundTrip
  import opened Nodes
  import opened Comparison
  import opened TreeParser
  import opened TreePrinter
  import opened TreeCopy
  import opened TreeCompare
  import opened Minifying
  import opened MinifyPrinted

  /** Parsing any text and deleting the tree leaves the live blocks as they were. */
  method ParseAndDelete(value: Text, requireNul: bool, heap: Allocator) returns (ok: bool)
    requires value != [] ==> value[|value| - 1] == NUL
    modifies heap`live, heap`failures
    ensures heap.live == old(heap.live) && old(heap.failures) <= heap.failures
    ensures ok ==> ParseResult(value, requireNul).Ok?
    ensures !ok ==> heap.failures > old(heap.failures) || ParseResult(value, requireNul).Fail?
  {
    hide Node.Owned, Node.Denotes, ParseResult;
    var item, _ := Parse(value, requireNul, heap);
    ok := item != null;
    if ok {
      DeleteOne(item, heap);
    }
  }

  /** A printed block holds the text and its NUL, and nothing else. */
  lemma PrintedBlock(printed: array<byte>, text: Text)
    requires Holds(printed, text) && printed.Length == |text| + 1
    ensures printed[..] == text + [NUL] + [] && NUL in printed[..]
  {
    assert printed[..][|text|] == NUL;
  }

  /**
    Printing a tree and parsing the text gives a separate tree for the same value, strings and
    keys cut at NULs; the text itself is released.
  */
  method PrintAndParse(item: Node, format: bool, heap: Allocator, ghost v: J) returns (back: Node?)
    requires Stands(item, v)
    modifies heap`live, heap`failures
    ensures back != null ==> back.Owned() && back.Denotes(Cut(v)) && back.next == null && back.prev == null
    ensures back != null ==> fresh(back.repr) && heap.live == old(heap.live) + back.repr
    ensures back == null ==> heap.live == old(heap.live)
    ensures back == null && heap.failures == old(heap.failures) ==>
      |Render(v, format, 0)| + 2 > INT_MAX || Height(v) > Spec.NESTING_LIMIT
  {
    hide Node.Owned, Node.Denotes, Holds, Render, Cut, Height, Spec.ParseText, Stands;
    ParsePrintable(item, v, format);
    var printed, _, _ := Print(item, format, heap, v);
    if printed == null {
      return null;
    }
    PrintedBlock(printed, Render(v, format, 0));
    var position;
    back, position := Parse(printed[..], false, heap);
    heap.Free(printed);
  }

  lemma ParsePrintable(item: Node, v: J, format: bool)
    requires Stands(item, v)
    ensures ParseResult(Render(v, format, 0) + [NUL] + [], false)
         == if Height(v) <= Spec.NESTING_LIMIT then Spec.Ok(Cut(v), |Render(v, format, 0)|) else Spec.Fail
  {
    hide Render, Spec.ParseText, Height, Cut;
    assert Printable(v);
    ParsePrinted(v, format, [], false);
  }

  lemma StandsParts(item: Node, v: J)
    requires Stands(item, v)
    ensures item.Owned() && item.Denotes(v) && Printable(v)
  {
  }

  lemma CopyStands(copy: Node, v: J)
    requires copy.Owned() && copy.Denotes(Cut(v)) && Printable(v)
    ensures Stands(copy, Cut(v))
  {
    hide Node.Owned, Node.Denotes, Cut, Printable;
    CutKeeps(v);
  }

  /** A tree compares equal to a copy of it exactly if it is consistent; the copy is released. */
  method CopyAndCompare(item: Node, caseSensitive: bool, heap: Allocator, ghost v: J) returns (copied: bool, same: bool)
    requires Stands(item, v)
    modifies heap`live, heap`failures
    ensures heap.live == old(heap.live)
    ensures copied ==> (same <==> Consistent(v, caseSensitive))
    ensures !copied ==> heap.failures > old(heap.failures)
  {
    hide *;
    StandsParts(item, v);
    CopyComparesEqual(v, caseSensitive);
    var copy := Duplicate(item, true, heap, v);
    copied, same := copy != null, false;
    if copied {
      CopyStands(copy, v);
      same := Compare(item, copy, caseSensitive, v, Cut(v));
      DeleteOne(copy, heap);
    }
  }

  /** Minifying a formatted print in place leaves the unformatted print exactly if the tree is safe. */
  method PrintAndMinify(item: Node, heap: Allocator, ghost v: J) returns (printed: array?<byte>)
    requires Stands(item, v)
    modifies heap`live, heap`failures
    ensures printed != null ==> fresh(printed) && heap.live == old(heap.live) + {printed}
    ensures printed != null ==> (CString(printed[..]) == Render(v, false, 0) <==> Safe(v, true))
    ensures printed == null ==> heap.live == old(heap.live)
  {
    hide *;
    StandsParts(item, v);
    MinifyFormatted(v);
    RenderHasNoNul(v, true, 0);
    CStringOfText(Render(v, true, 0), []);
    ghost var size, copied;
    printed, size, copied := Print(item, true, heap, v);
    if printed != null {
      PrintedBlock(printed, Render(v, true, 0));
      Minify(printed);
    }
  }
}
