/**
  The output buffer of the printer: `ensure`, `update_offset`, and the methods that
  print a leaf into it.
*/
module PrintBuffers {
  import opened Bytes
  import opened Strings
  import opened Numbers
  import opened Nodes

  class PrintBuffer {
    var buffer: array?<byte>
    var length: nat
    var offset: nat
    var depth: nat
    const noalloc: bool
    const format: bool
    const heap: Allocator

    /** The live blocks other than an allocated buffer, and the bytes regrowth has copied. */
    ghost const base: set<object>
    ghost var copied: nat

    constructor (buffer: array<byte>, noalloc: bool, format: bool, heap: Allocator)
      requires buffer.Length <= INT_MAX
      requires !noalloc ==> buffer in heap.live
      ensures Ready() && this.buffer == buffer && offset == 0 && depth == 0 && copied == 0
      ensures this.noalloc == noalloc && this.format == format && this.heap == heap
      ensures base == if noalloc then heap.live else heap.live - {buffer}
    {
      this.buffer, length, offset, depth := buffer, buffer.Length, 0, 0;
      this.noalloc, this.format, this.heap := noalloc, format, heap;
      copied := 0;
      base := if noalloc then heap.live else heap.live - {buffer};
    }

    /** The buffer is the only block the printer holds, and regrowth has been cheap so far. */
    ghost predicate Balanced()
      reads this`buffer, this`length, this`copied, heap`live
    {
      && heap.live == base + (if noalloc then {} else Optional(buffer))
      && (noalloc ==> buffer != null)
      && (!noalloc ==> buffer !in base)
      && (buffer != null ==> buffer.Length == length <= INT_MAX)
      && (buffer != null ==> copied <= length || (length == INT_MAX && copied <= 2 * length))
    }

    /** There is a buffer, and it can be written to at the offset. */
    ghost predicate Ready()
      reads this`buffer, this`length, this`copied, this`offset, heap`live
      ensures Ready() ==> Balanced() && buffer != null && offset <= buffer.Length == length <= INT_MAX
      ensures Ready() ==> offset <= Limit()
    {
      Balanced() && buffer != null && (offset < length || (offset == 0 && length == 0))
    }

    /** The size no text may exceed. */
    ghost function Limit(): int
      reads this`length
    {
      if noalloc then length else INT_MAX
    }

    /** The text printed so far, ended by a NUL; a part of it may lie behind the offset. */
    ghost predicate Shows(text: Text)
      reads this`buffer, this`offset, buffer
    {
      && buffer != null && offset <= |text| < buffer.Length
      && buffer[..|text|] == text && buffer[|text|] == NUL && NUL !in text[offset..]
    }

    /** The text before the offset. */
    ghost function Before(): (t: Text)
      requires buffer != null && offset <= buffer.Length
      reads this`buffer, this`offset, buffer
      ensures |t| == offset
    {
      buffer[..offset]
    }

    /** ensure: room for `needed` bytes, and one more, behind the offset. */
    method Ensure(needed: nat) returns (ok: bool)
      requires Ready()
      modifies this`buffer, this`length, this`copied, heap`live, heap`failures
      ensures Balanced() && old(heap.failures) <= heap.failures
      ensures ok ==> Ready() && offset + needed + 1 <= length <= Limit()
      ensures ok ==> (buffer == old(buffer) || (fresh(buffer) && !noalloc)) && Before() == old(Before())
      ensures !ok && (noalloc || heap.failures == old(heap.failures)) ==> offset + needed + 1 > Limit()
      ensures noalloc ==> buffer == old(buffer) && length == old(length) && heap.live == old(heap.live)
      ensures ok ==> length == old(length) || length <= 2 * (offset + needed + 1)
    {
      // The source refuses an offset at or behind the end of the buffer; there is none.
      assert length == 0 || offset < length;
      if needed > INT_MAX {
        return false;
      }
      var needed := needed + offset + 1;
      if needed <= length {
        return true;
      }
      if noalloc {
        return false;
      }
      var newsize;
      if needed > INT_MAX / 2 {
        if needed <= INT_MAX {
          newsize := INT_MAX;
        } else {
          return false;
        }
      } else {
        newsize := needed * 2;
      }
      var newbuffer := heap.Reallocate(buffer, newsize);
      if newbuffer == null {
        heap.Free(buffer);
        length := 0;
        buffer := null;
        return false;
      }
      copied := copied + length;
      length := newsize;
      buffer := newbuffer;
      ok := true;
    }

    /** Characters are written one by one from the offset on. */
    method WriteText(text: Text)
      requires Ready() && offset + |text| < length
      modifies buffer
      ensures Ready() && Before() == old(Before()) && buffer[offset..offset + |text|] == text
    {
      var i := 0;
      while i < |text|
        invariant i <= |text| && Before() == old(Before())
        invariant buffer[offset..offset + i] == text[..i]
      {
        buffer[offset + i] := text[i];
        i := i + 1;
      }
      assert text[..i] == text;
    }

    /** strcpy to the offset. */
    method CopyText(text: Text)
      requires Ready() && offset + |text| + 1 <= length && NUL !in text
      modifies buffer
      ensures Ready() && Shows(old(Before()) + text)
    {
      WriteText(text);
      buffer[offset + |text|] := NUL;
      ShowsBehind(text);
    }

    /** update_offset: move the offset to the terminating NUL. */
    method UpdateOffset(ghost text: Text)
      requires Ready() && Shows(text)
      modifies this`offset
      ensures Ready() && offset == |text| && Before() == text
    {
      ghost var start := offset;
      while buffer[offset] != NUL
        invariant start <= offset <= |text|
        decreases |text| - offset
      {
        assert buffer[offset] == text[offset] == text[start..][offset - start];
        offset := offset + 1;
      }
    }

    /**
      What printing `text` comes to: it stands behind what was there before, if it and two
      more bytes fit the limit; it fails only if they do not, or memory runs out.
    */
    twostate predicate Printed(ok: bool, text: Text)
      reads this, buffer, heap
    {
      && Balanced() && old(heap.failures) <= heap.failures
      && (noalloc ==> buffer == old(buffer) && length == old(length)) && Limit() == old(Limit())
      && (ok ==>
           && Ready() && depth == old(depth) && old(buffer) != null && old(offset) <= old(buffer).Length
           && (buffer == old(buffer) || (fresh(buffer) && !noalloc))
           && Shows(old(Before()) + text)
           && old(offset) + |text| + 2 <= Limit()
           && (length == old(length) || length <= 2 * (old(offset) + |text| + 2)))
      && (!ok && (noalloc || heap.failures == old(heap.failures)) ==> old(offset) + |text| + 2 > Limit())
    }

    /**
      What appending `text` comes to: it stands before the offset, if it and `slack` more
      bytes fit the limit; it fails only if they do not, or memory runs out.
    */
    twostate predicate Appended(ok: bool, text: Text, slack: nat)
      reads this, buffer, heap
    {
      && Balanced() && old(heap.failures) <= heap.failures
      && (noalloc ==> buffer == old(buffer) && length == old(length)) && Limit() == old(Limit())
      && (ok ==>
           && Ready() && old(buffer) != null && old(offset) <= old(buffer).Length
           && (buffer == old(buffer) || (fresh(buffer) && !noalloc))
           && Before() == old(Before()) + text
           && old(offset) + |text| + slack <= Limit()
           && (length == old(length) || length <= 2 * (old(offset) + |text| + slack)))
      && (!ok && (noalloc || heap.failures == old(heap.failures)) ==> old(offset) + |text| + slack > Limit())
    }

    /** Punctuation: write it where there is room, with a NUL if `terminate`, and advance. */
    method Append(text: Text, terminate: bool) returns (ok: bool)
      requires Ready()
      modifies this`buffer, this`length, this`offset, this`copied, heap`live, heap`failures, buffer
      ensures Appended(ok, text, if terminate then 2 else 1)
    {
      ok := Ensure(|text| + (if terminate then 1 else 0));
      if !ok {
        return;
      }
      WriteOn(text, terminate);
    }

    /** The characters of `text`, the NUL, and the offset behind the characters. */
    method WriteOn(text: Text, terminate: bool)
      requires Ready() && offset + |text| < length
      modifies this`offset, buffer
      ensures Ready() && Before() == old(Before()) + text
    {
      WriteText(text);
      if terminate {
        buffer[offset + |text|] := NUL;
      }
      assert buffer[..offset + |text|] == Before() + text;
      offset := offset + |text|;
    }

    /** Print a word of the language: null, true or false. */
    method PrintWord(text: Text) returns (ok: bool)
      requires Ready() && NUL !in text
      modifies this`buffer, this`length, this`copied, heap`live, heap`failures, buffer
      ensures Printed(ok, text)
    {
      ok := Ensure(|text| + 1);
      if ok {
        CopyText(text);
      }
    }

    /** print_number on an integer: the offset is advanced here. */
    method PrintNumber(n: int32) returns (ok: bool)
      requires Ready()
      modifies this`buffer, this`length, this`offset, this`copied, heap`live, heap`failures, buffer
      ensures Printed(ok, Dec(n))
    {
      var text := Dec(n);
      DecHasNoNul(n);
      // The source refuses more than 25 characters; there are never so many.
      assert |text| <= 25 by { DecFits(n); }
      ok := Ensure(|text| + 1);
      if ok {
        CopyText(text);
        offset := offset + |text|;
      }
    }

    /** The first loop of print_string_ptr: how much longer escaping makes the string. */
    method MeasureEscapes(input: array<byte>, ghost t: Text) returns (length: nat, extra: nat)
      requires Holds(input, t) && NUL !in t
      ensures length == |t| && length + extra == |Escape(t)|
    {
      hide EscapeByte;
      length, extra := 0, 0;
      assert t[0..] == t;
      while input[length] != NUL
        invariant length <= |t|
        invariant length + extra + |Escape(t[length..])| == |Escape(t)|
        decreases |t| - length
      {
        assert input[length] == t[length];
        extra := extra + EscapeExtra(input[length]);
        EscapeCons(t, length);
        length := length + 1;
      }
      EndOfCString(input, t, length);
    }

    /** One character of the second loop of print_string_ptr, escaped if it must be. */
    method WriteEscaped(b: byte, pos: nat) returns (pos': nat)
      requires Ready() && b != NUL && pos + |EscapeByte(b)| < length
      modifies buffer
      ensures Ready() && pos' == pos + |EscapeByte(b)|
      ensures buffer[..pos] == old(buffer[..pos]) && buffer[pos..pos'] == EscapeByte(b)
    {
      if b > 31 && b != QUOTE && b != BACKSLASH {
        buffer[pos] := b;
        return pos + 1;
      }
      buffer[pos] := BACKSLASH;
      if b == QUOTE || b == BACKSLASH {
        buffer[pos + 1] := b;
      } else if b == BACKSPACE {
        buffer[pos + 1] := LOWER_B;
      } else if b == FORM_FEED {
        buffer[pos + 1] := LOWER_F;
      } else if b == NEWLINE {
        buffer[pos + 1] := LOWER_N;
      } else if b == RETURN {
        buffer[pos + 1] := LOWER_R;
      } else if b == TAB {
        buffer[pos + 1] := LOWER_T;
      } else {
        WriteHex(b, pos);
        return pos + 6;
      }
      pos' := pos + 2;
    }

    /** sprintf("u%04x") behind a backslash, with the NUL it adds. */
    method WriteHex(b: byte, pos: nat)
      requires Ready() && b <= 31 && pos + 6 < length && buffer[pos] == BACKSLASH
      modifies buffer
      ensures Ready() && buffer[..pos] == old(buffer[..pos])
      ensures buffer[pos..pos + 6] == [BACKSLASH, LOWER_U, ZERO, ZERO, HexChar(b / 16), HexChar(b % 16)]
    {
      hide HexChar;
      buffer[pos + 1], buffer[pos + 2], buffer[pos + 3] := LOWER_U, ZERO, ZERO;
      buffer[pos + 4], buffer[pos + 5], buffer[pos + 6] := HexChar(b / 16), HexChar(b % 16), NUL;
    }

    /** The second loop of print_string_ptr: the escaped string goes behind the opening quote. */
    method CopyEscaped(input: array<byte>, ghost t: Text)
      requires Ready() && buffer != input && Holds(input, t) && NUL !in t
      requires offset + |Escape(t)| + 3 <= length && buffer[offset] == QUOTE
      modifies buffer
      ensures Ready() && Before() == old(Before())
      ensures buffer[offset..offset + 1 + |Escape(t)|] == [QUOTE] + Escape(t)
    {
      hide EscapeByte, Escape;
      var i, pos := 0, offset + 1;
      assert t[0..] == t;
      while input[i] != NUL
        invariant i <= |t| && offset + 1 <= pos
        invariant Before() == old(Before())
        invariant pos + |Escape(t[i..])| == offset + 1 + |Escape(t)|
        invariant buffer[offset..pos] + Escape(t[i..]) == [QUOTE] + Escape(t)
        decreases |t| - i
      {
        assert input[i] == t[i];
        EscapeCons(t, i);
        ghost var done := buffer[offset..pos];
        assert done == buffer[..pos][offset..];
        var pos' := WriteEscaped(input[i], pos);
        assert buffer[offset..pos] == buffer[..pos][offset..];
        assert buffer[offset..pos'] == buffer[offset..pos] + buffer[pos..pos'];
        assert buffer[offset..pos'] == done + EscapeByte(t[i]);
        pos, i := pos', i + 1;
      }
      EndOfCString(input, t, i);
    }

    /** memcpy of a string that needs no escapes, behind the opening quote. */
    method CopyPlain(input: array<byte>, ghost t: Text, n: nat)
      requires Ready() && buffer != input && Holds(input, t) && n == |t| && Escape(t) == t
      requires offset + n + 3 <= length && buffer[offset] == QUOTE
      modifies buffer
      ensures Ready() && Before() == old(Before())
      ensures buffer[offset..offset + 1 + n] == [QUOTE] + Escape(t)
    {
      hide Escape;
      forall i | 0 <= i < n {
        buffer[offset + 1 + i] := input[i];
      }
      assert buffer[offset + 1..offset + 1 + n] == t;
      assert buffer[offset..offset + 1 + n] == [QUOTE] + buffer[offset + 1..offset + 1 + n];
    }

    /** print_string_ptr; a null pointer prints as the empty string. */
    method PrintStringPtr(input: array?<byte>, ghost t: Text) returns (ok: bool)
      requires Ready() && buffer != input && NUL !in t
      requires if input == null then t == [] else Holds(input, t)
      modifies this`buffer, this`length, this`copied, heap`live, heap`failures, buffer
      ensures Printed(ok, [QUOTE] + Escape(t) + [QUOTE])
    {
      hide Escape;
      if input == null {
        NothingToEscape();
        ok := Ensure(3);
        if ok {
          CopyText([QUOTE, QUOTE]);
        }
        return;
      }
      var n, extra := MeasureEscapes(input, t);
      ok := Ensure(n + extra + 3);
      if ok {
        WriteLiteral(input, t, n, extra);
      }
    }

    /** The closing quote and the NUL. */
    method CloseLiteral(ghost body: Text, size: nat)
      requires Ready() && size == |body| && offset + size + 2 <= length && NUL !in body
      requires buffer[offset..offset + |body|] == body
      modifies buffer
      ensures Ready() && Shows(old(Before()) + (body + [QUOTE]))
    {
      buffer[offset + size] := QUOTE;
      buffer[offset + size + 1] := NUL;
      assert buffer[offset..offset + |body| + 1] == body + [QUOTE];
      ShowsBehind(body + [QUOTE]);
    }

    lemma ShowsBehind(text: Text)
      requires Ready() && offset + |text| < length && NUL !in text
      requires buffer[offset..offset + |text|] == text && buffer[offset + |text|] == NUL
      ensures Shows(Before() + text)
    {
      assert buffer[..offset + |text|] == Before() + text;
    }

    /** The quoted string is written where there is room for it. */
    method WriteLiteral(input: array<byte>, ghost t: Text, n: nat, extra: nat)
      requires Ready() && buffer != input && NUL !in t && Holds(input, t)
      requires n == |t| && n + extra == |Escape(t)| && offset + n + extra + 4 <= length
      modifies buffer
      ensures Ready() && Shows(old(Before()) + ([QUOTE] + Escape(t) + [QUOTE]))
    {
      hide Escape, PrintBuffer.Shows;
      EscapeHasNoNul(t);
      buffer[offset] := QUOTE;
      if extra == 0 {
        NothingEscaped(t);
        CopyPlain(input, t, n);
      } else {
        CopyEscaped(input, t);
      }
      CloseLiteral([QUOTE] + Escape(t), n + extra + 1);
    }
  }

  lemma NothingToEscape()
    ensures [QUOTE] + Escape([]) + [QUOTE] == [QUOTE, QUOTE]
  {
  }

  lemma {:induction false} NothingEscaped(t: Text)
    requires |Escape(t)| == |t|
    ensures Escape(t) == t
  {
    if t != [] {
      EscapeCons(t, 0);
      assert t[0..] == t;
      NothingEscaped(t[1..]);
      assert t == [t[0]] + t[1..];
    }
  }

  function EscapeExtra(b: byte): nat {
    if b == QUOTE || b == BACKSLASH || b == BACKSPACE || b == FORM_FEED || b == NEWLINE || b == RETURN || b == TAB
    then 1
    else if b < 32 then 5
    else 0
  }

  lemma EscapeCons(t: Text, i: nat)
    requires i < |t|
    ensures Escape(t[i..]) == EscapeByte(t[i]) + Escape(t[i + 1..])
    ensures |EscapeByte(t[i])| == 1 + EscapeExtra(t[i])
  {
  }

  lemma EndOfCString(a: array<byte>, t: Text, i: nat)
    requires Holds(a, t) && NUL !in t && i <= |t| && a[i] == NUL
    ensures i == |t| && Escape(t[i..]) == []
  {
    assert forall k | 0 <= k < |t| :: a[k] == t[k] && t[k] != NUL;
  }

  lemma DecHasNoNul(n: int32)
    ensures NUL !in Dec(n)
  {
  }
}
