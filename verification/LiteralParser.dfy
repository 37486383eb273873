/**
  The input buffer of the parser and the methods that read leaves from it: blanks,
  numbers and string literals. The buffer must end in a NUL, as cJSON_Parse frames it.
*/
module LiteralParser {
  import opened Bytes
  import opened Json
  import opened Numbers
  import opened Strings
  import opened Nodes
  import Numerals
  import Spec = ParseSpec

  class ParseBuffer {
    const content: Text
    const heap: Allocator
    var offset: nat
    var depth: nat

    constructor (content: Text, heap: Allocator)
      requires content != [] && content[|content| - 1] == NUL
      ensures Framed() && offset == 0 && depth == 0
      ensures this.content == content && this.heap == heap
    {
      this.content, this.heap := content, heap;
      offset, depth := 0, 0;
    }

    ghost predicate Framed()
      reads this`offset
    {
      content != [] && content[|content| - 1] == NUL && offset <= |content|
    }

    /** buffer_skip_whitespace */
    method SkipWhitespace()
      requires Framed()
      modifies this`offset
      ensures Framed() && offset == Spec.Skip(content, old(offset))
    {
      if offset >= |content| {
        return;
      }
      while offset < |content| && content[offset] <= SPACE
        invariant old(offset) <= offset <= |content|
        invariant Spec.BlankEnd(content, offset) == Spec.BlankEnd(content, old(offset))
      {
        offset := offset + 1;
      }
      if offset == |content| {
        offset := offset - 1;
      }
    }

    /** The loop of parse_number that copies number characters into a fixed buffer. */
    method CollectNumber(numberText: array<byte>) returns (i: nat)
      requires Framed() && numberText.Length == Spec.NUMBER_ROOM + 1
      modifies numberText
      ensures i == NumberRun(content, offset, Spec.NUMBER_ROOM)
      ensures numberText[..i] == content[offset..offset + i] && numberText[i] == NUL
    {
      hide IsNumberChar, NumberRun;
      i := 0;
      NumberRunStep(content, offset, Spec.NUMBER_ROOM);
      while i < Spec.NUMBER_ROOM && offset + i < |content| && IsNumberChar(content[offset + i])
        invariant i <= Spec.NUMBER_ROOM && offset + i <= |content|
        invariant forall k | 0 <= k < i :: numberText[k] == content[offset + k]
        invariant NumberRun(content, offset, Spec.NUMBER_ROOM)
               == i + NumberRun(content, offset + i, Spec.NUMBER_ROOM - i)
      {
        NumberRunStep(content, offset + i, Spec.NUMBER_ROOM - i);
        numberText[i] := content[offset + i];
        i := i + 1;
      }
      NumberRunStep(content, offset + i, Spec.NUMBER_ROOM - i);
      numberText[i] := NUL;
    }

    /** parse_number; strtod is taken as the function Strtod. */
    method ParseNumber(item: Node) returns (ok: bool)
      requires Framed()
      modifies this`offset, item`kind, item`valueint, item`valuedouble
      ensures Framed() && old(offset) <= offset
      ensures ok <==> Spec.ParseNumber(content, old(offset)).Ok?
      ensures ok ==> offset == Spec.ParseNumber(content, old(offset)).end && item.kind == KNumber
      ensures ok ==> Spec.ParseNumber(content, old(offset)).value == NumberOf(item.valueint, item.valuedouble)
      ensures ok ==> Numerals.NumeralIn(content, old(offset), offset, item.valuedouble)
      ensures ok ==> Numerals.Truncated(item.valueint, item.valuedouble)
      ensures !ok ==> forall j, d :: !Numerals.NumeralIn(content, offset, j, d)
      ensures !ok ==> unchanged(this) && unchanged(item)
    {
      hide Strtod, Saturate, NumberRun, Numerals.NumeralIn, Numerals.Truncated;
      NumberRead(content, offset);
      var numberText := new byte[64];
      var i := CollectNumber(numberText);
      var number := Strtod(numberText[..i]);
      if number.used == 0 {
        return false;
      }
      item.valuedouble := number.value;
      item.valueint := Saturate(number.value);
      item.kind := KNumber;
      offset := offset + number.used;
      return true;
    }

    /** parse_hex4 */
    method ParseHex4(i: nat) returns (h: nat)
      requires i + 4 <= |content|
      ensures h == Hex4(content, i)
      ensures SpellsCode(content, i, h) || (h == 0 && NoCode(content, i))
    {
      hide SpellsCode, NoCode, HexDigit;
      CodeOrNone(content, i);
      h := 0;
      var k := 0;
      while k < 4
        invariant k <= 4 && forall j | i <= j < i + k :: 0 <= HexDigit(content[j])
        invariant h == (if k == 4 then 1 else 16) * HexPrefix(content, i, k)
      {
        var d := HexDigit(content[i + k]);
        if d < 0 {
          return 0;
        }
        h := h + d;
        if k < 3 {
          h := h * 16;
        }
        k := k + 1;
      }
      Hex4IsPrefix(content, i);
    }

    /** utf16_literal_to_utf8: decodes one or two \uXXXX sequences at `pos` into output[out..]. */
    method Utf16LiteralToUtf8(pos: nat, end: nat, output: array<byte>, out: nat) returns (length: nat, out': nat)
      requires pos <= end <= |content|
      requires out + |Utf16Literal(content, pos, end).out| <= output.Length
      modifies output
      ensures length == Utf16Literal(content, pos, end).length
      ensures out' == out + |Utf16Literal(content, pos, end).out|
      ensures output[..out'] == old(output[..out]) + Utf16Literal(content, pos, end).out
    {
      hide SpellsCode, NoCode, Hex4, EncodeUtf8;
      if end - pos < 6 {
        return 0, out;
      }
      var first := ParseHex4(pos + 2);
      if IsLowSurrogate(first) {
        return 0, out;
      }
      var codepoint: nat;
      if IsHighSurrogate(first) {
        if end - pos < 12 || content[pos + 6] != BACKSLASH || content[pos + 7] != LOWER_U {
          return 0, out;
        }
        var second := ParseHex4(pos + 8);
        if !IsLowSurrogate(second) {
          return 0, out;
        }
        length := 12;
        codepoint := FromSurrogates(first, second);
      } else {
        length := 6;
        codepoint := first;
      }
      out' := WriteUtf8(codepoint, output, out);
    }

    /** The first scan of parse_string: the end of the literal and the bytes escapes will save. */
    method MeasureLiteral(start: nat) returns (end: nat, skipped: nat, closed: bool)
      requires start <= |content|
      ensures closed <==> LiteralEnd(content, start).Some?
      ensures closed ==> LiteralEnd(content, start) == Some(end) && skipped == Skips(content, start, end)
    {
      end, skipped := start, 0;
      while end < |content| && content[end] != QUOTE
        invariant start <= end <= |content|
        invariant LiteralEnd(content, start) == LiteralEnd(content, end)
        invariant forall x | end <= x :: Skips(content, start, x) == skipped + Skips(content, end, x)
      {
        if content[end] == BACKSLASH {
          if end + 1 >= |content| {
            return end, skipped, false;
          }
          skipped := skipped + 1;
          end := end + 1;
        }
        end := end + 1;
      }
      closed := end < |content|;
    }

    /** The second scan of parse_string, into a block of the size the first scan called for. */
    method UnescapeInto(start: nat, end: nat, output: array<byte>) returns (pos: nat, out: nat, ok: bool)
      requires LiteralEnd(content, start) == Some(end)
      requires output.Length == AllocationSize(content, start, end)
      modifies output
      ensures start <= pos <= end + 1
      ensures ok <==> Unescape(content, start, end).Some?
      ensures ok ==> out + 1 < output.Length && Unescape(content, start, end) == Some(output[..out])
    {
      hide LiteralEnd, Skips, AllocationSize, Budget, Hex4, EncodeUtf8, SimpleEscape;
      pos, out := start, 0;
      PrependNothing(Unescape(content, start, end));
      StartBudget(content, start, end);
      while pos < end
        invariant start <= pos <= end + 1
        invariant out <= Budget(content, start, end, pos) <= output.Length - 2
        invariant Unescape(content, start, end) == Prepend(output[..out], Unescape(content, pos, end))
      {
        ghost var done := output[..out];
        if content[pos] != BACKSLASH {
          BudgetStep(content, start, end, pos, 1, 1);
          PrependTwice(done, [content[pos]], Unescape(content, pos + 1, end));
          output[out] := content[pos];
          assert output[..out + 1] == done + [content[pos]];
          pos, out := pos + 1, out + 1;
        } else if content[pos + 1] == LOWER_U {
          ghost var u := Utf16Literal(content, pos, end);
          if u.length > 0 {
            BudgetStep(content, start, end, pos, u.length, |u.out|);
            PrependTwice(done, u.out, Unescape(content, pos + u.length, end));
          }
          var length, out' := Utf16LiteralToUtf8(pos, end, output, out);
          if length == 0 {
            return pos, out, false;
          }
          pos, out := pos + length, out';
        } else {
          var b := SimpleEscape(content[pos + 1]);
          if b < 0 {
            return pos, out, false;
          }
          BudgetStep(content, start, end, pos, 2, 1);
          PrependTwice(done, [b], Unescape(content, pos + 2, end));
          output[out] := b;
          assert output[..out + 1] == done + [b];
          pos, out := pos + 2, out + 1;
        }
      }
      assert output[..out] + [] == output[..out];
      ok := true;
    }

    /** parse_string: on success the item owns one new block, which holds the string. */
    method ParseString(item: Node) returns (ok: bool)
      requires Framed() && offset < |content|
      requires item.Owned() && item.Leaf()
      modifies this`offset, heap`live, heap`failures, item`kind, item`valuestring, item`repr
      ensures Framed() && old(offset) <= offset
      ensures ok ==> Spec.ParseString(content, old(offset)).Ok? && offset == Spec.ParseString(content, old(offset)).end
      ensures ok ==> item.valuestring != null && fresh(item.valuestring)
      ensures ok ==> Holds(item.valuestring, Spec.ParseString(content, old(offset)).value)
      ensures ok ==> item.Owned() && item.kind == KString && item.repr == old(item.repr) + {item.valuestring}
      ensures ok ==> heap.live == old(heap.live) + {item.valuestring}
      ensures !ok ==> unchanged(item) && heap.live == old(heap.live)
      ensures !ok ==> heap.failures > old(heap.failures) || Spec.ParseString(content, old(offset)).Fail?
      ensures old(heap.failures) <= heap.failures
    {
      hide Node.Owned, LiteralEnd, Unescape, Skips, Budget;
      OwnedParts(item);
      var start := offset + 1;
      if content[offset] != QUOTE {
        offset := start;
        return false;
      }
      var end, skipped, closed := MeasureLiteral(start);
      if !closed {
        offset := start;
        return false;
      }
      StartBudget(content, start, end);
      var output := heap.NewBytes(end - offset - skipped + 1);
      if output == null {
        offset := start;
        return false;
      }
      var pos, out, decoded := UnescapeInto(start, end, output);
      if !decoded {
        heap.Free(output);
        offset := pos;
        return false;
      }
      output[out] := NUL;
      item.kind := KString;
      item.valuestring := output;
      item.repr := item.repr + {output};
      HoldsIsText(output, Spec.ParseString(content, old(offset)).value);
      OwnedIntro(item);
      offset := end + 1;
      return true;
    }
  }

  /** What the scanner finds at i, or that there is no number. */
  lemma NumberRead(c: Text, i: nat)
    requires i <= |c|
    ensures var r := Numerals.ScannedAt(c, i);
      && Numerals.Truncated(Saturate(r.value), r.value)
      && if r.used == 0 then forall j, d :: !Numerals.NumeralIn(c, i, j, d)
         else Numerals.NumeralIn(c, i, i + r.used, r.value)
  {
    hide Strtod, Saturate, NumberRun, Numerals.NumeralIn, Numerals.Truncated;
    var r := Numerals.ScannedAt(c, i);
    Numerals.SaturateExact(Saturate(r.value), r.value);
    forall j: nat, d: real ensures Numerals.NumeralIn(c, i, j, d) <==> i < j && r == Scanned(j - i, d) {
      Numerals.ScannedExactly(c, i, j, d);
    }
  }

  /** The tree a number node stands for. */
  function NumberOf(valueint: int32, valuedouble: real): J {
    if valuedouble == valueint as real then Num(valueint) else Inexact(valueint)
  }

  /** The number the first k hexadecimal digits from i on spell. */
  ghost function HexPrefix(c: Text, i: nat, k: nat): int
    requires i + k <= |c|
  {
    if k == 0 then 0 else 16 * HexPrefix(c, i, k - 1) + HexDigit(c[i + k - 1])
  }

  lemma Hex4IsPrefix(c: Text, i: nat)
    requires i + 4 <= |c|
    ensures IsHex4(c, i) ==> Hex4(c, i) == HexPrefix(c, i, 4)
  {
    assert HexPrefix(c, i, 2) == 16 * HexPrefix(c, i, 1) + HexDigit(c[i + 1]);
    assert HexPrefix(c, i, 3) == 16 * HexPrefix(c, i, 2) + HexDigit(c[i + 2]);
  }

  /** A code point shifted right by n times six bits. */
  ghost function Shifted(cp: nat, n: nat): nat {
    if n == 0 then cp else Shifted(cp, n - 1) / 0x40
  }

  function Utf8Length(cp: nat): nat {
    if cp < 0x80 then 1 else if cp < 0x800 then 2 else if cp < 0x10000 then 3 else 4
  }

  lemma EncodedBytes(cp: nat)
    requires cp <= 0x10FFFF
    ensures |EncodeUtf8(cp)| == Utf8Length(cp)
    ensures forall k | 1 <= k < |EncodeUtf8(cp)| ::
      EncodeUtf8(cp)[k] == Continuation(Shifted(cp, |EncodeUtf8(cp)| - 1 - k))
    ensures EncodeUtf8(cp)[0] == FirstByteMark(|EncodeUtf8(cp)|) + Shifted(cp, |EncodeUtf8(cp)| - 1)
  {
    assert Shifted(cp, 1) == cp / 0x40;
    assert Shifted(cp, 2) == Shifted(cp, 1) / 0x40;
    assert Shifted(cp, 3) == Shifted(cp, 2) / 0x40;
  }

  function FirstByteMark(length: nat): byte
    requires 1 <= length <= 4
  {
    if length == 1 then 0 else if length == 2 then 0xC0 else if length == 3 then 0xE0 else 0xF0
  }

  /** The encoding loop of utf16_literal_to_utf8: last byte first, six bits at a time. */
  method WriteUtf8(cp: nat, output: array<byte>, out: nat) returns (out': nat)
    requires cp <= 0x10FFFF && out + |EncodeUtf8(cp)| <= output.Length
    modifies output
    ensures out' == out + |EncodeUtf8(cp)|
    ensures output[..out'] == old(output[..out]) + EncodeUtf8(cp)
  {
    hide EncodeUtf8, Continuation;
    var length := Utf8Length(cp);
    ghost var text := EncodeUtf8(cp);
    EncodedBytes(cp);
    var rest := cp;
    var k := length - 1;
    while k > 0
      invariant 0 <= k < length == |text| && rest == Shifted(cp, length - 1 - k)
      invariant forall j | k < j < length :: output[out + j] == text[j]
      invariant output[..out] == old(output[..out])
    {
      output[out + k] := Continuation(rest);
      rest := rest / 0x40;
      k := k - 1;
    }
    output[out] := FirstByteMark(length) + rest;
    out' := out + length;
    assert output[out..out'] == text;
    assert output[..out'] == output[..out] + output[out..out'];
  }

  lemma NumberRunStep(c: Text, off: nat, room: nat)
    ensures NumberRun(c, off, room)
         == if room > 0 && off < |c| && IsNumberChar(c[off]) then 1 + NumberRun(c, off + 1, room - 1) else 0
  {
  }

  lemma StartBudget(c: Text, start: nat, end: nat)
    requires LiteralEnd(c, start) == Some(end)
    ensures Budget(c, start, end, start) == 0 && 2 <= AllocationSize(c, start, end)
  {
    SkipsFromHere(c, start, end);
  }
}
