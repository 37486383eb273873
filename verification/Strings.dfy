/**
  JSON string literals: how print_string_ptr escapes a C string and how
  parse_string finds the end of a literal and unescapes it.
*/
module Strings {
  import opened Bytes

  // ---- Escaping ----

  function HexChar(d: nat): byte
    requires d < 16
  {
    if d < 10 then ZERO + d else LOWER_A + (d - 10)
  }

  function EscapeByte(b: byte): (t: Text)
    ensures 0 < |t| && (b != NUL ==> NUL !in t)
  {
    if b > 31 && b != QUOTE && b != BACKSLASH then [b]
    else if b == BACKSLASH || b == QUOTE then [BACKSLASH, b]
    else if b == BACKSPACE then [BACKSLASH, LOWER_B]
    else if b == FORM_FEED then [BACKSLASH, LOWER_F]
    else if b == NEWLINE then [BACKSLASH, LOWER_N]
    else if b == RETURN then [BACKSLASH, LOWER_R]
    else if b == TAB then [BACKSLASH, LOWER_T]
    else [BACKSLASH, LOWER_U, ZERO, ZERO, HexChar(b / 16), HexChar(b % 16)]
  }

  /**
    A byte with an escape of two characters, the slash excepted, is printed as that; any other
    byte below 32 by its code in lower-case digits, and all others as they are.
  */
  lemma EscapeByteExact(b: byte, mark: byte)
    ensures Escapes(mark, b) && mark != '/' as int ==> EscapeByte(b) == ['\\' as int, mark]
    ensures b < 32 && NoEscape(b) ==>
      EscapeByte(b) == ['\\' as int, 'u' as int, '0' as int, '0' as int,
                        "0123456789abcdef"[b / 16] as int, "0123456789abcdef"[b % 16] as int]
    ensures b >= 32 && (NoEscape(b) || b == '/' as int) ==> EscapeByte(b) == [b]
  {
    assert !NoEscape(8) by { assert Escapes('b' as int, 8); }
    assert !NoEscape(9) by { assert Escapes('t' as int, 9); }
    assert !NoEscape(10) by { assert Escapes('n' as int, 10); }
    assert !NoEscape(12) by { assert Escapes('f' as int, 12); }
    assert !NoEscape(13) by { assert Escapes('r' as int, 13); }
    assert !NoEscape(34) by { assert Escapes('"' as int, 34); }
    assert !NoEscape(92) by { assert Escapes('\\' as int, 92); }
  }

  /** No escape of two characters stands for this byte. */
  predicate NoEscape(b: byte) {
    forall mark: byte :: !Escapes(mark, b)
  }

  function Escape(s: Text): (t: Text)
    ensures |s| <= |t|
  {
    if s == [] then [] else EscapeByte(s[0]) + Escape(s[1..])
  }

  /** The literal printed for the C string stored in `s`. */
  function Literal(s: Text): (t: Text)
    ensures 2 <= |t| && t[0] == QUOTE && t[|t| - 1] == QUOTE
  {
    [QUOTE] + Escape(CString(s)) + [QUOTE]
  }

  lemma {:induction false} EscapeHasNoNul(s: Text)
    requires NUL !in s
    ensures NUL !in Escape(s)
  {
    if s != [] {
      EscapeHasNoNul(s[1..]);
    }
  }

  // ---- Finding the closing quote ----

  /** The first scan of parse_string: the first quote from i on that no backslash escapes. */
  function LiteralEnd(c: Text, i: nat): (r: Option<nat>)
    ensures r.Some? ==> i <= r.value < |c| && c[r.value] == QUOTE
    decreases |c| - i
  {
    if i >= |c| then None
    else if c[i] == QUOTE then Some(i)
    else if c[i] == BACKSLASH then
      if i + 1 >= |c| then None else LiteralEnd(c, i + 2)
    else LiteralEnd(c, i + 1)
  }

  /** How many backslashes stand in a row before k, from i on. */
  function Backslashes(c: Text, i: nat, k: nat): nat
    requires k <= |c|
  {
    if i < k && c[k - 1] == BACKSLASH then 1 + Backslashes(c, i, k - 1) else 0
  }

  /** Skipping an ordinary byte, or a backslash with the byte behind it, keeps the parity. */
  lemma {:induction false} BackslashesFrom(c: Text, i: nat, k: nat)
    requires i < k <= |c|
    ensures c[i] != BACKSLASH ==> Backslashes(c, i, k) == Backslashes(c, i + 1, k)
    ensures c[i] == BACKSLASH && i + 2 <= k ==> Backslashes(c, i, k) % 2 == Backslashes(c, i + 2, k) % 2
    decreases k
  {
    if i + 1 < k {
      BackslashesFrom(c, i, k - 1);
      if i + 2 == k {
        assert Backslashes(c, i, i + 1) == if c[i] == BACKSLASH then 1 else 0;
      }
    }
  }

  /** The end of a literal is the first quote with an even number of backslashes right before it. */
  lemma {:induction false} LiteralEndExact(c: Text, i: nat, e: nat)
    ensures LiteralEnd(c, i) == Some(e) <==>
      && i <= e < |c| && c[e] == QUOTE && Backslashes(c, i, e) % 2 == 0
      && forall k | i <= k < e && c[k] == QUOTE :: Backslashes(c, i, k) % 2 == 1
    decreases |c| - i
  {
    if i < |c| && c[i] != QUOTE {
      var next := if c[i] == BACKSLASH then i + 2 else i + 1;
      LiteralEndExact(c, next, e);
      forall k | next <= k < |c| ensures Backslashes(c, i, k) % 2 == Backslashes(c, next, k) % 2 {
        BackslashesFrom(c, i, k);
      }
      assert c[i] == BACKSLASH && i + 1 < |c| ==> Backslashes(c, i, i + 1) == 1;
    }
  }

  /** How many backslashes before x the first scan, started at i, counts as escapes. */
  function Skips(c: Text, i: nat, x: nat): nat
    decreases x - i
  {
    if i >= x || i >= |c| then 0
    else if c[i] == BACKSLASH then 1 + Skips(c, i + 2, x)
    else Skips(c, i + 1, x)
  }

  /** The bytes parse_string allocates for the literal whose contents are c[i..end]. */
  function AllocationSize(c: Text, i: nat, end: nat): int {
    (end + 1 - i) - Skips(c, i, end) + 1
  }

  // ---- Unescaping ----

  /** The value of a hexadecimal digit, or -1. */
  function HexDigit(b: byte): (d: int)
    ensures -1 <= d < 16
  {
    if ZERO <= b <= NINE then b - ZERO
    else if UPPER_A <= b <= UPPER_F then 10 + b - UPPER_A
    else if LOWER_A <= b <= LOWER_F then 10 + b - LOWER_A
    else -1
  }

  predicate IsHex4(c: Text, i: nat)
    requires i + 4 <= |c|
  {
    forall k | i <= k < i + 4 :: 0 <= HexDigit(c[k])
  }

  /** parse_hex4: the value of four hexadecimal digits, and 0 if one of them is none. */
  function Hex4(c: Text, i: nat): (h: nat)
    requires i + 4 <= |c|
    ensures h <= 0xFFFF
  {
    if IsHex4(c, i) then
      0x1000 * HexDigit(c[i]) + 0x100 * HexDigit(c[i + 1]) + 0x10 * HexDigit(c[i + 2]) + HexDigit(c[i + 3])
    else 0
  }

  /** The byte is the hexadecimal digit of value d, in either case. */
  predicate SpellsDigit(b: byte, d: int) {
    0 <= d < 16 && (b == "0123456789abcdef"[d] as int || b == "0123456789ABCDEF"[d] as int)
  }

  /** The four bytes from i on are the hexadecimal digits of this code. */
  predicate SpellsCode(c: Text, i: nat, code: nat) {
    && i + 4 <= |c|
    && SpellsDigit(c[i], code / 4096) && SpellsDigit(c[i + 1], code / 256 % 16)
    && SpellsDigit(c[i + 2], code / 16 % 16) && SpellsDigit(c[i + 3], code % 16)
  }

  lemma HexDigitExact(b: byte, d: int)
    ensures SpellsDigit(b, d) <==> 0 <= d && HexDigit(b) == d
  {
    if 0 <= d < 10 {
      assert "0123456789abcdef"[d] as int == 48 + d;
    }
  }

  /** parse_hex4 yields the code its four bytes spell, and 0 if they spell none. */
  lemma Hex4Exact(c: Text, i: nat, code: nat)
    requires i + 4 <= |c|
    ensures SpellsCode(c, i, code) <==> IsHex4(c, i) && Hex4(c, i) == code
    ensures !IsHex4(c, i) ==> Hex4(c, i) == 0
  {
    hide HexDigit, SpellsDigit;
    HexDigitExact(c[i], code / 4096);
    HexDigitExact(c[i + 1], code / 256 % 16);
    HexDigitExact(c[i + 2], code / 16 % 16);
    HexDigitExact(c[i + 3], code % 16);
    if IsHex4(c, i) {
      CodeOfDigits(HexDigit(c[i]), HexDigit(c[i + 1]), HexDigit(c[i + 2]), HexDigit(c[i + 3]), code);
    }
  }

  /** The bytes at i are not four hexadecimal digits. */
  ghost predicate NoCode(c: Text, i: nat) {
    forall code :: !SpellsCode(c, i, code)
  }

  lemma CodeOrNone(c: Text, i: nat)
    requires i + 4 <= |c|
    ensures SpellsCode(c, i, Hex4(c, i)) || (NoCode(c, i) && Hex4(c, i) == 0)
  {
    hide SpellsCode, Hex4, IsHex4;
    Hex4Exact(c, i, Hex4(c, i));
    forall code ensures SpellsCode(c, i, code) ==> IsHex4(c, i) {
      Hex4Exact(c, i, code);
    }
  }

  lemma CodeOfDigits(d3: nat, d2: nat, d1: nat, d0: nat, code: nat)
    requires d3 < 16 && d2 < 16 && d1 < 16 && d0 < 16
    ensures code == 4096 * d3 + 256 * d2 + 16 * d1 + d0 <==>
      code / 4096 == d3 && code / 256 % 16 == d2 && code / 16 % 16 == d1 && code % 16 == d0
  {
    Base16(code, 256 * d3 + 16 * d2 + d1, d0);
    Base16(code / 16, 16 * d3 + d2, d1);
    Base16(code / 256, d3, d2);
    assert code / 256 == code / 16 / 16 && code / 4096 == code / 256 / 16;
  }

  lemma Base16(code: nat, high: nat, low: nat)
    requires low < 16
    ensures code == 16 * high + low <==> code / 16 == high && code % 16 == low
  {
  }

  predicate IsHighSurrogate(code: nat) {
    0xD800 <= code <= 0xDBFF
  }

  predicate IsLowSurrogate(code: nat) {
    0xDC00 <= code <= 0xDFFF
  }

  /** A Unicode scalar value: a code point that is no surrogate. */
  type Scalar = cp: nat | cp < 0xD800 || 0xDFFF < cp <= 0x10FFFF

  /** The low six bits of a code point behind the continuation mark. */
  function Continuation(cp: nat): byte {
    0x80 + cp % 0x40
  }

  /** UTF-8, built by shifting the code point right by six bits per continuation byte. */
  function EncodeUtf8(cp: nat): (t: Text)
    requires cp <= 0x10FFFF
    ensures 1 <= |t| <= 4
  {
    if cp < 0x80 then [cp]
    else
      var q1 := cp / 0x40;
      if cp < 0x800 then [0xC0 + q1, Continuation(cp)]
      else
        var q2 := q1 / 0x40;
        if cp < 0x10000 then [0xE0 + q2, Continuation(q1), Continuation(cp)]
        else
          var q3 := q2 / 0x40;
          [0xF0 + q3, Continuation(q2), Continuation(q1), Continuation(cp)]
  }

  function FromSurrogates(high: nat, low: nat): (cp: nat)
    requires IsHighSurrogate(high) && IsLowSurrogate(low)
    ensures 0x10000 <= cp <= 0x10FFFF
  {
    0x10000 + (high - 0xD800) * 0x400 + (low - 0xDC00)
  }

  /** The outcome of utf16_literal_to_utf8; length 0 reports failure. */
  datatype Utf16 = Utf16(length: nat, out: Text)

  const BAD_UTF16 := Utf16(0, [])

  function Utf16Literal(c: Text, i: nat, end: nat): (r: Utf16)
    requires i <= end <= |c|
    ensures r.length in {0, 6, 12} && i + r.length <= end
    ensures r.length == 6 ==> 1 <= |r.out| <= 3
    ensures r.length == 12 ==> |r.out| == 4
  {
    if end - i < 6 then BAD_UTF16
    else
      var first := Hex4(c, i + 2);
      if IsLowSurrogate(first) then BAD_UTF16
      else if IsHighSurrogate(first) then
        if end - i < 12 || c[i + 6] != BACKSLASH || c[i + 7] != LOWER_U then BAD_UTF16
        else
          var second := Hex4(c, i + 8);
          if !IsLowSurrogate(second) then BAD_UTF16
          else Utf16(12, EncodeUtf8(FromSurrogates(first, second)))
      else Utf16(6, EncodeUtf8(first))
  }

  /** The byte a two-character escape stands for, or -1 if there is no such escape. */
  function SimpleEscape(b: byte): (r: int)
    ensures -1 <= r < 256
  {
    if b == LOWER_B then BACKSPACE
    else if b == LOWER_F then FORM_FEED
    else if b == LOWER_N then NEWLINE
    else if b == LOWER_R then RETURN
    else if b == LOWER_T then TAB
    else if b == QUOTE || b == BACKSLASH || b == SLASH then b
    else -1
  }

  /** The byte an escape of two characters stands for, by its second one. */
  predicate Escapes(mark: byte, b: byte) {
    || (mark == 'b' as int && b == 8) || (mark == 't' as int && b == 9) || (mark == 'n' as int && b == 10)
    || (mark == 'f' as int && b == 12) || (mark == 'r' as int && b == 13)
    || (mark == b && (b == '"' as int || b == '\\' as int || b == '/' as int))
  }

  lemma SimpleEscapeExact(mark: byte, b: byte)
    ensures Escapes(mark, b) <==> SimpleEscape(mark) == b
    ensures Escapes(mark, b) ==> mark != LOWER_U
  {
  }

  /** The second scan of parse_string, from i up to the closing quote at `end`. */
  function Unescape(c: Text, i: nat, end: nat): Option<Text>
    requires end < |c|
    decreases end - i
  {
    if i >= end then Some([])
    else if c[i] != BACKSLASH then Prepend([c[i]], Unescape(c, i + 1, end))
    else if c[i + 1] == LOWER_U then
      var u := Utf16Literal(c, i, end);
      if u.length == 0 then None else Prepend(u.out, Unescape(c, i + u.length, end))
    else if SimpleEscape(c[i + 1]) >= 0 then Prepend([SimpleEscape(c[i + 1])], Unescape(c, i + 2, end))
    else None
  }

  function Prepend(head: Text, tail: Option<Text>): Option<Text> {
    if tail.None? then None else Some(head + tail.value)
  }

  lemma PrependTwice(a: Text, b: Text, r: Option<Text>)
    ensures Prepend(a, Prepend(b, r)) == Prepend(a + b, r)
  {
    if r.Some? {
      assert a + (b + r.value) == a + b + r.value;
    }
  }

  lemma PrependNothing(r: Option<Text>)
    ensures Prepend([], r) == r
  {
    if r.Some? {
      assert [] + r.value == r.value;
    }
  }

  // ---- The two scans agree on the size ----

  lemma {:induction false} SkipsGrowth(c: Text, i: nat, x: nat, k: nat)
    ensures Skips(c, i, x) <= Skips(c, i, x + k) <= Skips(c, i, x) + (k + 1) / 2
    decreases x + k - i
  {
    if i < x + k && i < |c| {
      if i < x {
        SkipsGrowth(c, if c[i] == BACKSLASH then i + 2 else i + 1, x, k);
      } else {
        SkipsFromHere(c, i, x + k);
      }
    }
  }

  lemma {:induction false} SkipsFromHere(c: Text, i: nat, x: nat)
    requires i <= x
    ensures Skips(c, i, x) <= (x - i + 1) / 2
    decreases x - i
  {
    if i < x && i < |c| {
      if c[i] == BACKSLASH {
        if i + 2 <= x {
          SkipsFromHere(c, i + 2, x);
        }
      } else {
        SkipsFromHere(c, i + 1, x);
      }
    }
  }

  /** A position that holds no backslash is never counted. */
  lemma {:induction false} SkipsPastPlain(c: Text, i: nat, x: nat)
    requires x < |c| && c[x] != BACKSLASH
    ensures Skips(c, i, x + 1) == Skips(c, i, x)
    decreases x - i
  {
    if i < x {
      SkipsPastPlain(c, if c[i] == BACKSLASH then i + 2 else i + 1, x);
    }
  }

  /** The byte before the closing quote is not counted: the first scan stops on the quote. */
  lemma {:induction false} SkipsBeforeQuote(c: Text, i: nat, end: nat)
    requires LiteralEnd(c, i) == Some(end) && i < end
    ensures Skips(c, i, end) == Skips(c, i, end - 1)
    decreases end - i
  {
    if c[i] == BACKSLASH {
      if i + 2 < end {
        SkipsBeforeQuote(c, i + 2, end);
      }
    } else if i + 1 < end {
      SkipsBeforeQuote(c, i + 1, end);
    }
  }

  /**
    The bytes written up to input position `pos` (at most one past the quote)
    never exceed this budget, which is what the first scan measured so far.
  */
  function Budget(c: Text, start: nat, end: nat, pos: nat): int {
    if pos <= end then pos - start - Skips(c, start, pos) else end - start - Skips(c, start, end)
  }

  lemma BudgetStep(c: Text, start: nat, end: nat, pos: nat, length: nat, written: nat)
    requires LiteralEnd(c, start) == Some(end) && start <= pos < end
    requires
      || (length == 1 && written == 1 && c[pos] != BACKSLASH)
      || (length == 2 && written == 1)
      || (length == 6 && written <= 3 && pos + 6 <= end)
      || (length == 12 && written <= 4 && pos + 12 <= end)
    ensures Budget(c, start, end, pos) + written <= Budget(c, start, end, pos + length)
    ensures Budget(c, start, end, pos + length) + 2 <= AllocationSize(c, start, end)
  {
    if length == 1 {
      SkipsPastPlain(c, start, pos);
    } else if length == 2 && pos + 1 == end {
      SkipsBeforeQuote(c, start, end);
    } else {
      SkipsGrowth(c, start, pos, length);
    }
    if pos + length < end {
      SkipsGrowth(c, start, pos + length, end - (pos + length));
    }
  }

  /**
    The second scan, its final NUL included, stays within what the first scan made
    parse_string allocate; there is always one byte to spare.
  */
  lemma {:induction false} TwoScanBound(c: Text, start: nat, end: nat)
    requires LiteralEnd(c, start) == Some(end)
    requires Unescape(c, start, end).Some?
    ensures |Unescape(c, start, end).value| + 1 < AllocationSize(c, start, end)
  {
    SkipsFromHere(c, start, end);
    TwoScanBoundFrom(c, start, end, start);
  }

  lemma {:induction false} TwoScanBoundFrom(c: Text, start: nat, end: nat, pos: nat)
    requires LiteralEnd(c, start) == Some(end) && start <= pos
    requires Unescape(c, pos, end).Some?
    ensures Budget(c, start, end, pos) + |Unescape(c, pos, end).value| + 2 <= AllocationSize(c, start, end)
    decreases end - pos
  {
    if pos < end {
      var length, written :=
        if c[pos] != BACKSLASH then 1 else if c[pos + 1] == LOWER_U then Utf16Literal(c, pos, end).length else 2,
        if c[pos] == BACKSLASH && c[pos + 1] == LOWER_U then |Utf16Literal(c, pos, end).out| else 1;
      BudgetStep(c, start, end, pos, length, written);
      TwoScanBoundFrom(c, start, end, pos + length);
    }
  }

  // ---- A printed literal is read back ----

  lemma UnescapeControl(c: Text, i: nat, end: nat, b: byte)
    requires end < |c| && b < 32 && |EscapeByte(b)| == 6
    requires StandsAt(c, i, EscapeByte(b)) && i + 6 <= end
    ensures c[i] == BACKSLASH && c[i + 1] == LOWER_U && Utf16Literal(c, i, end) == Utf16(6, [b])
  {
    var t := EscapeByte(b);
    StandsAtByte(c, i, t, 0);
    StandsAtByte(c, i, t, 1);
    StandsAtByte(c, i, t, 2);
    StandsAtByte(c, i, t, 3);
    StandsAtByte(c, i, t, 4);
    StandsAtByte(c, i, t, 5);
    assert HexDigit(c[i + 4]) == b / 16 && HexDigit(c[i + 5]) == b % 16;
    assert Hex4(c, i + 2) == b;
  }

  lemma UnescapeOneByte(c: Text, i: nat, end: nat, b: byte)
    requires end < |c| && b != NUL
    requires StandsAt(c, i, EscapeByte(b)) && i + |EscapeByte(b)| <= end
    ensures Unescape(c, i, end) == Prepend([b], Unescape(c, i + |EscapeByte(b)|, end))
  {
    var t := EscapeByte(b);
    StandsAtByte(c, i, t, 0);
    if |t| == 6 {
      UnescapeControl(c, i, end, b);
    } else if |t| == 2 {
      StandsAtByte(c, i, t, 1);
    }
  }

  lemma LiteralEndSkipsEscape(c: Text, i: nat, b: byte)
    requires StandsAt(c, i, EscapeByte(b))
    ensures LiteralEnd(c, i) == LiteralEnd(c, i + |EscapeByte(b)|)
  {
    var t := EscapeByte(b);
    StandsAtByte(c, i, t, 0);
    if |t| == 6 {
      StandsAtByte(c, i, t, 2);
      StandsAtByte(c, i, t, 3);
      StandsAtByte(c, i, t, 4);
      StandsAtByte(c, i, t, 5);
      assert LiteralEnd(c, i) == LiteralEnd(c, i + 2) == LiteralEnd(c, i + 3) == LiteralEnd(c, i + 4);
      assert LiteralEnd(c, i + 4) == LiteralEnd(c, i + 5) == LiteralEnd(c, i + 6);
    }
  }

  /** Where the first escaped byte of a string stands, the rest stands behind it. */
  lemma EscapeStandsSplit(c: Text, i: nat, s: Text, tail: Text)
    requires s != [] && StandsAt(c, i, Escape(s) + tail)
    ensures StandsAt(c, i, EscapeByte(s[0]))
    ensures StandsAt(c, i + |EscapeByte(s[0])|, Escape(s[1..]) + tail)
    ensures |Escape(s)| == |EscapeByte(s[0])| + |Escape(s[1..])|
  {
    hide EscapeByte, StandsAt;
    assert Escape(s) == EscapeByte(s[0]) + Escape(s[1..]);
    hide Escape;
    StandsAtAssoc(c, i, EscapeByte(s[0]), Escape(s[1..]), tail);
  }

  lemma {:induction false} LiteralEndOfEscape(c: Text, i: nat, s: Text)
    requires StandsAt(c, i, Escape(s) + [QUOTE])
    ensures LiteralEnd(c, i) == Some(i + |Escape(s)|)
    decreases |s|
  {
    hide EscapeByte;
    if s == [] {
      StandsAtByte(c, i, Escape(s) + [QUOTE], 0);
    } else {
      EscapeStandsSplit(c, i, s, [QUOTE]);
      LiteralEndSkipsEscape(c, i, s[0]);
      LiteralEndOfEscape(c, i + |EscapeByte(s[0])|, s[1..]);
    }
  }

  lemma PrependHead(s: Text)
    requires s != []
    ensures Prepend([s[0]], Some(s[1..])) == Some(s)
  {
    assert s == [s[0]] + s[1..];
  }

  lemma {:induction false} UnescapeOfEscape(c: Text, i: nat, s: Text)
    requires NUL !in s && StandsAt(c, i, Escape(s) + [QUOTE])
    ensures i + |Escape(s)| < |c| && Unescape(c, i, i + |Escape(s)|) == Some(s)
    decreases |s|
  {
    hide EscapeByte, StandsAt, Utf16Literal, SimpleEscape;
    StandsAtByte(c, i, Escape(s) + [QUOTE], |Escape(s)|);
    if s != [] {
      EscapeStandsSplit(c, i, s, [QUOTE]);
      UnescapeOneByte(c, i, i + |Escape(s)|, s[0]);
      UnescapeOfEscape(c, i + |EscapeByte(s[0])|, s[1..]);
      PrependHead(s);
    }
  }

  /** Both scans of parse_string take a printed literal back to the string it was printed from. */
  lemma UnescapeReadsEscape(c: Text, i: nat, s: Text)
    requires NUL !in s && StandsAt(c, i, Escape(s) + [QUOTE])
    ensures LiteralEnd(c, i) == Some(i + |Escape(s)|)
    ensures Unescape(c, i, i + |Escape(s)|) == Some(s)
  {
    LiteralEndOfEscape(c, i, s);
    UnescapeOfEscape(c, i, s);
  }
}
