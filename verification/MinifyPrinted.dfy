/**
  Minifying a formatted print gives the unformatted print exactly when the scanner takes
  no string for longer than it is: it misses the closing quote of a string that ends in a
  backslash, for the backslash is printed as two and the second stands before the quote.
*/
module MinifyPrinted {
  import opened Bytes
  import opened Json
  import opened Numbers
  import opened Strings
  import opened Rendering
  import opened Minifying

  predicate EndsInBackslash(s: Text) {
    var t := CString(s);
    t != [] && t[|t| - 1] == BACKSLASH
  }

  /**
    No key ends in a backslash, and no string does but one that only closing brackets of
    arrays follow (`tail`: nothing else follows v itself).
  */
  predicate Safe(v: J, tail: bool) {
    match v
    case Str(s) => tail || !EndsInBackslash(s)
    case Arr(items) =>
      forall i | 0 <= i < |items| :: Safe(items[i], tail && i == |items| - 1)
    case Obj(members) =>
      forall m <- members :: !EndsInBackslash(m.key) && Safe(m.value, false)
    case _ => true
  }

  // ---- Pieces of text ----

  predicate Plain(b: byte) {
    !IsBlank(b) && b != SLASH && b != QUOTE
  }

  lemma MinPlainByte(b: byte, x: Text)
    requires Plain(b)
    ensures Min([b] + x) == [b] + Min(x)
  {
    assert ([b] + x)[1..] == x;
  }

  lemma MinBlankByte(b: byte, x: Text)
    requires IsBlank(b)
    ensures Min([b] + x) == Min(x)
  {
    assert ([b] + x)[1..] == x;
  }

  lemma MinString(t: Text, x: Text)
    requires StringSpan(t + x) == |t|
    ensures Min([QUOTE] + t + x) == [QUOTE] + t + Min(x)
  {
    hide StringSpan;
    var all := [QUOTE] + t + x;
    assert all[1..] == t + x;
    assert all[..1 + |t|] == [QUOTE] + t && all[1 + |t|..] == x;
  }

  lemma {:induction false} MinPlain(t: Text, x: Text)
    requires forall i | 0 <= i < |t| :: Plain(t[i])
    ensures Min(t + x) == t + Min(x)
  {
    hide Min;
    if t == [] {
      assert t + x == x;
    } else {
      MinPlain(t[1..], x);
      MinPlainByte(t[0], t[1..] + x);
      assert t + x == [t[0]] + (t[1..] + x);
      assert t + Min(x) == [t[0]] + (t[1..] + Min(x));
    }
  }

  lemma {:induction false} MinBlanks(t: Text, x: Text)
    requires forall i | 0 <= i < |t| :: IsBlank(t[i])
    ensures Min(t + x) == Min(x)
  {
    hide Min;
    if t == [] {
      assert t + x == x;
    } else {
      MinBlanks(t[1..], x);
      MinBlankByte(t[0], t[1..] + x);
      assert t + x == [t[0]] + (t[1..] + x);
    }
  }

  lemma SpanOverOne(b: byte, x: Text)
    requires b != QUOTE && (b == BACKSLASH ==> x == [] || x[0] != QUOTE)
    ensures StringSpan([b] + x) == 1 + StringSpan(x)
  {
    assert ([b] + x)[1..] == x;
  }

  lemma SpanOverPair(x: Text)
    ensures StringSpan([BACKSLASH, QUOTE] + x) == 2 + StringSpan(x)
  {
    assert ([BACKSLASH, QUOTE] + x)[2..] == x;
  }

  lemma {:induction false} SpanOverOther(t: Text, x: Text)
    requires forall i | 0 <= i < |t| :: t[i] != QUOTE && t[i] != BACKSLASH
    ensures StringSpan(t + x) == |t| + StringSpan(x)
  {
    hide StringSpan;
    if t == [] {
      assert t + x == x;
    } else {
      SpanOverOther(t[1..], x);
      SpanOverOne(t[0], t[1..] + x);
      assert t + x == [t[0]] + (t[1..] + x);
    }
  }

  /** The scanner passes over the escape of one byte, unless a quote follows a backslash. */
  lemma SpanOverByte(b: byte, x: Text)
    requires b == BACKSLASH ==> x == [] || x[0] != QUOTE
    ensures StringSpan(EscapeByte(b) + x) == |EscapeByte(b)| + StringSpan(x)
  {
    var e := EscapeByte(b);
    SpanOverPair(x);
    hide StringSpan;
    if b == QUOTE {
    } else if e == [b] {
      SpanOverOne(b, x);
    } else {
      assert e + x == [BACKSLASH] + (e[1..] + x);
      SpanOverOne(BACKSLASH, e[1..] + x);
      if b == BACKSLASH {
        assert e[1..] == [BACKSLASH];
        SpanOverOne(BACKSLASH, x);
      } else {
        SpanOverOther(e[1..], x);
      }
    }
  }

  /** The scanner finds the closing quote of a printed string that does not end in a backslash. */
  lemma {:induction false} SpanOfEscape(s: Text, x: Text)
    requires s == [] || s[|s| - 1] != BACKSLASH
    ensures StringSpan(Escape(s) + ([QUOTE] + x)) == |Escape(s)| + 1
  {
    hide EscapeByte;
    var rest := [QUOTE] + x;
    if s == [] {
      assert Escape(s) + rest == rest;
    } else {
      hide StringSpan;
      SpanOfEscape(s[1..], x);
      EscapeStart(s[1..]);
      assert Escape(s) + rest == EscapeByte(s[0]) + (Escape(s[1..]) + rest);
      SpanOverByte(s[0], Escape(s[1..]) + rest);
    }
  }

  lemma EscapeStart(s: Text)
    ensures s != [] ==> Escape(s) != [] && Escape(s)[0] != QUOTE
  {
  }

  /**
    After a string that ends in a backslash the scanner goes on: over the closing quote,
    and over whatever follows up to the next quote.
  */
  lemma {:induction false} SpanOfOpen(s: Text, x: Text)
    requires s != [] && s[|s| - 1] == BACKSLASH
    ensures StringSpan(Escape(s) + ([QUOTE] + x)) == |Escape(s)| + 1 + StringSpan(x)
  {
    hide EscapeByte, StringSpan;
    var rest := [QUOTE] + x;
    assert Escape(s) + rest == EscapeByte(s[0]) + (Escape(s[1..]) + rest);
    if |s| == 1 {
      EscapeBackslash();
      SpanOverOne(BACKSLASH, [BACKSLASH] + rest);
      SpanOverPair(x);
      assert [BACKSLASH] + rest == [BACKSLASH, QUOTE] + x;
      assert Escape(s) + rest == [BACKSLASH] + ([BACKSLASH] + rest);
    } else {
      SpanOfOpen(s[1..], x);
      EscapeStart(s[1..]);
      SpanOverByte(s[0], Escape(s[1..]) + rest);
    }
  }

  lemma EscapeBackslash()
    ensures EscapeByte(BACKSLASH) == [BACKSLASH, BACKSLASH]
  {
  }

  /** A printed string as the scanner copies it. */
  lemma MinLiteral(s: Text, x: Text)
    requires !EndsInBackslash(s)
    ensures Min(Literal(s) + x) == Literal(s) + Min(x)
  {
    hide StringSpan, Escape, Min;
    var t := Escape(CString(s));
    SpanOfEscape(CString(s), x);
    assert t + ([QUOTE] + x) == t + [QUOTE] + x;
    MinString(t + [QUOTE], x);
    assert [QUOTE] + (t + [QUOTE]) == Literal(s);
  }

  lemma MinOpenLiteral(s: Text, x: Text)
    requires EndsInBackslash(s)
    ensures Min(Literal(s) + x) == Literal(s) + x[..StringSpan(x)] + Min(x[StringSpan(x)..])
  {
    hide StringSpan, Escape, Min;
    var t, n := Escape(CString(s)), StringSpan(x);
    SpanOfOpen(CString(s), x);
    assert t + ([QUOTE] + x) == t + [QUOTE] + x[..n] + x[n..] by {
      assert x == x[..n] + x[n..];
    }
    MinString(t + [QUOTE] + x[..n], x[n..]);
    assert [QUOTE] + (t + [QUOTE] + x[..n]) == Literal(s) + x[..n];
    assert Literal(s) + x[..n] + x[n..] == Literal(s) + x;
  }

  // ---- Safe trees ----

  lemma {:induction false} MinRender(v: J, d: nat, x: Text)
    requires Safe(v, false)
    ensures Min(Render(v, true, d) + x) == Render(v, false, d) + Min(x)
    decreases v, 1
  {
    match v
    case Str(s) => MinLiteral(s, x);
    case Arr(items) => MinArray(items, d, x);
    case Obj(members) => MinObject(members, d, x);
    case Null => MinPlain(NULL_TEXT, x);
    case Bool(b) => MinPlain(if b then TRUE_TEXT else FALSE_TEXT, x);
    case Num(n) =>
      forall i | 0 <= i < |Dec(n)| ensures Plain(Dec(n)[i]) {
        assert IsNumberChar(Dec(n)[i]);
      }
      MinPlain(Dec(n), x);
    case Inexact(_) => MinPlain([], x);
  }

  lemma {:induction false} MinArray(items: seq<J>, d: nat, x: Text)
    requires forall i | 0 <= i < |items| :: Safe(items[i], false)
    ensures Min(Render(Arr(items), true, d) + x) == Render(Arr(items), false, d) + Min(x)
    decreases items, 2
  {
    hide Min, Safe, Render, RenderItems;
    var after := [CLOSE_BRACKET] + x;
    ArrayText(items, true, d, x);
    ArrayText(items, false, d, Min(x));
    MinPlainByte(OPEN_BRACKET, RenderItems(items, true, d + 1) + after);
    MinItems(items, d + 1, after);
    MinPlainByte(CLOSE_BRACKET, x);
  }

  lemma {:induction false} MinItems(items: seq<J>, d: nat, x: Text)
    requires forall i | 0 <= i < |items| :: Safe(items[i], false)
    ensures Min(RenderItems(items, true, d) + x) == RenderItems(items, false, d) + Min(x)
    decreases items, 1
  {
    hide Min, Safe, Render;
    if items == [] {
      assert RenderItems(items, true, d) + x == x;
    } else if |items| == 1 {
      MinRender(items[0], d, x);
    } else {
      hide RenderItems;
      var rest := RenderItems(items[1..], true, d) + x;
      ItemsText(items, true, d, x);
      ItemsText(items, false, d, Min(x));
      MinItems(items[1..], d, x);
      MinSeparator(rest);
      MinRender(items[0], d, [COMMA, SPACE] + rest);
    }
  }

  lemma MinSeparator(x: Text)
    ensures Min([COMMA, SPACE] + x) == [COMMA] + Min(x)
  {
    hide Min;
    MinPlainByte(COMMA, [SPACE] + x);
    MinBlankByte(SPACE, x);
    assert [COMMA, SPACE] + x == [COMMA] + ([SPACE] + x);
  }

  lemma {:induction false} MinObject(members: seq<Member>, d: nat, x: Text)
    requires forall m <- members :: !EndsInBackslash(m.key) && Safe(m.value, false)
    ensures Min(Render(Obj(members), true, d) + x) == Render(Obj(members), false, d) + Min(x)
    decreases members, 2
  {
    hide Min, Safe, EndsInBackslash, Render, RenderMembers;
    var after := ObjectClosing(true, d) + x;
    ObjectText(members, true, d, x);
    ObjectText(members, false, d, Min(x));
    MinOpening(RenderMembers(members, true, d + 1) + after);
    MinMembers(members, d + 1, after);
    MinClosing(d, x);
    assert ObjectClosing(false, d) == [CLOSE_BRACE];
  }

  lemma MinOpening(x: Text)
    ensures Min(ObjectOpening(true) + x) == [OPEN_BRACE] + Min(x)
  {
    hide Min;
    MinPlain([OPEN_BRACE], [NEWLINE] + x);
    MinBlanks([NEWLINE], x);
    assert ObjectOpening(true) + x == [OPEN_BRACE] + ([NEWLINE] + x);
  }

  lemma MinClosing(d: nat, x: Text)
    ensures Min(ObjectClosing(true, d) + x) == [CLOSE_BRACE] + Min(x)
  {
    hide Min;
    MinBlanks(Tabs(d), [CLOSE_BRACE] + x);
    MinPlain([CLOSE_BRACE], x);
    assert ObjectClosing(true, d) + x == Tabs(d) + ([CLOSE_BRACE] + x);
  }

  lemma {:induction false} MinMembers(members: seq<Member>, d: nat, x: Text)
    requires forall m <- members :: !EndsInBackslash(m.key) && Safe(m.value, false)
    ensures Min(RenderMembers(members, true, d) + x) == RenderMembers(members, false, d) + Min(x)
    decreases members, 1
  {
    hide Min, Safe, RenderMember, EndsInBackslash;
    if members == [] {
      assert RenderMembers(members, true, d) + x == x;
    } else {
      hide RenderMembers;
      MembersText(members, true, d, x);
      MembersText(members, false, d, Min(x));
      MinMembers(members[1..], d, x);
      MinMember(members[0], d, |members| == 1, RenderMembers(members[1..], true, d) + x);
    }
  }

  lemma {:induction false} MinMember(m: Member, d: nat, last: bool, x: Text)
    requires !EndsInBackslash(m.key) && Safe(m.value, false)
    ensures Min(RenderMember(m, true, d, last) + x) == RenderMember(m, false, d, last) + Min(x)
    decreases m, 2
  {
    hide Min, Safe, Render, RenderMember, Literal, EndsInBackslash, MemberEnd;
    var end := MemberEnd(true, last) + x;
    MemberText(m, true, d, last, x);
    MemberText(m, false, d, last, Min(x));
    MinKey(m.key, d, Render(m.value, true, d) + end);
    MinRender(m.value, d, end);
    MinMemberEnd(last, x);
    var text := Literal(m.key) + ([COLON] + (Render(m.value, false, d) + (MemberEnd(false, last) + Min(x))));
    assert Indent(false, d) + text == text;
  }

  lemma MinKey(key: Text, d: nat, x: Text)
    requires !EndsInBackslash(key)
    ensures Min(Tabs(d) + (Literal(key) + (KeySeparator(true) + x))) == Literal(key) + ([COLON] + Min(x))
  {
    hide Min, Literal, EndsInBackslash;
    MinBlanks(Tabs(d), Literal(key) + (KeySeparator(true) + x));
    MinLiteral(key, KeySeparator(true) + x);
    MinPlain([COLON], [TAB] + x);
    MinBlanks([TAB], x);
    assert KeySeparator(true) + x == [COLON] + ([TAB] + x);
  }

  lemma MinMemberEnd(last: bool, x: Text)
    ensures Min(MemberEnd(true, last) + x) == MemberEnd(false, last) + Min(x)
  {
    hide Min;
    var comma := if last then [] else [COMMA];
    MinPlain(comma, [NEWLINE] + x);
    MinBlanks([NEWLINE], x);
    assert MemberEnd(true, last) + x == comma + ([NEWLINE] + x);
    assert MemberEnd(false, last) == comma;
  }

  // ---- The last leaf below arrays only ----

  predicate Brackets(x: Text) {
    forall i | 0 <= i < |x| :: x[i] == CLOSE_BRACKET
  }

  lemma {:induction false} MinTail(v: J, d: nat, x: Text)
    requires Safe(v, true) && Brackets(x)
    ensures Min(Render(v, true, d) + x) == Render(v, false, d) + x
    decreases v, 2
  {
    hide Min, Render;
    MinPlain(x, []);
    assert x + [] == x && Min([]) == [];
    match v
    case Str(s) => MinLastLiteral(s, d, x);
    case Arr(items) => MinTailArray(items, d, x);
    case Obj(members) =>
      assert Safe(v, false);
      MinRender(v, d, x);
    case _ => MinRender(v, d, x);
  }

  lemma MinLastLiteral(s: Text, d: nat, x: Text)
    requires Brackets(x) && Min(x) == x
    ensures Min(Render(Str(s), true, d) + x) == Render(Str(s), false, d) + x
  {
    hide StringSpan, Literal, EndsInBackslash;
    if !EndsInBackslash(s) {
      MinLiteral(s, x);
      return;
    }
    MinOpenLiteral(s, x);
    SpanOverOther(x, []);
    assert x + [] == x && StringSpan([]) == 0 by {
      SpanOfNothing();
    }
    assert x[..|x|] == x && x[|x|..] == [];
    assert Literal(s) + x + [] == Literal(s) + x;
  }

  lemma SpanOfNothing()
    ensures StringSpan([]) == 0
  {
  }

  lemma {:induction false} MinTailArray(items: seq<J>, d: nat, x: Text)
    requires Safe(Arr(items), true) && Brackets(x)
    ensures Min(Render(Arr(items), true, d) + x) == Render(Arr(items), false, d) + x
    decreases items, 3
  {
    hide Min;
    var t, f := RenderItems(items, true, d + 1), RenderItems(items, false, d + 1);
    var after := [CLOSE_BRACKET] + x;
    assert Render(Arr(items), true, d) + x == [OPEN_BRACKET] + (t + after);
    MinPlain([OPEN_BRACKET], t + after);
    MinTailItems(items, d + 1, after);
    assert Render(Arr(items), false, d) + x == [OPEN_BRACKET] + (f + after);
  }

  lemma {:induction false} MinTailItems(items: seq<J>, d: nat, x: Text)
    requires Safe(Arr(items), true) && Brackets(x)
    ensures Min(RenderItems(items, true, d) + x) == RenderItems(items, false, d) + x
    decreases items, 2
  {
    hide Min, Render;
    if items == [] {
      MinPlain(x, []);
      assert RenderItems(items, true, d) + x == x == x + [] && Min([]) == [] by {
        MinOfNothing();
      }
    } else if |items| == 1 {
      assert Safe(items[0], true);
      MinTail(items[0], d, x);
    } else {
      var first := items[0];
      var t := RenderItems(items[1..], true, d);
      SafeRest(items);
      hide Safe;
      MinTailItems(items[1..], d, x);
      MinSeparator(t + x);
      MinRender(first, d, [COMMA, SPACE] + (t + x));
      assert RenderItems(items, true, d) + x == Render(first, true, d) + ([COMMA, SPACE] + (t + x));
    }
  }

  lemma SafeRest(items: seq<J>)
    requires Safe(Arr(items), true) && 1 < |items|
    ensures Safe(items[0], false) && Safe(Arr(items[1..]), true)
  {
    forall i | 0 <= i < |items| - 1 ensures Safe(items[1..][i], i == |items| - 2) {
      assert items[1..][i] == items[i + 1];
    }
  }

  // ---- Unsafe trees ----

  /**
    The formatted text x and the unformatted text y that follow a value agree on k bytes
    without a quote, and then x has a blank that y has not.
  */
  predicate Diverge(x: Text, y: Text, k: nat) {
    && k < |x| && k <= |y| && x[..k] == y[..k] && QUOTE !in x[..k]
    && IsBlank(x[k]) && (k < |y| ==> !IsBlank(y[k]))
  }

  lemma {:induction false} SpanPast(x: Text, k: nat)
    requires k < |x| && forall i | 0 <= i <= k :: x[i] != QUOTE
    ensures k < StringSpan(x)
  {
    if k > 0 {
      SpanPast(x[1..], k - 1);
    }
  }

  /** The scanner keeps a blank behind a string that ends in a backslash. */
  lemma UnsafeLiteral(s: Text, x: Text, y: Text, k: nat)
    requires EndsInBackslash(s) && Diverge(x, y, k)
    ensures Min(Literal(s) + x) != Literal(s) + y
  {
    hide StringSpan, Min, Literal, EndsInBackslash;
    MinOpenLiteral(s, x);
    forall i | 0 <= i <= k ensures x[i] != QUOTE {
      assert i < k ==> x[..k][i] == x[i];
    }
    SpanPast(x, k);
    assert Min(Literal(s) + x)[|Literal(s)| + k] == x[k];
    assert k < |y| ==> (Literal(s) + y)[|Literal(s)| + k] == y[k];
  }

  lemma RenderStart(v: J, d: nat)
    requires Printable(v)
    ensures Render(v, false, d) != [] && !IsBlank(Render(v, false, d)[0])
  {
    match v
    case Num(n) => assert IsNumberChar(Dec(n)[0]);
    case _ =>
  }

  /** Either only closing brackets follow on both sides, or a divergence. */
  predicate Follows(tail: bool, x: Text, y: Text, k: nat) {
    if tail then x == y && Brackets(x) else Diverge(x, y, k)
  }

  lemma {:induction false} Unsafe(v: J, tail: bool, d: nat, x: Text, y: Text, k: nat)
    requires Printable(v) && !Safe(v, tail) && Follows(tail, x, y, k)
    ensures Min(Render(v, true, d) + x) != Render(v, false, d) + y
    decreases v, 2
  {
    match v
    case Str(s) => UnsafeLiteral(s, x, y, k);
    case Arr(items) => UnsafeArray(items, tail, d, x, y, k);
    case Obj(members) => UnsafeObject(members, d, x, y);
    case _ =>
  }

  lemma Cancel(a: Text, b: Text, c: Text)
    requires b != c
    ensures a + b != a + c
  {
    assert (a + b)[|a|..] == b && (a + c)[|a|..] == c;
  }

  lemma FollowsBracket(tail: bool, x: Text, y: Text, k: nat)
    requires Follows(tail, x, y, k)
    ensures Follows(tail, [CLOSE_BRACKET] + x, [CLOSE_BRACKET] + y, k + 1)
  {
    if !tail {
      var after, expected := [CLOSE_BRACKET] + x, [CLOSE_BRACKET] + y;
      assert after[..k + 1] == [CLOSE_BRACKET] + x[..k] && expected[..k + 1] == [CLOSE_BRACKET] + y[..k];
    }
  }

  lemma {:induction false} UnsafeArray(items: seq<J>, tail: bool, d: nat, x: Text, y: Text, k: nat)
    requires Printable(Arr(items)) && !Safe(Arr(items), tail) && Follows(tail, x, y, k)
    ensures Min(Render(Arr(items), true, d) + x) != Render(Arr(items), false, d) + y
    decreases items, 3
  {
    hide Min, Safe, Follows, Printable, Render, RenderItems;
    var t, f := RenderItems(items, true, d + 1), RenderItems(items, false, d + 1);
    var after, expected := [CLOSE_BRACKET] + x, [CLOSE_BRACKET] + y;
    FollowsBracket(tail, x, y, k);
    UnsafeItems(items, tail, d + 1, after, expected, k + 1);
    MinPlainByte(OPEN_BRACKET, t + after);
    Cancel([OPEN_BRACKET], Min(t + after), f + expected);
    ArrayText(items, true, d, x);
    ArrayText(items, false, d, y);
  }

  lemma {:induction false} UnsafeItems(items: seq<J>, tail: bool, d: nat, x: Text, y: Text, k: nat)
    requires Printable(Arr(items)) && !Safe(Arr(items), tail) && Follows(tail, x, y, k)
    ensures Min(RenderItems(items, true, d) + x) != RenderItems(items, false, d) + y
    decreases items, 2
  {
    if |items| == 1 {
      hide Min, Render;
      Unsafe(items[0], tail, d, x, y, k);
    } else {
      var first := items[0];
      assert Printable(first) && Printable(items[1]) && Printable(Arr(items[1..]));
      if Safe(first, false) {
        UnsafeRest(items, tail);
      }
      hide Min, Safe, Render, RenderItems, Printable, Follows;
      var t, f := RenderItems(items[1..], true, d), RenderItems(items[1..], false, d);
      var after, expected := [COMMA, SPACE] + (t + x), [COMMA] + (f + y);
      ItemsText(items, true, d, x);
      ItemsText(items, false, d, y);
      if Safe(first, false) {
        UnsafeItems(items[1..], tail, d, x, y, k);
        Cancel([COMMA], Min(t + x), f + y);
        MinSeparator(t + x);
        MinRender(first, d, after);
        Cancel(Render(first, false, d), Min(after), expected);
      } else {
        DivergeAtItem(items, d, x, y);
        assert Follows(false, after, expected, 1) by {
          FollowsDiverging(after, expected, 1);
        }
        Unsafe(first, false, d, after, expected, 1);
      }
    }
  }

  lemma FollowsDiverging(x: Text, y: Text, k: nat)
    requires Diverge(x, y, k)
    ensures Follows(false, x, y, k)
  {
  }

  lemma DivergeAtItem(items: seq<J>, d: nat, x: Text, y: Text)
    requires 1 < |items| && Printable(items[1])
    ensures Diverge([COMMA, SPACE] + (RenderItems(items[1..], true, d) + x),
              [COMMA] + (RenderItems(items[1..], false, d) + y), 1)
  {
    RenderStart(items[1], d);
    hide Render;
    var f := RenderItems(items[1..], false, d);
    assert f != [] && f[0] == Render(items[1], false, d)[0];
    var after, expected := [COMMA, SPACE] + (RenderItems(items[1..], true, d) + x), [COMMA] + (f + y);
    assert after[..1] == [COMMA] == expected[..1] && after[1] == SPACE && expected[1] == f[0];
  }

  lemma UnsafeRest(items: seq<J>, tail: bool)
    requires !Safe(Arr(items), tail) && 1 < |items| && Safe(items[0], false)
    ensures !Safe(Arr(items[1..]), tail)
  {
    var i :| 0 <= i < |items| && !Safe(items[i], tail && i == |items| - 1);
    assert items[1..][i - 1] == items[i];
  }

  lemma {:induction false} UnsafeObject(members: seq<Member>, d: nat, x: Text, y: Text)
    requires Printable(Obj(members)) && !Safe(Obj(members), false)
    ensures Min(Render(Obj(members), true, d) + x) != Render(Obj(members), false, d) + y
    decreases members, 3
  {
    hide Min, Safe, Printable, Render, RenderMembers;
    var t, f := RenderMembers(members, true, d + 1), RenderMembers(members, false, d + 1);
    var after, expected := ObjectClosing(true, d) + x, [CLOSE_BRACE] + y;
    UnsafeMembers(members, d + 1, after, expected);
    MinOpening(t + after);
    Cancel([OPEN_BRACE], Min(t + after), f + expected);
    ObjectText(members, true, d, x);
    ObjectText(members, false, d, y);
    assert ObjectClosing(false, d) == [CLOSE_BRACE];
  }

  lemma {:induction false} UnsafeMembers(members: seq<Member>, d: nat, x: Text, y: Text)
    requires Printable(Obj(members)) && !Safe(Obj(members), false)
    requires y != [] && !IsBlank(y[0])
    ensures Min(RenderMembers(members, true, d) + x) != RenderMembers(members, false, d) + y
    decreases members, 2
  {
    var m, last := members[0], |members| == 1;
    assert Printable(m.value) && (1 < |members| ==> Printable(Obj(members[1..])));
    hide Min, Safe, RenderMember, RenderMembers, EndsInBackslash, Printable;
    var t, f := RenderMembers(members[1..], true, d), RenderMembers(members[1..], false, d);
    MembersText(members, true, d, x);
    MembersText(members, false, d, y);
    if !EndsInBackslash(m.key) && Safe(m.value, false) {
      UnsafeRestOfMembers(members);
      UnsafeMembers(members[1..], d, x, y);
      MinMember(m, d, last, t + x);
      Cancel(RenderMember(m, false, d, last), Min(t + x), f + y);
    } else {
      UnsafeFirst(members);
      MembersStart(members[1..], d);
      UnsafeMember(m, d, last, t + x, f + y);
    }
  }

  lemma UnsafeRestOfMembers(members: seq<Member>)
    requires !Safe(Obj(members), false) && members != []
    requires !EndsInBackslash(members[0].key) && Safe(members[0].value, false)
    ensures 1 < |members| && !Safe(Obj(members[1..]), false)
  {
    var n :| n in members && (EndsInBackslash(n.key) || !Safe(n.value, false));
    assert n in members[1..];
  }

  lemma UnsafeFirst(members: seq<Member>)
    requires !Safe(Obj(members), false)
    ensures members != []
  {
  }

  lemma MembersStart(members: seq<Member>, d: nat)
    ensures members != [] ==> RenderMembers(members, false, d) != [] && RenderMembers(members, false, d)[0] == QUOTE
    ensures members == [] ==> RenderMembers(members, false, d) == []
  {
  }

  lemma {:induction false} UnsafeMember(m: Member, d: nat, last: bool, x: Text, y: Text)
    requires Printable(m.value) && (EndsInBackslash(m.key) || !Safe(m.value, false))
    requires y != [] && !IsBlank(y[0])
    ensures Min(RenderMember(m, true, d, last) + x) != RenderMember(m, false, d, last) + y
    decreases m, 4
  {
    hide Min, Render, RenderMember, Literal, EndsInBackslash, Safe, Printable, MemberEnd;
    var value := Render(m.value, true, d) + (MemberEnd(true, last) + x);
    var expected := Render(m.value, false, d) + (MemberEnd(false, last) + y);
    MemberText(m, true, d, last, x);
    MemberText(m, false, d, last, y);
    assert Indent(false, d) + (Literal(m.key) + ([COLON] + expected)) == Literal(m.key) + ([COLON] + expected);
    if EndsInBackslash(m.key) {
      UnsafeKey(m, d, MemberEnd(true, last) + x, MemberEnd(false, last) + y);
    } else {
      DivergeAtEnd(last, x, y);
      Unsafe(m.value, false, d, MemberEnd(true, last) + x, MemberEnd(false, last) + y, if last then 0 else 1);
      MinKey(m.key, d, value);
      Cancel([COLON], Min(value), expected);
      Cancel(Literal(m.key), [COLON] + Min(value), [COLON] + expected);
    }
  }

  lemma UnsafeKey(m: Member, d: nat, x: Text, y: Text)
    requires Printable(m.value) && EndsInBackslash(m.key)
    ensures Min(Tabs(d) + (Literal(m.key) + (KeySeparator(true) + (Render(m.value, true, d) + x))))
         != Literal(m.key) + ([COLON] + (Render(m.value, false, d) + y))
  {
    RenderStart(m.value, d);
    hide Min, Render, Literal, EndsInBackslash, Printable;
    var after := KeySeparator(true) + (Render(m.value, true, d) + x);
    var expected := [COLON] + (Render(m.value, false, d) + y);
    assert after[..1] == [COLON] == expected[..1] && after[1] == TAB;
    assert expected[1] == Render(m.value, false, d)[0];
    UnsafeLiteral(m.key, after, expected, 1);
    MinBlanks(Tabs(d), Literal(m.key) + after);
  }

  lemma DivergeAtEnd(last: bool, x: Text, y: Text)
    requires y != [] && !IsBlank(y[0])
    ensures Diverge(MemberEnd(true, last) + x, MemberEnd(false, last) + y, if last then 0 else 1)
  {
    var after, expected := MemberEnd(true, last) + x, MemberEnd(false, last) + y;
    if last {
      assert expected == y && after[0] == NEWLINE;
    } else {
      assert after[..1] == [COMMA] == expected[..1] && after[1] == NEWLINE && expected[1] == y[0];
    }
  }

  // ---- The law ----

  /**
    Minifying what cJSON_Print prints gives what cJSON_PrintUnformatted prints if and only
    if no key ends in a backslash, nor any string but one in last position below arrays only.
  */
  lemma MinifyFormatted(v: J)
    requires Printable(v)
    ensures Min(Render(v, true, 0)) == Render(v, false, 0) <==> Safe(v, true)
  {
    assert Render(v, true, 0) + [] == Render(v, true, 0) && Render(v, false, 0) + [] == Render(v, false, 0);
    if Safe(v, true) {
      MinTail(v, 0, []);
    } else {
      Unsafe(v, true, 0, [], [], 0);
    }
  }
}
