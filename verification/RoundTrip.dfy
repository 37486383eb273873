/**
  Parsing what was printed gives the tree back, in both layouts, exactly when it is
  nested at most NESTING_LIMIT deep.
*/
module RoundTrip {
  import opened Bytes
  import opened Json
  import opened Numbers
  import opened Strings
  import opened Rendering
  import opened ParseSpec

  // ---- Blanks ----

  predicate AllBlank(t: Text) {
    forall i | 0 <= i < |t| :: t[i] <= SPACE
  }

  lemma SkipBlanks(c: Text, p: nat, blanks: Text)
    requires AllBlank(blanks) && StandsAt(c, p, blanks)
    requires p + |blanks| < |c| && c[p + |blanks|] > SPACE
    ensures Skip(c, p) == p + |blanks|
  {
    forall k | p <= k < p + |blanks| ensures c[k] <= SPACE {
      StandsAtByte(c, p, blanks, k - p);
    }
    BlanksEndAt(c, p, p + |blanks|);
  }

  lemma BlanksEndAt(c: Text, p: nat, e: nat)
    requires p <= e < |c| && c[e] > SPACE && forall k | p <= k < e :: c[k] <= SPACE
    ensures BlankEnd(c, p) == e
    decreases e - p
  {
  }

  lemma SkipNothing(c: Text, p: nat)
    requires p < |c| && c[p] > SPACE
    ensures Skip(c, p) == p
  {
  }

  lemma RenderStarts(v: J, format: bool, depth: nat)
    requires Printable(v)
    ensures Render(v, format, depth) != [] && Render(v, format, depth)[0] > SPACE
  {
  }

  lemma RenderIsAscii(v: J, format: bool, depth: nat)
    requires Printable(v)
    ensures Render(v, format, depth) != [] && Render(v, format, depth)[0] < 0x80
  {
  }

  // ---- Leaves ----

  lemma ParseLiteral(c: Text, p: nat, s: Text)
    requires NUL !in s && StandsAt(c, p, Literal(s))
    ensures ParseString(c, p) == Ok(s, p + |Literal(s)|)
  {
    hide Unescape, LiteralEnd, Escape, CString;
    CStringOfNulFree(s);
    StandsAtAssoc(c, p, [QUOTE], Escape(s), [QUOTE]);
    StandsAtByte(c, p, [QUOTE], 0);
    UnescapeReadsEscape(c, p + 1, s);
  }

  lemma ParseDec(c: Text, p: nat, n: int32)
    requires StandsAt(c, p, Dec(n))
    requires p + |Dec(n)| == |c| || !IsNumberChar(c[p + |Dec(n)|])
    ensures ParseNumber(c, p) == Ok(Num(n), p + |Dec(n)|)
    ensures StartsNumber(c, p)
  {
    hide Dec, Strtod, NumberRun, Saturate;
    DecFits(n);
    NumberRunStops(c, p, Dec(n), NUMBER_ROOM);
    StrtodReadsDec(n);
    SaturateOfInt(n);
    StandsAtByte(c, p, Dec(n), 0);
  }

  /** The first byte tells the keywords, strings and numbers apart. */
  lemma NoKeyword(c: Text, p: nat)
    requires p < |c| && c[p] != NULL_TEXT[0] && c[p] != FALSE_TEXT[0] && c[p] != TRUE_TEXT[0]
    ensures !StandsAt(c, p, NULL_TEXT) && !StandsAt(c, p, FALSE_TEXT) && !StandsAt(c, p, TRUE_TEXT)
  {
    StandsAtHead(c, p, NULL_TEXT);
    StandsAtHead(c, p, FALSE_TEXT);
    StandsAtHead(c, p, TRUE_TEXT);
  }

  lemma ParseLeaf(c: Text, p: nat, v: J, format: bool, d: nat, depth: nat)
    requires Printable(v) && NulFree(v) && !v.Arr? && !v.Obj?
    requires StandsAt(c, p, Render(v, format, d)) && p + |Render(v, format, d)| < |c|
    requires !IsNumberChar(c[p + |Render(v, format, d)|])
    ensures ParseValue(c, p, depth) == Ok(v, p + |Render(v, format, d)|)
  {
    StandsAtByte(c, p, Render(v, format, d), 0);
    match v
    case Null =>
    case Bool(b) =>
      StandsAtHead(c, p, NULL_TEXT);
      StandsAtHead(c, p, FALSE_TEXT);
    case Str(s) =>
      NoKeyword(c, p);
      ParseLiteral(c, p, s);
    case Num(n) =>
      NoKeyword(c, p);
      ParseDec(c, p, n);
  }

  // ---- Trees ----

  /** What the parser makes of a rendered tree that ends at `end`. */
  function Expected(v: J, end: nat, depth: nat): Parsed<J> {
    if depth + Height(v) <= NESTING_LIMIT then Ok(v, end) else Fail
  }

  lemma {:induction false} ParseRendered(c: Text, p: nat, v: J, format: bool, d: nat, depth: nat)
    requires Printable(v) && NulFree(v) && depth <= NESTING_LIMIT
    requires StandsAt(c, p, Render(v, format, d)) && p + |Render(v, format, d)| < |c|
    requires !IsNumberChar(c[p + |Render(v, format, d)|])
    ensures ParseValue(c, p, depth) == Expected(v, p + |Render(v, format, d)|, depth)
    decreases v, 1
  {
    hide StandsAt, ParseValue, Render, IsNumberChar;
    match v
    case Arr(items) => ParseRenderedArray(c, p, items, format, d, depth);
    case Obj(members) => ParseRenderedObject(c, p, members, format, d, depth);
    case _ => ParseLeaf(c, p, v, format, d, depth);
  }

  lemma ArrayLayout(c: Text, p: nat, items: seq<J>, format: bool, d: nat)
    requires StandsAt(c, p, Render(Arr(items), format, d))
    ensures var text := RenderItems(items, format, d + 1);
      && Sees(c, p, OPEN_BRACKET) && StandsAt(c, p + 1, text) && Sees(c, p + 1 + |text|, CLOSE_BRACKET)
      && |Render(Arr(items), format, d)| == |text| + 2 && (items == [] ==> text == [])
  {
    var text := RenderItems(items, format, d + 1);
    StandsAtAssoc(c, p, [OPEN_BRACKET], text, [CLOSE_BRACKET]);
    hide RenderItems, StandsAt;
    StandsAtSplit(c, p + 1, text, [CLOSE_BRACKET]);
    StandsAtByte(c, p, [OPEN_BRACKET], 0);
    StandsAtByte(c, p + 1 + |text|, [CLOSE_BRACKET], 0);
  }

  lemma {:induction false} ParseRenderedArray(c: Text, p: nat, items: seq<J>, format: bool, d: nat, depth: nat)
    requires Printable(Arr(items)) && NulFree(Arr(items)) && depth <= NESTING_LIMIT
    requires StandsAt(c, p, Render(Arr(items), format, d)) && p + |Render(Arr(items), format, d)| < |c|
    ensures ParseValue(c, p, depth) == Expected(Arr(items), p + |Render(Arr(items), format, d)|, depth)
    decreases items, 2
  {
    hide StandsAt, Skip, ParseElements, ParseObject, Render, RenderItems;
    var text := RenderItems(items, format, d + 1);
    var q := p + 1;
    ArrayLayout(c, p, items, format, d);
    NoKeyword(c, p);
    assert ParseValue(c, p, depth) == ParseArray(c, p, depth);
    if items == [] {
      SkipNothing(c, q);
    } else {
      FirstOfItems(items, format, d + 1);
      StandsAtByte(c, q, text, 0);
      SkipNothing(c, q);
      if depth < NESTING_LIMIT {
        ParseRenderedItems(c, q, q, items, format, d + 1, depth + 1);
      }
    }
  }

  lemma FirstOfItems(items: seq<J>, format: bool, d: nat)
    requires items != [] && Printable(items[0])
    ensures RenderItems(items, format, d) != []
    ensures RenderItems(items, format, d)[0] == Render(items[0], format, d)[0]
    ensures RenderItems(items, format, d)[0] > SPACE && RenderItems(items, format, d)[0] != CLOSE_BRACKET
  {
    RenderStarts(items[0], format, d);
    assert Render(items[0], format, d)[0] != CLOSE_BRACKET;
  }

  function ExpectedItems(items: seq<J>, end: nat, depth: nat): Parsed<seq<J>> {
    if depth + ItemsHeight(items) <= NESTING_LIMIT then Ok(items, end) else Fail
  }

  lemma {:induction false} ParseRenderedItems(
    c: Text, p: nat, q: nat, items: seq<J>, format: bool, d: nat, depth: nat)
    requires items != [] && Printable(Arr(items)) && NulFree(Arr(items)) && depth <= NESTING_LIMIT
    requires p <= |c| && Skip(c, p) == q
    requires StandsAt(c, q, RenderItems(items, format, d))
    requires Sees(c, q + |RenderItems(items, format, d)|, CLOSE_BRACKET)
    ensures ParseElements(c, p, depth) == ExpectedItems(items, q + |RenderItems(items, format, d)|, depth)
    decreases items, 1
  {
    hide StandsAt, Skip, ParseValue, ParseElements, Render, Height, ItemSeparator;
    var end := q + |RenderItems(items, format, d)|;
    if |items| == 1 {
      ParseRendered(c, q, items[0], format, d, depth);
      SkipNothing(c, end);
      assert items == [items[0]];
      LastElement(c, p, depth, items[0], end);
    } else {
      var e := q + |Render(items[0], format, d)|;
      var next := e + |ItemSeparator(format)|;
      ItemsLayout(c, q, items, format, d, e, next);
      ParseRendered(c, q, items[0], format, d, depth);
      ParseRenderedItems(c, e + 1, next, items[1..], format, d, depth);
      assert items == [items[0]] + items[1..];
      MoreElements(c, p, depth, items[0], e, items[1..], end);
    }
  }

  lemma LastElement(c: Text, p: nat, depth: nat, v: J, end: nat)
    requires p <= |c| && ParseValue(c, Skip(c, p), depth) == Expected(v, end, depth)
    requires end <= |c| && Skip(c, end) == end && !Sees(c, end, COMMA)
    ensures ParseElements(c, p, depth) == ExpectedItems([v], end, depth)
  {
    hide ParseValue, Skip, Height;
    assert ItemsHeight([v]) == Height(v);
  }

  lemma MoreElements(c: Text, p: nat, depth: nat, v: J, e: nat, rest: seq<J>, end: nat)
    requires p <= |c| && ParseValue(c, Skip(c, p), depth) == Expected(v, e, depth)
    requires e <= |c| && Skip(c, e) == e && Sees(c, e, COMMA)
    requires ParseElements(c, e + 1, depth) == ExpectedItems(rest, end, depth)
    ensures ParseElements(c, p, depth) == ExpectedItems([v] + rest, end, depth)
  {
    hide ParseValue, Skip, Height;
    assert ([v] + rest)[1..] == rest;
  }

  /** Where the first of several rendered items, the comma and the others stand. */
  lemma ItemsLayout(c: Text, q: nat, items: seq<J>, format: bool, d: nat, e: nat, next: nat)
    requires |items| > 1 && Printable(items[1]) && StandsAt(c, q, RenderItems(items, format, d))
    requires e == q + |Render(items[0], format, d)| && next == e + |ItemSeparator(format)|
    ensures next + |RenderItems(items[1..], format, d)| == q + |RenderItems(items, format, d)|
    ensures StandsAt(c, q, Render(items[0], format, d)) && StandsAt(c, next, RenderItems(items[1..], format, d))
    ensures Sees(c, e, COMMA) && Skip(c, e) == e && Skip(c, e + 1) == next
  {
    hide StandsAt, Skip, Render;
    var rest := RenderItems(items[1..], format, d);
    StandsAtSplit(c, q, Render(items[0], format, d), ItemSeparator(format) + rest);
    StandsAtSplit(c, e, ItemSeparator(format), rest);
    StandsAtByte(c, e, ItemSeparator(format), 0);
    SkipNothing(c, e);
    FirstOfItems(items[1..], format, d);
    StandsAtByte(c, next, rest, 0);
    SkipSeparator(c, e, format);
  }

  lemma SkipSeparator(c: Text, e: nat, format: bool)
    requires StandsAt(c, e, ItemSeparator(format))
    requires e + |ItemSeparator(format)| < |c| && c[e + |ItemSeparator(format)|] > SPACE
    ensures Skip(c, e + 1) == e + |ItemSeparator(format)|
  {
    if format {
      StandsAtByte(c, e, ItemSeparator(format), 1);
      SkipBlanks(c, e + 1, [c[e + 1]]);
    } else {
      SkipNothing(c, e + 1);
    }
  }

  // ---- Objects ----

  function ExpectedMembers(members: seq<Member>, end: nat, depth: nat): Parsed<seq<Member>> {
    if depth + MembersHeight(members) <= NESTING_LIMIT then Ok(members, end) else Fail
  }

  lemma {:induction false} ParseRenderedMember(
    c: Text, p: nat, s: nat, m: Member, format: bool, d: nat, depth: nat, last: bool, end: nat)
    requires Printable(m.value) && NulFree(m.value) && NUL !in m.key && depth <= NESTING_LIMIT
    requires p <= |c| && Skip(c, p) == s + |Indent(format, d)|
    requires StandsAt(c, s, RenderMember(m, format, d, last))
    requires end + |MemberEnd(format, last)| == s + |RenderMember(m, format, d, last)|
    requires end < |c| && !IsNumberChar(c[end])
    ensures StandsAt(c, end, MemberEnd(format, last))
    ensures ParseMember(c, p, depth)
         == if depth + Height(m.value) <= NESTING_LIMIT then Ok(m, Skip(c, end)) else Fail
    decreases m, 2
  {
    hide StandsAt, Skip, ParseValue, ParseString, Render, Height, Indent, Literal, KeySeparator, MemberEnd;
    var value := Render(m.value, format, d);
    var tail := value + MemberEnd(format, last);
    var q := s + |Indent(format, d)|;
    var a := q + |Literal(m.key)|;
    var b := a + |KeySeparator(format)|;
    StandsAtSplit(c, s, Indent(format, d), Literal(m.key) + (KeySeparator(format) + tail));
    StandsAtSplit(c, q, Literal(m.key), KeySeparator(format) + tail);
    StandsAtSplit(c, a, KeySeparator(format), tail);
    StandsAtSplit(c, b, value, MemberEnd(format, last));
    assert end == b + |value|;
    ParseLiteral(c, q, m.key);
    RenderStarts(m.value, format, d);
    StandsAtByte(c, b, value, 0);
    SkipColon(c, a, format);
    ParseRendered(c, b, m.value, format, d, depth);
  }

  lemma SkipColon(c: Text, a: nat, format: bool)
    requires StandsAt(c, a, KeySeparator(format))
    requires a + |KeySeparator(format)| < |c| && c[a + |KeySeparator(format)|] > SPACE
    ensures Sees(c, a, COLON) && Skip(c, a) == a
    ensures Skip(c, a + 1) == a + |KeySeparator(format)|
  {
    StandsAtByte(c, a, KeySeparator(format), 0);
    if format {
      StandsAtByte(c, a, KeySeparator(format), 1);
      SkipBlanks(c, a + 1, [c[a + 1]]);
    } else {
      SkipNothing(c, a + 1);
    }
  }

  /** After the last member come blanks only, up to the closing brace at z. */
  lemma SkipToBrace(c: Text, end: nat, format: bool, d: nat, z: nat)
    requires StandsAt(c, end, MemberEnd(format, true))
    requires StandsAt(c, end + |MemberEnd(format, true)|, Indent(format, d))
    requires z == end + |MemberEnd(format, true)| + |Indent(format, d)|
    requires Sees(c, z, CLOSE_BRACE)
    ensures Skip(c, end) == z && !IsNumberChar(c[end])
  {
    StandsAtSplit(c, end, MemberEnd(format, true), Indent(format, d));
    if format {
      StandsAtByte(c, end, MemberEnd(format, true), 0);
    }
    SkipBlanks(c, end, MemberEnd(format, true) + Indent(format, d));
  }

  /** Between two members stands a comma, and blanks up to the next key. */
  lemma SkipToKey(c: Text, end: nat, format: bool, d: nat, q: nat)
    requires StandsAt(c, end, MemberEnd(format, false))
    requires StandsAt(c, end + |MemberEnd(format, false)|, Indent(format, d))
    requires q == end + |MemberEnd(format, false)| + |Indent(format, d)|
    requires Sees(c, q, QUOTE)
    ensures Sees(c, end, COMMA) && Skip(c, end) == end && Skip(c, end + 1) == q
  {
    StandsAtByte(c, end, MemberEnd(format, false), 0);
    StandsAtSplit(c, end, MemberEnd(format, false), Indent(format, d));
    assert MemberEnd(format, false) + Indent(format, d)
        == [COMMA] + ((if format then [NEWLINE] else []) + Indent(format, d));
    StandsAtSplit(c, end, [COMMA], (if format then [NEWLINE] else []) + Indent(format, d));
    SkipBlanks(c, end + 1, (if format then [NEWLINE] else []) + Indent(format, d));
  }

  lemma MemberKey(c: Text, s: nat, m: Member, format: bool, d: nat, last: bool)
    requires StandsAt(c, s, RenderMember(m, format, d, last))
    ensures StandsAt(c, s, Indent(format, d)) && Sees(c, s + |Indent(format, d)|, QUOTE)
  {
    hide StandsAt, Indent, KeySeparator, MemberEnd, Render, Escape, CString;
    var tail := KeySeparator(format) + (Render(m.value, format, d) + MemberEnd(format, last));
    StandsAtSplit(c, s, Indent(format, d), Literal(m.key) + tail);
    StandsAtSplit(c, s + |Indent(format, d)|, Literal(m.key), tail);
    StandsAtByte(c, s + |Indent(format, d)|, Literal(m.key), 0);
  }

  /** The key of the first of some rendered members stands behind the indentation. */
  lemma FirstKey(c: Text, s: nat, members: seq<Member>, format: bool, d: nat)
    requires members != [] && StandsAt(c, s, RenderMembers(members, format, d))
    ensures StandsAt(c, s, Indent(format, d)) && Sees(c, s + |Indent(format, d)|, QUOTE)
  {
    hide StandsAt, Indent, RenderMember;
    var last := |members| == 1;
    StandsAtSplit(c, s, RenderMember(members[0], format, d, last), RenderMembers(members[1..], format, d));
    MemberKey(c, s, members[0], format, d, last);
  }

  /** The members stand at s; their closing brace stands, behind its indentation, at z. */
  lemma {:induction false} ParseRenderedMembers(
    c: Text, p: nat, s: nat, members: seq<Member>, format: bool, d: nat, depth: nat, z: nat)
    requires members != [] && Printable(Obj(members)) && NulFree(Obj(members))
    requires depth <= NESTING_LIMIT && d > 0
    requires p <= |c| && Skip(c, p) == s + |Indent(format, d)|
    requires StandsAt(c, s, RenderMembers(members, format, d))
    requires StandsAt(c, s + |RenderMembers(members, format, d)|, Indent(format, d - 1))
    requires z == s + |RenderMembers(members, format, d)| + |Indent(format, d - 1)|
    requires Sees(c, z, CLOSE_BRACE)
    ensures ParseMembers(c, p, depth) == ExpectedMembers(members, z, depth)
    decreases members, 3
  {
    hide StandsAt, Skip, ParseMember, RenderMember, Height, Indent, MemberEnd;
    var m := members[0];
    var last := |members| == 1;
    var first := RenderMember(m, format, d, last);
    var rest := RenderMembers(members[1..], format, d);
    var s' := s + |first|;
    var end := s' - |MemberEnd(format, last)|;
    StandsAtSplit(c, s, first, rest);
    MemberTail(c, s, m, format, d, last, end);
    if last {
      assert rest == [];
      SkipToBrace(c, end, format, d - 1, z);
      ParseRenderedMember(c, p, s, m, format, d, depth, last, end);
      assert members == [m];
      assert MembersHeight(members) == Height(m.value);
    } else {
      FirstKey(c, s', members[1..], format, d);
      SkipToKey(c, end, format, d, s' + |Indent(format, d)|);
      ParseRenderedMember(c, p, s, m, format, d, depth, last, end);
      ParseRenderedMembers(c, end + 1, s', members[1..], format, d, depth, z);
      assert members == [m] + members[1..];
    }
  }

  lemma MemberTail(c: Text, s: nat, m: Member, format: bool, d: nat, last: bool, end: int)
    requires StandsAt(c, s, RenderMember(m, format, d, last))
    requires end + |MemberEnd(format, last)| == s + |RenderMember(m, format, d, last)|
    ensures end >= s && StandsAt(c, end, MemberEnd(format, last))
  {
    var text := RenderMember(m, format, d, last);
    var k := |text| - |MemberEnd(format, last)|;
    assert text == text[..k] + MemberEnd(format, last);
    StandsAtSplit(c, s, text[..k], MemberEnd(format, last));
  }

  /** Where the parts of a rendered object stand. */
  lemma ObjectLayout(c: Text, p: nat, members: seq<Member>, format: bool, d: nat, s: nat, e: nat, z: nat)
    requires StandsAt(c, p, Render(Obj(members), format, d))
    requires s == p + |ObjectOpening(format)| && e == s + |RenderMembers(members, format, d + 1)|
    requires z == e + |Indent(format, d)|
    ensures z + 1 == p + |Render(Obj(members), format, d)|
    ensures Sees(c, p, OPEN_BRACE) && Sees(c, z, CLOSE_BRACE)
    ensures StandsAt(c, p, ObjectOpening(format)) && StandsAt(c, s, RenderMembers(members, format, d + 1))
    ensures StandsAt(c, e, Indent(format, d))
  {
    hide StandsAt, RenderMembers, Indent;
    var text := RenderMembers(members, format, d + 1);
    StandsAtAssoc(c, p, ObjectOpening(format), text, Indent(format, d) + [CLOSE_BRACE]);
    StandsAtSplit(c, s, text, Indent(format, d) + [CLOSE_BRACE]);
    StandsAtSplit(c, e, Indent(format, d), [CLOSE_BRACE]);
    StandsAtByte(c, p, ObjectOpening(format), 0);
    StandsAtByte(c, z, [CLOSE_BRACE], 0);
  }

  lemma {:induction false} ParseRenderedObject(
    c: Text, p: nat, members: seq<Member>, format: bool, d: nat, depth: nat)
    requires Printable(Obj(members)) && NulFree(Obj(members)) && depth <= NESTING_LIMIT
    requires StandsAt(c, p, Render(Obj(members), format, d)) && p + |Render(Obj(members), format, d)| < |c|
    ensures ParseValue(c, p, depth) == Expected(Obj(members), p + |Render(Obj(members), format, d)|, depth)
    decreases members, 4
  {
    hide StandsAt, Skip, Render, ParseMembers, RenderMembers, MembersHeight, ParseArray, Indent, ObjectOpening;
    var s := p + |ObjectOpening(format)|;
    var e := s + |RenderMembers(members, format, d + 1)|;
    var z := e + |Indent(format, d)|;
    ObjectLayout(c, p, members, format, d, s, e, z);
    NoKeyword(c, p);
    assert ParseValue(c, p, depth) == ParseObject(c, p, depth);
    if members == [] {
      NoMembers(format, d + 1);
      SkipOpening(c, p, format, d, z);
    } else {
      FirstKey(c, s, members, format, d + 1);
      SkipOpening(c, p, format, d + 1, s + |Indent(format, d + 1)|);
      SkipNothing(c, s + |Indent(format, d + 1)|);
      if depth < NESTING_LIMIT {
        ParseRenderedMembers(c, s + |Indent(format, d + 1)|, s, members, format, d + 1, depth + 1, z);
      }
    }
  }

  lemma NoMembers(format: bool, d: nat)
    ensures RenderMembers([], format, d) == [] && MembersHeight([]) == 0
  {
  }

  lemma SkipOpening(c: Text, p: nat, format: bool, d: nat, q: nat)
    requires StandsAt(c, p, ObjectOpening(format))
    requires StandsAt(c, p + |ObjectOpening(format)|, Indent(format, d))
    requires q == p + |ObjectOpening(format)| + |Indent(format, d)|
    requires q < |c| && c[q] > SPACE
    ensures Skip(c, p + 1) == q
  {
    StandsAtSplit(c, p, ObjectOpening(format), Indent(format, d));
    assert ObjectOpening(format) + Indent(format, d)
        == [OPEN_BRACE] + ((if format then [NEWLINE] else []) + Indent(format, d));
    StandsAtSplit(c, p, [OPEN_BRACE], (if format then [NEWLINE] else []) + Indent(format, d));
    SkipBlanks(c, p + 1, (if format then [NEWLINE] else []) + Indent(format, d));
  }

  // ---- Whole texts ----

  /**
    Parsing a NUL-terminated printed text gives the tree back, its strings and keys cut at
    their first NUL, if it is nested at most NESTING_LIMIT deep and fails otherwise, whatever
    follows the NUL. (With `requireNul` the buffer ends at the NUL: blanks are skipped up to
    its last byte.)
  */
  lemma ParsePrinted(v: J, format: bool, tail: Text, requireNul: bool)
    requires Printable(v)
    requires requireNul ==> tail == []
    ensures ParseText(Render(v, format, 0) + [NUL] + tail, requireNul)
         == if Height(v) <= NESTING_LIMIT then Ok(Cut(v), |Render(v, format, 0)|) else Fail
    ensures NulFree(v) ==> Cut(v) == v
  {
    CutKeeps(v);
    RenderOfCut(v, format, 0);
    hide Render, ParseValue, Height, Cut;
    ParsePrintedCut(Cut(v), format, tail, requireNul);
  }

  lemma ParsePrintedCut(v: J, format: bool, tail: Text, requireNul: bool)
    requires Printable(v) && NulFree(v)
    requires requireNul ==> tail == []
    ensures ParseText(Render(v, format, 0) + [NUL] + tail, requireNul)
         == if Height(v) <= NESTING_LIMIT then Ok(v, |Render(v, format, 0)|) else Fail
  {
    hide Render, ParseValue, Height;
    var text := Render(v, format, 0);
    var c := text + [NUL] + tail;
    RenderStarts(v, format, 0);
    RenderIsAscii(v, format, 0);
    assert c[0] == text[0] && c[|text|] == NUL && c[0..|text|] == text;
    assert |c| > 4 ==> c[..3][0] == c[0];
    SkipNothing(c, 0);
    ParseRendered(c, 0, v, format, 0, 0);
    if requireNul {
      assert BlankEnd(c, |text|) == BlankEnd(c, |text| + 1) == |c|;
    }
  }
}
