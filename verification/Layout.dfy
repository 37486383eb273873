/**
  The layout of printed trees, by a scanner over the text that keeps the brackets and
  braces open at each place: where lines end, how they are indented, and which
  other blanks there are.
*/
module Layout {
  import opened Bytes
  import opened Json
  import opened Numbers
  import opened Strings
  import opened Rendering

  predicate Starts(t: Text, mark: char) {
    t != [] && t[0] == mark as int
  }

  predicate Inside(open: string, mark: char) {
    open != "" && open[|open| - 1] == mark
  }

  /** A byte that is no blank comes next. */
  predicate Solid(t: Text) {
    t != [] && t[0] > 32
  }

  /**
    The text from here, with these brackets and braces open, is laid out as a tree that
    stands at depth d: an opening brace and a comma between members end their line, as does
    the last member before its closing brace; exactly one tab follows a colon, and one space
    a comma between elements; and there are no other blanks outside string literals.
  */
  predicate Laid(t: Text, open: string, d: nat)
    decreases |t|, 0
  {
    if t == [] then open == ""
    else if Starts(t, '"') then
      match LiteralEnd(t, 1)
      case None => false
      case Some(e) => Laid(t[e + 1..], open, d)
    else if Starts(t, '{') then
      Starts(t[1..], '\n') && (MemberLine(t[2..], open + "{", d) || ClosingLine(t[2..], open + "{", d))
    else if Starts(t, '[') then Solid(t[1..]) && Laid(t[1..], open + "[", d)
    else if Starts(t, ']') then Inside(open, '[') && Laid(t[1..], open[..|open| - 1], d)
    else if Starts(t, ':') then Starts(t[1..], '\t') && Solid(t[2..]) && Laid(t[2..], open, d)
    else if Starts(t, ',') && Inside(open, '{') then Starts(t[1..], '\n') && MemberLine(t[2..], open, d)
    else if Starts(t, ',') then
      Inside(open, '[') && Starts(t[1..], ' ') && Solid(t[2..]) && Laid(t[2..], open, d)
    else if Starts(t, '\n') then ClosingLine(t[1..], open, d)
    else t[0] > 32 && !Starts(t, '}') && Laid(t[1..], open, d)
  }

  /** A line starts with n tabs. */
  predicate Indented(t: Text, n: nat) {
    n <= |t| && forall k | 0 <= k < n :: t[k] == '\t' as int
  }

  /** The line of a member has one tab for each bracket and brace that is open. */
  predicate MemberLine(t: Text, open: string, d: nat)
    decreases |t|, 1
  {
    var n := d + |open|;
    Indented(t, n) && Starts(t[n..], '"') && Laid(t[n..], open, d)
  }

  /** The line of a closing brace has as many tabs as the line of its opening brace. */
  predicate ClosingLine(t: Text, open: string, d: nat)
    decreases |t|, 1
  {
    Inside(open, '{') && var n := d + |open| - 1;
      Indented(t, n) && Starts(t[n..], '}') && Laid(t[n + 1..], open[..|open| - 1], d)
  }

  /** There is no blank outside string literals. */
  predicate Unspaced(t: Text)
    decreases |t|
  {
    if t == [] then true
    else if Starts(t, '"') then
      match LiteralEnd(t, 1)
      case None => false
      case Some(e) => Unspaced(t[e + 1..])
    else t[0] > 32 && Unspaced(t[1..])
  }

  // ---- Scanning ----

  predicate Ordinary(b: byte) {
    b > 32 && b as char !in "\"{}[]:,"
  }

  lemma {:induction false} LaidOver(x: Text, t: Text, open: string, d: nat)
    requires (forall b <- x :: Ordinary(b)) && Laid(t, open, d)
    ensures Laid(x + t, open, d)
  {
    if x == [] {
      assert x + t == t;
    } else {
      LaidOver(x[1..], t, open, d);
      assert (x + t)[1..] == x[1..] + t;
      assert Ordinary(x[0]);
    }
  }

  lemma LiteralEndsAt(s: Text, t: Text)
    ensures Starts(Literal(s) + t, '"') && LiteralEnd(Literal(s) + t, 1) == Some(|Literal(s)| - 1)
    ensures (Literal(s) + t)[|Literal(s)|..] == t
  {
    hide Escape, LiteralEnd;
    var e := Escape(CString(s));
    assert (Literal(s) + t)[1..1 + |e + [QUOTE]|] == e + [QUOTE];
    LiteralEndOfEscape(Literal(s) + t, 1, CString(s));
  }

  lemma LaidLiteral(s: Text, t: Text, open: string, d: nat)
    requires Laid(t, open, d)
    ensures Laid(Literal(s) + t, open, d)
  {
    LiteralEndsAt(s, t);
    hide Literal, LiteralEnd;
  }

  lemma LaidSeparator(t: Text, open: string, d: nat)
    requires Inside(open, '[') && Laid(t, open, d) && Solid(t)
    ensures Laid(ItemSeparator(true) + t, open, d)
  {
    var u := ItemSeparator(true) + t;
    assert u[1..] == [SPACE] + t && u[2..] == t;
  }

  lemma LaidColon(t: Text, open: string, d: nat)
    requires Laid(t, open, d) && Solid(t)
    ensures Laid(KeySeparator(true) + t, open, d)
  {
    var u := KeySeparator(true) + t;
    assert u[1..] == [TAB] + t && u[2..] == t;
  }

  /** What stands behind a member: its closing brace or the next member, each on its own line. */
  predicate Next(t: Text, last: bool, open: string, d: nat) {
    if last then ClosingLine(t, open, d) else Inside(open, '{') && MemberLine(t, open, d)
  }

  lemma LaidMemberEnd(t: Text, last: bool, open: string, d: nat)
    requires Next(t, last, open, d)
    ensures Laid(MemberEnd(true, last) + t, open, d)
  {
    hide MemberLine, ClosingLine;
    var u := MemberEnd(true, last) + t;
    if last {
      assert u == [NEWLINE] + t && u[1..] == t;
    } else {
      assert u == [COMMA, NEWLINE] + t && u[1..] == [NEWLINE] + t && u[2..] == t;
    }
  }

  lemma LaidIndent(t: Text, open: string, d: nat)
    requires Laid(t, open, d) && Starts(t, '"')
    ensures MemberLine(Indent(true, d + |open|) + t, open, d)
  {
    hide Laid;
    assert (Indent(true, d + |open|) + t)[d + |open|..] == t;
  }

  lemma LaidClosing(t: Text, open: string, d: nat)
    requires Laid(t, open, d)
    ensures ClosingLine(ObjectClosing(true, d + |open|) + t, open + "{", d)
  {
    hide Laid;
    var n := d + |open|;
    var u := ObjectClosing(true, n) + t;
    assert u[n..] == [CLOSE_BRACE] + t && u[n + 1..] == t;
    assert (open + "{")[..|open|] == open;
  }

  lemma LaidOpening(t: Text, open: string, d: nat)
    requires MemberLine(t, open + "{", d) || ClosingLine(t, open + "{", d)
    ensures Laid(ObjectOpening(true) + t, open, d)
  {
    hide MemberLine, ClosingLine;
    var u := ObjectOpening(true) + t;
    assert u[1..] == [NEWLINE] + t && u[2..] == t;
  }

  lemma LaidBracket(t: Text, open: string, d: nat)
    requires Laid(t, open + "[", d) && Solid(t)
    ensures Laid([OPEN_BRACKET] + t, open, d)
  {
    assert ([OPEN_BRACKET] + t)[1..] == t;
  }

  lemma LaidEndBracket(t: Text, open: string, d: nat)
    requires Laid(t, open, d)
    ensures Laid([CLOSE_BRACKET] + t, open + "[", d)
  {
    assert ([CLOSE_BRACKET] + t)[1..] == t;
    assert (open + "[")[..|open|] == open;
  }

  // ---- Printed trees ----

  lemma RenderIsSolid(v: J, format: bool, depth: nat, t: Text)
    requires Printable(v)
    ensures Solid(Render(v, format, depth) + t)
  {
    assert Render(v, format, depth)[0] > 32;
  }

  lemma LaidLeaf(v: J, t: Text, open: string, d: nat)
    requires Printable(v) && !v.Arr? && !v.Obj? && Laid(t, open, d)
    ensures Laid(Render(v, true, d + |open|) + t, open, d)
  {
    hide Laid, Literal;
    match v
    case Str(s) => LaidLiteral(s, t, open, d);
    case Num(n) =>
      forall b | b in Dec(n) ensures Ordinary(b) {
        assert IsNumberChar(b);
      }
      LaidOver(Dec(n), t, open, d);
    case Null => LaidOver(NULL_TEXT, t, open, d);
    case Bool(b) => LaidOver(if b then TRUE_TEXT else FALSE_TEXT, t, open, d);
  }

  /** A formatted tree is laid out, in any surroundings that are. */
  lemma {:induction false} RenderIsLaid(v: J, t: Text, open: string, d: nat)
    requires Printable(v) && Laid(t, open, d)
    ensures Laid(Render(v, true, d + |open|) + t, open, d)
    decreases v, 1
  {
    hide Laid, Render;
    match v
    case Arr(items) => ArrayIsLaid(items, t, open, d);
    case Obj(members) => ObjectIsLaid(members, t, open, d);
    case _ => LaidLeaf(v, t, open, d);
  }

  lemma {:induction false} ArrayIsLaid(items: seq<J>, t: Text, open: string, d: nat)
    requires Printable(Arr(items)) && Laid(t, open, d)
    ensures Laid(Render(Arr(items), true, d + |open|) + t, open, d)
    decreases items, 2
  {
    hide Laid, Render, RenderItems;
    var after := [CLOSE_BRACKET] + t;
    ArrayText(items, true, d + |open|, t);
    LaidEndBracket(t, open, d);
    ItemsAreLaid(items, after, open + "[", d);
    LaidBracket(RenderItems(items, true, d + |open| + 1) + after, open, d);
  }

  lemma {:induction false} ItemsAreLaid(items: seq<J>, t: Text, open: string, d: nat)
    requires Printable(Arr(items)) && Inside(open, '[') && Laid(t, open, d) && Solid(t)
    ensures Laid(RenderItems(items, true, d + |open|) + t, open, d)
    ensures Solid(RenderItems(items, true, d + |open|) + t)
    decreases items, 1
  {
    hide Laid, Render, Solid;
    if items == [] {
      assert RenderItems(items, true, d + |open|) + t == t;
    } else if |items| == 1 {
      RenderIsSolid(items[0], true, d + |open|, t);
      RenderIsLaid(items[0], t, open, d);
    } else {
      var rest := RenderItems(items[1..], true, d + |open|) + t;
      ItemsText(items, true, d + |open|, t);
      ItemsAreLaid(items[1..], t, open, d);
      LaidSeparator(rest, open, d);
      RenderIsSolid(items[0], true, d + |open|, ItemSeparator(true) + rest);
      RenderIsLaid(items[0], ItemSeparator(true) + rest, open, d);
    }
  }

  lemma {:induction false} ObjectIsLaid(members: seq<Member>, t: Text, open: string, d: nat)
    requires Printable(Obj(members)) && Laid(t, open, d)
    ensures Laid(Render(Obj(members), true, d + |open|) + t, open, d)
    decreases members, 3
  {
    hide Laid, Render, RenderMember, MemberLine, ClosingLine, ObjectOpening, ObjectClosing;
    var after := ObjectClosing(true, d + |open|) + t;
    ObjectText(members, true, d + |open|, t);
    LaidClosing(t, open, d);
    if members == [] {
      assert RenderMembers(members, true, d + |open| + 1) + after == after;
    } else {
      MembersAreLaid(members, after, open + "{", d);
    }
    LaidOpening(RenderMembers(members, true, d + |open| + 1) + after, open, d);
  }

  lemma {:induction false} MembersAreLaid(members: seq<Member>, t: Text, open: string, d: nat)
    requires members != [] && Printable(Obj(members)) && ClosingLine(t, open, d)
    ensures MemberLine(RenderMembers(members, true, d + |open|) + t, open, d)
    decreases members, 2
  {
    hide RenderMembers, RenderMember, MemberLine, Laid;
    MembersText(members, true, d + |open|, t);
    var rest := RenderMembers(members[1..], true, d + |open|) + t;
    if |members| == 1 {
      NoMembersText(members[1..], d + |open|, t);
    } else {
      MembersAreLaid(members[1..], t, open, d);
    }
    MemberIsLaid(members[0], |members| == 1, rest, open, d);
  }

  lemma NoMembersText(members: seq<Member>, depth: nat, t: Text)
    requires members == []
    ensures RenderMembers(members, true, depth) + t == t
  {
    assert [] + t == t;
  }

  lemma {:induction false} MemberIsLaid(m: Member, last: bool, t: Text, open: string, d: nat)
    requires Printable(m.value) && Next(t, last, open, d)
    ensures MemberLine(RenderMember(m, true, d + |open|, last) + t, open, d)
    decreases m, 2
  {
    hide Laid, Render, RenderMember, Literal, MemberLine, MemberEnd, Next, Solid, Starts, KeySeparator, Indent;
    var after := MemberEnd(true, last) + t;
    var value := Render(m.value, true, d + |open|) + after;
    MemberText(m, true, d + |open|, last, t);
    LaidMemberEnd(t, last, open, d);
    RenderIsSolid(m.value, true, d + |open|, after);
    RenderIsLaid(m.value, after, open, d);
    LaidColon(value, open, d);
    LaidLiteral(m.key, KeySeparator(true) + value, open, d);
    LiteralEndsAt(m.key, KeySeparator(true) + value);
    LaidIndent(Literal(m.key) + (KeySeparator(true) + value), open, d);
  }

  // ---- Unformatted trees ----

  predicate Visible(b: byte) {
    b > 32 && b != '"' as int
  }

  lemma {:induction false} UnspacedOver(x: Text, t: Text)
    requires (forall b <- x :: Visible(b)) && Unspaced(t)
    ensures Unspaced(x + t)
  {
    if x == [] {
      assert x + t == t;
    } else {
      UnspacedOver(x[1..], t);
      assert (x + t)[1..] == x[1..] + t;
      assert Visible(x[0]);
    }
  }

  lemma UnspacedLiteral(s: Text, t: Text)
    requires Unspaced(t)
    ensures Unspaced(Literal(s) + t)
  {
    LiteralEndsAt(s, t);
    hide Literal, LiteralEnd;
  }

  /** An unformatted tree has no blank outside its string literals, in any surroundings that have none. */
  lemma {:induction false} RenderIsUnspaced(v: J, depth: nat, t: Text)
    requires Printable(v) && Unspaced(t)
    ensures Unspaced(Render(v, false, depth) + t)
    decreases v, 1
  {
    hide Unspaced, Literal;
    match v
    case Str(s) => UnspacedLiteral(s, t);
    case Num(n) =>
      forall b | b in Dec(n) ensures Visible(b) {
        assert IsNumberChar(b);
      }
      UnspacedOver(Dec(n), t);
    case Null => UnspacedOver(NULL_TEXT, t);
    case Bool(b) => UnspacedOver(if b then TRUE_TEXT else FALSE_TEXT, t);
    case Arr(items) =>
      ArrayText(items, false, depth, t);
      UnspacedOver([CLOSE_BRACKET], t);
      ItemsAreUnspaced(items, depth + 1, [CLOSE_BRACKET] + t);
      UnspacedOver([OPEN_BRACKET], RenderItems(items, false, depth + 1) + ([CLOSE_BRACKET] + t));
    case Obj(members) =>
      ObjectText(members, false, depth, t);
      UnspacedOver(ObjectClosing(false, depth), t);
      MembersAreUnspaced(members, depth + 1, ObjectClosing(false, depth) + t);
      UnspacedOver([OPEN_BRACE], RenderMembers(members, false, depth + 1) + (ObjectClosing(false, depth) + t));
  }

  lemma {:induction false} ItemsAreUnspaced(items: seq<J>, depth: nat, t: Text)
    requires Printable(Arr(items)) && Unspaced(t)
    ensures Unspaced(RenderItems(items, false, depth) + t)
    decreases items, 1
  {
    hide Unspaced, Render;
    if items == [] {
      assert RenderItems(items, false, depth) + t == t;
    } else if |items| == 1 {
      RenderIsUnspaced(items[0], depth, t);
    } else {
      var rest := RenderItems(items[1..], false, depth) + t;
      ItemsText(items, false, depth, t);
      ItemsAreUnspaced(items[1..], depth, t);
      UnspacedOver(ItemSeparator(false), rest);
      RenderIsUnspaced(items[0], depth, ItemSeparator(false) + rest);
    }
  }

  lemma {:induction false} MembersAreUnspaced(members: seq<Member>, depth: nat, t: Text)
    requires Printable(Obj(members)) && Unspaced(t)
    ensures Unspaced(RenderMembers(members, false, depth) + t)
    decreases members, 2
  {
    hide Unspaced, Render, RenderMember, Literal;
    if members == [] {
      assert RenderMembers(members, false, depth) + t == t;
    } else {
      var m, last := members[0], |members| == 1;
      var rest := RenderMembers(members[1..], false, depth) + t;
      MembersText(members, false, depth, t);
      MembersAreUnspaced(members[1..], depth, t);
      MemberText(m, false, depth, last, rest);
      UnspacedOver(MemberEnd(false, last), rest);
      var value := Render(m.value, false, depth) + (MemberEnd(false, last) + rest);
      RenderIsUnspaced(m.value, depth, MemberEnd(false, last) + rest);
      UnspacedOver(KeySeparator(false), value);
      UnspacedLiteral(m.key, KeySeparator(false) + value);
      UnspacedOver(Indent(false, depth), Literal(m.key) + (KeySeparator(false) + value));
    }
  }

  // ---- The law ----

  /** The layout of a whole print. */
  predicate LaidOut(t: Text, format: bool) {
    if format then Laid(t, "", 0) else Unspaced(t)
  }

  /** What cJSON_Print prints is laid out, and what cJSON_PrintUnformatted prints has no blanks. */
  lemma PrintIsLaid(v: J, format: bool)
    requires Printable(v)
    ensures LaidOut(Render(v, format, 0), format)
  {
    hide Render;
    RenderIsLaid(v, [], "", 0);
    RenderIsUnspaced(v, 0, []);
    assert Render(v, format, 0) + [] == Render(v, format, 0);
  }
}
