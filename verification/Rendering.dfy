/**
  The text print_value produces for a tree, as a pure function. `format` selects the
  layout of cJSON_Print, its absence the one of cJSON_PrintUnformatted; `depth` is the
  nesting depth at which the value stands. A tree that is not `Printable` has no
  meaningful rendering.
*/
module Rendering {
  import opened Bytes
  import opened Json
  import opened Numbers
  import opened Strings

  function Tabs(n: nat): Text {
    seq(n, _ => TAB)
  }

  function ItemSeparator(format: bool): Text {
    if format then [COMMA, SPACE] else [COMMA]
  }

  function KeySeparator(format: bool): Text {
    if format then [COLON, TAB] else [COLON]
  }

  function ObjectOpening(format: bool): Text {
    if format then [OPEN_BRACE, NEWLINE] else [OPEN_BRACE]
  }

  function Indent(format: bool, depth: nat): Text {
    if format then Tabs(depth) else []
  }

  function ObjectClosing(format: bool, depth: nat): Text {
    Indent(format, depth) + [CLOSE_BRACE]
  }

  function MemberEnd(format: bool, last: bool): Text {
    (if last then [] else [COMMA]) + (if format then [NEWLINE] else [])
  }

  function Render(v: J, format: bool, depth: nat): Text
    decreases v
  {
    match v
    case Null => NULL_TEXT
    case Bool(b) => if b then TRUE_TEXT else FALSE_TEXT
    case Num(n) => Dec(n)
    case Inexact(_) => []
    case Str(s) => Literal(s)
    case Arr(items) => [OPEN_BRACKET] + RenderItems(items, format, depth + 1) + [CLOSE_BRACKET]
    case Obj(members) =>
      ObjectOpening(format) + RenderMembers(members, format, depth + 1)
      + ObjectClosing(format, depth)
  }

  function RenderItems(items: seq<J>, format: bool, depth: nat): Text
    decreases items
  {
    if items == [] then []
    else if |items| == 1 then Render(items[0], format, depth)
    else Render(items[0], format, depth) + (ItemSeparator(format) + RenderItems(items[1..], format, depth))
  }

  function RenderMembers(members: seq<Member>, format: bool, depth: nat): Text
    decreases members
  {
    if members == [] then []
    else
      RenderMember(members[0], format, depth, |members| == 1) + RenderMembers(members[1..], format, depth)
  }

  function RenderMember(m: Member, format: bool, depth: nat, last: bool): Text
    decreases m
  {
    Indent(format, depth) + (Literal(m.key) + (KeySeparator(format)
    + (Render(m.value, format, depth) + MemberEnd(format, last))))
  }

  // ---- Renderings cut into pieces ----

  lemma ArrayText(items: seq<J>, format: bool, d: nat, x: Text)
    ensures Render(Arr(items), format, d) + x
         == [OPEN_BRACKET] + (RenderItems(items, format, d + 1) + ([CLOSE_BRACKET] + x))
  {
    hide RenderItems;
  }

  lemma ItemsText(items: seq<J>, format: bool, d: nat, x: Text)
    requires 1 < |items|
    ensures RenderItems(items, format, d) + x
         == Render(items[0], format, d) + (ItemSeparator(format) + (RenderItems(items[1..], format, d) + x))
  {
    hide Render;
  }

  lemma ObjectText(members: seq<Member>, format: bool, d: nat, x: Text)
    ensures Render(Obj(members), format, d) + x
         == ObjectOpening(format) + (RenderMembers(members, format, d + 1) + (ObjectClosing(format, d) + x))
  {
    hide RenderMembers;
  }

  lemma MembersText(members: seq<Member>, format: bool, d: nat, x: Text)
    requires members != []
    ensures RenderMembers(members, format, d) + x
         == RenderMember(members[0], format, d, |members| == 1) + (RenderMembers(members[1..], format, d) + x)
  {
    hide RenderMember;
  }

  lemma MemberText(m: Member, format: bool, d: nat, last: bool, x: Text)
    ensures RenderMember(m, format, d, last) + x
         == Indent(format, d) + (Literal(m.key) + (KeySeparator(format)
            + (Render(m.value, format, d) + (MemberEnd(format, last) + x))))
  {
    hide Render, Literal, MemberEnd;
  }

  // ---- No rendering holds a NUL, so it is one C string ----

  lemma {:induction false} RenderHasNoNul(v: J, format: bool, depth: nat)
    ensures NUL !in Render(v, format, depth)
    decreases v
  {
    match v
    case Str(s) => EscapeHasNoNul(CString(s));
    case Arr(items) => RenderItemsHasNoNul(items, format, depth + 1);
    case Obj(members) => RenderMembersHasNoNul(members, format, depth + 1);
    case _ =>
  }

  lemma {:induction false} RenderItemsHasNoNul(items: seq<J>, format: bool, depth: nat)
    ensures NUL !in RenderItems(items, format, depth)
    decreases items
  {
    if items != [] {
      RenderHasNoNul(items[0], format, depth);
      RenderItemsHasNoNul(items[1..], format, depth);
    }
  }

  lemma {:induction false} RenderMembersHasNoNul(members: seq<Member>, format: bool, depth: nat)
    ensures NUL !in RenderMembers(members, format, depth)
    decreases members
  {
    hide RenderMember;
    if members != [] {
      RenderMemberHasNoNul(members[0], format, depth, |members| == 1);
      RenderMembersHasNoNul(members[1..], format, depth);
    }
  }

  lemma {:induction false} RenderMemberHasNoNul(m: Member, format: bool, depth: nat, last: bool)
    ensures NUL !in RenderMember(m, format, depth, last)
    decreases m
  {
    hide Render, Escape;
    EscapeHasNoNul(CString(m.key));
    RenderHasNoNul(m.value, format, depth);
  }

  // ---- Strings print as C strings ----

  /** A tree prints as the one with its strings and keys cut at their first NUL. */
  lemma {:induction false} RenderOfCut(v: J, format: bool, depth: nat)
    ensures Render(Cut(v), format, depth) == Render(v, format, depth)
    decreases v
  {
    CutParts(v);
    match v
    case Str(s) => CStringOfNulFree(CString(s));
    case Arr(items) => RenderItemsOfCut(items, format, depth + 1);
    case Obj(members) => RenderMembersOfCut(members, format, depth + 1);
    case _ =>
  }

  lemma {:induction false} RenderItemsOfCut(items: seq<J>, format: bool, depth: nat)
    ensures RenderItems(CutItems(items), format, depth) == RenderItems(items, format, depth)
    decreases items
  {
    hide Cut, Render;
    if items != [] {
      RenderOfCut(items[0], format, depth);
      RenderItemsOfCut(items[1..], format, depth);
      assert CutItems(items)[1..] == CutItems(items[1..]);
    }
  }

  lemma {:induction false} RenderMembersOfCut(members: seq<Member>, format: bool, depth: nat)
    ensures RenderMembers(CutMembers(members), format, depth) == RenderMembers(members, format, depth)
    decreases members
  {
    hide Cut, Render;
    if members != [] {
      CStringOfNulFree(CString(members[0].key));
      RenderOfCut(members[0].value, format, depth);
      RenderMembersOfCut(members[1..], format, depth);
      assert CutMembers(members)[1..] == CutMembers(members[1..]);
    }
  }
}
