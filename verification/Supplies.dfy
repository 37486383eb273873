/**
  The supplies store: stock levels that are read from the database, changed by a clamped sum
  and written back, always through the JSON printer, parser and lookup.
*/
module Supplies {
  import opened Bytes
  import opened Json
  import opened Numbers
  import opened Strings
  import opened Rendering
  import Spec = ParseSpec
  import opened RoundTrip
  import opened Comparison
  import opened KeyValueStore

  const FOOD: Text := Ascii("food")
  const MEDICINE: Text := Ascii("medicine")

  const MEAT: Text := Ascii("meat")
  const VEGETABLES: Text := Ascii("vegetables")
  const FRUITS: Text := Ascii("fruits")
  const WATER: Text := Ascii("water")
  const ANTIBIOTICS: Text := Ascii("antibiotics")
  const ANALGESICS: Text := Ascii("analgesics")
  const BANDAGES: Text := Ascii("bandages")

  // ---- Lookup of fields ----

  /** cJSON_GetObjectItem; only the members of an object have names. */
  function GetItem(v: Option<J>, name: Text): Option<J> {
    match v
    case Some(Obj(members)) => Lookup(members, Fold(name, false), false)
    case _ => None
  }

  predicate LowerCase(s: Text) {
    forall i | 0 <= i < |s| :: LOWER_A <= s[i] <= 122
  }

  lemma FoldOfLowerCase(s: Text)
    requires LowerCase(s)
    ensures Fold(s, false) == s
  {
    CStringOfNulFree(s);
    assert Lower(s) == s;
  }

  /** Numbers under names that differ, as the stock is written. */
  function Fields(names: seq<Text>, values: seq<int32>): seq<Member>
    requires |names| == |values|
  {
    if names == [] then [] else [Member(names[0], Num(values[0]))] + Fields(names[1..], values[1..])
  }

  lemma {:induction false} FieldsLength(names: seq<Text>, values: seq<int32>)
    requires |names| == |values|
    ensures |Fields(names, values)| == |names|
    ensures forall i | 0 <= i < |names| :: Fields(names, values)[i] == Member(names[i], Num(values[i]))
  {
    if names != [] {
      FieldsLength(names[1..], values[1..]);
    }
  }

  predicate Names(names: seq<Text>) {
    && (forall i | 0 <= i < |names| :: LowerCase(names[i]) && NUL !in names[i])
    && forall i, j | 0 <= i < j < |names| :: names[i] != names[j]
  }

  lemma OnlyMember(members: seq<Member>, folded: Text, i: nat)
    requires i < |members| && Fold(members[i].key, false) == folded
    requires forall k | 0 <= k < |members| && k != i :: Fold(members[k].key, false) != folded
    ensures Lookup(members, folded, false) == Some(members[i].value)
  {
    hide Fold, FirstAt;
    FirstAtIsFirst(members, folded, false);
  }

  lemma FieldFound(names: seq<Text>, values: seq<int32>, i: nat)
    requires |names| == |values| && Names(names) && i < |names|
    ensures GetItem(Some(Obj(Fields(names, values))), names[i]) == Some(Num(values[i]))
  {
    hide Fold, Lookup, Fields, LowerCase;
    var members := Fields(names, values);
    FieldsLength(names, values);
    forall k | 0 <= k < |names| ensures Fold(members[k].key, false) == names[k] {
      FoldOfLowerCase(names[k]);
    }
    FoldOfLowerCase(names[i]);
    OnlyMember(members, names[i], i);
  }

  lemma {:induction false} FieldsPrintable(names: seq<Text>, values: seq<int32>)
    requires |names| == |values| && Names(names)
    ensures Printable(Obj(Fields(names, values))) && NulFree(Obj(Fields(names, values)))
    ensures MembersHeight(Fields(names, values)) == 0
  {
    FieldsLength(names, values);
    HeightOfFields(Fields(names, values));
  }

  lemma {:induction false} HeightOfFields(members: seq<Member>)
    requires forall m <- members :: m.value.Num?
    ensures MembersHeight(members) == 0
  {
    if members != [] {
      HeightOfFields(members[1..]);
    }
  }

  // ---- What the database holds ----

  /**
    cJSON_Parse on a value that rocksdb_get returns: its bytes are not terminated, so that the
    parser sees those behind them up to the first NUL.
  */
  function Parse(text: Text, behind: Text): Option<J> {
    match Spec.ParseText(CString(text + behind) + [NUL], false)
    case Fail => None
    case Ok(v, _) => Some(v)
  }

  /** Whatever stands behind it in memory, the text parses to an object with these fields. */
  ghost predicate Reads(text: Text, names: seq<Text>, values: seq<int32>) {
    && |names| == |values|
    && forall behind: Text ::
         NUL in behind ==> Parse(text, behind) == Some(Obj(Fields(names, values)))
  }

  lemma CStringStep(b: byte, rest: Text)
    requires b != NUL
    ensures CString([b] + rest) == [b] + CString(rest)
  {
    assert ([b] + rest)[1..] == rest;
  }

  lemma {:induction false} CStringOfBoth(text: Text, behind: Text)
    requires NUL !in text
    ensures CString(text + behind) == text + CString(behind)
  {
    hide CString;
    if text == [] {
      assert text + behind == behind;
    } else {
      CStringOfBoth(text[1..], behind);
      CStringStep(text[0], text[1..] + behind);
      assert text + behind == [text[0]] + (text[1..] + behind);
    }
  }

  /** An object is parsed the same whatever follows its closing brace. */
  lemma ParseObjectText(members: seq<Member>, rest: Text)
    requires Printable(Obj(members)) && NulFree(Obj(members)) && Height(Obj(members)) <= Spec.NESTING_LIMIT
    requires rest != []
    ensures Spec.ParseText(Render(Obj(members), false, 0) + rest, false)
         == Spec.Ok(Obj(members), |Render(Obj(members), false, 0)|)
  {
    hide Render, Spec.ParseValue, Height;
    var v := Obj(members);
    var text := Render(v, false, 0);
    var c := text + rest;
    RenderStarts(v, false, 0);
    RenderIsAscii(v, false, 0);
    assert c[0] == text[0] && c[0..|text|] == text;
    assert |c| > 4 ==> c[..3][0] == c[0];
    SkipNothing(c, 0);
    ParseRenderedObject(c, 0, members, false, 0, 0);
  }

  /** What is written reads back. */
  lemma PrintedReads(names: seq<Text>, values: seq<int32>)
    requires |names| == |values| && Names(names)
    ensures Reads(Render(Obj(Fields(names, values)), false, 0), names, values)
  {
    hide Render, Spec.ParseText;
    var members := Fields(names, values);
    var text := Render(Obj(members), false, 0);
    FieldsPrintable(names, values);
    RenderHasNoNul(Obj(members), false, 0);
    forall behind: Text | NUL in behind ensures Parse(text, behind) == Some(Obj(members)) {
      CStringOfBoth(text, behind);
      assert text + CString(behind) + [NUL] == text + (CString(behind) + [NUL]);
      ParseObjectText(members, CString(behind) + [NUL]);
    }
  }

  // ---- The initial texts, which are not in the printer's layout ----

  function SpacedField(name: Text, value: int32): Text {
    Literal(name) + ([COLON, SPACE] + Dec(value))
  }

  function Spaced(names: seq<Text>, values: seq<int32>): Text
    requires |names| == |values|
  {
    if names == [] then []
    else if |names| == 1 then SpacedField(names[0], values[0])
    else SpacedField(names[0], values[0]) + ([COMMA, SPACE] + Spaced(names[1..], values[1..]))
  }

  lemma SpacedFieldLayout(c: Text, q: nat, name: Text, value: int32)
    requires StandsAt(c, q, SpacedField(name, value))
    ensures var colon := q + |Literal(name)|;
      && StandsAt(c, q, Literal(name)) && Spec.Sees(c, colon, COLON) && Spec.Sees(c, colon + 1, SPACE)
      && StandsAt(c, colon + 2, Dec(value)) && colon + 2 < |c| && c[colon + 2] > SPACE
      && colon + 2 + |Dec(value)| == q + |SpacedField(name, value)|
  {
    hide Literal, Dec;
    var colon := q + |Literal(name)|;
    StandsAtSplit(c, q, Literal(name), [COLON, SPACE] + Dec(value));
    StandsAtSplit(c, colon, [COLON, SPACE], Dec(value));
    hide StandsAt;
    StandsAtByte(c, colon, [COLON, SPACE], 0);
    StandsAtByte(c, colon, [COLON, SPACE], 1);
    StandsAtByte(c, colon + 2, Dec(value), 0);
    assert IsNumberChar(Dec(value)[0]);
  }

  lemma ParseSpacedField(c: Text, p: nat, q: nat, name: Text, value: int32, depth: nat)
    requires p <= |c| && Spec.Skip(c, p) == q && NUL !in name
    requires StandsAt(c, q, SpacedField(name, value)) && q + |SpacedField(name, value)| < |c|
    requires c[q + |SpacedField(name, value)|] > SPACE && !IsNumberChar(c[q + |SpacedField(name, value)|])
    ensures Spec.ParseMember(c, p, depth) == Spec.Ok(Member(name, Num(value)), q + |SpacedField(name, value)|)
  {
    hide StandsAt, Spec.Skip, Literal, Dec, Spec.ParseString, Spec.ParseValue, SpacedField;
    var colon := q + |Literal(name)|;
    SpacedFieldLayout(c, q, name, value);
    ParseLiteral(c, q, name);
    SkipNothing(c, colon);
    SkipOneSpace(c, colon + 1);
    ParseLeafNumber(c, colon + 2, value, depth);
    SkipNothing(c, colon + 2 + |Dec(value)|);
  }

  lemma SkipOneSpace(c: Text, p: nat)
    requires p + 1 < |c| && c[p] == SPACE && c[p + 1] > SPACE
    ensures Spec.Skip(c, p) == p + 1
  {
    BlanksEndAt(c, p, p + 1);
  }

  lemma ParseLeafNumber(c: Text, p: nat, n: int32, depth: nat)
    requires StandsAt(c, p, Dec(n)) && p + |Dec(n)| < |c| && !IsNumberChar(c[p + |Dec(n)|])
    ensures Spec.ParseValue(c, p, depth) == Spec.Ok(Num(n), p + |Dec(n)|)
  {
    assert Render(Num(n), false, 0) == Dec(n);
    ParseLeaf(c, p, Num(n), false, 0, depth);
  }

  lemma SpacedLayout(c: Text, q: nat, names: seq<Text>, values: seq<int32>, e: nat)
    requires |names| == |values| && 1 < |names| && StandsAt(c, q, Spaced(names, values))
    requires e == q + |SpacedField(names[0], values[0])|
    ensures StandsAt(c, q, SpacedField(names[0], values[0])) && Spec.Sees(c, e, COMMA) && Spec.Sees(c, e + 1, SPACE)
    ensures StandsAt(c, e + 2, Spaced(names[1..], values[1..]))
    ensures e + 2 + |Spaced(names[1..], values[1..])| == q + |Spaced(names, values)|
    ensures Spec.Sees(c, e + 2, QUOTE)
  {
    hide SpacedField;
    var rest := Spaced(names[1..], values[1..]);
    StandsAtSplit(c, q, SpacedField(names[0], values[0]), [COMMA, SPACE] + rest);
    StandsAtSplit(c, e, [COMMA, SPACE], rest);
    SpacedStart(c, e + 2, names[1..], values[1..]);
    hide StandsAt, Spaced;
    StandsAtByte(c, e, [COMMA, SPACE], 0);
    StandsAtByte(c, e, [COMMA, SPACE], 1);
  }

  lemma {:induction false} ParseSpaced(
      c: Text, p: nat, q: nat, names: seq<Text>, values: seq<int32>, depth: nat)
    requires |names| == |values| && names != [] && Names(names)
    requires p <= |c| && Spec.Skip(c, p) == q
    requires StandsAt(c, q, Spaced(names, values)) && Spec.Sees(c, q + |Spaced(names, values)|, CLOSE_BRACE)
    ensures Spec.ParseMembers(c, p, depth) == Spec.Ok(Fields(names, values), q + |Spaced(names, values)|)
    decreases |names|
  {
    hide StandsAt, Spec.Skip, SpacedField, Spec.ParseMember;
    var name, value := names[0], values[0];
    var e := q + |SpacedField(name, value)|;
    if |names| == 1 {
      assert Spaced(names, values) == SpacedField(name, value);
      assert Fields(names, values) == [Member(name, Num(value))] + Fields(names[1..], values[1..]);
      assert Fields(names, values) == [Member(name, Num(value))];
      ParseSpacedField(c, p, q, name, value, depth);
      assert !Spec.Sees(c, e, COMMA);
    } else {
      SpacedLayout(c, q, names, values, e);
      hide Spaced;
      ParseSpacedField(c, p, q, name, value, depth);
      SkipOneSpace(c, e + 1);
      ParseSpaced(c, e + 1, e + 2, names[1..], values[1..], depth);
    }
  }

  lemma SpacedStart(c: Text, q: nat, names: seq<Text>, values: seq<int32>)
    requires |names| == |values| && names != [] && StandsAt(c, q, Spaced(names, values))
    ensures q < |c| && c[q] == QUOTE
  {
    assert Spaced(names, values)[0] == Literal(names[0])[0];
    StandsAtByte(c, q, Spaced(names, values), 0);
  }

  /** The text {"meat": 0, "vegetables": 0, ...} of init_rocksdb_supplies, for any names. */
  function InitialText(names: seq<Text>): Text {
    [OPEN_BRACE] + Spaced(names, Zeros(|names|)) + [CLOSE_BRACE]
  }

  function Zeros(n: nat): (zeros: seq<int32>)
    ensures |zeros| == n
  {
    seq(n, _ => 0)
  }

  lemma {:induction false} SpacedHasNoNul(names: seq<Text>, values: seq<int32>)
    requires |names| == |values| && Names(names)
    ensures NUL !in Spaced(names, values)
    decreases |names|
  {
    hide SpacedField, LowerCase;
    if names != [] {
      SpacedFieldHasNoNul(names[0], values[0]);
      SpacedHasNoNul(names[1..], values[1..]);
    }
  }

  lemma SpacedFieldHasNoNul(name: Text, value: int32)
    requires NUL !in name
    ensures NUL !in SpacedField(name, value)
  {
    CStringOfNulFree(name);
    EscapeHasNoNul(name);
    forall b | b in Dec(value) ensures b != NUL {
      var i :| 0 <= i < |Dec(value)| && Dec(value)[i] == b;
      assert IsNumberChar(Dec(value)[i]);
    }
    hide Escape, Dec;
  }

  /** The initial text reads as a stock of nothing. */
  lemma InitialReads(names: seq<Text>)
    requires names != [] && Names(names)
    ensures Reads(InitialText(names), names, Zeros(|names|))
  {
    var text, members := InitialText(names), Fields(names, Zeros(|names|));
    SpacedHasNoNul(names, Zeros(|names|));
    hide Spec.ParseText, CString, Spaced;
    forall behind: Text | NUL in behind ensures Parse(text, behind) == Some(Obj(members)) {
      CStringOfBoth(text, behind);
      assert text + CString(behind) + [NUL] == text + (CString(behind) + [NUL]);
      ParseInitial(names, CString(behind) + [NUL]);
    }
  }

  lemma ParseInitial(names: seq<Text>, rest: Text)
    requires names != [] && Names(names) && rest != []
    ensures Spec.ParseText(InitialText(names) + rest, false)
         == Spec.Ok(Obj(Fields(names, Zeros(|names|))), |InitialText(names)|)
  {
    hide StandsAt, Spec.Skip, Spaced, Spec.ParseMembers, Spec.ParseValue, Spec.ParseText;
    hide InitialText, Fields, Names, LowerCase, Zeros;
    var text := Spaced(names, Zeros(|names|));
    var c := InitialText(names) + rest;
    InitialLayout(names, rest);
    SpacedStart(c, 1, names, Zeros(|names|));
    SkipNothing(c, 0);
    SkipNothing(c, 1);
    ParseSpaced(c, 1, 1, names, Zeros(|names|), 1);
    ParseBraced(c, Fields(names, Zeros(|names|)), 1 + |text|);
    ParseTextOf(c, Obj(Fields(names, Zeros(|names|))), 2 + |text|);
  }

  lemma ParseTextOf(c: Text, v: J, e: nat)
    requires Spec.BomEnd(c) == 0 && Spec.Skip(c, 0) == 0 && Spec.ParseValue(c, 0, 0) == Spec.Ok(v, e)
    ensures Spec.ParseText(c, false) == Spec.Ok(v, e)
  {
    hide Spec.ParseValue, Spec.Skip;
  }

  lemma ParseBraced(c: Text, members: seq<Member>, e: nat)
    requires Spec.Sees(c, 0, OPEN_BRACE) && 1 < |c| && Spec.Skip(c, 1) == 1 && c[1] != CLOSE_BRACE
    requires Spec.ParseMembers(c, 1, 1) == Spec.Ok(members, e) && Spec.Sees(c, e, CLOSE_BRACE)
    ensures Spec.ParseValue(c, 0, 0) == Spec.Ok(Obj(members), e + 1)
  {
    hide StandsAt, Spec.Skip, Spec.ParseMembers, Spec.ParseArray, Spec.ParseString, Spec.ParseNumber;
    NoKeyword(c, 0);
  }

  lemma InitialLayout(names: seq<Text>, rest: Text)
    requires rest != []
    ensures var text, c := Spaced(names, Zeros(|names|)), InitialText(names) + rest;
      && Spec.Sees(c, 0, OPEN_BRACE) && StandsAt(c, 1, text) && Spec.Sees(c, 1 + |text|, CLOSE_BRACE)
      && |InitialText(names)| == |text| + 2 && Spec.BomEnd(c) == 0
  {
    hide Spaced;
    var text, c := Spaced(names, Zeros(|names|)), InitialText(names) + rest;
    assert c[1..1 + |text|] == text;
    assert |c| > 4 ==> c[..3][0] == c[0];
  }
}
