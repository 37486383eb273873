/**
  The texts of a stock, letter by letter: the ones written and the ones a new database
  starts with; and what a message asks for, by the members of its objects.
*/
module StockTexts {
  import opened Bytes
  import opened Json
  import opened Numbers
  import opened Strings
  import opened Rendering
  import Keys = Comparison
  import opened KeyValueStore
  import opened Supplies
  import opened SuppliesStore

  predicate IsAscii(s: string) {
    forall i | 0 <= i < |s| :: s[i] < 128 as char
  }

  /** "name":n */
  function Entry(name: string, n: int): Text
    requires IsAscii(name)
  {
    Ascii("\"") + Ascii(name) + Ascii("\":") + Dec(n)
  }

  /** "name": 0 */
  function Nothing(name: string): Text
    requires IsAscii(name)
  {
    Ascii("\"") + Ascii(name) + Ascii("\": 0")
  }

  lemma {:induction false} EscapeOfLowerCase(s: Text)
    requires LowerCase(s)
    ensures Escape(s) == s && CString(s) == s
  {
    if s != [] {
      EscapeOfLowerCase(s[1..]);
    }
  }

  lemma LiteralOfName(name: string)
    requires IsAscii(name) && LowerCase(Ascii(name))
    ensures Literal(Ascii(name)) == Ascii("\"") + Ascii(name) + Ascii("\"")
  {
    EscapeOfLowerCase(Ascii(name));
    assert Ascii("\"") == [QUOTE];
  }

  lemma FieldText(name: string, n: int32, last: bool)
    requires IsAscii(name) && LowerCase(Ascii(name))
    ensures RenderMember(Member(Ascii(name), Num(n)), false, 1, last)
         == Entry(name, n) + if last then [] else Ascii(",")
  {
    hide Dec, Literal;
    LiteralOfName(name);
    assert Ascii("\":") == Ascii("\"") + [COLON];
    assert Ascii(",") == [COMMA];
    assert Indent(false, 1) == [] && MemberEnd(false, last) == if last then [] else [COMMA];
    assert Render(Num(n), false, 1) == Dec(n);
  }

  lemma InitialFieldText(name: string)
    requires IsAscii(name) && LowerCase(Ascii(name))
    ensures SpacedField(Ascii(name), 0) == Nothing(name)
  {
    hide Literal;
    LiteralOfName(name);
    assert Ascii("\": 0") == Ascii("\"") + ([COLON, SPACE] + [ZERO]);
    assert Dec(0) == [ZERO];
  }

  // ---- Whole texts ----

  predicate PlainNames(names: seq<string>) {
    forall i | 0 <= i < |names| :: IsAscii(names[i]) && LowerCase(Ascii(names[i]))
  }

  /** "name":n, with a comma between any two. */
  function Entries(names: seq<string>, values: seq<int>): Text
    requires |names| == |values| && PlainNames(names)
  {
    if names == [] then []
    else Entry(names[0], values[0])
         + (if |names| == 1 then [] else Ascii(",") + Entries(names[1..], values[1..]))
  }

  /** "name": 0, with a comma and a space between any two. */
  function Nothings(names: seq<string>): Text
    requires PlainNames(names)
  {
    if names == [] then []
    else Nothing(names[0]) + (if |names| == 1 then [] else Ascii(", ") + Nothings(names[1..]))
  }

  function Texts(names: seq<string>): (texts: seq<Text>)
    requires PlainNames(names)
    ensures |texts| == |names|
  {
    if names == [] then [] else [Ascii(names[0])] + Texts(names[1..])
  }

  lemma {:induction false} FieldsText(names: seq<string>, values: seq<int32>)
    requires |names| == |values| && PlainNames(names)
    ensures RenderMembers(Fields(Texts(names), values), false, 1) == Entries(names, values)
    decreases |names|
  {
    hide Entry, RenderMember, RenderMembers, Fields, Ascii, LowerCase, Texts;
    if names == [] {
      NoFields();
    } else {
      var first, rest := Member(Ascii(names[0]), Num(values[0])), Fields(Texts(names[1..]), values[1..]);
      FirstField(names, values);
      MembersFrom(first, rest);
      RestEmpty(names[1..], values[1..]);
      FieldText(names[0], values[0], |names| == 1);
      FieldsText(names[1..], values[1..]);
    }
  }

  lemma NoFields()
    ensures Texts([]) == [] && RenderMembers(Fields([], []), false, 1) == []
  {
  }

  lemma FirstField(names: seq<string>, values: seq<int32>)
    requires |names| == |values| && PlainNames(names) && names != []
    ensures Fields(Texts(names), values)
         == [Member(Ascii(names[0]), Num(values[0]))] + Fields(Texts(names[1..]), values[1..])
  {
    assert Texts(names)[1..] == Texts(names[1..]);
  }

  lemma MembersFrom(m: Member, rest: seq<Member>)
    ensures RenderMembers([m] + rest, false, 1) == RenderMember(m, false, 1, rest == []) + RenderMembers(rest, false, 1)
  {
    hide RenderMember;
    assert ([m] + rest)[1..] == rest;
  }

  lemma RestEmpty(names: seq<string>, values: seq<int32>)
    requires |names| == |values| && PlainNames(names)
    ensures |Fields(Texts(names), values)| == |names|
  {
    FieldsLength(Texts(names), values);
  }

  lemma {:induction false} SpacedText(names: seq<string>, zeros: seq<int32>)
    requires |names| == |zeros| && PlainNames(names) && forall i | 0 <= i < |zeros| :: zeros[i] == 0
    ensures Spaced(Texts(names), zeros) == Nothings(names)
    decreases |names|
  {
    hide SpacedField, Nothing, LowerCase;
    if names != [] {
      assert Texts(names)[1..] == Texts(names[1..]);
      assert Ascii(", ") == [COMMA, SPACE];
      hide Ascii;
      InitialFieldText(names[0]);
      SpacedText(names[1..], zeros[1..]);
    }
  }

  lemma ObjectText(names: seq<string>, values: seq<int32>)
    requires |names| == |values| && PlainNames(names)
    ensures Render(Obj(Fields(Texts(names), values)), false, 0) == Ascii("{") + Entries(names, values) + Ascii("}")
  {
    FieldsText(names, values);
    hide RenderMembers, Fields;
    assert Ascii("{") == ObjectOpening(false) && Ascii("}") == ObjectClosing(false, 0);
  }

  lemma ListedNames()
    ensures PlainNames(["meat", "vegetables", "fruits", "water"])
    ensures PlainNames(["antibiotics", "analgesics", "bandages"])
    ensures Texts(["meat", "vegetables", "fruits", "water"]) == FOOD_NAMES
    ensures Texts(["antibiotics", "analgesics", "bandages"]) == MEDICINE_NAMES
  {
    LowerCaseNames();
    var food, medicine := ["meat", "vegetables", "fruits", "water"], ["antibiotics", "analgesics", "bandages"];
    assert food[1..] == ["vegetables", "fruits", "water"] && food[1..][1..] == ["fruits", "water"];
    assert food[1..][1..][1..] == ["water"] && food[1..][1..][1..][1..] == [];
    assert medicine[1..] == ["analgesics", "bandages"] && medicine[1..][1..] == ["bandages"];
    assert medicine[1..][1..][1..] == [];
  }

  /** The text written for a stock of food, letter by letter. */
  lemma FoodText(v: seq<int32>)
    requires |v| == 4
    ensures PlainNames(["meat", "vegetables", "fruits", "water"])
    ensures StockText(FOOD_NAMES, v)
         == Ascii("{") + Entries(["meat", "vegetables", "fruits", "water"], v) + Ascii("}")
  {
    ListedNames();
    ObjectText(["meat", "vegetables", "fruits", "water"], v);
  }

  lemma MedicineText(v: seq<int32>)
    requires |v| == 3
    ensures PlainNames(["antibiotics", "analgesics", "bandages"])
    ensures StockText(MEDICINE_NAMES, v)
         == Ascii("{") + Entries(["antibiotics", "analgesics", "bandages"], v) + Ascii("}")
  {
    ListedNames();
    ObjectText(["antibiotics", "analgesics", "bandages"], v);
  }

  lemma InitialObjectText(names: seq<string>)
    requires PlainNames(names)
    ensures InitialText(Texts(names)) == Ascii("{") + Nothings(names) + Ascii("}")
  {
    SpacedText(names, Zeros(|names|));
    assert Ascii("{") == [OPEN_BRACE] && Ascii("}") == [CLOSE_BRACE];
  }

  /** The texts of init_rocksdb_supplies. */
  lemma InitialTexts()
    ensures PlainNames(["meat", "vegetables", "fruits", "water"])
    ensures PlainNames(["antibiotics", "analgesics", "bandages"])
    ensures InitialText(FOOD_NAMES)
         == Ascii("{") + Nothings(["meat", "vegetables", "fruits", "water"]) + Ascii("}")
    ensures InitialText(MEDICINE_NAMES)
         == Ascii("{") + Nothings(["antibiotics", "analgesics", "bandages"]) + Ascii("}")
  {
    ListedNames();
    InitialObjectText(["meat", "vegetables", "fruits", "water"]);
    InitialObjectText(["antibiotics", "analgesics", "bandages"]);
  }

  // ---- What a message asks for ----

  /** The first member under this key, whatever the case of its letters, has this value. */
  ghost predicate Holds(members: seq<Member>, key: Text, v: J) {
    exists k: nat :: Keys.IsFirst(members, key, false, k) && k < |members| && members[k].value == v
  }

  lemma FirstOnce(members: seq<Member>, key: Text, i: nat, j: nat)
    requires Keys.IsFirst(members, key, false, i) && Keys.IsFirst(members, key, false, j)
    ensures i == j
  {
    hide Keys.SameKey;
  }

  lemma FoundExactly(members: seq<Member>, key: Text)
    ensures match GetItem(Some(Obj(members)), key)
      case None => forall v :: !Holds(members, key, v)
      case Some(w) => forall v :: Holds(members, key, v) <==> v == w
  {
    hide Keys.IsFirst, Keys.Fold, Keys.FirstAt;
    Keys.FindsFirst(members, key, false);
    var found := Keys.FirstAt(members, Keys.Fold(key, false), false);
    var i := if found.Some? then found.value else |members|;
    forall k: nat | Keys.IsFirst(members, key, false, k) ensures k == i {
      FirstOnce(members, key, i, k);
    }
  }

  /** The message is an object whose member for the section is one whose member for the item is this number. */
  ghost predicate Asks(json: Option<J>, section: Text, name: Text, n: int32) {
    && json.Some? && json.value.Obj?
    && exists members :: Holds(json.value.members, section, Obj(members))
         && (Holds(members, name, Num(n)) || Holds(members, name, Inexact(n)))
  }

  /** The change taken from a message is the number it has for the item, and 0 if it has none. */
  lemma DeltaExact(json: Option<J>, section: Text, name: Text, n: int32)
    ensures Delta(json, section, name) == n <==>
      Asks(json, section, name, n) || (n == 0 && forall m :: !Asks(json, section, name, m))
  {
    hide Holds, GetItem;
    NoObject(json, section);
    if json.Some? && json.value.Obj? {
      FoundExactly(json.value.members, section);
      assert json == Some(Obj(json.value.members));
      var found := GetItem(json, section);
      if found.Some? && found.value.Obj? {
        var members := found.value.members;
        FoundExactly(members, name);
        assert Holds(json.value.members, section, Obj(members));
        assert forall m :: Asks(json, section, name, m) <==>
          Holds(members, name, Num(m)) || Holds(members, name, Inexact(m));
      } else {
        assert forall m :: !Asks(json, section, name, m);
      }
    }
  }

  lemma NoObject(json: Option<J>, section: Text)
    ensures !(json.Some? && json.value.Obj?) ==> GetItem(json, section).None?
  {
  }
}
