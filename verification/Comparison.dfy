/**
  cJSON_Compare as a function on trees, and what it decides.

  Two trees compare equal exactly when each is `Consistent` (members of an object under the
  same key have the same meaning) and both have the same `Meaning`, in which an object is a
  map from keys, folded to lower case unless `caseSensitive`, so that the order of members
  does not matter.
*/
module Comparison {
  import opened Bytes
  import opened Json

  /** C's tolower in the "C" locale. */
  function ToLower(b: byte): byte {
    if UPPER_A <= b <= UPPER_Z then b + 32 else b
  }

  function Lower(s: Text): (t: Text)
    ensures |t| == |s| && forall i | 0 <= i < |s| :: t[i] == ToLower(s[i])
  {
    if s == [] then [] else [ToLower(s[0])] + Lower(s[1..])
  }

  /** What a lookup sees of a key. */
  function Fold(key: Text, caseSensitive: bool): Text {
    if caseSensitive then CString(key) else Lower(CString(key))
  }

  // ---- What it is for two keys to be the same ----

  /** The first byte is a small letter and the second the same letter as a capital. */
  predicate IsCapitalOf(x: byte, y: byte) {
    exists k | 0 <= k < 26 ::
      x == "abcdefghijklmnopqrstuvwxyz"[k] as int && y == "ABCDEFGHIJKLMNOPQRSTUVWXYZ"[k] as int
  }

  /** Two bytes are the same, or the two cases of one ASCII letter. */
  predicate SameLetter(x: byte, y: byte) {
    x == y || IsCapitalOf(x, y) || IsCapitalOf(y, x)
  }

  /** Two keys are the same up to their first NULs, byte by byte, in the mode of the lookup. */
  predicate SameKey(a: Text, b: Text, caseSensitive: bool) {
    var s, t := CString(a), CString(b);
    if caseSensitive then s == t else |s| == |t| && forall i | 0 <= i < |s| :: SameLetter(s[i], t[i])
  }

  lemma Alphabet(k: nat)
    requires k < 26
    ensures "abcdefghijklmnopqrstuvwxyz"[k] as int == 97 + k
    ensures "ABCDEFGHIJKLMNOPQRSTUVWXYZ"[k] as int == 65 + k
  {
  }

  lemma CapitalExact(x: byte, y: byte)
    ensures IsCapitalOf(x, y) <==> 97 <= x <= 122 && y == x - 32
  {
    if IsCapitalOf(x, y) {
      var k :| 0 <= k < 26 &&
        x == "abcdefghijklmnopqrstuvwxyz"[k] as int && y == "ABCDEFGHIJKLMNOPQRSTUVWXYZ"[k] as int;
      Alphabet(k);
    }
    if 97 <= x <= 122 && y == x - 32 {
      Alphabet(x - 97);
      assert x == "abcdefghijklmnopqrstuvwxyz"[x - 97] as int;
    }
  }

  lemma SameLetterExact(x: byte, y: byte)
    ensures SameLetter(x, y) <==> ToLower(x) == ToLower(y)
  {
    hide IsCapitalOf;
    CapitalExact(x, y);
    CapitalExact(y, x);
  }

  /** Keys fold to the same text exactly when they are the same key. */
  lemma SameKeyExact(a: Text, b: Text, caseSensitive: bool)
    ensures Fold(a, caseSensitive) == Fold(b, caseSensitive) <==> SameKey(a, b, caseSensitive)
  {
    hide ToLower, SameLetter, CString;
    var s, t := CString(a), CString(b);
    if |s| == |t| {
      forall i | 0 <= i < |s| ensures SameLetter(s[i], t[i]) <==> Lower(s)[i] == Lower(t)[i] {
        SameLetterExact(s[i], t[i]);
      }
    }
  }

  // ---- Lookup ----

  /** The index of the first member with this folded key. */
  function FirstAt(members: seq<Member>, key: Text, caseSensitive: bool): (r: Option<nat>)
    ensures r.Some? ==> r.value < |members|
  {
    if members == [] then None
    else if Fold(members[0].key, caseSensitive) == key then Some(0)
    else
      match FirstAt(members[1..], key, caseSensitive)
      case None => None
      case Some(i) => Some(i + 1)
  }

  lemma {:induction false} FirstAtIsFirst(members: seq<Member>, key: Text, caseSensitive: bool)
    ensures var r := FirstAt(members, key, caseSensitive);
      match r
      case None => forall i | 0 <= i < |members| :: Fold(members[i].key, caseSensitive) != key
      case Some(k) =>
        && Fold(members[k].key, caseSensitive) == key
        && forall i | 0 <= i < k :: Fold(members[i].key, caseSensitive) != key
  {
    hide Fold;
    if members != [] && Fold(members[0].key, caseSensitive) != key {
      FirstAtIsFirst(members[1..], key, caseSensitive);
      assert forall i | 0 < i < |members| :: members[i] == members[1..][i - 1];
    }
  }

  /** Member k, or none if there is no such, is the first one under this key. */
  predicate IsFirst(members: seq<Member>, key: Text, caseSensitive: bool, k: nat) {
    && k <= |members| && (k < |members| ==> SameKey(members[k].key, key, caseSensitive))
    && forall i | 0 <= i < k :: !SameKey(members[i].key, key, caseSensitive)
  }

  /** A lookup finds the first member under the key, if there is one. */
  lemma FindsFirst(members: seq<Member>, key: Text, caseSensitive: bool)
    ensures var at := FirstAt(members, Fold(key, caseSensitive), caseSensitive);
      IsFirst(members, key, caseSensitive, if at.Some? then at.value else |members|)
  {
    hide Fold, FirstAt, SameKey;
    FirstAtIsFirst(members, Fold(key, caseSensitive), caseSensitive);
    forall i | 0 <= i < |members|
      ensures Fold(members[i].key, caseSensitive) == Fold(key, caseSensitive)
        <==> SameKey(members[i].key, key, caseSensitive)
    {
      SameKeyExact(members[i].key, key, caseSensitive);
    }
  }

  function Lookup(members: seq<Member>, key: Text, caseSensitive: bool): (r: Option<J>)
    ensures r.Some? ==> exists m <- members :: m.value == r.value && Fold(m.key, caseSensitive) == key
    ensures r.None? ==> forall m <- members :: Fold(m.key, caseSensitive) != key
  {
    FirstAtIsFirst(members, key, caseSensitive);
    match FirstAt(members, key, caseSensitive)
    case None => None
    case Some(i) => Some(members[i].value)
  }

  lemma {:induction false} ItemLower(items: seq<J>, x: J)
    requires x in items
    ensures Height(x) <= ItemsHeight(items)
  {
    if x != items[0] {
      ItemLower(items[1..], x);
    }
  }

  lemma {:induction false} ValueLower(members: seq<Member>, m: Member)
    requires m in members
    ensures Height(m.value) <= MembersHeight(members)
  {
    if m != members[0] {
      ValueLower(members[1..], m);
    }
  }

  // ---- The comparison ----

  predicate Cmp(a: J, b: J, caseSensitive: bool)
    decreases Height(a) + Height(b), 1
  {
    match (a, b)
    case (Null, Null) => true
    case (Bool(x), Bool(y)) => x == y
    case (Num(m), Num(n)) => m == n
    case (Str(s), Str(t)) => CString(s) == CString(t)
    case (Arr(items), Arr(others)) =>
      |items| == |others|
      && forall i | 0 <= i < |items| ::
        (ItemLower(items, items[i]); ItemLower(others, others[i]); Cmp(items[i], others[i], caseSensitive))
    case (Obj(members), Obj(others)) =>
      Covered(members, others, caseSensitive) && Covered(others, members, caseSensitive)
    case _ => false
  }

  /** Each member is compared with the first one of the other object under its key. */
  predicate Covered(members: seq<Member>, others: seq<Member>, caseSensitive: bool)
    decreases MembersHeight(members) + MembersHeight(others) + 1, 0
  {
    forall m <- members :: (ValueLower(members, m); CoversOne(m, others, caseSensitive))
  }

  predicate CoversOne(m: Member, others: seq<Member>, caseSensitive: bool)
    decreases Height(m.value) + MembersHeight(others), 2
  {
    var found := Lookup(others, Fold(m.key, caseSensitive), caseSensitive);
    found.Some? && (
      var n :| n in others && n.value == found.value;
      ValueLower(others, n); Cmp(m.value, found.value, caseSensitive))
  }

  // ---- What it decides ----

  datatype Meaning =
    | Nothing
    | Truth(b: bool)
    | Number(n: int)
    | Unknown(n: int)
    | Word(s: Text)
    | Sequence(parts: seq<Meaning>)
    | Record(fields: map<Text, Meaning>)

  /** The meaning of a tree: strings as C strings, the first member under a folded key counts. */
  function Means(v: J, caseSensitive: bool): Meaning
    decreases Height(v), 0
  {
    match v
    case Null => Nothing
    case Bool(b) => Truth(b)
    case Num(n) => Number(n)
    case Inexact(n) => Unknown(n)
    case Str(s) => Word(CString(s))
    case Arr(items) =>
      Sequence(seq(|items|, i requires 0 <= i < |items| =>
        ItemLower(items, items[i]); Means(items[i], caseSensitive)))
    case Obj(members) => Record(Fields(members, caseSensitive))
  }

  function Fields(members: seq<Member>, caseSensitive: bool): map<Text, Meaning>
    decreases MembersHeight(members), 1
  {
    map m | m in members :: Fold(m.key, caseSensitive) := Means(First(members, m, caseSensitive), caseSensitive)
  }

  /** The value a lookup of the key of m finds, m being a member. */
  function First(members: seq<Member>, m: Member, caseSensitive: bool): (v: J)
    requires m in members
    ensures Lookup(members, Fold(m.key, caseSensitive), caseSensitive) == Some(v)
    ensures Height(v) <= MembersHeight(members)
  {
    var found := Lookup(members, Fold(m.key, caseSensitive), caseSensitive);
    assert Height(found.value) <= MembersHeight(members) by {
      var n :| n in members && n.value == found.value;
      ValueLower(members, n);
    }
    found.value
  }

  /**
    Members of one object under the same key agree, at every depth, and all numbers are
    integers.
  */
  predicate Consistent(v: J, caseSensitive: bool)
    decreases v, 1
  {
    match v
    case Arr(items) => forall x <- items :: Consistent(x, caseSensitive)
    case Obj(members) => Agreed(members, caseSensitive)
    case Inexact(_) => false
    case _ => true
  }

  predicate Agreed(members: seq<Member>, caseSensitive: bool)
    decreases members, 0
  {
    forall m <- members ::
      Consistent(m.value, caseSensitive)
      && Means(m.value, caseSensitive) == Means(First(members, m, caseSensitive), caseSensitive)
  }

  lemma FoundMember(members: seq<Member>, key: Text, caseSensitive: bool) returns (m: Member)
    requires Lookup(members, key, caseSensitive).Some?
    ensures m in members && m.value == Lookup(members, key, caseSensitive).value && Fold(m.key, caseSensitive) == key
    ensures Height(m.value) <= MembersHeight(members)
  {
    m :| m in members && m.value == Lookup(members, key, caseSensitive).value && Fold(m.key, caseSensitive) == key;
    ValueLower(members, m);
  }

  /** The record an object means holds what a lookup of each folded key finds. */
  lemma Field(members: seq<Member>, key: Text, caseSensitive: bool)
    ensures key in Fields(members, caseSensitive) <==> Lookup(members, key, caseSensitive).Some?
    ensures Lookup(members, key, caseSensitive).Some? ==>
      Fields(members, caseSensitive)[key] == Means(Lookup(members, key, caseSensitive).value, caseSensitive)
  {
    hide Means, Fold, FirstAt, First;
    if Lookup(members, key, caseSensitive).Some? {
      var m := FoundMember(members, key, caseSensitive);
      hide Lookup;
      assert Fields(members, caseSensitive)[key] == Means(First(members, m, caseSensitive), caseSensitive);
    }
  }

  /** Comparing equal is being consistent and having the same meaning. */
  lemma {:induction false} CmpDecides(a: J, b: J, caseSensitive: bool)
    ensures Cmp(a, b, caseSensitive) <==>
      Consistent(a, caseSensitive) && Consistent(b, caseSensitive) && Means(a, caseSensitive) == Means(b, caseSensitive)
    decreases Height(a) + Height(b), 2
  {
    hide Fields, Agreed, Covered;
    match (a, b)
    case (Arr(items), Arr(others)) => CmpDecidesArrays(items, others, caseSensitive);
    case (Obj(members), Obj(others)) => CmpDecidesObjects(members, others, caseSensitive);
    case _ =>
  }

  lemma {:induction false} CmpDecidesArrays(items: seq<J>, others: seq<J>, caseSensitive: bool)
    ensures Cmp(Arr(items), Arr(others), caseSensitive) <==>
      Consistent(Arr(items), caseSensitive) && Consistent(Arr(others), caseSensitive)
      && Means(Arr(items), caseSensitive) == Means(Arr(others), caseSensitive)
    decreases Height(Arr(items)) + Height(Arr(others)), 1
  {
    var p, q := Means(Arr(items), caseSensitive).parts, Means(Arr(others), caseSensitive).parts;
    if |items| == |others| {
      forall i | 0 <= i < |items|
        ensures Cmp(items[i], others[i], caseSensitive) <==>
          Consistent(items[i], caseSensitive) && Consistent(others[i], caseSensitive) && p[i] == q[i]
      {
        ItemLower(items, items[i]);
        ItemLower(others, others[i]);
        CmpDecides(items[i], others[i], caseSensitive);
      }
      assert p == q <==> forall i | 0 <= i < |items| :: p[i] == q[i];
    } else {
      assert |p| != |q|;
    }
  }

  lemma {:induction false} CmpDecidesObjects(members: seq<Member>, others: seq<Member>, caseSensitive: bool)
    ensures Covered(members, others, caseSensitive) && Covered(others, members, caseSensitive) <==>
      Agreed(members, caseSensitive) && Agreed(others, caseSensitive)
      && Fields(members, caseSensitive) == Fields(others, caseSensitive)
    decreases MembersHeight(members) + MembersHeight(others) + 1, 1
  {
    hide Fields, Agreed, Covered;
    if Covered(members, others, caseSensitive) && Covered(others, members, caseSensitive) {
      CoveredMeans(members, others, caseSensitive);
      CoveredMeans(others, members, caseSensitive);
      assert Fields(members, caseSensitive) == Fields(others, caseSensitive);
    } else if Agreed(members, caseSensitive) && Agreed(others, caseSensitive)
              && Fields(members, caseSensitive) == Fields(others, caseSensitive) {
      MeansCovered(members, others, caseSensitive);
      MeansCovered(others, members, caseSensitive);
      assert false;
    }
  }

  /** A covered object agrees with itself, and each field of it is a field of the other. */
  lemma {:induction false} CoveredMeans(members: seq<Member>, others: seq<Member>, caseSensitive: bool)
    requires Covered(members, others, caseSensitive)
    ensures Agreed(members, caseSensitive)
    ensures forall k | k in Fields(members, caseSensitive) ::
      k in Fields(others, caseSensitive) && Fields(members, caseSensitive)[k] == Fields(others, caseSensitive)[k]
    decreases MembersHeight(members) + MembersHeight(others) + 1, 0
  {
    hide Fields, Means, Consistent, Lookup, Fold, First;
    forall m | m in members
      ensures Lookup(others, Fold(m.key, caseSensitive), caseSensitive).Some?
      ensures Consistent(m.value, caseSensitive)
      ensures Means(m.value, caseSensitive)
           == Means(Lookup(others, Fold(m.key, caseSensitive), caseSensitive).value, caseSensitive)
    {
      CoveredMember(members, others, m, caseSensitive);
    }
    hide Covered;
    forall k | k in Fields(members, caseSensitive)
      ensures k in Fields(others, caseSensitive)
      ensures Fields(members, caseSensitive)[k] == Fields(others, caseSensitive)[k]
    {
      Field(members, k, caseSensitive);
      Field(others, k, caseSensitive);
      var m := FoundMember(members, k, caseSensitive);
    }
    forall m | m in members
      ensures Means(m.value, caseSensitive) == Means(First(members, m, caseSensitive), caseSensitive)
    {
      var n := FoundMember(members, Fold(m.key, caseSensitive), caseSensitive);
      assert First(members, m, caseSensitive) == n.value;
    }
  }

  lemma {:induction false} CoveredMember(members: seq<Member>, others: seq<Member>, m: Member, caseSensitive: bool)
    requires Covered(members, others, caseSensitive) && m in members
    ensures Lookup(others, Fold(m.key, caseSensitive), caseSensitive).Some?
    ensures Consistent(m.value, caseSensitive)
    ensures Means(m.value, caseSensitive)
         == Means(Lookup(others, Fold(m.key, caseSensitive), caseSensitive).value, caseSensitive)
    decreases MembersHeight(members) + MembersHeight(others), 3
  {
    hide Means, Consistent, Lookup, Fold, Cmp;
    assert Lookup(others, Fold(m.key, caseSensitive), caseSensitive).Some?;
    var n := FoundMember(others, Fold(m.key, caseSensitive), caseSensitive);
    ValueLower(members, m);
    CmpDecides(m.value, n.value, caseSensitive);
  }

  /** An object covers one that agrees with itself and has the same fields. */
  lemma {:induction false} MeansCovered(members: seq<Member>, others: seq<Member>, caseSensitive: bool)
    requires Agreed(members, caseSensitive) && Agreed(others, caseSensitive)
    requires Fields(members, caseSensitive) == Fields(others, caseSensitive)
    ensures Covered(members, others, caseSensitive)
    decreases MembersHeight(members) + MembersHeight(others) + 1, 0
  {
    hide Fields, Means, Consistent, Lookup, Fold, Cmp;
    forall m | m in members
      ensures Lookup(others, Fold(m.key, caseSensitive), caseSensitive).Some?
      ensures Cmp(m.value, Lookup(others, Fold(m.key, caseSensitive), caseSensitive).value, caseSensitive)
    {
      var key := Fold(m.key, caseSensitive);
      Field(members, key, caseSensitive);
      assert First(members, m, caseSensitive) == Lookup(members, key, caseSensitive).value;
      Field(others, key, caseSensitive);
      var n := FoundMember(others, key, caseSensitive);
      ValueLower(members, m);
      CmpDecides(m.value, n.value, caseSensitive);
    }
  }

  // ---- Laws ----

  lemma Symmetric(a: J, b: J, caseSensitive: bool)
    ensures Cmp(a, b, caseSensitive) == Cmp(b, a, caseSensitive)
  {
    hide Cmp, Consistent, Means;
    CmpDecides(a, b, caseSensitive);
    CmpDecides(b, a, caseSensitive);
  }

  lemma Transitive(a: J, b: J, c: J, caseSensitive: bool)
    requires Cmp(a, b, caseSensitive) && Cmp(b, c, caseSensitive)
    ensures Cmp(a, c, caseSensitive)
  {
    hide Cmp, Consistent, Means;
    CmpDecides(a, b, caseSensitive);
    CmpDecides(b, c, caseSensitive);
    CmpDecides(a, c, caseSensitive);
  }

  /** A tree equals its copies, as the pointer shortcut assumes, exactly if it is consistent. */
  lemma ReflexiveIffConsistent(v: J, caseSensitive: bool)
    ensures Cmp(v, v, caseSensitive) <==> Consistent(v, caseSensitive)
  {
    hide Cmp, Consistent, Means;
    CmpDecides(v, v, caseSensitive);
  }

  predicate DistinctKeys(members: seq<Member>, caseSensitive: bool) {
    forall i, j | 0 <= i < j < |members| :: !SameKey(members[i].key, members[j].key, caseSensitive)
  }

  lemma DistinctFolds(members: seq<Member>, caseSensitive: bool)
    requires DistinctKeys(members, caseSensitive)
    ensures forall i, j | 0 <= i < j < |members| ::
      Fold(members[i].key, caseSensitive) != Fold(members[j].key, caseSensitive)
  {
    hide Fold, SameKey;
    forall i, j | 0 <= i < j < |members|
      ensures Fold(members[i].key, caseSensitive) != Fold(members[j].key, caseSensitive)
    {
      SameKeyExact(members[i].key, members[j].key, caseSensitive);
    }
  }

  /** All numbers are integers, and no object has two keys that a lookup confuses. */
  predicate Unambiguous(v: J, caseSensitive: bool) {
    match v
    case Inexact(_) => false
    case Arr(items) => forall x <- items :: Unambiguous(x, caseSensitive)
    case Obj(members) =>
      DistinctKeys(members, caseSensitive) && forall m <- members :: Unambiguous(m.value, caseSensitive)
    case _ => true
  }

  /** With distinct keys a lookup finds the member it was asked for. */
  lemma FirstIsOnly(members: seq<Member>, m: Member, caseSensitive: bool)
    requires DistinctKeys(members, caseSensitive) && m in members
    ensures First(members, m, caseSensitive) == m.value
  {
    hide Fold, FirstAt, SameKey;
    DistinctFolds(members, caseSensitive);
    FirstAtIsFirst(members, Fold(m.key, caseSensitive), caseSensitive);
    var i := FirstAt(members, Fold(m.key, caseSensitive), caseSensitive).value;
    var j :| 0 <= j < |members| && members[j] == m;
    assert i == j;
  }

  lemma {:induction false} UnambiguousConsistent(v: J, caseSensitive: bool)
    requires Unambiguous(v, caseSensitive)
    ensures Consistent(v, caseSensitive)
    decreases v
  {
    match v
    case Arr(items) =>
      forall x | x in items ensures Consistent(x, caseSensitive) {
        UnambiguousConsistent(x, caseSensitive);
      }
    case Obj(members) =>
      forall m | m in members
        ensures Consistent(m.value, caseSensitive) && First(members, m, caseSensitive) == m.value
      {
        UnambiguousConsistent(m.value, caseSensitive);
        FirstIsOnly(members, m, caseSensitive);
      }
    case _ =>
  }

  /** On unambiguous trees the comparison decides equality of meaning, and is reflexive. */
  lemma CmpOnUnambiguous(a: J, b: J, caseSensitive: bool)
    requires Unambiguous(a, caseSensitive) && Unambiguous(b, caseSensitive)
    ensures Cmp(a, b, caseSensitive) <==> Means(a, caseSensitive) == Means(b, caseSensitive)
    ensures Cmp(a, a, caseSensitive)
  {
    hide Cmp, Consistent, Means, Unambiguous;
    UnambiguousConsistent(a, caseSensitive);
    UnambiguousConsistent(b, caseSensitive);
    CmpDecides(a, b, caseSensitive);
    CmpDecides(a, a, caseSensitive);
  }

  lemma LookupPermuted(members: seq<Member>, others: seq<Member>, key: Text, caseSensitive: bool)
    requires DistinctKeys(members, caseSensitive) && multiset(members) == multiset(others)
    ensures Lookup(members, key, caseSensitive) == Lookup(others, key, caseSensitive)
  {
    assert forall m :: m in members <==> m in multiset(members);
    assert forall m :: m in others <==> m in multiset(others);
    hide Fold, FirstAt;
    if Lookup(others, key, caseSensitive).Some? {
      var n := FoundMember(others, key, caseSensitive);
      FirstIsOnly(members, n, caseSensitive);
    }
  }

  lemma FieldPermuted(members: seq<Member>, others: seq<Member>, key: Text, caseSensitive: bool)
    requires DistinctKeys(members, caseSensitive) && multiset(members) == multiset(others)
    ensures key in Fields(members, caseSensitive) <==> key in Fields(others, caseSensitive)
    ensures key in Fields(members, caseSensitive) ==>
      Fields(members, caseSensitive)[key] == Fields(others, caseSensitive)[key]
  {
    hide *;
    LookupPermuted(members, others, key, caseSensitive);
    Field(members, key, caseSensitive);
    Field(others, key, caseSensitive);
  }

  /** Reordering the members of an object with distinct keys does not change what it means. */
  lemma OrderIrrelevant(members: seq<Member>, others: seq<Member>, caseSensitive: bool)
    requires DistinctKeys(members, caseSensitive) && multiset(members) == multiset(others)
    ensures Means(Obj(members), caseSensitive) == Means(Obj(others), caseSensitive)
  {
    hide Fields, DistinctKeys;
    var p, q := Fields(members, caseSensitive), Fields(others, caseSensitive);
    forall key | key in p || key in q
      ensures key in p && key in q && p[key] == q[key]
    {
      FieldPermuted(members, others, key, caseSensitive);
    }
    assert p == q;
  }

  // ---- Reordering ----

  /** Two maps between the indices below n undo each other. */
  ghost predicate Inverse(there: seq<nat>, back: seq<nat>, n: nat) {
    && |there| == |back| == n
    && (forall i | 0 <= i < n :: there[i] < n && back[there[i]] == i)
    && forall j | 0 <= j < n :: back[j] < n && there[back[j]] == j
  }

  /**
    The second tree is the first with the members of its objects in another order, at any
    depth; strings are equal as C strings, and keys are the same in the mode of the lookup.
  */
  ghost predicate Reordered(a: J, b: J, caseSensitive: bool)
    decreases a, 1
  {
    match (a, b)
    case (Null, Null) => true
    case (Bool(x), Bool(y)) => x == y
    case (Num(m), Num(n)) => m == n
    case (Str(s), Str(t)) => CString(s) == CString(t)
    case (Arr(items), Arr(others)) =>
      |items| == |others| && forall i | 0 <= i < |items| :: Reordered(items[i], others[i], caseSensitive)
    case (Obj(members), Obj(others)) => exists there, back :: Matched(members, others, there, back, caseSensitive)
    case _ => false
  }

  /** Each member of the first object corresponds to one of the second, and the other way round. */
  ghost predicate Matched(
      members: seq<Member>, others: seq<Member>, there: seq<nat>, back: seq<nat>, caseSensitive: bool)
    decreases members, 0
  {
    && |members| == |others| && Inverse(there, back, |members|)
    && forall i | 0 <= i < |members| ::
         && SameKey(members[i].key, others[there[i]].key, caseSensitive)
         && Reordered(members[i].value, others[there[i]].value, caseSensitive)
  }

  /** The field of a member in the record that an object with distinct keys means. */
  lemma FieldOf(members: seq<Member>, i: nat, caseSensitive: bool)
    requires DistinctKeys(members, caseSensitive) && i < |members|
    ensures var key := Fold(members[i].key, caseSensitive);
      key in Fields(members, caseSensitive)
      && Fields(members, caseSensitive)[key] == Means(members[i].value, caseSensitive)
  {
    hide Fields, Means, Fold, FirstAt, DistinctKeys;
    FirstIsOnly(members, members[i], caseSensitive);
    Field(members, Fold(members[i].key, caseSensitive), caseSensitive);
  }

  /** Every field is that of a member. */
  lemma MemberOf(members: seq<Member>, key: Text, caseSensitive: bool) returns (i: nat)
    requires key in Fields(members, caseSensitive)
    ensures i < |members| && Fold(members[i].key, caseSensitive) == key
  {
    hide Fields, Means, Fold, FirstAt;
    Field(members, key, caseSensitive);
    var m := FoundMember(members, key, caseSensitive);
    i :| 0 <= i < |members| && members[i] == m;
  }

  lemma {:induction false} ReorderedMeans(a: J, b: J, caseSensitive: bool)
    requires Unambiguous(a, caseSensitive) && Unambiguous(b, caseSensitive)
    ensures Reordered(a, b, caseSensitive) <==> Means(a, caseSensitive) == Means(b, caseSensitive)
    decreases a, 1
  {
    match (a, b)
    case (Arr(items), Arr(others)) =>
      ReorderedArrays(items, others, caseSensitive);
    case (Obj(members), Obj(others)) =>
      hide Fields, Matched;
      if there, back :| Matched(members, others, there, back, caseSensitive) {
        MatchedFields(members, others, there, back, caseSensitive);
      }
      if Fields(members, caseSensitive) == Fields(others, caseSensitive) {
        var there, back := FieldsMatched(members, others, caseSensitive);
      }
    case _ =>
  }

  lemma {:induction false} ReorderedArrays(items: seq<J>, others: seq<J>, caseSensitive: bool)
    requires Unambiguous(Arr(items), caseSensitive) && Unambiguous(Arr(others), caseSensitive)
    ensures Reordered(Arr(items), Arr(others), caseSensitive)
      <==> Means(Arr(items), caseSensitive) == Means(Arr(others), caseSensitive)
    decreases items, 0
  {
    var p, q := Means(Arr(items), caseSensitive).parts, Means(Arr(others), caseSensitive).parts;
    if |items| == |others| {
      forall i | 0 <= i < |items|
        ensures Reordered(items[i], others[i], caseSensitive) <==> p[i] == q[i]
      {
        ReorderedMeans(items[i], others[i], caseSensitive);
      }
      assert p == q <==> forall i | 0 <= i < |items| :: p[i] == q[i];
    } else {
      assert |p| != |q|;
    }
  }

  lemma {:induction false} MatchedFields(
      members: seq<Member>, others: seq<Member>, there: seq<nat>, back: seq<nat>, caseSensitive: bool)
    requires Unambiguous(Obj(members), caseSensitive) && Unambiguous(Obj(others), caseSensitive)
    requires Matched(members, others, there, back, caseSensitive)
    ensures Fields(members, caseSensitive) == Fields(others, caseSensitive)
    decreases members, 0
  {
    hide Fields, Means, Fold, DistinctKeys, SameKey;
    var p, q := Fields(members, caseSensitive), Fields(others, caseSensitive);
    forall i | 0 <= i < |members|
      ensures Fold(members[i].key, caseSensitive) == Fold(others[there[i]].key, caseSensitive)
      ensures var key := Fold(members[i].key, caseSensitive);
        key in p && key in q && p[key] == q[key]
    {
      SameKeyExact(members[i].key, others[there[i]].key, caseSensitive);
      FieldOf(members, i, caseSensitive);
      FieldOf(others, there[i], caseSensitive);
      assert members[i] in members && others[there[i]] in others;
      ReorderedMeans(members[i].value, others[there[i]].value, caseSensitive);
    }
    forall key | key in p ensures key in q && p[key] == q[key] {
      var i := MemberOf(members, key, caseSensitive);
    }
    forall key | key in q ensures key in p {
      var j := MemberOf(others, key, caseSensitive);
      assert Fold(members[back[j]].key, caseSensitive) == Fold(others[there[back[j]]].key, caseSensitive);
    }
  }

  /** The index of the member under the key of another object's member. */
  lemma IndexIn(members: seq<Member>, others: seq<Member>, i: nat, caseSensitive: bool) returns (j: nat)
    requires DistinctKeys(members, caseSensitive) && i < |members|
    requires Fields(members, caseSensitive) == Fields(others, caseSensitive)
    ensures j < |others| && Fold(others[j].key, caseSensitive) == Fold(members[i].key, caseSensitive)
  {
    hide Fields, Means, Fold, DistinctKeys;
    FieldOf(members, i, caseSensitive);
    j := MemberOf(others, Fold(members[i].key, caseSensitive), caseSensitive);
  }

  lemma {:induction false} Indices(members: seq<Member>, others: seq<Member>, n: nat, caseSensitive: bool)
      returns (there: seq<nat>)
    requires DistinctKeys(members, caseSensitive) && n <= |members|
    requires Fields(members, caseSensitive) == Fields(others, caseSensitive)
    ensures |there| == n
    ensures forall i | 0 <= i < n ::
      there[i] < |others| && Fold(others[there[i]].key, caseSensitive) == Fold(members[i].key, caseSensitive)
  {
    hide Fields, Fold, DistinctKeys;
    if n == 0 {
      return [];
    }
    var before := Indices(members, others, n - 1, caseSensitive);
    var j := IndexIn(members, others, n - 1, caseSensitive);
    there := before + [j];
  }

  /** Keys that correspond one to one make the indices inverse. */
  lemma IndicesInverse(
      members: seq<Member>, others: seq<Member>, there: seq<nat>, back: seq<nat>, caseSensitive: bool)
    requires DistinctKeys(members, caseSensitive) && DistinctKeys(others, caseSensitive)
    requires |there| == |members| && |back| == |others|
    requires forall i | 0 <= i < |members| ::
      there[i] < |others| && Fold(others[there[i]].key, caseSensitive) == Fold(members[i].key, caseSensitive)
    requires forall j | 0 <= j < |others| ::
      back[j] < |members| && Fold(members[back[j]].key, caseSensitive) == Fold(others[j].key, caseSensitive)
    ensures |members| == |others| && Inverse(there, back, |members|)
  {
    hide Fold, SameKey;
    DistinctFolds(members, caseSensitive);
    DistinctFolds(others, caseSensitive);
    forall i | 0 <= i < |members| ensures back[there[i]] == i {
      assert Fold(members[back[there[i]]].key, caseSensitive) == Fold(members[i].key, caseSensitive);
    }
    forall j | 0 <= j < |others| ensures there[back[j]] == j {
      assert Fold(others[there[back[j]]].key, caseSensitive) == Fold(others[j].key, caseSensitive);
    }
    SameLength(there, back);
  }

  /** Sequences of indices into each other that are inverse are equally long. */
  lemma SameLength(there: seq<nat>, back: seq<nat>)
    requires forall i | 0 <= i < |there| :: there[i] < |back| && back[there[i]] == i
    requires forall j | 0 <= j < |back| :: back[j] < |there| && there[back[j]] == j
    ensures |there| == |back|
  {
    NotLonger(there, |back|);
    NotLonger(back, |there|);
  }

  /** Distinct indices below n are at most n. */
  lemma {:induction false} NotLonger(indices: seq<nat>, n: nat)
    requires forall i | 0 <= i < |indices| :: indices[i] < n
    requires forall i, j | 0 <= i < j < |indices| :: indices[i] != indices[j]
    ensures |indices| <= n
    decreases n
  {
    assert |indices| > 0 ==> indices[0] < n;
    if n > 0 {
      if k :| 0 <= k < |indices| && indices[k] == n - 1 {
        NotLonger(indices[..k] + indices[k + 1..], n - 1);
      } else {
        NotLonger(indices, n - 1);
      }
    }
  }

  lemma UnambiguousParts(members: seq<Member>, i: nat, caseSensitive: bool)
    requires Unambiguous(Obj(members), caseSensitive)
    ensures DistinctKeys(members, caseSensitive)
    ensures i < |members| ==> Unambiguous(members[i].value, caseSensitive)
  {
    assert i < |members| ==> members[i] in members;
  }

  /** Members under the same key of objects with the same fields are reorderings of each other. */
  lemma {:induction false} SameFieldReordered(
      members: seq<Member>, others: seq<Member>, i: nat, j: nat, caseSensitive: bool)
    requires Unambiguous(Obj(members), caseSensitive) && Unambiguous(Obj(others), caseSensitive)
    requires Fields(members, caseSensitive) == Fields(others, caseSensitive)
    requires i < |members| && j < |others|
    requires Fold(members[i].key, caseSensitive) == Fold(others[j].key, caseSensitive)
    ensures Reordered(members[i].value, others[j].value, caseSensitive)
    decreases members, 0
  {
    hide *;
    UnambiguousParts(members, i, caseSensitive);
    UnambiguousParts(others, j, caseSensitive);
    FieldOf(members, i, caseSensitive);
    FieldOf(others, j, caseSensitive);
    ReorderedMeans(members[i].value, others[j].value, caseSensitive);
  }

  lemma {:induction false} FieldsMatched(members: seq<Member>, others: seq<Member>, caseSensitive: bool)
      returns (there: seq<nat>, back: seq<nat>)
    requires Unambiguous(Obj(members), caseSensitive) && Unambiguous(Obj(others), caseSensitive)
    requires Fields(members, caseSensitive) == Fields(others, caseSensitive)
    ensures Matched(members, others, there, back, caseSensitive)
    decreases members, 1
  {
    hide Fields, Means, Fold, DistinctKeys, Inverse, Unambiguous, Reordered, SameKey;
    UnambiguousParts(members, 0, caseSensitive);
    UnambiguousParts(others, 0, caseSensitive);
    there := Indices(members, others, |members|, caseSensitive);
    back := Indices(others, members, |others|, caseSensitive);
    IndicesInverse(members, others, there, back, caseSensitive);
    forall i | 0 <= i < |members|
      ensures SameKey(members[i].key, others[there[i]].key, caseSensitive)
      ensures Reordered(members[i].value, others[there[i]].value, caseSensitive)
    {
      SameKeyExact(members[i].key, others[there[i]].key, caseSensitive);
      SameFieldReordered(members, others, i, there[i], caseSensitive);
    }
  }

  /** On unambiguous trees comparing decides whether one tree is a reordering of the other. */
  lemma CmpIffReordered(a: J, b: J, caseSensitive: bool)
    requires Unambiguous(a, caseSensitive) && Unambiguous(b, caseSensitive)
    ensures Cmp(a, b, caseSensitive) <==> Reordered(a, b, caseSensitive)
  {
    hide Cmp, Reordered, Means, Unambiguous;
    CmpOnUnambiguous(a, b, caseSensitive);
    ReorderedMeans(a, b, caseSensitive);
  }
}
