/**
  cJSON_Compare and cJSON_GetObjectItem on the heap: loops over linked children that compute
  the functions of module Comparison.
*/
module TreeCompare {
  import opened Bytes
  import opened Json
  import opened Nodes
  import opened Comparison

  // ---- Numbers ----

  function AbsReal(x: real): real {
    if x < 0.0 then -x else x
  }

  /** DBL_EPSILON. */
  const EPSILON: real := 1.0 / 4503599627370496.0

  /** compare_double, in exact arithmetic. */
  predicate CompareDouble(a: real, b: real) {
    var maxVal := if AbsReal(a) > AbsReal(b) then AbsReal(a) else AbsReal(b);
    AbsReal(a - b) <= maxVal * EPSILON
  }

  /** On 32-bit integers the tolerance is below the distance of two different ones. */
  lemma CompareDoubleOfInts(m: int32, n: int32)
    ensures CompareDouble(m as real, n as real) <==> m == n
  {
    var a, b := m as real, n as real;
    var maxVal := if AbsReal(a) > AbsReal(b) then AbsReal(a) else AbsReal(b);
    assert 0.0 <= maxVal <= 2147483648.0;
    assert 0.0 <= maxVal * EPSILON < 1.0;
    if m != n {
      assert AbsReal(a - b) >= 1.0;
    }
  }

  // ---- Strings ----

  /** The array starts with the C string p. */
  ghost predicate Terminated(a: array<byte>, p: Text)
    reads a
    ensures Terminated(a, p) ==> |p| < a.Length
  {
    |p| < a.Length && a[|p|] == NUL && forall k | 0 <= k < |p| :: a[k] == p[k] != NUL
  }

  lemma HeldCString(a: array<byte>, s: Text)
    requires Holds(a, s)
    ensures Terminated(a, CString(s))
  {
    var t := CString(s);
    forall k | 0 <= k < |t| ensures a[k] == t[k] != NUL {
      assert a[k] == a[..|s|][k] && t[k] in t;
    }
    if |t| < |s| {
      assert a[|t|] == a[..|s|][|t|];
    }
  }

  lemma TerminatedAt(a: array<byte>, p: Text, i: nat)
    requires Terminated(a, p) && i <= |p|
    ensures i < |p| ==> a[i] == p[i]
    ensures a[i] == NUL <==> i == |p|
  {
  }

  lemma ToLowerOfNul(b: byte)
    ensures ToLower(b) == NUL <==> b == NUL
  {
  }

  lemma SameHeld(a: array<byte>, s: Text, t: Text)
    requires Holds(a, s) && Holds(a, t)
    ensures CString(s) == CString(t)
  {
    HeldCString(a, s);
    HeldCString(a, t);
    hide Holds;
    var p, q := CString(s), CString(t);
    TerminatedAt(a, if |p| <= |q| then q else p, if |p| <= |q| then |p| else |q|);
    assert p == q;
  }

  /** libc's strcmp, as far as its callers look at the result. */
  method Strcmp(a: array<byte>, b: array<byte>, ghost s: Text, ghost t: Text) returns (same: bool)
    requires Holds(a, s) && Holds(b, t)
    ensures same <==> CString(s) == CString(t)
  {
    ghost var p, q := CString(s), CString(t);
    HeldCString(a, s);
    HeldCString(b, t);
    hide *;
    var i := 0;
    TerminatedAt(a, p, i);
    TerminatedAt(b, q, i);
    while a[i] == b[i]
      invariant 0 <= i <= |p| && i <= |q| && forall k | 0 <= k < i :: p[k] == q[k]
      invariant (i < |p| ==> a[i] == p[i]) && (a[i] == NUL <==> i == |p|)
      invariant (i < |q| ==> b[i] == q[i]) && (b[i] == NUL <==> i == |q|)
      decreases |p| - i
    {
      if a[i] == NUL {
        assert p == q;
        return true;
      }
      i := i + 1;
      TerminatedAt(a, p, i);
      TerminatedAt(b, q, i);
    }
    assert i < |p| && i < |q| ==> p[i] != q[i];
    same := false;
  }

  /** The loop of case_insensitive_strcmp: the first index of a difference, or of both NULs. */
  method SkipSame(a: array<byte>, b: array<byte>, ghost p: Text, ghost q: Text) returns (i: nat)
    requires Terminated(a, p) && Terminated(b, q)
    ensures i <= |p| && i <= |q| && forall k | 0 <= k < i :: ToLower(p[k]) == ToLower(q[k])
    ensures i < |p| && i < |q| ==> ToLower(p[i]) != ToLower(q[i])
    ensures a[i] == (if i < |p| then p[i] else NUL) && b[i] == (if i < |q| then q[i] else NUL)
  {
    hide Terminated, ToLower;
    i := 0;
    TerminatedAt(a, p, i);
    TerminatedAt(b, q, i);
    while ToLower(a[i]) == ToLower(b[i]) && a[i] != NUL
      invariant i <= |p| && i <= |q| && forall k | 0 <= k < i :: ToLower(p[k]) == ToLower(q[k])
      invariant a[i] == (if i < |p| then p[i] else NUL) && (a[i] == NUL <==> i == |p|)
      invariant b[i] == (if i < |q| then q[i] else NUL) && (b[i] == NUL <==> i == |q|)
      decreases |p| - i
    {
      ToLowerOfNul(a[i]);
      ToLowerOfNul(b[i]);
      i := i + 1;
      TerminatedAt(a, p, i);
      TerminatedAt(b, q, i);
    }
    ToLowerOfNul(a[i]);
    ToLowerOfNul(b[i]);
  }

  /** The difference of the first bytes in which two C strings differ, with NUL behind their ends. */
  function Order(p: Text, q: Text): int {
    if p == [] then if q == [] then 0 else -q[0]
    else if q == [] then p[0]
    else if p[0] != q[0] then p[0] - q[0]
    else Order(p[1..], q[1..])
  }

  lemma {:induction false} OrderAt(p: Text, q: Text, i: nat)
    requires i <= |p| && i <= |q| && forall k | 0 <= k < i :: p[k] == q[k]
    requires i < |p| && i < |q| ==> p[i] != q[i]
    ensures Order(p, q) == (if i < |p| then p[i] else NUL) - (if i < |q| then q[i] else NUL)
    decreases i
  {
    if i > 0 {
      OrderAt(p[1..], q[1..], i - 1);
    }
  }

  lemma {:induction false} OrderIsZero(p: Text, q: Text)
    requires NUL !in p && NUL !in q
    ensures Order(p, q) == 0 <==> p == q
  {
    if p != [] && q != [] && p[0] == q[0] {
      OrderIsZero(p[1..], q[1..]);
      assert p == [p[0]] + p[1..] && q == [q[0]] + q[1..];
    }
  }

  lemma LowerHasNoNul(p: Text)
    requires NUL !in p
    ensures NUL !in Lower(p)
  {
  }

  /** case_insensitive_strcmp: the order in lower case, 0 exactly for strings that are the same there. */
  method CaseInsensitiveStrcmp(a: array?<byte>, b: array?<byte>, ghost s: Text, ghost t: Text) returns (order: int)
    requires (a != null ==> Holds(a, s)) && (b != null ==> Holds(b, t))
    ensures order == if a == null || b == null then 1 else Order(Lower(CString(s)), Lower(CString(t)))
    ensures order == 0 <==> a != null && b != null && Lower(CString(s)) == Lower(CString(t))
  {
    if a == null || b == null {
      return 1;
    }
    ghost var p, q := CString(s), CString(t);
    LowerHasNoNul(p);
    LowerHasNoNul(q);
    OrderIsZero(Lower(p), Lower(q));
    if a == b {
      SameHeld(a, s, t);
      return 0;
    }
    HeldCString(a, s);
    HeldCString(b, t);
    hide *;
    var i := SkipSame(a, b, p, q);
    OrderInLower(p, q, i);
    order := ToLower(a[i]) - ToLower(b[i]);
  }

  lemma OrderInLower(p: Text, q: Text, i: nat)
    requires i <= |p| && i <= |q| && forall k | 0 <= k < i :: ToLower(p[k]) == ToLower(q[k])
    requires i < |p| && i < |q| ==> ToLower(p[i]) != ToLower(q[i])
    ensures Order(Lower(p), Lower(q))
         == ToLower(if i < |p| then p[i] else NUL) - ToLower(if i < |q| then q[i] else NUL)
  {
    hide Lower;
    OrderAt(Lower(p), Lower(q), i);
  }

  // ---- Lookup ----

  ghost function Child(parent: Node, at: Option<nat>): Node?
    reads parent`kids
  {
    if at.Some? && at.value < |parent.kids| then parent.kids[at.value] else null
  }

  /** Child number i is called as member number i is. */
  ghost predicate At(parent: Node, members: seq<Member>, i: nat, item: Node?)
    reads parent`kids
  {
    |parent.kids| == |members| && i <= |members| && item == if i < |members| then parent.kids[i] else null
  }

  lemma AtFirst(parent: Node, members: seq<Member>)
    requires Stands(parent, Obj(members))
    ensures At(parent, members, 0, parent.child)
  {
    hide Stands;
    ObjectKids(parent, members);
  }

  lemma AtNext(parent: Node, members: seq<Member>, i: nat, item: Node)
    requires Stands(parent, Obj(members)) && At(parent, members, i, item)
    ensures i < |members| && At(parent, members, i + 1, item.next)
    ensures item.name != null && Holds(item.name, members[i].key)
    ensures item == Child(parent, Some(i))
  {
    hide Stands;
    ObjectKid(parent, members, i);
  }

  /** Where a search of the members from the front stops. */
  lemma FirstAtStops(members: seq<Member>, folded: Text, caseSensitive: bool, k: nat)
    requires k <= |members| && forall i | 0 <= i < k :: Fold(members[i].key, caseSensitive) != folded
    requires k < |members| ==> Fold(members[k].key, caseSensitive) == folded
    ensures FirstAt(members, folded, caseSensitive) == if k < |members| then Some(k) else None
  {
    hide FirstAt, Fold;
    FirstAtIsFirst(members, folded, caseSensitive);
  }

  /** The test of the loops of get_object_item. */
  method SameName(parent: Node, name: array<byte>, item: Node, caseSensitive: bool,
                  ghost members: seq<Member>, ghost key: Text, ghost k: nat)
      returns (same: bool)
    requires Stands(parent, Obj(members)) && Holds(name, key) && At(parent, members, k, item)
    ensures k < |members| && At(parent, members, k + 1, item.next)
    ensures same <==> Fold(members[k].key, caseSensitive) == Fold(key, caseSensitive)
  {
    hide Stands, Holds, At, CString, Lower;
    AtNext(parent, members, k, item);
    if caseSensitive {
      same := Strcmp(name, item.name, key, members[k].key);
    } else {
      var order := CaseInsensitiveStrcmp(name, item.name, key, members[k].key);
      same := order == 0;
    }
  }

  /** The first k members are under other keys. */
  predicate Others(members: seq<Member>, k: nat, folded: Text, caseSensitive: bool) {
    k <= |members| && forall i | 0 <= i < k :: Fold(members[i].key, caseSensitive) != folded
  }

  lemma OthersNext(members: seq<Member>, k: nat, folded: Text, caseSensitive: bool)
    requires Others(members, k, folded, caseSensitive) && k < |members|
    requires Fold(members[k].key, caseSensitive) != folded
    ensures Others(members, k + 1, folded, caseSensitive)
  {
  }

  /** The loops of get_object_item: past the children under other keys. */
  method SkipOthers(parent: Node, name: array<byte>, caseSensitive: bool,
                    ghost members: seq<Member>, ghost key: Text)
      returns (item: Node?, ghost k: nat)
    requires Stands(parent, Obj(members)) && Holds(name, key)
    ensures At(parent, members, k, item) && Others(members, k, Fold(key, caseSensitive), caseSensitive)
    ensures item != null ==> k < |members| && Fold(members[k].key, caseSensitive) == Fold(key, caseSensitive)
  {
    AtFirst(parent, members);
    item := parent.child;
    k := 0;
    ghost var folded := Fold(key, caseSensitive);
    assert Others(members, 0, folded, caseSensitive);
    hide *;
    while item != null
      invariant At(parent, members, k, item) && Others(members, k, folded, caseSensitive)
      decreases |members| - k
    {
      var found := SameName(parent, name, item, caseSensitive, members, key, k);
      if found {
        return;
      }
      OthersNext(members, k, folded, caseSensitive);
      item := item.next;
      k := k + 1;
    }
  }

  /** get_object_item on an object: the first child whose name is the key, or null. */
  method GetObjectItem(parent: Node?, name: array?<byte>, caseSensitive: bool,
                       ghost members: seq<Member>, ghost key: Text)
      returns (item: Node?)
    requires parent != null ==> Stands(parent, Obj(members))
    requires name != null ==> Holds(name, key)
    ensures item == if parent == null || name == null then null else
      Child(parent, FirstAt(members, Fold(key, caseSensitive), caseSensitive))
    ensures parent != null && name != null ==>
      exists k :: IsFirst(members, key, caseSensitive, k) && item == Child(parent, Some(k))
  {
    if parent == null || name == null {
      return null;
    }
    hide Stands, FirstAt, Fold, Holds, IsFirst;
    ghost var k;
    item, k := SkipOthers(parent, name, caseSensitive, members, key);
    FirstAtStops(members, Fold(key, caseSensitive), caseSensitive, k);
    FindsFirst(members, key, caseSensitive);
  }

  // ---- The comparison ----

  /**
    cJSON_Compare on two trees that share no node, or on one tree and itself.
  */
  method Compare(a: Node?, b: Node?, caseSensitive: bool, ghost v: J, ghost w: J) returns (same: bool)
    requires (a != null ==> Stands(a, v)) && (b != null ==> Stands(b, w))
    requires a != null && b != null && a != b ==> a.repr !! b.repr
    ensures same == (a != null && b != null && (a == b || Cmp(v, w, caseSensitive)))
    decreases Height(v) + Height(w), 2
  {
    if a == null || b == null {
      return false;
    }
    KindOf(a, v);
    KindOf(b, w);
    hide Stands, CompareDouble;
    if a.kind != b.kind {
      CmpNeedsKind(v, w, caseSensitive);
      return a == b;
    }
    if a == b {
      return true;
    }
    match a.kind {
      case KFalse => same := true;
      case KTrue => same := true;
      case KNull => same := true;
      case KNumber =>
        CompareDoubleOfInts(v.n, w.n);
        same := CompareDouble(a.valuedouble, b.valuedouble);
      case KString =>
        same := Strcmp(a.valuestring, b.valuestring, v.s, w.s);
      case KArray =>
        same := CompareArrays(a, b, caseSensitive, v.items, w.items);
      case KObject =>
        same := CompareObjects(a, b, caseSensitive, v.members, w.members);
      case KInvalid => same := false;
    }
  }

  ghost function KindOfValue(v: J): Kind {
    match v
    case Null => KNull
    case Bool(b) => if b then KTrue else KFalse
    case Num(_) => KNumber
    case Inexact(_) => KNumber
    case Str(_) => KString
    case Arr(_) => KArray
    case Obj(_) => KObject
  }

  /** What the root of a tree holds. */
  lemma KindOf(item: Node, v: J)
    requires Stands(item, v)
    ensures item.kind == KindOfValue(v) && !v.Inexact?
    ensures v.Num? ==> item.valuedouble == v.n as real
    ensures v.Str? ==> item.valuestring != null && Holds(item.valuestring, v.s)
  {
  }

  lemma CmpNeedsKind(v: J, w: J, caseSensitive: bool)
    ensures Cmp(v, w, caseSensitive) ==> KindOfValue(v) == KindOfValue(w)
  {
  }

  /** The loop over two lists of elements. */
  method CompareArrays(a: Node, b: Node, caseSensitive: bool, ghost items: seq<J>, ghost others: seq<J>)
      returns (same: bool)
    requires Stands(a, Arr(items)) && Stands(b, Arr(others)) && a.repr !! b.repr
    ensures same == Cmp(Arr(items), Arr(others), caseSensitive)
    decreases ItemsHeight(items) + ItemsHeight(others) + 2, 0
  {
    hide Stands;
    ArrayKids(a, items);
    ArrayKids(b, others);
    var p, q := a.child, b.child;
    ghost var k := 0;
    while p != null && q != null
      invariant 0 <= k <= |items| && p == if k < |items| then a.kids[k] else null
      invariant k <= |others| && q == if k < |others| then b.kids[k] else null
      invariant forall i | 0 <= i < k :: Cmp(items[i], others[i], caseSensitive)
      decreases |items| - k
    {
      ArrayKid(a, items, k);
      ArrayKid(b, others, k);
      ItemLower(items, items[k]);
      ItemLower(others, others[k]);
      var equal := Compare(p, q, caseSensitive, items[k], others[k]);
      if !equal {
        return false;
      }
      p, q := p.next, q.next;
      k := k + 1;
    }
    // equal lengths: both lists have ended
    same := p == q;
  }

  method CompareObjects(a: Node, b: Node, caseSensitive: bool, ghost members: seq<Member>, ghost others: seq<Member>)
      returns (same: bool)
    requires Stands(a, Obj(members)) && Stands(b, Obj(others)) && a.repr !! b.repr
    ensures same == Cmp(Obj(members), Obj(others), caseSensitive)
    decreases MembersHeight(members) + MembersHeight(others) + 2, 0
  {
    hide Stands, Covered;
    same := CompareEach(a, b, caseSensitive, members, others);
    if same {
      same := CompareEach(b, a, caseSensitive, others, members);
    }
  }

  /** The first child of b under the key of an element of the other object, with its value. */
  method Find(element: Node, b: Node, caseSensitive: bool, ghost m: Member, ghost others: seq<Member>)
      returns (found: Node?, ghost w: J)
    requires element.name != null && Holds(element.name, m.key) && Stands(b, Obj(others))
    ensures found == null ==> !CoversOne(m, others, caseSensitive)
    ensures found != null ==> Stands(found, w) && found.repr <= b.repr && Height(w) <= MembersHeight(others)
    ensures found != null ==> CoversOne(m, others, caseSensitive) == Cmp(m.value, w, caseSensitive)
  {
    hide Stands, Fold, Cmp, FirstAt, Holds;
    found := GetObjectItem(b, element.name, caseSensitive, others, m.key);
    ObjectKids(b, others);
    w := m.value;
    if found != null {
      ghost var i := FirstAt(others, Fold(m.key, caseSensitive), caseSensitive).value;
      ObjectKid(b, others, i);
      ValueLower(others, others[i]);
      w := others[i].value;
    }
  }

  /** Each of the two loops over an object: its elements are looked up in the other object. */
  method CompareEach(a: Node, b: Node, caseSensitive: bool, ghost members: seq<Member>, ghost others: seq<Member>)
      returns (same: bool)
    requires Stands(a, Obj(members)) && Stands(b, Obj(others)) && a.repr !! b.repr
    ensures same == Covered(members, others, caseSensitive)
    decreases MembersHeight(members) + MembersHeight(others) + 1, 0
  {
    hide Stands, CoversOne;
    ObjectKids(a, members);
    var element := a.child;
    ghost var k := 0;
    while element != null
      invariant 0 <= k <= |members| && element == if k < |members| then a.kids[k] else null
      invariant forall i | 0 <= i < k :: CoversOne(members[i], others, caseSensitive)
      decreases |members| - k
    {
      ObjectKid(a, members, k);
      var found, w := Find(element, b, caseSensitive, members[k], others);
      if found == null {
        return false;
      }
      ValueLower(members, members[k]);
      var equal := Compare(element, found, caseSensitive, members[k].value, w);
      if !equal {
        return false;
      }
      element := element.next;
      k := k + 1;
    }
    same := true;
  }
}
