/**
  The abstract JSON tree a cJSON structure stands for.
*/
module Json {
  import opened Bytes

  /**
    `Num(n)` is a number whose double equals its `valueint` n; `Inexact(n)` is any
    other number, of which only the saturated `valueint` is kept.
  */
  datatype J =
    | Null
    | Bool(b: bool)
    | Num(n: int32)
    | Inexact(n: int32)
    | Str(s: Text)
    | Arr(items: seq<J>)
    | Obj(members: seq<Member>)

  datatype Member = Member(key: Text, value: J)

  function Values(members: seq<Member>): (values: seq<J>)
    ensures |values| == |members| && forall i | 0 <= i < |members| :: values[i] == members[i].value
  {
    seq(|members|, i requires 0 <= i < |members| => members[i].value)
  }

  function Max(a: nat, b: nat): nat {
    if a < b then b else a
  }

  /** How many arrays and objects enclose the deepest leaf. */
  function Height(v: J): nat {
    match v
    case Arr(items) => 1 + ItemsHeight(items)
    case Obj(members) => 1 + MembersHeight(members)
    case _ => 0
  }

  function ItemsHeight(items: seq<J>): nat {
    if items == [] then 0 else Max(Height(items[0]), ItemsHeight(items[1..]))
  }

  function MembersHeight(members: seq<Member>): nat {
    if members == [] then 0 else Max(Height(members[0].value), MembersHeight(members[1..]))
  }

  /** The trees whose numbers are 32-bit integers. */
  predicate Printable(v: J) {
    match v
    case Inexact(_) => false
    case Arr(items) => forall x <- items :: Printable(x)
    case Obj(members) => forall m <- members :: Printable(m.value)
    case _ => true
  }

  /** No string and no key holds a NUL, so each is the C string it is stored as. */
  predicate NulFree(v: J) {
    match v
    case Str(s) => NUL !in s
    case Arr(items) => forall x <- items :: NulFree(x)
    case Obj(members) => forall m <- members :: NUL !in m.key && NulFree(m.value)
    case _ => true
  }

  /** The value with all strings and keys cut at their first NUL, as C string functions see them. */
  function Cut(v: J): J {
    match v
    case Str(s) => Str(CString(s))
    case Arr(items) => Arr(seq(|items|, i requires 0 <= i < |items| => Cut(items[i])))
    case Obj(members) =>
      Obj(seq(|members|, i requires 0 <= i < |members| => Member(CString(members[i].key), Cut(members[i].value))))
    case _ => v
  }

  function CutMembers(members: seq<Member>): (cut: seq<Member>)
    ensures |cut| == |members|
    ensures forall i | 0 <= i < |members| :: cut[i] == Member(CString(members[i].key), Cut(members[i].value))
  {
    seq(|members|, i requires 0 <= i < |members| => Member(CString(members[i].key), Cut(members[i].value)))
  }

  function CutItems(items: seq<J>): (cut: seq<J>)
    ensures |cut| == |items| && forall i | 0 <= i < |items| :: cut[i] == Cut(items[i])
  {
    seq(|items|, i requires 0 <= i < |items| => Cut(items[i]))
  }

  lemma CutParts(v: J)
    ensures v.Arr? ==> Cut(v) == Arr(CutItems(v.items))
    ensures v.Obj? ==> Cut(v) == Obj(CutMembers(v.members))
  {
    if v.Arr? {
      assert Cut(v).items == CutItems(v.items);
    } else if v.Obj? {
      assert Cut(v).members == CutMembers(v.members);
    }
  }

  lemma {:induction false} CutKeeps(v: J)
    ensures NulFree(Cut(v)) && Printable(Cut(v)) == Printable(v) && Height(Cut(v)) == Height(v)
    ensures NulFree(v) ==> Cut(v) == v
    decreases v
  {
    CutParts(v);
    match v
    case Str(s) =>
      if NUL !in s {
        CStringOfNulFree(s);
      }
    case Arr(items) =>
      forall i | 0 <= i < |items| ensures CutOne(items[i]) {
        CutKeeps(items[i]);
      }
      CutItemsKeeps(items);
    case Obj(members) =>
      forall i | 0 <= i < |members| ensures CutOne(members[i].value) {
        CutKeeps(members[i].value);
      }
      CutMembersKeeps(members);
    case _ =>
  }

  /** What cutting keeps of a value. */
  predicate CutOne(v: J) {
    && NulFree(Cut(v)) && Printable(Cut(v)) == Printable(v) && Height(Cut(v)) == Height(v)
    && (NulFree(v) ==> Cut(v) == v)
  }

  lemma CutItemsKeeps(items: seq<J>)
    requires forall i | 0 <= i < |items| :: CutOne(items[i])
    ensures CutOne(Arr(items))
  {
    CutParts(Arr(items));
    CutItemsHeight(items);
    var cut := CutItems(items);
    hide Cut, Height;
    HeightParts(Arr(items));
    HeightParts(Arr(cut));
    if Printable(Arr(cut)) {
      forall x | x in items ensures Printable(x) {
        var i :| 0 <= i < |items| && items[i] == x;
        assert cut[i] in cut;
      }
    }
    if NulFree(Arr(items)) {
      assert cut == items;
    }
  }

  lemma CutMembersKeeps(members: seq<Member>)
    requires forall i | 0 <= i < |members| :: CutOne(members[i].value)
    ensures CutOne(Obj(members))
  {
    CutParts(Obj(members));
    CutMembersHeight(members);
    var cut := CutMembers(members);
    hide Cut, Height;
    HeightParts(Obj(members));
    HeightParts(Obj(cut));
    if Printable(Obj(cut)) {
      forall m | m in members ensures Printable(m.value) {
        var i :| 0 <= i < |members| && members[i] == m;
        assert cut[i] in cut;
      }
    }
    if NulFree(Obj(members)) {
      forall i | 0 <= i < |members| ensures cut[i] == members[i] {
        assert members[i] in members;
        CStringOfNulFree(members[i].key);
      }
      assert cut == members;
    }
  }

  lemma HeightParts(v: J)
    ensures v.Arr? ==> Height(v) == 1 + ItemsHeight(v.items)
    ensures v.Obj? ==> Height(v) == 1 + MembersHeight(v.members)
  {
  }

  lemma {:induction false} CutItemsHeight(items: seq<J>)
    requires forall i | 0 <= i < |items| :: CutOne(items[i])
    ensures ItemsHeight(CutItems(items)) == ItemsHeight(items)
  {
    hide Cut, Height;
    if items != [] {
      CutItemsHeight(items[1..]);
      assert CutItems(items)[1..] == CutItems(items[1..]);
    }
  }

  lemma {:induction false} CutMembersHeight(members: seq<Member>)
    requires forall i | 0 <= i < |members| :: CutOne(members[i].value)
    ensures MembersHeight(CutMembers(members)) == MembersHeight(members)
  {
    hide Cut, Height;
    if members != [] {
      CutMembersHeight(members[1..]);
      assert CutMembers(members)[1..] == CutMembers(members[1..]);
    }
  }
}
