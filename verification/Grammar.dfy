/**
  The grammar of the texts the parser accepts, over byte ranges: which value stands between
  two offsets, with blanks allowed around every bracket, brace, comma, colon, key and
  value. A text is parsed if and only if it is derived.
*/
module Grammar {
  import opened Bytes
  import opened Json
  import opened Numbers
  import opened Strings
  import opened Unicode
  import Numerals
  import Spec = ParseSpec

  /** The buffer ends in a NUL, as cJSON_Parse frames it. */
  predicate Closed(c: Text) {
    c != [] && c[|c| - 1] == 0
  }

  /** c[i..j] is blank. */
  predicate Blank(c: Text, i: nat, j: nat) {
    i <= j <= |c| && forall k | i <= k < j :: c[k] <= 32
  }

  /** c[i..j] is this word. */
  predicate Word(c: Text, i: nat, j: nat, word: string) {
    j == i + |word| && j <= |c| && forall k | 0 <= k < |word| :: c[i + k] == word[k] as int
  }

  predicate StartsNumber(c: Text, i: nat) {
    i < |c| && (CharAt(c, i, '-') || '0' as int <= c[i] <= '9' as int)
  }

  /**
    A string literal with the contents s stands in c[i..j]: the first quote behind the opening
    one with an even number of backslashes right before it closes the literal.
  */
  ghost predicate Quoted(c: Text, i: nat, j: nat, s: Text) {
    && i + 2 <= j <= |c| && CharAt(c, i, '"') && CharAt(c, j - 1, '"') && Backslashes(c, i + 1, j - 1) % 2 == 0
    && (forall k | i < k < j - 1 && c[k] == '"' as int :: Backslashes(c, i + 1, k) % 2 == 1)
    && exists pieces :: Consists(c, i + 1, j - 1, pieces) && Meanings(pieces) == s
  }

  /** The value v stands in c[i..j], inside `depth` open arrays and objects. */
  ghost predicate Derives(c: Text, i: nat, j: nat, v: J, depth: nat)
    decreases v, 0
  {
    match v
    case Null => Word(c, i, j, "null")
    case Bool(b) => Word(c, i, j, if b then "true" else "false")
    case Str(s) => Quoted(c, i, j, s)
    case Arr(items) =>
      && depth < 1000 && i + 2 <= j && CharAt(c, i, '[') && CharAt(c, j - 1, ']')
      && if items == [] then Blank(c, i + 1, j - 1) else DerivesItems(c, i + 1, j - 1, items, depth + 1)
    case Obj(members) =>
      && depth < 1000 && i + 2 <= j && CharAt(c, i, '{') && CharAt(c, j - 1, '}')
      && if members == [] then Blank(c, i + 1, j - 1) else DerivesMembers(c, i + 1, j - 1, members, depth + 1)
    case _ => StartsNumber(c, i) && Numerals.NumberAt(c, i, j, v)
  }

  /** The value v stands in c[i..j] with blanks on both sides. */
  ghost predicate DerivesPadded(c: Text, i: nat, j: nat, v: J, depth: nat)
    decreases v, 1
  {
    exists a: nat, b: nat :: Blank(c, i, a) && Derives(c, a, b, v, depth) && Blank(c, b, j)
  }

  /** c[i..j] is a list of elements with a comma between any two. */
  ghost predicate DerivesItems(c: Text, i: nat, j: nat, items: seq<J>, depth: nat)
    decreases items, 2
  {
    items != []
    && if |items| == 1 then DerivesPadded(c, i, j, items[0], depth)
       else exists m: nat ::
         DerivesPadded(c, i, m, items[0], depth) && CharAt(c, m, ',') && DerivesItems(c, m + 1, j, items[1..], depth)
  }

  /** c[i..j] is a key, a colon and a value, with blanks around each of them. */
  ghost predicate DerivesMember(c: Text, i: nat, j: nat, m: Member, depth: nat)
    decreases m, 2
  {
    exists a: nat, b: nat, colon: nat ::
      && Blank(c, i, a) && Quoted(c, a, b, m.key)
      && Blank(c, b, colon) && CharAt(c, colon, ':') && DerivesPadded(c, colon + 1, j, m.value, depth)
  }

  ghost predicate DerivesMembers(c: Text, i: nat, j: nat, members: seq<Member>, depth: nat)
    decreases members, 3
  {
    members != []
    && if |members| == 1 then DerivesMember(c, i, j, members[0], depth)
       else exists m: nat ::
         DerivesMember(c, i, m, members[0], depth) && CharAt(c, m, ',')
         && DerivesMembers(c, m + 1, j, members[1..], depth)
  }

  /** A byte order mark, at the start of a buffer of more than four bytes. */
  predicate StartsWithMark(c: Text) {
    |c| > 4 && c[0] == 0xEF && c[1] == 0xBB && c[2] == 0xBF
  }

  /** Where a text begins, behind a byte order mark. */
  function Start(c: Text): nat {
    if StartsWithMark(c) then 3 else 0
  }

  /**
    The text, behind a byte order mark, is v between blanks; parsing ends at e. What stands
    behind v does not matter, unless `requireNul` asks for blanks up to the end of the buffer.
  */
  ghost predicate Accepts(c: Text, requireNul: bool, v: J, e: nat) {
    exists i: nat, j: nat ::
      && Blank(c, Start(c), i) && Derives(c, i, j, v, 0)
      && if requireNul then Blank(c, j, |c|) && e == |c| - 1 else e == j
  }

  /** The text is no value in this grammar. */
  ghost predicate Refused(c: Text, requireNul: bool) {
    !exists v, e :: Accepts(c, requireNul, v, e)
  }

  /**
    What is known of the position of an error: it is not before the first byte that is no
    blank; and if only text behind a value is wrong, it is the first byte there that is no blank.
  */
  ghost predicate StopsAt(c: Text, position: nat) {
    && (forall i: nat | Blank(c, Start(c), i) && i < |c| && c[i] > 32 :: i <= position)
    && (forall v, e | Accepts(c, false, v, e) :: Blank(c, e, position) && position < |c| && c[position] > 32)
  }

  // ---- Blanks ----

  lemma SkipTo(c: Text, i: nat, e: nat)
    requires Blank(c, i, e) && e < |c| && c[e] > 32
    ensures Spec.Skip(c, i) == e
    decreases e - i
  {
    if i < e {
      SkipTo(c, i + 1, e);
    }
  }

  lemma SkipIsBlank(c: Text, i: nat)
    requires i <= |c|
    ensures Blank(c, i, Spec.Skip(c, i))
    ensures i < |c| && !Blank(c, i, |c|) ==> c[Spec.Skip(c, i)] > 32
    ensures i < |c| && Blank(c, i, |c|) ==> Spec.Skip(c, i) == |c| - 1
  {
  }

  // ---- Leaves ----

  lemma NumberRunInside(c: Text, i: nat, room: nat)
    requires i <= |c|
    ensures forall k | i <= k < i + NumberRun(c, i, room) :: IsNumberChar(c[k])
    decreases room
  {
  }

  lemma NumberEnds(c: Text, i: nat)
    requires Closed(c) && i <= |c|
    ensures Spec.ParseNumber(c, i).Ok? ==> i < Spec.ParseNumber(c, i).end < |c|
  {
    NumberRunInside(c, i, Spec.NUMBER_ROOM);
    hide Strtod, NumberRun;
  }

  lemma QuotedExact(c: Text, i: nat, s: Text, j: nat)
    ensures Spec.ParseString(c, i) == Spec.Ok(s, j) <==> Quoted(c, i, j, s)
  {
    hide LiteralEnd, Unescape, Consists, Backslashes;
    if Spec.ParseString(c, i) == Spec.Ok(s, j) {
      LiteralEndExact(c, i + 1, j - 1);
      var pieces := AcceptedPieces(c, i + 1, j - 1);
      PiecesAccepted(c, i + 1, j - 1, pieces);
    }
    if Quoted(c, i, j, s) {
      LiteralEndExact(c, i + 1, j - 1);
      var pieces :| Consists(c, i + 1, j - 1, pieces) && Meanings(pieces) == s;
      PiecesAccepted(c, i + 1, j - 1, pieces);
    }
  }

  lemma Words(c: Text, i: nat, j: nat)
    requires i <= |c|
    ensures Word(c, i, j, "null") <==> StandsAt(c, i, NULL_TEXT) && j == i + 4
    ensures Word(c, i, j, "true") <==> StandsAt(c, i, TRUE_TEXT) && j == i + 4
    ensures Word(c, i, j, "false") <==> StandsAt(c, i, FALSE_TEXT) && j == i + 5
  {
    WordStands(c, i, j, "null", NULL_TEXT);
    WordStands(c, i, j, "true", TRUE_TEXT);
    WordStands(c, i, j, "false", FALSE_TEXT);
  }

  lemma WordStands(c: Text, i: nat, j: nat, word: string, t: Text)
    requires |t| == |word| && forall k | 0 <= k < |t| :: t[k] == word[k] as int
    ensures Word(c, i, j, word) <==> StandsAt(c, i, t) && j == i + |t|
  {
    if Word(c, i, j, word) {
      assert c[i..i + |t|] == t;
    }
    if StandsAt(c, i, t) && j == i + |t| {
      forall k | 0 <= k < |word| ensures c[i + k] == word[k] as int {
        StandsAtByte(c, i, t, k);
      }
    }
  }

  /** No number, string or bracket starts a keyword. */
  lemma NoWord(c: Text, i: nat)
    requires i < |c| && c[i] != 'n' as int && c[i] != 'f' as int && c[i] != 't' as int
    ensures !StandsAt(c, i, NULL_TEXT) && !StandsAt(c, i, FALSE_TEXT) && !StandsAt(c, i, TRUE_TEXT)
  {
    StandsAtHead(c, i, NULL_TEXT);
    StandsAtHead(c, i, FALSE_TEXT);
    StandsAtHead(c, i, TRUE_TEXT);
  }

  lemma WordBounds(c: Text, i: nat, j: nat, word: string)
    requires Closed(c) && Word(c, i, j, word) && word != "" && forall k | 0 <= k < |word| :: word[k] > ' '
    ensures i < j < |c| && c[i] == word[0] as int && c[i] > 32
  {
    assert c[i + 0] == word[0] as int && c[i + (|word| - 1)] == word[|word| - 1] as int;
  }

  /** Where a value starts, and that it ends before the NUL. */
  lemma DerivedBounds(c: Text, i: nat, j: nat, v: J, depth: nat)
    requires Closed(c) && Derives(c, i, j, v, depth)
    ensures i < j < |c| && c[i] > 32
  {
    hide Spec.ParseNumber, Spec.ParseString, Word, Numerals.NumberAt, DerivesItems, DerivesMembers, Consists;
    match v
    case Null => WordBounds(c, i, j, "null");
    case Bool(b) => WordBounds(c, i, j, if b then "true" else "false");
    case Str(_) =>
    case Arr(_) =>
    case Obj(_) =>
    case _ =>
      Numerals.NumberExact(c, i, v, j);
      NumberEnds(c, i);
  }

  // ---- What is parsed is derived ----

  lemma {:induction false} Parsed(c: Text, i: nat, depth: nat, j: nat, v: J)
    requires Closed(c) && i <= |c| && Spec.ParseValue(c, i, depth) == Spec.Ok(v, j)
    ensures Derives(c, i, j, v, depth)
    decreases |c| - i, 2
  {
    hide Spec.ParseNumber, Spec.ParseString, Spec.ParseArray, Spec.ParseObject, Word, Derives;
    if Spec.Sees(c, i, OPEN_BRACKET) {
      NoWord(c, i);
      ParsedArray(c, i, depth, j, v);
    } else if Spec.Sees(c, i, OPEN_BRACE) {
      NoWord(c, i);
      ParsedObject(c, i, depth, j, v);
    } else {
      ParsedLeaf(c, i, depth, j, v);
    }
  }

  lemma ParsedLeaf(c: Text, i: nat, depth: nat, j: nat, v: J)
    requires Closed(c) && i <= |c| && Spec.ParseValue(c, i, depth) == Spec.Ok(v, j)
    requires !Spec.Sees(c, i, OPEN_BRACKET) && !Spec.Sees(c, i, OPEN_BRACE)
    ensures Derives(c, i, j, v, depth)
  {
    hide Spec.ParseNumber, Spec.ParseString, Word, Quoted, Numerals.NumberAt;
    Words(c, i, j);
    if v.Str? {
      QuotedExact(c, i, v.s, j);
    }
    Numerals.NumberExact(c, i, v, j);
  }

  lemma {:induction false} ParsedArray(c: Text, i: nat, depth: nat, j: nat, v: J)
    requires Closed(c) && Spec.Sees(c, i, OPEN_BRACKET) && Spec.ParseArray(c, i, depth) == Spec.Ok(v, j)
    ensures Derives(c, i, j, v, depth)
    decreases |c| - i, 1
  {
    hide Spec.ParseElements, Spec.Skip, DerivesItems;
    var p := Spec.Skip(c, i + 1);
    SkipIsBlank(c, i + 1);
    if !Spec.Sees(c, p, CLOSE_BRACKET) {
      ParsedItems(c, i + 1, p, depth + 1, j - 1, v.items);
    }
  }

  lemma BlankJoin(c: Text, i: nat, a: nat, b: nat)
    requires Blank(c, i, a) && Blank(c, a, b)
    ensures Blank(c, i, b)
  {
  }

  /** The elements parsed from p on, with more blanks from i on before them. */
  lemma {:induction false} ParsedItems(c: Text, i: nat, p: nat, depth: nat, j: nat, items: seq<J>)
    requires Closed(c) && Blank(c, i, p) && Spec.ParseElements(c, p, depth) == Spec.Ok(items, j)
    ensures items != [] && DerivesItems(c, i, j, items, depth)
    decreases |c| - p, 3
  {
    hide Spec.ParseValue, Spec.Skip, Derives, Blank;
    var a := Spec.Skip(c, p);
    SkipIsBlank(c, p);
    BlankJoin(c, i, p, a);
    var Ok(v, end) := Spec.ParseValue(c, a, depth);
    Parsed(c, a, depth, end, v);
    var m := Spec.Skip(c, end);
    SkipIsBlank(c, end);
    assert DerivesPadded(c, i, m, v, depth);
    if Spec.Sees(c, m, COMMA) {
      NoBlank(c, m + 1);
      ParsedItems(c, m + 1, m + 1, depth, j, items[1..]);
      assert CharAt(c, m, ',');
    }
  }

  lemma NoBlank(c: Text, i: nat)
    requires i <= |c|
    ensures Blank(c, i, i)
  {
  }

  lemma {:induction false} ParsedObject(c: Text, i: nat, depth: nat, j: nat, v: J)
    requires Closed(c) && Spec.Sees(c, i, OPEN_BRACE) && Spec.ParseObject(c, i, depth) == Spec.Ok(v, j)
    ensures Derives(c, i, j, v, depth)
    decreases |c| - i, 1
  {
    hide Spec.ParseMembers, Spec.Skip, DerivesMembers;
    var p := Spec.Skip(c, i + 1);
    SkipIsBlank(c, i + 1);
    if !Spec.Sees(c, p, CLOSE_BRACE) {
      ParsedMembers(c, i + 1, p, depth + 1, j - 1, v.members);
    }
  }

  lemma {:induction false} ParsedMembers(c: Text, i: nat, p: nat, depth: nat, j: nat, members: seq<Member>)
    requires Closed(c) && Blank(c, i, p) && Spec.ParseMembers(c, p, depth) == Spec.Ok(members, j)
    ensures members != [] && DerivesMembers(c, i, j, members, depth)
    decreases |c| - p, 3
  {
    hide Spec.ParseMember, DerivesMember, Blank;
    var Ok(first, m) := Spec.ParseMember(c, p, depth);
    ParsedMember(c, i, p, depth, m, first);
    if Spec.Sees(c, m, COMMA) {
      NoBlank(c, m + 1);
      ParsedMembers(c, m + 1, m + 1, depth, j, members[1..]);
      assert CharAt(c, m, ',');
    }
  }

  lemma {:induction false} ParsedMember(c: Text, i: nat, p: nat, depth: nat, j: nat, m: Member)
    requires Closed(c) && Blank(c, i, p) && Spec.ParseMember(c, p, depth) == Spec.Ok(m, j)
    ensures DerivesMember(c, i, j, m, depth)
    decreases |c| - p, 2
  {
    hide Spec.ParseValue, Spec.ParseString, Spec.Skip, Derives, Blank, Quoted;
    var a := Spec.Skip(c, p);
    SkipIsBlank(c, p);
    BlankJoin(c, i, p, a);
    var b := Spec.ParseString(c, a).end;
    QuotedExact(c, a, m.key, b);
    var colon := Spec.Skip(c, b);
    SkipIsBlank(c, b);
    assert CharAt(c, colon, ':');
    var q := Spec.Skip(c, colon + 1);
    SkipIsBlank(c, colon + 1);
    var z := Spec.ParseValue(c, q, depth).end;
    Parsed(c, q, depth, z, m.value);
    SkipIsBlank(c, z);
    assert DerivesPadded(c, colon + 1, j, m.value, depth);
  }

  // ---- What is derived is parsed ----

  lemma {:induction false} Derived(c: Text, i: nat, j: nat, v: J, depth: nat)
    requires Closed(c) && Derives(c, i, j, v, depth)
    ensures i <= |c| && Spec.ParseValue(c, i, depth) == Spec.Ok(v, j)
    decreases v, 0
  {
    hide Spec.ParseNumber, Spec.ParseString, Spec.ParseArray, Spec.ParseObject, Word, Quoted, Numerals.NumberAt;
    DerivedBounds(c, i, j, v, depth);
    match v
    case Null => Words(c, i, j);
    case Bool(b) => DerivedBool(c, i, j, b, depth);
    case Str(s) =>
      QuotedExact(c, i, s, j);
      StartsQuoted(c, i, j, s);
      NoWord(c, i);
    case Arr(items) =>
      NoWord(c, i);
      DerivedArray(c, i, j, items, depth);
    case Obj(members) =>
      NoWord(c, i);
      DerivedObject(c, i, j, members, depth);
    case _ =>
      NoWord(c, i);
      Numerals.NumberExact(c, i, v, j);
  }

  lemma StartsQuoted(c: Text, i: nat, j: nat, s: Text)
    requires Quoted(c, i, j, s)
    ensures Spec.Sees(c, i, QUOTE)
  {
  }

  lemma DerivedBool(c: Text, i: nat, j: nat, b: bool, depth: nat)
    requires i <= |c| && Word(c, i, j, if b then "true" else "false")
    ensures Spec.ParseValue(c, i, depth) == Spec.Ok(Bool(b), j)
  {
    Words(c, i, j);
    StandsAtHead(c, i, NULL_TEXT);
    StandsAtHead(c, i, FALSE_TEXT);
    StandsAtHead(c, i, TRUE_TEXT);
  }

  lemma {:induction false} DerivedArray(c: Text, i: nat, j: nat, items: seq<J>, depth: nat)
    requires Closed(c) && Derives(c, i, j, Arr(items), depth)
    ensures i <= |c| && Spec.Sees(c, i, OPEN_BRACKET) && Spec.ParseArray(c, i, depth) == Spec.Ok(Arr(items), j)
    decreases items, 3
  {
    hide Spec.ParseElements, Spec.Skip, DerivesItems;
    if items == [] {
      SkipTo(c, i + 1, j - 1);
    } else {
      DerivedItems(c, i + 1, j - 1, items, depth + 1);
    }
  }

  /** From i on the parser first skips to a byte that is neither blank nor this mark. */
  predicate Begins(c: Text, i: nat, end: byte) {
    i <= |c| && Spec.Skip(c, i) < |c| && c[Spec.Skip(c, i)] != end
  }

  lemma StartsValue(c: Text, i: nat, j: nat, v: J, depth: nat)
    requires Derives(c, i, j, v, depth)
    ensures !Spec.Sees(c, i, CLOSE_BRACKET)
  {
    hide Numerals.NumberAt, Consists, DerivesItems, DerivesMembers;
    match v
    case Null => assert c[i] == "null"[0] as int;
    case Bool(b) => assert c[i] == (if b then "true" else "false")[0] as int;
    case _ =>
  }

  /** A value between blanks is parsed, and the parser skips to what stands behind it. */
  lemma {:induction false} DerivedPadded(c: Text, i: nat, j: nat, v: J, depth: nat)
    requires Closed(c) && DerivesPadded(c, i, j, v, depth) && j < |c| && c[j] > 32
    ensures Begins(c, i, CLOSE_BRACKET) && ItemTo(c, i, depth, v, j)
    decreases v, 1
  {
    hide Spec.ParseValue, Derives, Spec.Skip;
    var a: nat, b: nat :| Blank(c, i, a) && Derives(c, a, b, v, depth) && Blank(c, b, j);
    DerivedBounds(c, a, b, v, depth);
    StartsValue(c, a, b, v, depth);
    SkipTo(c, i, a);
    Derived(c, a, b, v, depth);
    SkipTo(c, b, j);
  }

  lemma SkipTwice(c: Text, i: nat)
    requires i <= |c|
    ensures Spec.Skip(c, Spec.Skip(c, i)) == Spec.Skip(c, i)
  {
  }

  lemma {:induction false} DerivedItems(c: Text, i: nat, j: nat, items: seq<J>, depth: nat)
    requires Closed(c) && DerivesItems(c, i, j, items, depth) && Spec.Sees(c, j, CLOSE_BRACKET)
    ensures Begins(c, i, CLOSE_BRACKET) && Spec.ParseElements(c, i, depth) == Spec.Ok(items, j)
    ensures Spec.ParseElements(c, Spec.Skip(c, i), depth) == Spec.Ok(items, j)
    decreases items, 2
  {
    hide Spec.ParseElements, Spec.ParseValue, Spec.Skip, DerivesPadded;
    var first, rest := items[0], items[1..];
    if |items| == 1 {
      DerivedPadded(c, i, j, first, depth);
      SkipTwice(c, i);
      assert items == [first];
      LastItem(c, i, depth, first, j);
      LastItem(c, Spec.Skip(c, i), depth, first, j);
    } else {
      var m: nat :|
        DerivesPadded(c, i, m, first, depth) && CharAt(c, m, ',') && DerivesItems(c, m + 1, j, rest, depth);
      DerivedItems(c, m + 1, j, rest, depth);
      DerivedPadded(c, i, m, first, depth);
      SkipTwice(c, i);
      assert items == [first] + rest;
      MoreItems(c, i, depth, first, m, rest, j);
      MoreItems(c, Spec.Skip(c, i), depth, first, m, rest, j);
    }
  }

  /** The value v is read from p on, behind blanks, and behind it and more blanks the parser stops at e. */
  predicate ItemTo(c: Text, p: nat, depth: nat, v: J, e: nat) {
    p <= |c| && match Spec.ParseValue(c, Spec.Skip(c, p), depth)
                case Fail => false
                case Ok(w, end) => w == v && Spec.Skip(c, end) == e
  }

  lemma LastItem(c: Text, p: nat, depth: nat, v: J, j: nat)
    requires ItemTo(c, p, depth, v, j) && !Spec.Sees(c, j, COMMA)
    ensures Spec.ParseElements(c, p, depth) == Spec.Ok([v], j)
  {
    hide Spec.ParseValue, Spec.Skip;
  }

  lemma MoreItems(c: Text, p: nat, depth: nat, v: J, e: nat, rest: seq<J>, j: nat)
    requires ItemTo(c, p, depth, v, e) && Spec.Sees(c, e, COMMA)
    requires Spec.ParseElements(c, e + 1, depth) == Spec.Ok(rest, j)
    ensures Spec.ParseElements(c, p, depth) == Spec.Ok([v] + rest, j)
  {
    hide Spec.ParseValue, Spec.Skip;
  }

  lemma {:induction false} DerivedObject(c: Text, i: nat, j: nat, members: seq<Member>, depth: nat)
    requires Closed(c) && Derives(c, i, j, Obj(members), depth)
    ensures i <= |c| && Spec.Sees(c, i, OPEN_BRACE) && Spec.ParseObject(c, i, depth) == Spec.Ok(Obj(members), j)
    decreases members, 4
  {
    hide Spec.ParseMembers, Spec.Skip, DerivesMembers;
    if members == [] {
      SkipTo(c, i + 1, j - 1);
    } else {
      DerivedMembers(c, i + 1, j - 1, members, depth + 1);
    }
  }

  lemma {:induction false} DerivedMembers(c: Text, i: nat, j: nat, members: seq<Member>, depth: nat)
    requires Closed(c) && DerivesMembers(c, i, j, members, depth) && Spec.Sees(c, j, CLOSE_BRACE)
    ensures Begins(c, i, CLOSE_BRACE) && Spec.ParseMembers(c, i, depth) == Spec.Ok(members, j)
    ensures Spec.ParseMembers(c, Spec.Skip(c, i), depth) == Spec.Ok(members, j)
    decreases members, 3
  {
    hide Spec.ParseMember, Spec.ParseMembers, Spec.Skip, DerivesMember;
    var first, rest := members[0], members[1..];
    if |members| == 1 {
      DerivedMember(c, i, j, first, depth);
      assert members == [first];
      LastMember(c, i, depth, first, j);
      LastMember(c, Spec.Skip(c, i), depth, first, j);
    } else {
      var m: nat :|
        DerivesMember(c, i, m, first, depth) && CharAt(c, m, ',') && DerivesMembers(c, m + 1, j, rest, depth);
      DerivedMembers(c, m + 1, j, rest, depth);
      DerivedMember(c, i, m, first, depth);
      assert members == [first] + rest;
      MoreMembers(c, i, depth, first, m, rest, j);
      MoreMembers(c, Spec.Skip(c, i), depth, first, m, rest, j);
    }
  }

  lemma LastMember(c: Text, p: nat, depth: nat, m: Member, j: nat)
    requires p <= |c| && Spec.ParseMember(c, p, depth) == Spec.Ok(m, j) && !Spec.Sees(c, j, COMMA)
    ensures Spec.ParseMembers(c, p, depth) == Spec.Ok([m], j)
  {
    hide Spec.ParseMember;
  }

  lemma MoreMembers(c: Text, p: nat, depth: nat, m: Member, e: nat, rest: seq<Member>, j: nat)
    requires p <= |c| && Spec.ParseMember(c, p, depth) == Spec.Ok(m, e) && Spec.Sees(c, e, COMMA)
    requires Spec.ParseMembers(c, e + 1, depth) == Spec.Ok(rest, j)
    ensures Spec.ParseMembers(c, p, depth) == Spec.Ok([m] + rest, j)
  {
    hide Spec.ParseMember;
  }

  lemma {:induction false} DerivedMember(c: Text, i: nat, j: nat, m: Member, depth: nat)
    requires Closed(c) && DerivesMember(c, i, j, m, depth) && j < |c| && c[j] > 32
    ensures Begins(c, i, CLOSE_BRACE) && Spec.ParseMember(c, i, depth) == Spec.Ok(m, j)
    ensures Spec.ParseMember(c, Spec.Skip(c, i), depth) == Spec.Ok(m, j)
    decreases m, 2
  {
    hide Spec.ParseValue, Spec.ParseString, Spec.Skip, DerivesPadded, Quoted;
    var a: nat, b: nat, colon: nat :|
      && Blank(c, i, a) && Quoted(c, a, b, m.key)
      && Blank(c, b, colon) && CharAt(c, colon, ':') && DerivesPadded(c, colon + 1, j, m.value, depth);
    QuotedExact(c, a, m.key, b);
    StartsQuoted(c, a, b, m.key);
    SkipTo(c, i, a);
    SkipTo(c, b, colon);
    SkipTwice(c, i);
    DerivedPadded(c, colon + 1, j, m.value, depth);
  }

  // ---- The law ----

  /** At any offset and depth the parser finds exactly the values that are derived there. */
  lemma ParsesExactly(c: Text, i: nat, depth: nat, v: J, j: nat)
    requires Closed(c) && i <= |c|
    ensures Spec.ParseValue(c, i, depth) == Spec.Ok(v, j) <==> Derives(c, i, j, v, depth)
  {
    hide Spec.ParseValue, Derives;
    if Spec.ParseValue(c, i, depth) == Spec.Ok(v, j) {
      Parsed(c, i, depth, j, v);
    }
    if Derives(c, i, j, v, depth) {
      Derived(c, i, j, v, depth);
    }
  }

  lemma BomIsMark(c: Text)
    ensures Spec.BomEnd(c) == Start(c)
  {
    if |c| > 4 {
      assert c[..3] == [c[0], c[1], c[2]];
    }
  }

  /** A text is parsed to v, with its end at e, if and only if the grammar accepts it so. */
  lemma AcceptsExactly(c: Text, requireNul: bool, v: J, e: nat)
    requires Closed(c)
    ensures Spec.ParseText(c, requireNul) == Spec.Ok(v, e) <==> Accepts(c, requireNul, v, e)
    ensures Accepts(c, requireNul, v, e) ==> e < |c|
  {
    hide Spec.ParseValue, Derives, Spec.Skip, Spec.BomEnd, Blank;
    BomIsMark(c);
    var start := Start(c);
    if Spec.ParseText(c, requireNul) == Spec.Ok(v, e) {
      var i := Spec.Skip(c, start);
      var j := Spec.ParseValue(c, i, 0).end;
      SkipIsBlank(c, start);
      Parsed(c, i, 0, j, v);
      SkipIsBlank(c, j);
      assert Derives(c, i, j, v, 0);
    }
    if Accepts(c, requireNul, v, e) {
      var i: nat, j: nat :|
        && Blank(c, start, i) && Derives(c, i, j, v, 0)
        && if requireNul then Blank(c, j, |c|) && e == |c| - 1 else e == j;
      DerivedBounds(c, i, j, v, 0);
      Derived(c, i, j, v, 0);
      SkipTo(c, start, i);
      SkipIsBlank(c, j);
    }
  }

  /** A text is refused if and only if it is no value in the grammar. */
  lemma RefusesExactly(c: Text, requireNul: bool)
    requires Closed(c)
    ensures Spec.ParseText(c, requireNul).Fail? <==> Refused(c, requireNul)
  {
    hide Spec.ParseText, Accepts;
    var r := Spec.ParseText(c, requireNul);
    if r.Ok? {
      AcceptsExactly(c, requireNul, r.value, r.end);
    }
    if v, e :| Accepts(c, requireNul, v, e) {
      AcceptsExactly(c, requireNul, v, e);
    }
  }

  lemma EmptyRefused(requireNul: bool)
    ensures Refused([], requireNul)
  {
    hide DerivesItems, DerivesMembers;
  }

  /** The parser's offset when it fails: in or behind the value, or behind the blanks after it. */
  predicate Stopped(c: Text, position: nat) {
    var p := Spec.Skip(c, Spec.BomEnd(c));
    var r := Spec.ParseValue(c, p, 0);
    if r.Fail? then p <= position else position == Spec.Skip(c, r.end)
  }

  /** The parser stops at the first byte that is no blank or later, and behind a value at the next such byte. */
  lemma StopsExactly(c: Text, requireNul: bool, position: nat)
    requires Closed(c) && Spec.ParseText(c, requireNul).Fail?
    requires Stopped(c, position)
    ensures StopsAt(c, position)
  {
    hide Spec.ParseValue, Spec.Skip, Spec.BomEnd, Accepts, Blank;
    BomIsMark(c);
    forall i: nat | Blank(c, Start(c), i) && i < |c| && c[i] > 32 ensures i <= position {
      SkipTo(c, Start(c), i);
      StopsBehind(c, position);
    }
    forall v, e | Accepts(c, false, v, e) ensures Blank(c, e, position) && position < |c| && c[position] > 32 {
      AcceptsExactly(c, false, v, e);
      SkipIsBlank(c, e);
      NulIsBlank(c, e);
    }
  }

  lemma StopsBehind(c: Text, position: nat)
    requires Stopped(c, position)
    ensures Spec.Skip(c, Spec.BomEnd(c)) <= position
  {
  }

  lemma NulIsBlank(c: Text, e: nat)
    requires Closed(c) && e < |c|
    ensures c[Spec.Skip(c, e)] <= 32 ==> c[Spec.Skip(c, e)] == 0
  {
  }

  lemma StopsInside(c: Text, offset: nat)
    requires Closed(c) && Stopped(c, offset)
    ensures Stopped(c, if offset < |c| then offset else |c| - 1)
  {
    hide Spec.ParseValue;
    var p := Spec.Skip(c, Spec.BomEnd(c));
    match Spec.ParseValue(c, p, 0)
    case Fail =>
    case Ok(v, end) =>
      Parsed(c, p, 0, end, v);
      DerivedBounds(c, p, end, v, 0);
  }

  lemma NothingStops()
    ensures StopsAt([], 0)
  {
    EmptyRefused(false);
  }
}
