/**
  What cJSON_Minify keeps, by the pieces a text consists of: blanks, comments and lone
  slashes go, strings and all other bytes stay. Every text is made of such pieces, and
  however it is, the rest is what minifying leaves.
*/
module Lexemes {
  import opened Bytes
  import opened Minifying

  /** A comment or a string that is not closed reaches to the end of the text. */
  datatype Lexeme =
    | Blank(b: byte)
    | Slash
    | Line(x: Text)
    | OpenLine(x: Text)
    | Comment(x: Text)
    | OpenComment(x: Text)
    | Quoted(x: Text)
    | OpenQuoted(x: Text)
    | Other(b: byte)

  function Spelling(l: Lexeme): Text {
    match l
    case Blank(b) => [b]
    case Slash => ['/' as int]
    case Line(x) => ['/' as int, '/' as int] + x + ['\n' as int]
    case OpenLine(x) => ['/' as int, '/' as int] + x
    case Comment(x) => ['/' as int, '*' as int] + x + ['*' as int, '/' as int]
    case OpenComment(x) => ['/' as int, '*' as int] + x
    case Quoted(x) => ['"' as int] + x + ['"' as int]
    case OpenQuoted(x) => ['"' as int] + x
    case Other(b) => [b]
  }

  function Kept(l: Lexeme): Text {
    if l.Quoted? || l.OpenQuoted? || l.Other? then Spelling(l) else []
  }

  predicate Uncommented(x: Text) {
    forall k | 0 <= k < |x| :: !ClosesAt(x, k)
  }

  predicate Unquoted(x: Text) {
    forall k | 0 <= k < |x| :: !QuoteAt(x, 0, k)
  }

  /** The piece can stand before this text. */
  predicate Fits(l: Lexeme, rest: Text) {
    match l
    case Blank(b) => b as char in " \t\r\n"
    case Slash => rest == [] || (rest[0] != '/' as int && rest[0] != '*' as int)
    case Line(x) => '\n' as int !in x
    case OpenLine(x) => '\n' as int !in x && rest == []
    case Comment(x) => Uncommented(x)
    case OpenComment(x) => Uncommented(x) && rest == []
    case Quoted(x) => Unquoted(x) && (x != [] ==> x[|x| - 1] != '\\' as int)
    case OpenQuoted(x) => Unquoted(x) && rest == []
    case Other(b) => b as char !in " \t\r\n/\""
  }

  function Spellings(ls: seq<Lexeme>): Text {
    if ls == [] then [] else Spelling(ls[0]) + Spellings(ls[1..])
  }

  function AllKept(ls: seq<Lexeme>): Text {
    if ls == [] then [] else Kept(ls[0]) + AllKept(ls[1..])
  }

  /** The pieces can stand one behind the other before this text. */
  predicate Fitting(ls: seq<Lexeme>, rest: Text) {
    ls == [] || (Fits(ls[0], Spellings(ls[1..]) + rest) && Fitting(ls[1..], rest))
  }

  // ---- One piece ----

  lemma LineEndsOnce(s: Text, i: nat, d: nat, e: nat)
    requires LineEnds(s, i, d) && LineEnds(s, i, e)
    ensures d == e
  {
  }

  lemma CommentEndsOnce(s: Text, i: nat, d: nat, e: nat)
    requires CommentEnds(s, i, d) && CommentEnds(s, i, e)
    ensures d == e
  {
  }

  lemma StringEndsOnce(s: Text, i: nat, d: nat, e: nat)
    requires StringEnds(s, i, d) && StringEnds(s, i, e)
    ensures d == e
  {
  }

  lemma LineAt(l: Lexeme, rest: Text)
    requires (l.Line? || l.OpenLine?) && Fits(l, rest)
    ensures LineEnds(Spelling(l) + rest, 2, |Spelling(l)|)
  {
    var s := Spelling(l) + rest;
    assert forall k | 0 <= k < |l.x| :: s[k + 2] == l.x[k];
  }

  lemma MinOfLine(l: Lexeme, rest: Text)
    requires (l.Line? || l.OpenLine?) && Fits(l, rest)
    ensures Min(Spelling(l) + rest) == Min(rest)
  {
    hide Min, LineEnds, LineSpan;
    var s, e := Spelling(l) + rest, |Spelling(l)|;
    LineAt(l, rest);
    LineSpanExact(s, 2);
    LineEndsOnce(s, 2, e, 2 + LineSpan(s[2..]));
    MinLine(s, 0, e);
    assert s[0..] == s && s[e..] == rest;
  }

  lemma CommentAt(l: Lexeme, rest: Text)
    requires (l.Comment? || l.OpenComment?) && Fits(l, rest)
    ensures CommentEnds(Spelling(l) + rest, 2, |Spelling(l)|)
  {
    var s, e := Spelling(l) + rest, |Spelling(l)|;
    forall k | 2 <= k < |l.x| + 2 ensures !ClosesAt(s, k) {
      assert !ClosesAt(l.x, k - 2) && s[k] == l.x[k - 2];
      assert k + 1 < |l.x| + 2 ==> s[k + 1] == l.x[k - 1];
    }
    assert l.Comment? ==> ClosesAt(s, e - 2);
  }

  lemma MinOfComment(l: Lexeme, rest: Text)
    requires (l.Comment? || l.OpenComment?) && Fits(l, rest)
    ensures Min(Spelling(l) + rest) == Min(rest)
  {
    hide Min, CommentEnds, CommentSpan;
    var s, e := Spelling(l) + rest, |Spelling(l)|;
    CommentAt(l, rest);
    CommentSpanExact(s, 2);
    CommentEndsOnce(s, 2, e, 2 + CommentSpan(s[2..]));
    MinComment(s, 0, e);
    assert s[0..] == s && s[e..] == rest;
  }

  lemma StringAt(l: Lexeme, rest: Text)
    requires (l.Quoted? || l.OpenQuoted?) && Fits(l, rest)
    ensures StringEnds(Spelling(l) + rest, 1, |Spelling(l)|)
  {
    var s, e := Spelling(l) + rest, |Spelling(l)|;
    forall k | 1 <= k < |l.x| + 1 ensures !QuoteAt(s, 1, k) {
      assert !QuoteAt(l.x, 0, k - 1) && s[k] == l.x[k - 1];
      assert 1 < k ==> s[k - 1] == l.x[k - 2];
    }
    assert l.Quoted? ==> QuoteAt(s, 1, e - 1);
  }

  lemma MinOfString(l: Lexeme, rest: Text)
    requires (l.Quoted? || l.OpenQuoted?) && Fits(l, rest)
    ensures Min(Spelling(l) + rest) == Spelling(l) + Min(rest)
  {
    hide Min, StringEnds, StringSpan;
    var s, e := Spelling(l) + rest, |Spelling(l)|;
    StringAt(l, rest);
    StringSpanExact(s, 1);
    StringEndsOnce(s, 1, e, 1 + StringSpan(s[1..]));
    MinQuote(s, 0, e);
    assert s[0..] == s && s[e..] == rest && s[0..e] == Spelling(l);
  }

  /** In front of any text a fitting piece adds what is kept of it. */
  lemma MinOfLexeme(l: Lexeme, rest: Text)
    requires Fits(l, rest)
    ensures Min(Spelling(l) + rest) == Kept(l) + Min(rest)
  {
    match l
    case Line(_) => MinOfLine(l, rest);
    case OpenLine(_) => MinOfLine(l, rest);
    case Comment(_) => MinOfComment(l, rest);
    case OpenComment(_) => MinOfComment(l, rest);
    case Quoted(_) => MinOfString(l, rest);
    case OpenQuoted(_) => MinOfString(l, rest);
    case _ => assert (Spelling(l) + rest)[1..] == rest;
  }

  lemma {:induction false} MinOfLexemes(ls: seq<Lexeme>, rest: Text)
    requires Fitting(ls, rest)
    ensures Min(Spellings(ls) + rest) == AllKept(ls) + Min(rest)
  {
    hide Min, Fits, Spelling, Kept;
    if ls == [] {
      assert Spellings(ls) + rest == rest;
    } else {
      MinOfLexeme(ls[0], Spellings(ls[1..]) + rest);
      MinOfLexemes(ls[1..], rest);
      assert Spellings(ls) + rest == Spelling(ls[0]) + (Spellings(ls[1..]) + rest);
    }
  }

  // ---- Every text ----

  lemma FirstLine(s: Text) returns (l: Lexeme, rest: Text)
    requires 1 < |s| && s[0] == SLASH && s[1] == SLASH
    ensures s == Spelling(l) + rest && Fits(l, rest) && |rest| < |s|
  {
    var e := 2 + LineSpan(s[2..]);
    LineSpanExact(s, 2);
    hide LineSpan;
    rest := s[e..];
    if 2 < e && s[e - 1] == NEWLINE {
      l := Line(s[2..e - 1]);
    } else {
      l := OpenLine(s[2..]);
    }
  }

  lemma FirstComment(s: Text) returns (l: Lexeme, rest: Text)
    requires 1 < |s| && s[0] == SLASH && s[1] == STAR
    ensures s == Spelling(l) + rest && Fits(l, rest) && |rest| < |s|
  {
    var e := 2 + CommentSpan(s[2..]);
    CommentSpanExact(s, 2);
    hide CommentSpan;
    rest := s[e..];
    if 4 <= e && ClosesAt(s, e - 2) {
      var x := s[2..e - 2];
      assert forall k | 0 <= k < |x| && ClosesAt(x, k) :: ClosesAt(s, k + 2);
      l := Comment(x);
    } else {
      var x := s[2..];
      assert forall k | 0 <= k < |x| && ClosesAt(x, k) :: ClosesAt(s, k + 2);
      l := OpenComment(x);
    }
  }

  lemma FirstString(s: Text) returns (l: Lexeme, rest: Text)
    requires s != [] && s[0] == QUOTE
    ensures s == Spelling(l) + rest && Fits(l, rest) && |rest| < |s|
  {
    hide StringSpan, StringEnds, Unquoted;
    var e := 1 + StringSpan(s[1..]);
    StringSpanExact(s, 1);
    StringEndParts(s, e);
    rest := s[e..];
    if StringClosed(s, e) {
      UnquotedPart(s, e - 1);
      l := Quoted(s[1..e - 1]);
      assert s[..e] == Spelling(l);
    } else {
      UnquotedPart(s, e);
      l := OpenQuoted(s[1..e]);
      assert s[..e] == Spelling(l);
    }
    assert s == s[..e] + s[e..];
  }

  /** The string that begins s is closed, by the quote before e. */
  predicate StringClosed(s: Text, e: nat) {
    1 < e <= |s| && s[e - 1] == QUOTE && (2 < e ==> s[e - 2] != BACKSLASH)
    && forall k | 1 <= k < e - 1 :: !QuoteAt(s, 1, k)
  }

  lemma StringEndParts(s: Text, e: nat)
    requires StringEnds(s, 1, e)
    ensures StringClosed(s, e) || (e == |s| && forall k | 1 <= k < e :: !QuoteAt(s, 1, k))
  {
  }

  lemma UnquotedPart(s: Text, e: nat)
    requires 1 <= e <= |s| && forall k | 1 <= k < e :: !QuoteAt(s, 1, k)
    ensures Unquoted(s[1..e])
  {
    var x := s[1..e];
    assert forall k | 0 <= k < |x| && QuoteAt(x, 0, k) :: QuoteAt(s, 1, k + 1);
  }

  lemma FirstLexeme(s: Text) returns (l: Lexeme, rest: Text)
    requires s != []
    ensures s == Spelling(l) + rest && Fits(l, rest) && |rest| < |s|
  {
    if s[0] == SLASH && 1 < |s| && s[1] == SLASH {
      l, rest := FirstLine(s);
    } else if s[0] == SLASH && 1 < |s| && s[1] == STAR {
      l, rest := FirstComment(s);
    } else if s[0] == QUOTE {
      l, rest := FirstString(s);
    } else {
      rest := s[1..];
      l := if s[0] == SLASH then Slash else if s[0] as char in " \t\r\n" then Blank(s[0]) else Other(s[0]);
    }
  }

  /** Every text is made of such pieces. */
  lemma {:induction false} LexemesOf(s: Text) returns (ls: seq<Lexeme>)
    ensures Spellings(ls) == s && Fitting(ls, [])
    decreases |s|
  {
    hide Fits, Spelling;
    if s == [] {
      return [];
    }
    var l, rest := FirstLexeme(s);
    var others := LexemesOf(rest);
    ls := [l] + others;
    assert ls[1..] == others && rest + [] == rest;
  }

  /** The pieces of a text, if these are some, and what they leave. */
  predicate Leaves(ls: seq<Lexeme>, s: Text, m: Text) {
    Fitting(ls, []) && Spellings(ls) == s && AllKept(ls) == m
  }

  /** Minifying leaves m of the text s if and only if s is made of pieces that leave m. */
  lemma MinExactly(s: Text, m: Text)
    ensures Min(s) == m <==> exists ls :: Leaves(ls, s, m)
  {
    hide Min, Fitting, Spellings, AllKept;
    forall ls | Fitting(ls, []) && Spellings(ls) == s ensures AllKept(ls) == Min(s) {
      MinOfLexemes(ls, []);
      MinOfNothing();
      assert s + [] == s && AllKept(ls) + [] == AllKept(ls);
    }
    var ls := LexemesOf(s);
    assert Leaves(ls, s, Min(s));
  }

  // ---- Comments ----

  /** Behind any pieces, and in front of any text, a fitting piece adds what is kept of it. */
  lemma MinBehind(before: seq<Lexeme>, l: Lexeme, rest: Text)
    requires Fitting(before, Spelling(l) + rest) && Fits(l, rest)
    ensures Min(Spellings(before) + (Spelling(l) + rest)) == AllKept(before) + (Kept(l) + Min(rest))
  {
    hide *;
    MinOfLexemes(before, Spelling(l) + rest);
    MinOfLexeme(l, rest);
  }

  /** Behind any pieces, a one-line comment goes with its newline, and one without a newline with all the rest. */
  lemma LineComment(before: seq<Lexeme>, x: Text, rest: Text)
    requires '\n' as int !in x
    ensures Fitting(before, Spelling(Line(x)) + rest) ==>
      Min(Spellings(before) + (['/' as int, '/' as int] + x + ['\n' as int] + rest)) == AllKept(before) + Min(rest)
    ensures Fitting(before, Spelling(OpenLine(x))) ==>
      Min(Spellings(before) + (['/' as int, '/' as int] + x)) == AllKept(before)
  {
    hide Min, Fitting, Spellings, AllKept;
    if Fitting(before, Spelling(Line(x)) + rest) {
      MinBehind(before, Line(x), rest);
      assert Kept(Line(x)) + Min(rest) == Min(rest);
    }
    assert Spelling(OpenLine(x)) + [] == Spelling(OpenLine(x));
    if Fitting(before, Spelling(OpenLine(x))) {
      MinBehind(before, OpenLine(x), []);
      MinOfNothing();
      assert AllKept(before) + (Kept(OpenLine(x)) + []) == AllKept(before);
    }
  }

  /** The same for a comment of many lines, up to its first closing mark. */
  lemma BlockComment(before: seq<Lexeme>, x: Text, rest: Text)
    requires forall k | 0 <= k < |x| - 1 :: !(x[k] == '*' as int && x[k + 1] == '/' as int)
    ensures Fitting(before, Spelling(Comment(x)) + rest) ==>
      Min(Spellings(before) + (['/' as int, '*' as int] + x + ['*' as int, '/' as int] + rest))
      == AllKept(before) + Min(rest)
    ensures Fitting(before, Spelling(OpenComment(x))) ==>
      Min(Spellings(before) + (['/' as int, '*' as int] + x)) == AllKept(before)
  {
    hide Min, Fitting, Spellings, AllKept;
    if Fitting(before, Spelling(Comment(x)) + rest) {
      MinBehind(before, Comment(x), rest);
      assert Kept(Comment(x)) + Min(rest) == Min(rest);
    }
    assert Spelling(OpenComment(x)) + [] == Spelling(OpenComment(x));
    if Fitting(before, Spelling(OpenComment(x))) {
      MinBehind(before, OpenComment(x), []);
      MinOfNothing();
      assert AllKept(before) + (Kept(OpenComment(x)) + []) == AllKept(before);
    }
  }
}
