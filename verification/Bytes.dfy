/**
  Bytes, C integer limits and C strings: the vocabulary shared by the models of
  the JSON engine.
*/
module Bytes {

  datatype Option<+T> = None | Some(value: T)

  type byte = b: int | 0 <= b < 256
  type Text = seq<byte>

  const INT_MAX: int := 0x7FFF_FFFF
  const INT_MIN: int := -0x8000_0000
  type int32 = n: int | INT_MIN <= n <= INT_MAX

  const NUL: byte := 0
  const BACKSPACE: byte := 8
  const TAB: byte := 9
  const NEWLINE: byte := 10
  const FORM_FEED: byte := 12
  const RETURN: byte := 13
  const SPACE: byte := 32
  const QUOTE: byte := 34
  const STAR: byte := 42
  const PLUS: byte := 43
  const COMMA: byte := 44
  const MINUS: byte := 45
  const DOT: byte := 46
  const SLASH: byte := 47
  const ZERO: byte := 48
  const NINE: byte := 57
  const COLON: byte := 58
  const UPPER_A: byte := 65
  const UPPER_E: byte := 69
  const UPPER_F: byte := 70
  const UPPER_Z: byte := 90
  const OPEN_BRACKET: byte := 91
  const BACKSLASH: byte := 92
  const CLOSE_BRACKET: byte := 93
  const LOWER_A: byte := 97
  const LOWER_B: byte := 98
  const LOWER_E: byte := 101
  const LOWER_F: byte := 102
  const LOWER_N: byte := 110
  const LOWER_R: byte := 114
  const LOWER_T: byte := 116
  const LOWER_U: byte := 117
  const OPEN_BRACE: byte := 123
  const CLOSE_BRACE: byte := 125

  const NULL_TEXT: Text := [110, 117, 108, 108]
  const TRUE_TEXT: Text := [116, 114, 117, 101]
  const FALSE_TEXT: Text := [102, 97, 108, 115, 101]

  /** What C's string functions see of a byte sequence: the part before its first NUL. */
  function CString(s: Text): (r: Text)
    ensures NUL !in r && r <= s
    ensures r == s || s[|r|] == NUL
  {
    if s == [] || s[0] == NUL then [] else [s[0]] + CString(s[1..])
  }

  lemma {:induction false} CStringOfNulFree(s: Text)
    requires NUL !in s
    ensures CString(s) == s
  {
  }

  lemma {:induction false} CStringOfText(s: Text, behind: Text)
    requires NUL !in s
    ensures CString(s + [NUL] + behind) == s
  {
    if s == [] {
      assert (s + [NUL] + behind)[0] == NUL;
    } else {
      CStringOfText(s[1..], behind);
      assert (s + [NUL] + behind)[1..] == s[1..] + [NUL] + behind;
    }
  }

  /** This ASCII character stands in `c` at offset `p`. */
  predicate CharAt(c: Text, p: nat, mark: char) {
    p < |c| && c[p] == mark as int
  }

  /** Text `t` stands in `c` at offset `p`. */
  predicate StandsAt(c: Text, p: nat, t: Text) {
    p + |t| <= |c| && c[p..p + |t|] == t
  }

  lemma StandsAtByte(c: Text, p: nat, t: Text, k: nat)
    requires StandsAt(c, p, t) && k < |t|
    ensures p + k < |c| && c[p + k] == t[k]
  {
    assert c[p..p + |t|][k] == t[k];
  }

  lemma StandsAtHead(c: Text, p: nat, t: Text)
    requires t != []
    ensures StandsAt(c, p, t) ==> p + |t| <= |c| && c[p] == t[0]
  {
    assert StandsAt(c, p, t) ==> c[p..p + |t|][0] == c[p];
  }

  lemma StandsAtSplit(c: Text, p: nat, a: Text, b: Text)
    ensures StandsAt(c, p, a + b) <==> StandsAt(c, p, a) && StandsAt(c, p + |a|, b)
    ensures StandsAt(c, p, a + b) ==> p + |a| + |b| <= |c|
  {
    if StandsAt(c, p, a + b) {
      assert c[p..p + |a|] == c[p..p + |a + b|][..|a|] == a;
      assert c[p + |a|..p + |a| + |b|] == c[p..p + |a + b|][|a|..] == b;
    }
    if StandsAt(c, p, a) && StandsAt(c, p + |a|, b) {
      assert c[p..p + |a + b|] == c[p..p + |a|] + c[p + |a|..p + |a| + |b|];
    }
  }

  lemma StandsAtAssoc(c: Text, p: nat, a: Text, b: Text, d: Text)
    requires StandsAt(c, p, a + b + d)
    ensures StandsAt(c, p, a) && StandsAt(c, p + |a|, b + d)
  {
    assert a + b + d == a + (b + d);
    StandsAtSplit(c, p, a, b + d);
  }
}
