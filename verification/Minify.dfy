/**
  cJSON_Minify: removing blanks and comments from a text in place.

  The scanner copies strings as they are, and takes a string to end at the first quote
  that no backslash directly precedes. `Min` is the text it leaves. Minifying is
  idempotent; what it does to printed trees is the subject of module MinifyPrinted.
*/
module Minifying {
  import opened Bytes

  predicate IsBlank(b: byte) {
    b == SPACE || b == TAB || b == RETURN || b == NEWLINE
  }

  /** The length of the part of a string that follows its opening quote, closing quote included. */
  function StringSpan(t: Text): (k: nat)
    ensures k <= |t|
  {
    if t == [] then 0
    else if t[0] == QUOTE then 1
    else if t[0] == BACKSLASH && 1 < |t| && t[1] == QUOTE then 2 + StringSpan(t[2..])
    else 1 + StringSpan(t[1..])
  }

  /** The length of the part of a one-line comment that follows its opening. */
  function LineSpan(t: Text): (k: nat)
    ensures k <= |t|
  {
    if t == [] then 0 else if t[0] == NEWLINE then 1 else 1 + LineSpan(t[1..])
  }

  /** The length of the part of a multi-line comment that follows its opening. */
  function CommentSpan(t: Text): (k: nat)
    ensures k <= |t|
  {
    if t == [] then 0
    else if t[0] == STAR && 1 < |t| && t[1] == SLASH then 2
    else 1 + CommentSpan(t[1..])
  }

  /** The text that is left of the C string s. */
  function Min(s: Text): (m: Text)
    ensures |m| <= |s|
  {
    if s == [] then []
    else if IsBlank(s[0]) then Min(s[1..])
    else if s[0] == SLASH then
      if 1 < |s| && s[1] == SLASH then Min(s[2 + LineSpan(s[2..])..])
      else if 1 < |s| && s[1] == STAR then Min(s[2 + CommentSpan(s[2..])..])
      else Min(s[1..])
    else if s[0] == QUOTE then
      var end := 1 + StringSpan(s[1..]);
      s[..end] + Min(s[end..])
    else [s[0]] + Min(s[1..])
  }

  lemma MinOfNothing()
    ensures Min([]) == []
  {
  }

  // ---- Where strings and comments end ----

  /** A one-line comment with its contents from i on ends behind the first newline, or with the text. */
  predicate LineEnds(s: Text, i: nat, end: nat) {
    && i <= end <= |s|
    && (|| (i < end && s[end - 1] == '\n' as int && forall k | i <= k < end - 1 :: s[k] != '\n' as int)
        || (end == |s| && forall k | i <= k < end :: s[k] != '\n' as int))
  }

  /** The closing mark of a comment stands at k. */
  predicate ClosesAt(s: Text, k: nat) {
    k + 1 < |s| && s[k] == '*' as int && s[k + 1] == '/' as int
  }

  /** A comment of many lines ends behind the first closing mark, or with the text. */
  predicate CommentEnds(s: Text, i: nat, end: nat) {
    && i <= end <= |s|
    && (|| (i + 2 <= end && ClosesAt(s, end - 2) && forall k | i <= k < end - 2 :: !ClosesAt(s, k))
        || (end == |s| && forall k | i <= k < end :: !ClosesAt(s, k)))
  }

  /** A quote at k that no backslash of the string, which begins at i, directly precedes. */
  predicate QuoteAt(s: Text, i: nat, k: nat) {
    i <= k < |s| && s[k] == '"' as int && (i < k ==> s[k - 1] != '\\' as int)
  }

  /** What follows the opening quote of a string ends behind the first such quote, or with the text. */
  predicate StringEnds(s: Text, i: nat, end: nat) {
    && i <= end <= |s|
    && (|| (i < end && QuoteAt(s, i, end - 1) && forall k | i <= k < end - 1 :: !QuoteAt(s, i, k))
        || (end == |s| && forall k | i <= k < end :: !QuoteAt(s, i, k)))
  }

  lemma {:induction false} LineSpanExact(s: Text, i: nat)
    requires i <= |s|
    ensures LineEnds(s, i, i + LineSpan(s[i..]))
    decreases |s| - i
  {
    if i < |s| {
      assert s[i..][1..] == s[i + 1..];
      if s[i] != NEWLINE {
        LineSpanExact(s, i + 1);
      }
    }
  }

  lemma {:induction false} CommentSpanExact(s: Text, i: nat)
    requires i <= |s|
    ensures CommentEnds(s, i, i + CommentSpan(s[i..]))
    decreases |s| - i
  {
    if i < |s| {
      assert s[i..][1..] == s[i + 1..];
      if !ClosesAt(s, i) {
        CommentSpanExact(s, i + 1);
      }
    }
  }

  lemma {:induction false} StringSpanExact(s: Text, i: nat)
    requires i <= |s|
    ensures StringEnds(s, i, i + StringSpan(s[i..]))
    decreases |s| - i
  {
    SpanStep(s, i);
    hide StringSpan;
    if i < |s| && s[i] != QUOTE {
      var next := if i + 1 < |s| && s[i] == BACKSLASH && s[i + 1] == QUOTE then i + 2 else i + 1;
      StringSpanExact(s, next);
      assert forall k | next <= k :: QuoteAt(s, i, k) <==> QuoteAt(s, next, k);
    }
  }

  // ---- Idempotence ----

  /** No blank and no slash outside what the scanner takes for strings. */
  predicate Clean(s: Text) {
    s == [] ||
    if s[0] == QUOTE then Clean(s[1 + StringSpan(s[1..])..])
    else !IsBlank(s[0]) && s[0] != SLASH && Clean(s[1..])
  }

  /** Where a string ends does not depend on what follows its closing quote. */
  lemma {:induction false} SpanOfClosed(t: Text, x: Text)
    ensures StringSpan(t) < |t| ==> StringSpan(t[..StringSpan(t)] + x) == StringSpan(t)
  {
    if t != [] && t[0] != QUOTE {
      var k := if t[0] == BACKSLASH && 1 < |t| && t[1] == QUOTE then 2 else 1;
      SpanOfClosed(t[k..], x);
      var e := StringSpan(t[k..]);
      assert (t[..k + e] + x)[k..] == t[k..][..e] + x;
      if k == 1 && e < |t[1..]| && t[0] == BACKSLASH {
        SpanPositive(t[1..]);
      }
    }
  }

  lemma SpanPositive(t: Text)
    ensures t != [] ==> 0 < StringSpan(t)
  {
  }

  /** Minifying leaves no blank and no slash outside strings. */
  lemma {:induction false} MinIsClean(s: Text)
    ensures Clean(Min(s))
    decreases |s|
  {
    hide LineSpan, CommentSpan, StringSpan;
    if s == [] {
    } else if IsBlank(s[0]) {
      MinIsClean(s[1..]);
    } else if s[0] == SLASH {
      MinIsClean(s[1..]);
      if 1 < |s| {
        MinIsClean(s[2 + LineSpan(s[2..])..]);
        MinIsClean(s[2 + CommentSpan(s[2..])..]);
      }
    } else if s[0] == QUOTE {
      var span := StringSpan(s[1..]);
      var rest := Min(s[1 + span..]);
      MinIsClean(s[1 + span..]);
      assert Min(s)[1..] == s[1..][..span] + rest;
      if span < |s| - 1 {
        SpanOfClosed(s[1..], rest);
      } else {
        assert rest == [] && Min(s)[1..] == s[1..];
      }
      assert Min(s)[1 + span..] == rest;
    } else {
      MinIsClean(s[1..]);
      assert Min(s)[1..] == Min(s[1..]);
    }
  }

  /** The texts that minifying leaves alone are exactly the clean ones. */
  lemma {:induction false} FixedIffClean(s: Text)
    ensures Min(s) == s <==> Clean(s)
    decreases |s|
  {
    if s == [] {
    } else if s[0] == QUOTE {
      var end := 1 + StringSpan(s[1..]);
      FixedIffClean(s[end..]);
      assert s == s[..end] + s[end..];
      assert Min(s)[end..] == Min(s[end..]);
    } else if !IsBlank(s[0]) && s[0] != SLASH {
      FixedIffClean(s[1..]);
      assert s == [s[0]] + s[1..];
      assert Min(s)[1..] == Min(s[1..]);
    }
  }

  lemma Idempotent(s: Text)
    ensures Min(Min(s)) == Min(s)
  {
    MinIsClean(s);
    FixedIffClean(Min(s));
  }

  /** What is left of a C string is one. */
  lemma {:induction false} MinHasNoNul(s: Text)
    requires NUL !in s
    ensures NUL !in Min(s)
    decreases |s|
  {
    if s == [] {
    } else if s[0] == SLASH && 1 < |s| && s[1] == SLASH {
      MinHasNoNul(s[2 + LineSpan(s[2..])..]);
    } else if s[0] == SLASH && 1 < |s| && s[1] == STAR {
      MinHasNoNul(s[2 + CommentSpan(s[2..])..]);
    } else if s[0] == QUOTE {
      MinHasNoNul(s[1 + StringSpan(s[1..])..]);
    } else {
      MinHasNoNul(s[1..]);
    }
  }

  // ---- In place ----

  /** What is left to read of s, and the NUL behind it, still stand in the array. */
  ghost predicate Unread(a: array<byte>, s: Text, json: nat)
    reads a
    ensures Unread(a, s, json) ==> json <= |s| < a.Length
  {
    json <= |s| < a.Length && (forall k | json <= k < |s| :: a[k] == s[k]) && a[|s|] == NUL && NUL !in s
  }

  lemma UnreadByte(a: array<byte>, s: Text, json: nat, k: nat)
    requires Unread(a, s, json) && json <= k <= |s|
    ensures a[k] == if k < |s| then s[k] else NUL
    ensures Unread(a, s, k)
    ensures k < |s| ==> a[k] != NUL
  {
  }

  lemma LineStep(s: Text, i: nat)
    requires i <= |s|
    ensures LineSpan(s[i..])
         == if i == |s| then 0 else if s[i] == NEWLINE then 1 else 1 + LineSpan(s[i + 1..])
  {
    assert i < |s| ==> s[i..][1..] == s[i + 1..];
  }

  lemma CommentStep(s: Text, i: nat)
    requires i <= |s|
    ensures CommentSpan(s[i..])
         == if i == |s| then 0
            else if s[i] == STAR && i + 1 < |s| && s[i + 1] == SLASH then 2
            else 1 + CommentSpan(s[i + 1..])
  {
    assert i < |s| ==> s[i..][1..] == s[i + 1..];
  }

  method SkipOnelineComment(a: array<byte>, json: nat, ghost s: Text) returns (next: nat)
    requires Unread(a, s, json) && json + 2 <= |s|
    ensures next == json + 2 + LineSpan(s[json + 2..]) && next <= |s|
    ensures LineEnds(s, json + 2, next)
  {
    hide LineEnds, LineSpan;
    LineSpanExact(s, json + 2);
    next := json + 2;
    while a[next] != NUL
      invariant json + 2 <= next && Unread(a, s, next)
      invariant next + LineSpan(s[next..]) == json + 2 + LineSpan(s[json + 2..])
      decreases |s| - next
    {
      LineStep(s, next);
      if a[next] == NEWLINE {
        next := next + 1;
        return;
      }
      next := next + 1;
    }
    LineStep(s, next);
  }

  method SkipMultilineComment(a: array<byte>, json: nat, ghost s: Text) returns (next: nat)
    requires Unread(a, s, json) && json + 2 <= |s|
    ensures next == json + 2 + CommentSpan(s[json + 2..]) && next <= |s|
    ensures CommentEnds(s, json + 2, next)
  {
    hide CommentEnds, CommentSpan;
    CommentSpanExact(s, json + 2);
    next := json + 2;
    while a[next] != NUL
      invariant json + 2 <= next && Unread(a, s, next)
      invariant next + CommentSpan(s[next..]) == json + 2 + CommentSpan(s[json + 2..])
      decreases |s| - next
    {
      CommentStep(s, next);
      if a[next] == STAR && a[next + 1] == SLASH {
        next := next + 2;
        return;
      }
      next := next + 1;
    }
    CommentStep(s, next);
  }

  /** s[json..input] has been moved to the write cursor; the rest is unread. */
  ghost predicate Moved(a: array<byte>, s: Text, json: nat, into: nat, input: nat, output: nat)
    reads a
    ensures Moved(a, s, json, into, input, output) ==>
      into <= json <= input && output - into == input - json && Unread(a, s, input)
  {
    && into <= json <= input && output - into == input - json && Unread(a, s, input)
    && (forall k | into <= k < output :: a[k] == s[json + (k - into)])
  }

  /** One byte moves; the write cursor is not ahead of the read cursor. */
  method Move(a: array<byte>, ghost s: Text, ghost json: nat, ghost into: nat, input: nat, output: nat)
    requires Moved(a, s, json, into, input, output) && input < |s|
    modifies a
    ensures Moved(a, s, json, into, input + 1, output + 1) && a[input] == s[input]
    ensures forall k | 0 <= k < a.Length && k != output :: a[k] == old(a[k])
  {
    a[output] := a[input];
  }

  lemma SpanStep(s: Text, i: nat)
    requires i <= |s|
    ensures i == |s| ==> StringSpan(s[i..]) == 0
    ensures i < |s| && s[i] == QUOTE ==> StringSpan(s[i..]) == 1
    ensures i + 1 < |s| && s[i] == BACKSLASH && s[i + 1] == QUOTE ==> StringSpan(s[i..]) == 2 + StringSpan(s[i + 2..])
    ensures i < |s| && s[i] != QUOTE && !(i + 1 < |s| && s[i] == BACKSLASH && s[i + 1] == QUOTE) ==>
      StringSpan(s[i..]) == 1 + StringSpan(s[i + 1..])
  {
    if i < |s| {
      assert s[i..][1..] == s[i + 1..];
      assert i + 1 < |s| ==> s[i..][2..] == s[i + 2..];
    }
  }

  /** One round of the loop of minify_string; `closed` after the closing quote. */
  method MoveNext(a: array<byte>, ghost s: Text, ghost json: nat, ghost into: nat, input: nat, output: nat)
      returns (next: nat, closed: bool)
    requires Moved(a, s, json, into, input, output) && input < |s|
    modifies a
    ensures input < next && Moved(a, s, json, into, next, output + (next - input))
    ensures input + StringSpan(s[input..]) == if closed then next else next + StringSpan(s[next..])
    ensures forall k | 0 <= k < output || output + (next - input) <= k < a.Length :: a[k] == old(a[k])
  {
    UnreadByte(a, s, input, input + 1);
    SpanStep(s, input);
    hide Unread, Moved, StringSpan;
    Move(a, s, json, into, input, output);
    closed, next := a[input] == QUOTE, input + 1;
    if a[input] == BACKSLASH && a[input + 1] == QUOTE {
      Move(a, s, json, into, input + 1, output + 1);
      next := input + 2;
    }
  }

  /**
    minify_string: moves the string down to the write cursor, which stays behind the
    read cursor.
  */
  method MinifyString(a: array<byte>, json: nat, into: nat, ghost s: Text) returns (input: nat, output: nat)
    requires Unread(a, s, json) && json < |s| && into <= json
    modifies a
    ensures input == json + 1 + StringSpan(s[json + 1..]) && StringEnds(s, json + 1, input)
    ensures Moved(a, s, json, into, input, output)
    ensures forall k | 0 <= k < into || output <= k < a.Length :: a[k] == old(a[k])
  {
    hide StringSpan, StringEnds;
    StringSpanExact(s, json + 1);
    assert Moved(a, s, json, into, json, into);
    hide Unread, Moved;
    Move(a, s, json, into, json, into);
    input, output := json + 1, into + 1;
    while a[input] != NUL
      invariant json < input && Moved(a, s, json, into, input, output)
      invariant input + StringSpan(s[input..]) == json + 1 + StringSpan(s[json + 1..])
      invariant forall k | 0 <= k < into || output <= k < a.Length :: a[k] == old(a[k])
      decreases |s| - input
    {
      UnreadByte(a, s, input, input);
      var next, closed := MoveNext(a, s, json, into, input, output);
      input, output := next, output + (next - input);
      if closed {
        return;
      }
    }
    UnreadByte(a, s, input, input);
    SpanStep(s, input);
  }

  // The text left of s[i..], by the first bytes of it.

  lemma MinBlank(s: Text, i: nat)
    requires i < |s| && IsBlank(s[i])
    ensures Min(s[i..]) == Min(s[i + 1..])
  {
    assert s[i..][1..] == s[i + 1..];
  }

  lemma MinLine(s: Text, i: nat, end: nat)
    requires i + 2 <= |s| && s[i] == s[i + 1] == SLASH && end == i + 2 + LineSpan(s[i + 2..])
    ensures end <= |s| && Min(s[i..]) == Min(s[end..])
  {
    hide LineSpan;
    assert s[i..][2..] == s[i + 2..] && s[i..][end - i..] == s[end..];
  }

  lemma MinComment(s: Text, i: nat, end: nat)
    requires i + 2 <= |s| && s[i] == SLASH && s[i + 1] == STAR && end == i + 2 + CommentSpan(s[i + 2..])
    ensures end <= |s| && Min(s[i..]) == Min(s[end..])
  {
    hide CommentSpan;
    assert s[i..][2..] == s[i + 2..] && s[i..][end - i..] == s[end..];
  }

  lemma MinSlash(s: Text, i: nat)
    requires i < |s| && s[i] == SLASH && (i + 1 < |s| ==> s[i + 1] != SLASH && s[i + 1] != STAR)
    ensures Min(s[i..]) == Min(s[i + 1..])
  {
    assert s[i..][1..] == s[i + 1..];
  }

  lemma MinQuote(s: Text, i: nat, end: nat)
    requires i < |s| && s[i] == QUOTE && end == i + 1 + StringSpan(s[i + 1..])
    ensures end <= |s| && Min(s[i..]) == s[i..end] + Min(s[end..])
  {
    hide StringSpan;
    assert s[i..][1..] == s[i + 1..] && s[i..][..end - i] == s[i..end] && s[i..][end - i..] == s[end..];
  }

  lemma MinOther(s: Text, i: nat)
    requires i < |s| && !IsBlank(s[i]) && s[i] != SLASH && s[i] != QUOTE
    ensures Min(s[i..]) == s[i..i + 1] + Min(s[i + 1..])
  {
    assert s[i..][1..] == s[i + 1..] && s[i..i + 1] == [s[i..][0]];
  }

  /**
    The text `done` stands before the write cursor, and with what minifying the unread
    rest will leave it makes up the result.
  */
  ghost predicate Minified(a: array<byte>, s: Text, json: nat, into: nat, done: Text)
    reads a
    ensures Minified(a, s, json, into, done) ==> into == |done| <= json && Unread(a, s, json)
  {
    && into == |done| <= json && Unread(a, s, json)
    && (forall k | 0 <= k < into :: a[k] == done[k])
    && done + Min(s[json..]) == Min(s)
  }

  method SkipSlash(a: array<byte>, json: nat, ghost s: Text, ghost into: nat, ghost done: Text) returns (next: nat)
    requires Minified(a, s, json, into, done) && json < |s| && s[json] == SLASH
    ensures json < next && Minified(a, s, next, into, done)
  {
    UnreadByte(a, s, json, json);
    UnreadByte(a, s, json, json + 1);
    hide Min, LineSpan, CommentSpan, Unread;
    if a[json + 1] == SLASH {
      next := SkipOnelineComment(a, json, s);
      MinLine(s, json, next);
    } else if a[json + 1] == STAR {
      next := SkipMultilineComment(a, json, s);
      MinComment(s, json, next);
    } else {
      next := json + 1;
      MinSlash(s, json);
    }
    UnreadByte(a, s, json, next);
  }

  /** The piece s[json..input] has been moved down: what is left shrinks by it. */
  lemma Advanced(a: array<byte>, s: Text, json: nat, into: nat, input: nat, output: nat, done: Text)
    requires Moved(a, s, json, into, input, output)
    requires |done| == into && (forall k | 0 <= k < into :: a[k] == done[k])
    requires done + Min(s[json..]) == Min(s)
    requires Min(s[json..]) == s[json..input] + Min(s[input..])
    ensures Minified(a, s, input, output, done + s[json..input])
  {
    hide Min;
    assert done + (s[json..input] + Min(s[input..])) == done + s[json..input] + Min(s[input..]);
  }

  method CopyString(a: array<byte>, json: nat, into: nat, ghost s: Text, ghost done: Text)
      returns (input: nat, output: nat)
    requires Minified(a, s, json, into, done) && json < |s| && s[json] == QUOTE
    modifies a
    ensures json < input && input <= |s| && Minified(a, s, input, output, done + s[json..input])
    ensures forall k | output <= k < a.Length :: a[k] == old(a[k])
  {
    hide Min, StringSpan, Unread, Moved;
    input, output := MinifyString(a, json, into, s);
    MinQuote(s, json, input);
    assert forall k | 0 <= k < into :: a[k] == done[k];
    hide Minified;
    Advanced(a, s, json, into, input, output, done);
  }

  method CopyByte(a: array<byte>, json: nat, into: nat, ghost s: Text, ghost done: Text)
    requires Minified(a, s, json, into, done) && json < |s|
    requires !IsBlank(s[json]) && s[json] != SLASH && s[json] != QUOTE
    modifies a
    ensures Minified(a, s, json + 1, into + 1, done + s[json..json + 1])
    ensures forall k | into < k < a.Length :: a[k] == old(a[k])
  {
    MinOther(s, json);
    assert Moved(a, s, json, into, json, into);
    hide Min, StringSpan, Unread, Moved;
    Move(a, s, json, into, json, into);
    hide Minified;
    Advanced(a, s, json, into, json + 1, into + 1, done);
  }

  /** One round of the loop of cJSON_Minify. */
  method MinifyNext(a: array<byte>, json: nat, into: nat, ghost s: Text, ghost done: Text)
      returns (input: nat, output: nat, ghost now: Text)
    requires Minified(a, s, json, into, done) && json < |s|
    modifies a
    ensures json < input && into <= output && Minified(a, s, input, output, now)
    ensures forall k | output <= k < a.Length :: a[k] == old(a[k])
  {
    UnreadByte(a, s, json, json);
    input, output, now := json, into, done;
    if IsBlank(a[json]) {
      hide Min;
      MinBlank(s, json);
      input := json + 1;
    } else if a[json] == SLASH {
      hide *;
      input := SkipSlash(a, json, s, into, done);
    } else if a[json] == QUOTE {
      hide Min, StringSpan, Unread, Minified;
      input, output := CopyString(a, json, into, s, done);
      now := done + s[json..input];
    } else {
      hide Min, StringSpan, Unread, Minified;
      CopyByte(a, json, into, s, done);
      input, output := json + 1, into + 1;
      now := done + s[json..input];
    }
  }

  /** The loop of cJSON_Minify. */
  method MinifyAll(a: array<byte>, ghost s: Text) returns (into: nat)
    requires Unread(a, s, 0)
    modifies a
    ensures into == |Min(s)| <= |s| && forall k | 0 <= k < into :: a[k] == Min(s)[k]
    ensures forall k | into <= k < a.Length :: a[k] == old(a[k])
  {
    ghost var done: Text := [];
    assert s[0..] == s;
    var json: nat := 0;
    into := 0;
    assert done + Min(s[0..]) == Min(s);
    assert Minified(a, s, json, into, done);
    hide Min, Unread, Minified;
    while a[json] != NUL
      invariant Minified(a, s, json, into, done)
      invariant forall k | into <= k < a.Length :: a[k] == old(a[k])
      decreases |s| - json
    {
      UnreadByte(a, s, json, json);
      json, into, done := MinifyNext(a, json, into, s, done);
    }
    Finished(a, s, json, into, done);
  }

  lemma Finished(a: array<byte>, s: Text, json: nat, into: nat, done: Text)
    requires Minified(a, s, json, into, done) && a[json] == NUL
    ensures done == Min(s) && forall k | 0 <= k < into :: a[k] == done[k]
  {
    assert json == |s| && s[json..] == [];
  }

  lemma AllUnread(a: array<byte>)
    requires NUL in a[..]
    ensures Unread(a, CString(a[..]), 0)
  {
  }

  /** cJSON_Minify. */
  method Minify(a: array?<byte>)
    requires a != null ==> NUL in a[..]
    modifies if a == null then {} else {a}
    ensures a != null ==>
      var m := Min(CString(old(a[..])));
      a[..] == m + [NUL] + old(a[..])[|m| + 1..] && CString(a[..]) == m
  {
    hide Min, Unread, CString;
    if a == null {
      return;
    }
    ghost var s := CString(a[..]);
    AllUnread(a);
    MinHasNoNul(s);
    CStringOfText(Min(s), a[..][|Min(s)| + 1..]);
    var into := MinifyAll(a, s);
    a[into] := NUL;
  }
}
