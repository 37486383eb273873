/**
  Unicode escapes against an independent UTF-8 decoder written from the byte
  ranges of section 4 of RFC 3629.
*/
module Unicode {
  import opened Bytes
  import opened Strings

  // ---- A strict reference decoder ----

  predicate IsTail(b: byte) {
    0x80 <= b <= 0xBF
  }

  datatype Decoded = Malformed | Decoded(cp: Scalar, length: nat)

  /** Six payload bits per continuation byte, appended to the bits of the first byte. */
  function Join(high: nat, tail: byte): nat
    requires IsTail(tail)
  {
    high * 0x40 + (tail - 0x80)
  }

  /** The first character of a UTF-8 text, by the UTF8-1 ... UTF8-4 rules. */
  function DecodeFirst(t: Text): (d: Decoded)
    ensures d.Decoded? ==> 1 <= d.length <= |t|
  {
    if |t| >= 1 && t[0] <= 0x7F then Decoded(t[0], 1)
    else if |t| >= 2 && 0xC2 <= t[0] <= 0xDF && IsTail(t[1]) then
      Decoded(Join(t[0] - 0xC0, t[1]), 2)
    else if
      && |t| >= 3 && IsTail(t[2])
      && (|| (t[0] == 0xE0 && 0xA0 <= t[1] <= 0xBF)
          || (0xE1 <= t[0] <= 0xEC && IsTail(t[1]))
          || (t[0] == 0xED && 0x80 <= t[1] <= 0x9F)
          || (0xEE <= t[0] <= 0xEF && IsTail(t[1]))) then
      Decoded(Join(Join(t[0] - 0xE0, t[1]), t[2]), 3)
    else if
      && |t| >= 4 && IsTail(t[2]) && IsTail(t[3])
      && (|| (t[0] == 0xF0 && 0x90 <= t[1] <= 0xBF)
          || (0xF1 <= t[0] <= 0xF3 && IsTail(t[1]))
          || (t[0] == 0xF4 && 0x80 <= t[1] <= 0x8F)) then
      Decoded(Join(Join(Join(t[0] - 0xF0, t[1]), t[2]), t[3]), 4)
    else Malformed
  }

  function DecodeUtf8(t: Text): Option<seq<Scalar>> {
    if t == [] then Some([])
    else
      match DecodeFirst(t)
      case Malformed => None
      case Decoded(cp, length) =>
        var rest := DecodeUtf8(t[length..]);
        if rest.None? then None else Some([cp] + rest.value)
  }

  function EncodeAll(cps: seq<Scalar>): Text {
    if cps == [] then [] else EncodeUtf8(cps[0]) + EncodeAll(cps[1..])
  }

  lemma JoinOfContinuation(cp: nat)
    ensures IsTail(Continuation(cp)) && Join(cp / 0x40, Continuation(cp)) == cp
  {
  }

  lemma ContinuationOfJoin(high: nat, tail: byte)
    requires IsTail(tail)
    ensures Join(high, tail) / 0x40 == high && Continuation(Join(high, tail)) == tail
  {
  }

  /** The bytes of an encoding, by their number. */
  lemma EncodedBytes(cp: Scalar, rest: Text)
    ensures var e, q1 := EncodeUtf8(cp), cp / 0x40;
      var t, q2 := e + rest, q1 / 0x40;
      match |e|
      case 1 => t[0] == cp < 0x80
      case 2 => 2 <= q1 < 0x20 && t[0] == 0xC0 + q1 && t[1] == Continuation(cp)
      case 3 => 0x20 <= q1 < 0x400 && t[0] == 0xE0 + q2 && t[1] == Continuation(q1) && t[2] == Continuation(cp)
      case _ =>
        && 0x400 <= q1 <= 0x43FF && t[0] == 0xF0 + q2 / 0x40
        && t[1] == Continuation(q2) && t[2] == Continuation(q1) && t[3] == Continuation(cp)
  {
    var e := EncodeUtf8(cp);
    assert (e + rest)[..|e|] == e;
  }

  /** Only surrogates would have 0xED before a byte of at least 0xA0. */
  lemma SurrogateBytes(cp: nat)
    ensures cp / 0x40 / 0x40 == 0xD && cp / 0x40 % 0x40 >= 0x20 ==> IsHighSurrogate(cp) || IsLowSurrogate(cp)
  {
    if cp / 0x40 / 0x40 == 0xD && cp / 0x40 % 0x40 >= 0x20 {
      assert cp / 0x40 >= 0x360;
    }
  }

  lemma DecodeFirstOfEncoded(cp: Scalar, rest: Text)
    ensures DecodeFirst(EncodeUtf8(cp) + rest) == Decoded(cp, |EncodeUtf8(cp)|)
  {
    EncodedBytes(cp, rest);
    SurrogateBytes(cp);
    var q1 := cp / 0x40;
    JoinOfContinuation(cp);
    JoinOfContinuation(q1);
    JoinOfContinuation(q1 / 0x40);
    hide EncodeUtf8, Join;
    TailOfContinuation(cp);
    TailOfContinuation(q1);
    TailOfContinuation(q1 / 0x40);
  }

  lemma TailOfContinuation(cp: nat)
    ensures IsTail(Continuation(cp)) && Continuation(cp) == 0x80 + cp % 0x40
  {
  }

  /** Encoding is undone by the reference decoder. */
  lemma {:induction false} DecodeOfEncode(cps: seq<Scalar>)
    ensures DecodeUtf8(EncodeAll(cps)) == Some(cps)
  {
    if cps != [] {
      var first := EncodeUtf8(cps[0]);
      DecodeFirstOfEncoded(cps[0], EncodeAll(cps[1..]));
      assert EncodeAll(cps)[|first|..] == EncodeAll(cps[1..]);
      DecodeOfEncode(cps[1..]);
      assert [cps[0]] + cps[1..] == cps;
    }
  }

  lemma EncodeOfDecodedFirst(t: Text)
    requires DecodeFirst(t).Decoded?
    ensures EncodeUtf8(DecodeFirst(t).cp) == t[..DecodeFirst(t).length]
  {
    var Decoded(cp, length) := DecodeFirst(t);
    if length == 2 {
      ContinuationOfJoin(t[0] - 0xC0, t[1]);
    } else if length == 3 {
      ContinuationOfJoin(t[0] - 0xE0, t[1]);
      ContinuationOfJoin(Join(t[0] - 0xE0, t[1]), t[2]);
    } else if length == 4 {
      ContinuationOfJoin(t[0] - 0xF0, t[1]);
      ContinuationOfJoin(Join(t[0] - 0xF0, t[1]), t[2]);
      ContinuationOfJoin(Join(Join(t[0] - 0xF0, t[1]), t[2]), t[3]);
    }
  }

  /**
    Decoding is undone by encoding: whatever the decoder accepts is the one
    (hence shortest) encoding of the scalar values it stands for.
  */
  lemma {:induction false} EncodeOfDecode(t: Text)
    requires DecodeUtf8(t).Some?
    ensures EncodeAll(DecodeUtf8(t).value) == t
  {
    hide DecodeFirst, EncodeUtf8;
    if t != [] {
      var Decoded(cp, k) := DecodeFirst(t);
      var rest := DecodeUtf8(t[k..]).value;
      assert DecodeUtf8(t) == Some([cp] + rest);
      EncodeOfDecodedFirst(t);
      EncodeOfDecode(t[k..]);
      hide DecodeUtf8, EncodeAll;
      EncodeAllCons(cp, rest);
      assert t == t[..k] + t[k..];
    }
  }

  lemma EncodeAllCons(cp: Scalar, rest: seq<Scalar>)
    ensures EncodeAll([cp] + rest) == EncodeUtf8(cp) + EncodeAll(rest)
  {
    assert ([cp] + rest)[1..] == rest;
  }

  // ---- Escapes that spell scalar values ----

  /** \\uXXXX with the four hexadecimal digits (either case) of this code stands at i. */
  predicate EscapeAt(c: Text, i: nat, end: nat, code: nat)
    requires end < |c|
  {
    i + 6 <= end && c[i] == '\\' as int && c[i + 1] == 'u' as int && SpellsCode(c, i + 2, code)
  }

  /** A surrogate pair of escapes for cp stands at i. */
  predicate PairAt(c: Text, i: nat, end: nat, cp: Scalar)
    requires end < |c| && 0x10000 <= cp
  {
    && EscapeAt(c, i, end, 0xD800 + (cp - 0x10000) / 0x400)
    && EscapeAt(c, i + 6, end, 0xDC00 + (cp - 0x10000) % 0x400)
  }

  /** c[i..j] spells the scalar values cps as escapes, section 7 of RFC 8259. */
  predicate Spells(c: Text, i: nat, j: nat, end: nat, cps: seq<Scalar>)
    requires end < |c|
    decreases |cps|
  {
    if cps == [] then i == j
    else if cps[0] < 0x10000 then EscapeAt(c, i, end, cps[0]) && Spells(c, i + 6, j, end, cps[1..])
    else PairAt(c, i, end, cps[0]) && Spells(c, i + 12, j, end, cps[1..])
  }

  lemma LiteralOfScalar(c: Text, i: nat, end: nat, cp: Scalar)
    requires end < |c| && i <= end
    requires if cp < 0x10000 then EscapeAt(c, i, end, cp) else PairAt(c, i, end, cp)
    ensures Utf16Literal(c, i, end) == Utf16(if cp < 0x10000 then 6 else 12, EncodeUtf8(cp))
  {
    hide SpellsCode, Hex4, IsHex4;
    if cp < 0x10000 {
      Hex4Exact(c, i + 2, cp);
    } else {
      Hex4Exact(c, i + 2, 0xD800 + (cp - 0x10000) / 0x400);
      Hex4Exact(c, i + 8, 0xDC00 + (cp - 0x10000) % 0x400);
      assert FromSurrogates(0xD800 + (cp - 0x10000) / 0x400, 0xDC00 + (cp - 0x10000) % 0x400) == cp;
    }
  }

  lemma UnescapeOfScalar(c: Text, i: nat, end: nat, cp: Scalar)
    requires end < |c| && i <= end
    requires if cp < 0x10000 then EscapeAt(c, i, end, cp) else PairAt(c, i, end, cp)
    ensures Unescape(c, i, end) == Prepend(EncodeUtf8(cp), Unescape(c, i + (if cp < 0x10000 then 6 else 12), end))
    ensures i + (if cp < 0x10000 then 6 else 12) <= end
  {
    hide SpellsCode, Utf16Literal;
    LiteralOfScalar(c, i, end, cp);
  }

  /** Escapes that spell scalar values unescape to their encoding, followed by the rest. */
  lemma {:induction false} UnescapeOfSpelled(c: Text, i: nat, j: nat, end: nat, cps: seq<Scalar>)
    requires end < |c| && Spells(c, i, j, end, cps) && i <= end
    ensures i <= j <= end
    ensures Unescape(c, i, end) == Prepend(EncodeAll(cps), Unescape(c, j, end))
    decreases |cps|
  {
    hide EscapeAt, PairAt, EncodeUtf8, Unescape, Prepend;
    if cps == [] {
      PrependNothing(Unescape(c, j, end));
    } else {
      UnescapeOfScalar(c, i, end, cps[0]);
      UnescapeOfSpelled(c, if cps[0] < 0x10000 then i + 6 else i + 12, j, end, cps[1..]);
      PrependTwice(EncodeUtf8(cps[0]), EncodeAll(cps[1..]), Unescape(c, j, end));
    }
  }

  /**
    A literal whose contents spell scalar values is parsed into their UTF-8 form,
    from which the reference decoder recovers them.
  */
  lemma SpelledLiteralIsUtf8(c: Text, i: nat, end: nat, cps: seq<Scalar>)
    requires end < |c| && Spells(c, i, end, end, cps) && i <= end
    ensures Unescape(c, i, end) == Some(EncodeAll(cps))
    ensures DecodeUtf8(EncodeAll(cps)) == Some(cps)
  {
    UnescapeOfSpelled(c, i, end, end, cps);
    assert EncodeAll(cps) + [] == EncodeAll(cps);
    DecodeOfEncode(cps);
  }

  /** The escape of this surrogate stands at j and does not begin a well-formed pair. */
  predicate LoneSurrogateAt(c: Text, j: nat, end: nat, code: nat)
    requires end < |c|
  {
    && EscapeAt(c, j, end, code) && 0xD800 <= code <= 0xDFFF
    && (code < 0xDC00 ==> NoLowEscape(c, j + 6, end))
  }

  predicate NoLowEscape(c: Text, j: nat, end: nat)
    requires end < |c|
  {
    forall code | 0xDC00 <= code <= 0xDFFF :: !EscapeAt(c, j, end, code)
  }

  lemma SurrogateRejected(c: Text, j: nat, end: nat, code: nat)
    requires j < end < |c| && LoneSurrogateAt(c, j, end, code)
    ensures Utf16Literal(c, j, end) == BAD_UTF16
  {
    hide SpellsCode, Hex4, IsHex4;
    Hex4Exact(c, j + 2, code);
    if j + 12 <= end {
      Hex4Exact(c, j + 8, Hex4(c, j + 8));
      assert code < 0xDC00 && IsLowSurrogate(Hex4(c, j + 8)) ==> !EscapeAt(c, j + 6, end, Hex4(c, j + 8));
    }
  }

  /** A lone or mispaired surrogate after well-spelled characters makes the literal fail. */
  lemma LoneSurrogateRejected(c: Text, i: nat, j: nat, end: nat, cps: seq<Scalar>, code: nat)
    requires end < |c| && Spells(c, i, j, end, cps) && i <= end
    requires LoneSurrogateAt(c, j, end, code)
    ensures Unescape(c, i, end).None?
  {
    hide SpellsCode, Utf16Literal;
    UnescapeOfSpelled(c, i, j, end, cps);
    SurrogateRejected(c, j, end, code);
  }

  // ---- Exactly the accepted literals ----

  /** Digits that are not hexadecimal count as 0, but for the second half of a pair, where 0 is rejected. */
  lemma NotHexadecimal(c: Text, i: nat, end: nat, code: nat)
    requires i <= end <= |c|
    ensures i + 6 <= end && NoCode(c, i + 2) ==> Utf16Literal(c, i, end) == Utf16(6, [0])
    ensures i + 12 <= end && 0xD800 <= code <= 0xDBFF && SpellsCode(c, i + 2, code) && NoCode(c, i + 8) ==>
      Utf16Literal(c, i, end) == BAD_UTF16
  {
    hide SpellsCode, Hex4, IsHex4;
    if i + 6 <= end {
      Hex4Exact(c, i + 2, Hex4(c, i + 2));
      Hex4Exact(c, i + 2, code);
    }
    if i + 12 <= end {
      Hex4Exact(c, i + 8, Hex4(c, i + 8));
    }
  }

  /**
    What may stand at a position of a literal: a byte as it is, the escape of a byte, a code, or
    a pair of codes. A code of 0 may also be spelled by digits that are not hexadecimal.
  */
  datatype Piece = Plain(b: byte) | Simple(b: byte) | Code(code: CodeUnit) | Pair(cp: Scalar)

  /** What four hexadecimal digits can spell. */
  type CodeUnit = code: nat | code <= 0xFFFF

  function Length(piece: Piece): nat {
    match piece
    case Plain(_) => 1
    case Simple(_) => 2
    case Code(_) => 6
    case Pair(_) => 12
  }

  ghost predicate PieceAt(c: Text, i: nat, end: nat, piece: Piece)
    requires i < end < |c|
  {
    match piece
    case Plain(b) => c[i] == b && b != '\\' as int
    case Simple(b) => c[i] == '\\' as int && Escapes(c[i + 1], b)
    case Code(code) =>
      && c[i] == '\\' as int && c[i + 1] == 'u' as int && i + 6 <= end
      && (SpellsCode(c, i + 2, code) || (code == 0 && NoCode(c, i + 2)))
      && (code < 0xD800 || 0xDFFF < code)
    case Pair(cp) => 0x10000 <= cp && PairAt(c, i, end, cp)
  }

  function Meaning(piece: Piece): Text
  {
    match piece
    case Plain(b) => [b]
    case Simple(b) => [b]
    case Code(code) => EncodeUtf8(code)
    case Pair(cp) => EncodeUtf8(cp)
  }

  /** The literal consists of these pieces from i on. */
  ghost predicate Consists(c: Text, i: nat, end: nat, pieces: seq<Piece>)
    requires end < |c|
    decreases |pieces|
  {
    if i >= end then pieces == []
    else
      && pieces != [] && PieceAt(c, i, end, pieces[0])
      && Consists(c, i + Length(pieces[0]), end, pieces[1..])
  }

  function Meanings(pieces: seq<Piece>): Text
  {
    if pieces == [] then [] else Meaning(pieces[0]) + Meanings(pieces[1..])
  }

  lemma UnescapePiece(c: Text, i: nat, end: nat, piece: Piece)
    requires i < end < |c| && PieceAt(c, i, end, piece)
    ensures Unescape(c, i, end) == Prepend(Meaning(piece), Unescape(c, i + Length(piece), end))
  {
    hide SpellsCode, Hex4, IsHex4, Escapes, SimpleEscape, EncodeUtf8;
    match piece
    case Plain(_) =>
    case Simple(b) => SimpleEscapeExact(c[i + 1], b);
    case Code(code) =>
      Hex4Exact(c, i + 2, code);
      Hex4Exact(c, i + 2, Hex4(c, i + 2));
    case Pair(cp) => UnescapeOfScalar(c, i, end, cp);
  }

  /** A literal of such pieces is accepted, with the bytes they stand for. */
  lemma {:induction false} PiecesAccepted(c: Text, i: nat, end: nat, pieces: seq<Piece>)
    requires end < |c| && Consists(c, i, end, pieces)
    ensures Unescape(c, i, end) == Some(Meanings(pieces))
    decreases |pieces|
  {
    hide PieceAt, Meaning;
    if i < end {
      UnescapePiece(c, i, end, pieces[0]);
      PiecesAccepted(c, i + Length(pieces[0]), end, pieces[1..]);
    }
  }

  /** The piece at the start of an accepted literal. */
  lemma FirstPiece(c: Text, i: nat, end: nat) returns (piece: Piece)
    requires i < end < |c| && Unescape(c, i, end).Some?
    ensures PieceAt(c, i, end, piece) && Unescape(c, i + Length(piece), end).Some?
  {
    hide SpellsCode, Hex4, IsHex4, Escapes, SimpleEscape, EncodeUtf8;
    if c[i] != BACKSLASH {
      return Plain(c[i]);
    }
    if c[i + 1] != LOWER_U {
      SimpleEscapeExact(c[i + 1], SimpleEscape(c[i + 1]));
      return Simple(SimpleEscape(c[i + 1]));
    }
    piece := FirstCode(c, i, end);
  }

  lemma FirstCode(c: Text, i: nat, end: nat) returns (piece: Piece)
    requires i < end < |c| && c[i] == BACKSLASH && c[i + 1] == LOWER_U
    requires Utf16Literal(c, i, end).length > 0
    ensures PieceAt(c, i, end, piece) && Length(piece) == Utf16Literal(c, i, end).length
  {
    hide SpellsCode, Hex4, IsHex4, EncodeUtf8;
    var first := Hex4(c, i + 2);
    Hex4Exact(c, i + 2, first);
    if IsHighSurrogate(first) {
      var second := Hex4(c, i + 8);
      Hex4Exact(c, i + 8, second);
      return Pair(FromSurrogates(first, second));
    }
    CodeOrNone(c, i + 2);
    piece := Code(first);
  }

  lemma {:induction false} AcceptedPieces(c: Text, i: nat, end: nat) returns (pieces: seq<Piece>)
    requires end < |c| && Unescape(c, i, end).Some?
    ensures Consists(c, i, end, pieces)
    decreases end - i
  {
    hide PieceAt;
    if i >= end {
      return [];
    }
    var first := FirstPiece(c, i, end);
    var rest := AcceptedPieces(c, i + Length(first), end);
    pieces := [first] + rest;
    assert pieces[1..] == rest;
  }

  /**
    A literal is accepted if and only if it consists of plain bytes, simple escapes, codes that
    are no surrogates, and pairs of a high and a low surrogate in hexadecimal.
  */
  lemma AcceptedExactly(c: Text, i: nat, end: nat)
    requires end < |c|
    ensures Unescape(c, i, end).Some? <==> exists pieces :: Consists(c, i, end, pieces)
  {
    hide Consists, Unescape;
    if Unescape(c, i, end).Some? {
      var pieces := AcceptedPieces(c, i, end);
    }
    if pieces :| Consists(c, i, end, pieces) {
      PiecesAccepted(c, i, end, pieces);
    }
  }
}
