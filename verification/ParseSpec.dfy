/**
  What the recursive-descent parser of cJSON accepts and builds when every allocation
  succeeds, as pure functions over the input buffer `c` and an offset into it.
*/
module ParseSpec {
  import opened Bytes
  import opened Json
  import opened Numbers
  import opened Strings

  const NESTING_LIMIT: nat := 1000

  /** The characters of a number that fit parse_number's buffer of 64 bytes. */
  const NUMBER_ROOM: nat := 63

  datatype Parsed<+T> = Fail | Ok(value: T, end: nat)

  /** The first offset from `off` on that holds a byte above 32, or the buffer's length. */
  function BlankEnd(c: Text, off: nat): (e: nat)
    requires off <= |c|
    ensures off <= e <= |c|
    ensures forall k | off <= k < e :: c[k] <= SPACE
    ensures e < |c| ==> c[e] > SPACE
    decreases |c| - off
  {
    if off < |c| && c[off] <= SPACE then BlankEnd(c, off + 1) else off
  }

  /** buffer_skip_whitespace: past the blanks, but never past the last byte. */
  function Skip(c: Text, off: nat): (e: nat)
    requires off <= |c|
    ensures off <= e <= |c|
    ensures off < |c| ==> e < |c|
  {
    if off == |c| then off
    else
      var e := BlankEnd(c, off);
      if e == |c| then e - 1 else e
  }

  predicate Sees(c: Text, off: nat, b: byte) {
    off < |c| && c[off] == b
  }

  function ParseString(c: Text, off: nat): (r: Parsed<Text>)
    ensures r.Ok? ==> off + 2 <= r.end <= |c|
  {
    if !Sees(c, off, QUOTE) then Fail
    else
      match LiteralEnd(c, off + 1)
      case None => Fail
      case Some(end) =>
        match Unescape(c, off + 1, end)
        case None => Fail
        case Some(s) => Ok(s, end + 1)
  }

  function ParseNumber(c: Text, off: nat): (r: Parsed<J>)
    requires off <= |c|
    ensures r.Ok? ==> off < r.end <= |c| && (r.value.Num? || r.value.Inexact?)
  {
    var scanned := Strtod(c[off..off + NumberRun(c, off, NUMBER_ROOM)]);
    if scanned.used == 0 then Fail else Ok(NumberValue(scanned.value), off + scanned.used)
  }

  function NumberValue(d: real): J {
    if d == Saturate(d) as real then Num(Saturate(d)) else Inexact(Saturate(d))
  }

  predicate StartsNumber(c: Text, off: nat) {
    off < |c| && (c[off] == MINUS || IsDigit(c[off]))
  }

  /** `depth` counts the arrays and objects already open at `off`. */
  function ParseValue(c: Text, off: nat, depth: nat): (r: Parsed<J>)
    requires off <= |c|
    ensures r.Ok? ==> off < r.end <= |c|
    decreases |c| - off, 2
  {
    if StandsAt(c, off, NULL_TEXT) then Ok(Null, off + 4)
    else if StandsAt(c, off, FALSE_TEXT) then Ok(Bool(false), off + 5)
    else if StandsAt(c, off, TRUE_TEXT) then Ok(Bool(true), off + 4)
    else if Sees(c, off, QUOTE) then
      match ParseString(c, off)
      case Fail => Fail
      case Ok(s, end) => Ok(Str(s), end)
    else if StartsNumber(c, off) then ParseNumber(c, off)
    else if Sees(c, off, OPEN_BRACKET) then ParseArray(c, off, depth)
    else if Sees(c, off, OPEN_BRACE) then ParseObject(c, off, depth)
    else Fail
  }

  function ParseArray(c: Text, off: nat, depth: nat): (r: Parsed<J>)
    requires Sees(c, off, OPEN_BRACKET)
    ensures r.Ok? ==> off < r.end <= |c|
    decreases |c| - off, 1
  {
    var p := Skip(c, off + 1);
    if depth >= NESTING_LIMIT then Fail
    else if Sees(c, p, CLOSE_BRACKET) then Ok(Arr([]), p + 1)
    else
      match ParseElements(c, p, depth + 1)
      case Fail => Fail
      case Ok(items, e) => if Sees(c, e, CLOSE_BRACKET) then Ok(Arr(items), e + 1) else Fail
  }

  /** The elements from p on, up to the first one no comma follows. */
  function ParseElements(c: Text, p: nat, depth: nat): (r: Parsed<seq<J>>)
    requires p <= |c|
    ensures r.Ok? ==> p < r.end <= |c|
    decreases |c| - p, 3
  {
    match ParseValue(c, Skip(c, p), depth)
    case Fail => Fail
    case Ok(v, end) =>
      var e := Skip(c, end);
      if Sees(c, e, COMMA) then
        match ParseElements(c, e + 1, depth)
        case Fail => Fail
        case Ok(rest, z) => Ok([v] + rest, z)
      else Ok([v], e)
  }

  function ParseObject(c: Text, off: nat, depth: nat): (r: Parsed<J>)
    requires Sees(c, off, OPEN_BRACE)
    ensures r.Ok? ==> off < r.end <= |c|
    decreases |c| - off, 1
  {
    var p := Skip(c, off + 1);
    if depth >= NESTING_LIMIT then Fail
    else if Sees(c, p, CLOSE_BRACE) then Ok(Obj([]), p + 1)
    else
      match ParseMembers(c, p, depth + 1)
      case Fail => Fail
      case Ok(members, e) => if Sees(c, e, CLOSE_BRACE) then Ok(Obj(members), e + 1) else Fail
  }

  function ParseMembers(c: Text, p: nat, depth: nat): (r: Parsed<seq<Member>>)
    requires p <= |c|
    ensures r.Ok? ==> p < r.end <= |c|
    decreases |c| - p, 3
  {
    match ParseMember(c, p, depth)
    case Fail => Fail
    case Ok(m, e) =>
      if Sees(c, e, COMMA) then
        match ParseMembers(c, e + 1, depth)
        case Fail => Fail
        case Ok(rest, z) => Ok([m] + rest, z)
      else Ok([m], e)
  }

  /** One key, colon and value, and the blanks around them. */
  function ParseMember(c: Text, p: nat, depth: nat): (r: Parsed<Member>)
    requires p <= |c|
    ensures r.Ok? ==> p < r.end <= |c|
    decreases |c| - p, 2
  {
    match ParseString(c, Skip(c, p))
    case Fail => Fail
    case Ok(key, end) =>
      var colon := Skip(c, end);
      if !Sees(c, colon, COLON) then Fail
      else
        match ParseValue(c, Skip(c, colon + 1), depth)
        case Fail => Fail
        case Ok(v, z) => Ok(Member(key, v), Skip(c, z))
  }

  /** skip_utf8_bom at the start of the buffer. */
  function BomEnd(c: Text): (e: nat)
    ensures e <= |c|
  {
    if |c| > 4 && c[..3] == [0xEF, 0xBB, 0xBF] then 3 else 0
  }

  /** cJSON_ParseWithLengthOpts on a non-empty buffer; `end` is where *return_parse_end points. */
  function ParseText(c: Text, requireNul: bool): (r: Parsed<J>)
    ensures r.Ok? ==> 0 < r.end <= |c|
  {
    match ParseValue(c, Skip(c, BomEnd(c)), 0)
    case Fail => Fail
    case Ok(v, end) =>
      if !requireNul then Ok(v, end)
      else if Sees(c, Skip(c, end), NUL) then Ok(v, Skip(c, end))
      else Fail
  }
}
