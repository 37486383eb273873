/**
  Numbers as text: what sprintf("%d") writes, what strtod reads back, and the
  saturating conversion to `valueint`.
*/
module Numbers {
  import opened Bytes

  // ---- Printing ----

  /** The text of sprintf("%d", n) for n >= 0. */
  function DecNat(n: nat): (t: Text)
    ensures 0 < |t| && forall i | 0 <= i < |t| :: IsDigit(t[i])
  {
    if n < 10 then [ZERO + n] else DecNat(n / 10) + [ZERO + n % 10]
  }

  function Abs(n: int): nat {
    if n < 0 then -n else n
  }

  /** The text of sprintf("%d", n). */
  function Dec(n: int): (t: Text)
    ensures 0 < |t| && (t[0] == MINUS || IsDigit(t[0]))
    ensures forall i | 0 <= i < |t| :: IsNumberChar(t[i])
  {
    if n < 0 then [MINUS] + DecNat(Abs(n)) else DecNat(n)
  }

  lemma DecNatLength(n: nat, k: nat)
    requires 1 <= k && n < IntPow10(k)
    ensures |DecNat(n)| <= k
  {
    if n >= 10 {
      DecNatLength(n / 10, k - 1);
    }
  }

  function IntPow10(k: nat): int {
    if k == 0 then 1 else 10 * IntPow10(k - 1)
  }

  /** Every 32-bit integer fits the 25 characters print_number has room for. */
  lemma DecFits(n: int32)
    ensures |Dec(n)| <= 11
  {
    assert IntPow10(10) == 10_000_000_000 by {
      assert IntPow10(4) == 10_000;
      assert IntPow10(7) == 10_000_000;
    }
    DecNatLength(Abs(n), 10);
  }

  // ---- Reading ----

  predicate IsDigit(b: byte) {
    ZERO <= b <= NINE
  }

  /** The characters parse_number collects for strtod. */
  predicate IsNumberChar(b: byte) {
    IsDigit(b) || b == PLUS || b == MINUS || b == LOWER_E || b == UPPER_E || b == DOT
  }

  /** How many of at most `room` characters from `off` on are number characters. */
  function NumberRun(c: Text, off: nat, room: nat): (k: nat)
    ensures k <= room && (off <= |c| ==> off + k <= |c|)
    decreases room
  {
    if room == 0 || off >= |c| || !IsNumberChar(c[off]) then 0
    else 1 + NumberRun(c, off + 1, room - 1)
  }

  /** The first index from i on that holds no digit. */
  function DigitsEnd(t: Text, i: nat): (e: nat)
    requires i <= |t|
    ensures i <= e <= |t|
    ensures forall k | i <= k < e :: IsDigit(t[k])
    ensures e < |t| ==> !IsDigit(t[e])
    decreases |t| - i
  {
    if i < |t| && IsDigit(t[i]) then DigitsEnd(t, i + 1) else i
  }

  /** The number a string of digits spells. */
  function DigitsValue(t: Text): nat
    requires forall i | 0 <= i < |t| :: IsDigit(t[i])
  {
    if t == [] then 0
    else
      assert IsDigit(t[|t| - 1]);
      10 * DigitsValue(t[..|t| - 1]) + (t[|t| - 1] - ZERO)
  }

  function RealPow10(k: nat): (r: real)
    ensures r > 0.0
  {
    if k == 0 then 1.0 else 10.0 * RealPow10(k - 1)
  }

  datatype Scanned = Scanned(used: nat, value: real)

  /**
    strtod on a NUL-terminated copy of `t`, in the default locale and with its
    value kept exact instead of rounded to a double. It reads the longest prefix
    [sign] digits [. digits] [e [sign] digits] with at least one mantissa digit.
    `used == 0` says that there is none.
  */
  function Strtod(t: Text): (r: Scanned)
    ensures r.used <= |t|
  {
    var s := SignEnd(t, 0);
    var a := DigitsEnd(t, s);
    var b := if a < |t| && t[a] == DOT then DigitsEnd(t, a + 1) else a;
    var fraction := if a < b then t[a + 1..b] else [];
    if a == s && fraction == [] then Scanned(0, 0.0)
    else
      var digits := t[s..a] + fraction;
      assert forall k | 0 <= k < |digits| :: IsDigit(digits[k]) by {
        assert forall k | 0 <= k < a - s :: digits[k] == t[s + k];
        assert forall k | a - s <= k < |digits| :: digits[k] == fraction[k - (a - s)];
      }
      var mantissa := DigitsValue(digits) as real / RealPow10(|fraction|);
      var signed := if s == 1 && t[0] == MINUS then -mantissa else mantissa;
      Exponent(t, b, signed)
  }

  function SignEnd(t: Text, i: nat): (e: nat)
    requires i <= |t|
    ensures i <= e <= |t| && e <= i + 1
  {
    if i < |t| && (t[i] == MINUS || t[i] == PLUS) then i + 1 else i
  }

  function Exponent(t: Text, b: nat, mantissa: real): (r: Scanned)
    requires b <= |t|
    ensures b <= r.used <= |t|
  {
    if b < |t| && (t[b] == LOWER_E || t[b] == UPPER_E) then
      var k := SignEnd(t, b + 1);
      var d := DigitsEnd(t, k);
      if k == d then Scanned(b, mantissa)
      else if t[b + 1] == MINUS then Scanned(d, mantissa / RealPow10(DigitsValue(t[k..d])))
      else Scanned(d, mantissa * RealPow10(DigitsValue(t[k..d])))
    else Scanned(b, mantissa)
  }

  /** The saturating, truncating conversion of a double to `valueint`. */
  function Saturate(d: real): int32 {
    if d >= INT_MAX as real then INT_MAX
    else if d <= INT_MIN as real then INT_MIN
    else if d >= 0.0 then d.Floor
    else -(-d).Floor
  }

  // ---- Reading back what was printed ----

  lemma {:induction false} DigitsValueOfDecNat(n: nat)
    ensures DigitsValue(DecNat(n)) == n
  {
    if n < 10 {
      assert DecNat(n) == [ZERO + n];
      assert DecNat(n)[..0] == [];
    } else {
      var t := DecNat(n);
      assert t[..|t| - 1] == DecNat(n / 10);
      DigitsValueOfDecNat(n / 10);
    }
  }

  lemma DigitsEndOfAll(t: Text, i: nat)
    requires i <= |t| && forall k | i <= k < |t| :: IsDigit(t[k])
    ensures DigitsEnd(t, i) == |t|
  {
  }

  /** strtod reads the whole of a printed integer and yields that integer. */
  lemma StrtodReadsDec(n: int32)
    ensures Strtod(Dec(n)) == Scanned(|Dec(n)|, n as real)
  {
    var t := Dec(n);
    var m := Abs(n);
    var s := if n < 0 then 1 else 0;
    assert t[s..] == DecNat(m);
    assert IsDigit(t[s]);
    DigitsEndOfAll(t, s);
    DigitsValueOfDecNat(m);
    assert t[s..|t|] + [] == DecNat(m);
    assert RealPow10(0) == 1.0;
  }

  lemma SaturateOfInt(n: int32)
    ensures Saturate(n as real) == n
  {
  }

  lemma NumberRunStops(c: Text, p: nat, t: Text, room: nat)
    requires StandsAt(c, p, t) && |t| < room
    requires forall i | 0 <= i < |t| :: IsNumberChar(t[i])
    requires p + |t| == |c| || !IsNumberChar(c[p + |t|])
    ensures NumberRun(c, p, room) == |t|
    decreases room
  {
    if t != [] {
      assert c[p] == c[p..p + |t|][0] == t[0];
      assert c[p + 1..p + 1 + |t[1..]|] == c[p..p + |t|][1..] == t[1..];
      NumberRunStops(c, p + 1, t[1..], room - 1);
    }
  }
}
