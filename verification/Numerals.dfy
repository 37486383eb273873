/**
  The numerals strtod reads, by the positions of their parts: a sign or none, digits, a
  fraction or none, an exponent or none, each as long as possible. The scanner reads
  exactly these, with their positional values.
*/
module Numerals {
  import opened Bytes
  import opened Json
  import opened Numbers
  import Spec = ParseSpec

  predicate Digit(t: Text, k: nat) {
    k < |t| && '0' as int <= t[k] <= '9' as int
  }

  /** t[i..j] are all digits that stand in a row from i on. */
  predicate Digits(t: Text, i: nat, j: nat) {
    i <= j <= |t| && (forall k | i <= k < j :: Digit(t, k)) && !Digit(t, j)
  }

  predicate Sign(t: Text, i: nat, j: nat) {
    j == if CharAt(t, i, '+') || CharAt(t, i, '-') then i + 1 else i
  }

  /** Digits t[s..a] and a fraction with digits t[a + 1..b] or, where a == b, none. */
  predicate Mantissa(t: Text, s: nat, a: nat, b: nat) {
    Sign(t, 0, s) && Digits(t, s, a) && (if CharAt(t, a, '.') then Digits(t, a + 1, b) else b == a)
  }

  /** An exponent with digits t[k..z] stands at b. */
  predicate ExponentAt(t: Text, b: nat, k: nat, z: nat) {
    (CharAt(t, b, 'e') || CharAt(t, b, 'E')) && Sign(t, b + 1, k) && Digits(t, k, z) && k < z
  }

  function Power(base: real, k: int): real
    requires base != 0.0
    decreases if k < 0 then -k else k
  {
    if k == 0 then 1.0 else if k > 0 then base * Power(base, k - 1) else Power(base, k + 1) / base
  }

  /** The number digits spell, by their places. */
  function PlaceValue(t: Text): int {
    if t == [] then 0 else (t[0] - '0' as int) * IntPow10(|t| - 1) + PlaceValue(t[1..])
  }

  /** The value of the digits before and behind the point; the first one behind it counts tenths. */
  function PointValue(whole: Text, fraction: Text): real {
    PlaceValue(whole) as real + PlaceValue(fraction) as real * Power(10.0, 0 - |fraction|)
  }

  function MantissaValue(t: Text, s: nat, a: nat, b: nat): real
    requires s <= a <= b <= |t|
  {
    var size := PointValue(t[s..a], if a < b then t[a + 1..b] else []);
    if CharAt(t, 0, '-') then -size else size
  }

  /** The longest numeral at the start of t takes `used` bytes and has this value. */
  ghost predicate Numeral(t: Text, used: nat, value: real) {
    exists s: nat, a: nat, b: nat ::
      && Mantissa(t, s, a, b) && (s < a || a + 1 < b)
      && Scaled(t, b, MantissaValue(t, s, a, b), used, value)
  }

  /** The mantissa that ends at b is scaled by the exponent there, if there is one. */
  ghost predicate Scaled(t: Text, b: nat, mantissa: real, used: nat, value: real) {
    if exists k: nat, z: nat :: ExponentAt(t, b, k, z)
    then exists k: nat :: ExponentAt(t, b, k, used) && value == mantissa * ScaleAt(t, b, k, used)
    else used == b && value == mantissa
  }

  function ScaleAt(t: Text, b: nat, k: nat, z: nat): real
    requires ExponentAt(t, b, k, z)
  {
    Power(10.0, if CharAt(t, b + 1, '-') then -PlaceValue(t[k..z]) else PlaceValue(t[k..z]))
  }

  // ---- Parts ----

  lemma DigitsEndExact(t: Text, i: nat, j: nat)
    requires i <= |t|
    ensures Digits(t, i, j) <==> j == DigitsEnd(t, i)
  {
    var e := DigitsEnd(t, i);
    if Digits(t, i, j) {
      assert e < j ==> Digit(t, e);
    }
  }

  lemma SignEndExact(t: Text, i: nat, j: nat)
    requires i <= |t|
    ensures Sign(t, i, j) <==> j == SignEnd(t, i)
  {
  }

  // ---- Values ----

  lemma {:induction false} PlaceAppend(t: Text, d: byte)
    ensures PlaceValue(t + [d]) == 10 * PlaceValue(t) + (d - '0' as int)
  {
    if t == [] {
      assert (t + [d])[1..] == [];
      assert PlaceValue(t + [d]) == (d - '0' as int) * IntPow10(0) + PlaceValue([]);
    } else {
      PlaceAppend(t[1..], d);
      assert (t + [d])[1..] == t[1..] + [d];
      assert IntPow10(|t|) == 10 * IntPow10(|t| - 1);
      TenTimes(t[0] - '0' as int, IntPow10(|t| - 1));
    }
  }

  lemma TenTimes(d: int, p: int)
    ensures d * (10 * p) == 10 * (d * p)
  {
  }

  lemma {:induction false} PlaceJoin(x: Text, y: Text)
    ensures PlaceValue(x + y) == PlaceValue(x) * IntPow10(|y|) + PlaceValue(y)
    decreases |y|
  {
    if y == [] {
      assert x + y == x;
    } else {
      var n := |y| - 1;
      assert y == y[..n] + [y[n]] && x + y == (x + y[..n]) + [y[n]];
      PlaceAppend(x + y[..n], y[n]);
      PlaceAppend(y[..n], y[n]);
      PlaceJoin(x, y[..n]);
      TenTimes(PlaceValue(x), IntPow10(n));
    }
  }

  lemma {:induction false} DigitsValueIsPlaceValue(t: Text)
    requires forall i | 0 <= i < |t| :: IsDigit(t[i])
    ensures DigitsValue(t) == PlaceValue(t)
  {
    if t != [] {
      var n := |t| - 1;
      DigitsValueIsPlaceValue(t[..n]);
      PlaceAppend(t[..n], t[n]);
      assert t == t[..n] + [t[n]];
    }
  }

  lemma {:induction false} PowersOfTen(k: nat)
    ensures RealPow10(k) == Power(10.0, k) == IntPow10(k) as real
    ensures Power(10.0, 0 - k) == 1.0 / RealPow10(k)
  {
    if k > 0 {
      PowersOfTen(k - 1);
    }
  }

  /** What the scanner makes of the digits of a mantissa. */
  lemma MantissaExact(whole: Text, fraction: Text)
    requires forall i | 0 <= i < |whole + fraction| :: IsDigit((whole + fraction)[i])
    ensures DigitsValue(whole + fraction) as real / RealPow10(|fraction|) == PointValue(whole, fraction)
  {
    hide IntPow10, RealPow10, Power, PlaceValue, DigitsValue, IsDigit;
    DigitsValueIsPlaceValue(whole + fraction);
    PlaceJoin(whole, fraction);
    PowersOfTen(|fraction|);
    Divided(PlaceValue(whole), PlaceValue(fraction), IntPow10(|fraction|), RealPow10(|fraction|));
  }

  lemma Divided(x: int, y: int, p: int, r: real)
    requires p as real == r && r > 0.0
    ensures (x * p + y) as real / r == x as real + y as real * (1.0 / r)
  {
    assert (x * p) as real == x as real * r;
    DividedReal(x as real, y as real, r);
  }

  lemma DividedReal(x: real, y: real, r: real)
    requires r > 0.0
    ensures (x * r + y) / r == x + y * (1.0 / r)
  {
    var q := 1.0 / r;
    assert r * q == 1.0;
    assert (x * r + y) * q == x * (r * q) + y * q;
  }

  // ---- The scanner ----

  lemma PartsExact(t: Text, s: nat, a: nat, b: nat)
    ensures Mantissa(t, s, a, b) <==>
      && s == SignEnd(t, 0) && a == DigitsEnd(t, s)
      && b == if a < |t| && t[a] == DOT then DigitsEnd(t, a + 1) else a
  {
    hide Digits, Sign;
    SignEndExact(t, 0, s);
    if s <= |t| {
      DigitsEndExact(t, s, a);
      if a < |t| {
        DigitsEndExact(t, a + 1, b);
      }
    }
  }

  lemma ExponentExact(t: Text, b: nat, k: nat, z: nat)
    requires b <= |t|
    ensures ExponentAt(t, b, k, z) <==>
      && b < |t| && (t[b] == LOWER_E || t[b] == UPPER_E)
      && k == SignEnd(t, b + 1) && z == DigitsEnd(t, k) && k < z
  {
    hide Digits, Sign;
    if b < |t| {
      SignEndExact(t, b + 1, k);
      if k <= |t| {
        DigitsEndExact(t, k, z);
      }
    }
  }

  lemma ScaledExact(t: Text, b: nat, mantissa: real, used: nat, value: real)
    requires b <= |t|
    ensures Scaled(t, b, mantissa, used, value) <==> Exponent(t, b, mantissa) == Scanned(used, value)
  {
    hide ExponentAt, DigitsEnd, SignEnd, Power, RealPow10, PlaceValue, DigitsValue;
    forall k: nat, z: nat ensures ExponentAt(t, b, k, z) <==>
      && b < |t| && (t[b] == LOWER_E || t[b] == UPPER_E)
      && k == SignEnd(t, b + 1) && z == DigitsEnd(t, k) && k < z
    {
      ExponentExact(t, b, k, z);
    }
    if b < |t| && (t[b] == LOWER_E || t[b] == UPPER_E) {
      var k := SignEnd(t, b + 1);
      var z := DigitsEnd(t, k);
      assert k < z ==> ExponentAt(t, b, k, z);
      DigitsValueIsPlaceValue(t[k..z]);
      PowersOfTen(DigitsValue(t[k..z]));
    }
  }

  /** strtod reads the longest numeral at the start of its argument, and nothing if there is none. */
  lemma StrtodExact(t: Text, used: nat, value: real)
    ensures Numeral(t, used, value) <==> used > 0 && Strtod(t) == Scanned(used, value)
  {
    hide Digits, Sign, Scaled, Mantissa, Exponent, MantissaValue, IsDigit;
    var s := SignEnd(t, 0);
    var a := DigitsEnd(t, s);
    var b := if a < |t| && t[a] == DOT then DigitsEnd(t, a + 1) else a;
    forall s', a', b' ensures Mantissa(t, s', a', b') <==> s' == s && a' == a && b' == b {
      PartsExact(t, s', a', b');
    }
    if s < a || a + 1 < b {
      var m := MantissaValue(t, s, a, b);
      assert Mantissa(t, s, a, b);
      StrtodOfParts(t, s, a, b);
      ScaledExact(t, b, m, used, value);
    }
  }

  lemma StrtodOfParts(t: Text, s: nat, a: nat, b: nat)
    requires Mantissa(t, s, a, b) && (s < a || a + 1 < b)
    ensures s <= a <= b <= |t| && Strtod(t) == Exponent(t, b, MantissaValue(t, s, a, b))
  {
    hide Digits, Sign, Mantissa, Exponent, PointValue, RealPow10, DigitsValue, IsDigit;
    PartsExact(t, s, a, b);
    DigitsTo(t, s, a);
    DigitsTo(t, a + 1, b);
    var whole, fraction := t[s..a], if a < b then t[a + 1..b] else [];
    AllDigits(whole, fraction);
    MantissaExact(whole, fraction);
    var size := DigitsValue(whole + fraction) as real / RealPow10(|fraction|);
    assert Strtod(t) == Exponent(t, b, if s == 1 && t[0] == MINUS then -size else size);
  }

  lemma DigitsTo(t: Text, i: nat, e: nat)
    ensures i <= e <= |t| && e == DigitsEnd(t, i) ==> forall k | 0 <= k < e - i :: IsDigit(t[i..e][k])
  {
  }

  lemma AllDigits(whole: Text, fraction: Text)
    requires forall i | 0 <= i < |whole| :: IsDigit(whole[i])
    requires forall i | 0 <= i < |fraction| :: IsDigit(fraction[i])
    ensures forall i | 0 <= i < |whole + fraction| :: IsDigit((whole + fraction)[i])
  {
  }

  // ---- Numbers of a text ----

  predicate NumberByte(b: byte) {
    b as char in "0123456789+-.eE"
  }

  /** c[i..w] are the bytes from i on that may belong to a number, but at most 63. */
  predicate Window(c: Text, i: nat, w: nat) {
    && i <= w <= |c| && w - i <= 63 && (forall k | i <= k < w :: NumberByte(c[k]))
    && (w - i == 63 || w == |c| || !NumberByte(c[w]))
  }

  /** A numeral with the value d stands in c[i..j]; of what follows it is the longest within the window. */
  ghost predicate NumeralIn(c: Text, i: nat, j: nat, d: real) {
    exists w: nat :: Window(c, i, w) && i <= j && Numeral(c[i..w], j - i, d)
  }

  /** The number v stands in c[i..j]. */
  ghost predicate NumberAt(c: Text, i: nat, j: nat, v: J) {
    exists d: real :: NumeralIn(c, i, j, d) && Denotes(v, d)
  }

  /** d without its fraction, or the nearest integer of 32 bits if it is beyond them. */
  predicate Truncated(n: int32, d: real) {
    if d >= 2147483647.0 then n == 2147483647
    else if d <= -2147483648.0 then n == -2147483648
    else if d >= 0.0 then 0.0 <= n as real <= d < n as real + 1.0
    else n as real - 1.0 < d <= n as real <= 0.0
  }

  /** v stands for d: exactly, if d is an integer of 32 bits. */
  predicate Denotes(v: J, d: real) {
    || (v.Num? && d == v.n as real)
    || (v.Inexact? && d != v.n as real && Truncated(v.n, d))
  }

  lemma Between(m: int, n: int, d: real)
    requires m as real - 1.0 < d < m as real + 1.0 && n as real - 1.0 < d < n as real + 1.0
    requires (m as real <= d && n as real <= d) || (m as real >= d && n as real >= d)
    ensures m == n
  {
  }

  /** The conversion to `valueint` truncates toward zero and saturates at both ends. */
  lemma SaturateExact(n: int32, d: real)
    ensures Truncated(n, d) <==> n == Saturate(d)
  {
    if Truncated(n, d) && -2147483648.0 < d < 2147483647.0 {
      assert if d >= 0.0 then Saturate(d) == d.Floor else Saturate(d) == -(-d).Floor;
      Between(n, Saturate(d), d);
    }
  }

  lemma DenotesExact(v: J, d: real)
    ensures Denotes(v, d) <==> v == Spec.NumberValue(d)
  {
    hide Truncated, Saturate;
    if v.Num? && d == v.n as real {
      SaturateOfInt(v.n);
    } else if v.Inexact? {
      SaturateExact(v.n, d);
    }
  }

  lemma {:induction false} RunExact(c: Text, i: nat, room: nat)
    requires i <= |c|
    ensures var w := i + NumberRun(c, i, room);
      && (forall k | i <= k < w :: NumberByte(c[k]))
      && (w - i == room || w == |c| || !NumberByte(c[w]))
    decreases room
  {
    hide IsNumberChar, NumberByte;
    if room > 0 && i < |c| {
      SameBytes(c[i]);
      if IsNumberChar(c[i]) {
        RunExact(c, i + 1, room - 1);
      }
    }
  }

  lemma SameBytes(b: byte)
    ensures IsNumberChar(b) <==> NumberByte(b)
  {
  }

  lemma WindowExact(c: Text, i: nat, w: nat)
    requires i <= |c|
    ensures Window(c, i, w) <==> w == i + NumberRun(c, i, 63)
  {
    RunExact(c, i, 63);
  }

  /** What strtod makes of the number characters from i on. */
  function ScannedAt(c: Text, i: nat): Scanned
    requires i <= |c|
  {
    Strtod(c[i..i + NumberRun(c, i, 63)])
  }

  lemma ScannedExactly(c: Text, i: nat, j: nat, d: real)
    requires i <= |c|
    ensures NumeralIn(c, i, j, d) <==> i < j && ScannedAt(c, i) == Scanned(j - i, d)
  {
    hide Strtod, Numeral, Window, NumberRun;
    var w := i + NumberRun(c, i, 63);
    forall w': nat ensures Window(c, i, w') <==> w' == w {
      WindowExact(c, i, w');
    }
    if i <= j {
      StrtodExact(c[i..w], j - i, d);
    }
  }

  /** parse_number reads exactly the numbers of this grammar. */
  lemma NumberExact(c: Text, i: nat, v: J, j: nat)
    requires i <= |c|
    ensures Spec.ParseNumber(c, i) == Spec.Ok(v, j) <==> NumberAt(c, i, j, v)
  {
    hide Strtod, NumeralIn, NumberRun, Denotes, Spec.NumberValue;
    forall d: real ensures NumeralIn(c, i, j, d) <==> i < j && ScannedAt(c, i) == Scanned(j - i, d) {
      ScannedExactly(c, i, j, d);
    }
    DenotesExact(v, ScannedAt(c, i).value);
  }

  // ---- Printed integers ----

  lemma {:induction false} FirstDigit(n: nat)
    requires n > 0
    ensures DecNat(n)[0] != '0' as int
  {
    if n >= 10 {
      FirstDigit(n / 10);
    }
  }

  /** An integer is printed with a sign if it is negative, without zeros in front, and with its value. */
  lemma DecExact(n: int)
    ensures var t, s := Dec(n), if n < 0 then 1 else 0;
      && (CharAt(t, 0, '-') <==> n < 0) && s < |t| && Digits(t, s, |t|)
      && (CharAt(t, s, '0') ==> n == 0 && |t| == 1)
      && PlaceValue(t[s..]) == if n < 0 then -n else n
  {
    var t, s := Dec(n), if n < 0 then 1 else 0;
    assert t[s..] == DecNat(Abs(n));
    assert IsDigit(t[s..][0]);
    DigitsValueOfDecNat(Abs(n));
    DigitsValueIsPlaceValue(t[s..]);
    if n != 0 {
      FirstDigit(Abs(n));
    }
    hide DecNat, DigitsValue, PlaceValue;
    forall k | s <= k < |t| ensures Digit(t, k) {
      assert IsDigit(t[s..][k - s]);
    }
  }
}
