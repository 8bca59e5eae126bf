/** Decimal text and numbers: the parts of Go's `strconv` the model relies on.
    `Itoa` renders an integer the way `strconv.Itoa` does; `Atoi` is its inverse,
    used only to state what a rendered count means. `ParseDecimal` reads the
    number literal accepted by the rule decoder's grammar. */
module Strconv {
  import opened Wrappers

  predicate IsDigit(c: char) {
    '0' <= c <= '9'
  }

  predicate AllDigits(s: string) {
    forall i :: 0 <= i < |s| ==> IsDigit(s[i])
  }

  predicate HasDigit(s: string) {
    exists i :: 0 <= i < |s| && IsDigit(s[i])
  }

  function DigitValue(c: char): (d: nat)
    requires IsDigit(c)
    ensures d < 10
  {
    (c as int) - ('0' as int)
  }

  function DigitChar(d: nat): (c: char)
    requires d < 10
    ensures IsDigit(c) && DigitValue(c) == d
  {
    (('0' as int) + d) as char
  }

  /** The value of a string of decimal digits, most significant first; "" reads as 0. */
  function DigitsValue(s: string): nat
    requires AllDigits(s)
  {
    if |s| == 0 then 0 else 10 * DigitsValue(s[..|s| - 1]) + DigitValue(s[|s| - 1])
  }

  function Pow10(n: nat): (p: nat)
    ensures p >= 1
  {
    if n == 0 then 1 else 10 * Pow10(n - 1)
  }

  /** Canonical decimal digits of a natural number: no leading zero except "0" itself. */
  function NatToDigits(n: nat): (s: string)
    ensures |s| >= 1 && AllDigits(s)
    ensures DigitsValue(s) == n
    ensures s[0] == '0' ==> s == "0"
    decreases n
  {
    if n < 10 then [DigitChar(n)]
    else
      var prefix := NatToDigits(n / 10);
      var s := prefix + [DigitChar(n % 10)];
      assert s[..|s| - 1] == prefix;
      s
  }

  /** `strconv.Itoa`: a leading '-' for negative numbers, then the canonical digits. */
  function Itoa(n: int): string {
    if n < 0 then "-" + NatToDigits(-n) else NatToDigits(n)
  }

  /** Reads an optionally '-'-signed, non-empty string of digits. */
  function Atoi(s: string): Option<int> {
    if |s| > 0 && s[0] == '-' then
      if |s| > 1 && AllDigits(s[1..]) then Some(-(DigitsValue(s[1..]) as int)) else None
    else if |s| > 0 && AllDigits(s) then Some(DigitsValue(s))
    else None
  }

  /** Reading back a rendered integer gives the integer. */
  lemma ItoaRoundTrip(n: int)
    ensures Atoi(Itoa(n)) == Some(n)
  {
    if n < 0 {
      var d := NatToDigits(-n);
      assert Itoa(n)[1..] == d;
    }
  }

  /** Index of the first '.', or |s| when there is none. */
  function DotIndex(s: string): (k: nat)
    ensures k <= |s|
    ensures k < |s| ==> s[k] == '.'
    ensures forall i :: 0 <= i < k ==> s[i] != '.'
  {
    if |s| == 0 then 0
    else if s[0] == '.' then 0
    else 1 + DotIndex(s[1..])
  }

  /** Digits before the literal's '.' (all of it when there is none). */
  function IntPart(s: string): string {
    s[..DotIndex(s)]
  }

  /** Digits after the literal's '.' ("" when there is none). */
  function FracPart(s: string): string {
    var k := DotIndex(s);
    if k == |s| then "" else s[k + 1..]
  }

  /** The number group of the decoder grammar: digits, optionally one '.' and more digits.
      The empty string and "." belong to it. */
  predicate IsNumberLiteral(s: string) {
    AllDigits(IntPart(s)) && AllDigits(FracPart(s))
  }

  /** `strconv.ParseFloat` on a number literal, as an exact rational: the literal
      fails to parse exactly when it holds no digit at all; otherwise its value
      is its digits, read without the '.', over ten to the number of fractional
      digits. */
  function ParseDecimal(s: string): (r: Option<real>)
    requires IsNumberLiteral(s)
    ensures r.None? <==> !HasDigit(s)
    ensures r.Some? ==> r.value >= 0.0
    ensures r.Some? ==>
      && AllDigits(IntPart(s) + FracPart(s))
      && r.value == DigitsValue(IntPart(s) + FracPart(s)) as real / Pow10(|FracPart(s)|) as real
  {
    var ip := IntPart(s);
    var fp := FracPart(s);
    LiteralDigits(s);
    if |ip| + |fp| == 0 then None
    else
      DecimalValue(ip, fp);
      Some(DigitsValue(ip) as real + DigitsValue(fp) as real / Pow10(|fp|) as real)
  }

  /** The integer part plus the scaled fraction is the whole digit string scaled once. */
  lemma {:induction false} DecimalValue(ip: string, fp: string)
    requires AllDigits(ip) && AllDigits(fp)
    ensures AllDigits(ip + fp)
    ensures DigitsValue(ip) as real + DigitsValue(fp) as real / Pow10(|fp|) as real
         == DigitsValue(ip + fp) as real / Pow10(|fp|) as real
  {
    DigitsConcat(ip, fp);
    ScaledSum(DigitsValue(ip + fp), DigitsValue(ip), Pow10(|fp|), DigitsValue(fp));
  }

  /** When n = x p + y over the integers, x + y / p = n / p over the reals. */
  lemma {:induction false} ScaledSum(n: int, x: int, p: int, y: int)
    requires p >= 1 && n == x * p + y
    ensures x as real + y as real / p as real == n as real / p as real
  {
    var pr := p as real;
    assert n as real == x as real * pr + y as real by {
      IntProductAsReal(x, p);
    }
    ShiftDivide(x as real, y as real, pr);
  }

  /** Multiplying integers and then converting is converting and then multiplying. */
  lemma {:induction false} IntProductAsReal(x: int, y: int)
    ensures (x * y) as real == x as real * y as real
  {
  }

  /** Reading the digits of a + b: a's value shifted left by |b| places, plus b's. */
  lemma {:induction false} DigitsConcat(a: string, b: string)
    requires AllDigits(a) && AllDigits(b)
    ensures AllDigits(a + b)
    ensures DigitsValue(a + b) == DigitsValue(a) * Pow10(|b|) + DigitsValue(b)
    decreases |b|
  {
    assert AllDigits(a + b) by {
      forall i | 0 <= i < |a + b| ensures IsDigit((a + b)[i]) {
        if i < |a| { assert (a + b)[i] == a[i]; } else { assert (a + b)[i] == b[i - |a|]; }
      }
    }
    if |b| == 0 {
      assert a + b == a;
    } else {
      var b' := b[..|b| - 1];
      var d := DigitValue(b[|b| - 1]);
      assert (a + b)[..|a + b| - 1] == a + b';
      assert (a + b)[|a + b| - 1] == b[|b| - 1];
      assert DigitsValue(a + b) == 10 * DigitsValue(a + b') + d;
      assert DigitsValue(b) == 10 * DigitsValue(b') + d;
      assert Pow10(|b|) == 10 * Pow10(|b'|);
      DigitsConcat(a, b');
      ShiftDigit(DigitsValue(a), Pow10(|b'|), DigitsValue(b'), d);
    }
  }

  /** Appending a digit d: 10 (x p + y) + d is x (10 p) + (10 y + d). */
  lemma {:induction false} ShiftDigit(x: int, p: int, y: int, d: int)
    ensures 10 * (x * p + y) + d == x * (10 * p) + (10 * y + d)
  {
  }

  /** (a p + b) / p is a + b / p. */
  lemma {:induction false} ShiftDivide(a: real, b: real, p: real)
    requires p >= 1.0
    ensures (a * p + b) / p == a + b / p
  {
    assert (b / p) * p == b;
    assert (a + b / p) * p == a * p + (b / p) * p;
  }

  /** A number literal holds a digit exactly when its two parts are not both empty. */
  lemma LiteralDigits(s: string)
    requires IsNumberLiteral(s)
    ensures HasDigit(s) <==> |IntPart(s)| + |FracPart(s)| > 0
  {
    var k := DotIndex(s);
    if |IntPart(s)| > 0 {
      assert IsDigit(s[0]);
    } else if |FracPart(s)| > 0 {
      assert IsDigit(s[k + 1]) by { assert FracPart(s)[0] == s[k + 1]; }
    } else {
      assert k == 0 && |s| <= 1;
      assert forall i :: 0 <= i < |s| ==> s[i] == '.';
    }
  }

  /** The literal ip "." fp with digit-only parts cuts back into ip and fp. */
  lemma {:induction false} LiteralParts(ip: string, fp: string)
    requires AllDigits(ip) && AllDigits(fp)
    ensures IntPart(ip + "." + fp) == ip && FracPart(ip + "." + fp) == fp
    ensures IsNumberLiteral(ip + "." + fp)
  {
    var s := ip + "." + fp;
    var k := DotIndex(s);
    assert s[|ip|] == '.';
    assert forall i :: 0 <= i < |ip| ==> s[i] == ip[i] && IsDigit(s[i]);
    assert k == |ip|;
    assert s[..k] == ip;
    assert s[k + 1..] == fp;
  }

  /** Appending a zero to the fractional digits does not change the parsed
      value: "0.75" and "0.750" are the same threshold. A literal with no digit
      at all is excluded: "." does not parse but ".0" does. */
  lemma {:induction false} TrailingZeroFraction(ip: string, fp: string)
    requires AllDigits(ip) && AllDigits(fp) && |ip| + |fp| > 0
    ensures IsNumberLiteral(ip + "." + fp) && IsNumberLiteral(ip + "." + fp + "0")
    ensures ParseDecimal(ip + "." + fp + "0") == ParseDecimal(ip + "." + fp)
  {
    var fp0 := fp + "0";
    assert AllDigits(fp0) by {
      assert forall i :: 0 <= i < |fp| ==> fp0[i] == fp[i];
    }
    assert ip + "." + fp + "0" == ip + "." + fp0;
    LiteralParts(ip, fp);
    LiteralParts(ip, fp0);
    FractionZero(fp);
  }

  /** A trailing zero digit in the fraction cancels against one more power of ten. */
  lemma {:induction false} FractionZero(fp: string)
    requires AllDigits(fp) && AllDigits(fp + "0")
    ensures DigitsValue(fp + "0") as real / Pow10(|fp| + 1) as real
         == DigitsValue(fp) as real / Pow10(|fp|) as real
  {
    var t := fp + "0";
    assert t[..|t| - 1] == fp;
    assert DigitsValue(t) == 10 * DigitsValue(fp);
    assert Pow10(|fp| + 1) == 10 * Pow10(|fp|);
  }

  /** A worked value: "0.75" reads as three quarters. */
  lemma ParseDecimalExample()
    ensures IsNumberLiteral("0.75") && ParseDecimal("0.75") == Some(0.75)
  {
    assert DotIndex("0.75") == 1;
    assert IntPart("0.75") == "0";
    assert FracPart("0.75") == "75";
    assert DigitsValue("7") == 7;
    assert DigitsValue("75") == 75;
    assert DigitsValue("0") == 0;
  }

  /** A worked value: "0.25" reads as one quarter. */
  lemma ParseDecimalQuarter()
    ensures IsNumberLiteral("0.25") && ParseDecimal("0.25") == Some(0.25)
  {
    assert DotIndex("0.25") == 1;
    assert IntPart("0.25") == "0";
    assert FracPart("0.25") == "25";
    assert DigitsValue("2") == 2;
    assert DigitsValue("25") == 25;
    assert DigitsValue("0") == 0;
  }
}
