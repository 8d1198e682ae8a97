/** PHP's conversion of a string to a float, `(float)$text`. The value is read
    from the longest head of the text that spells a decimal number: an
    optional sign, digits with an optional fraction (at least one digit in
    all), and an optional exponent (`e` or `E`, an optional sign, at least one
    digit). Whatever follows is ignored, and text with no such head reads as
    0. Values are exact reals; PHP's rounding to a double is not modelled. */
module NumericText {
  import opened Wrappers

  predicate IsDigit(c: char) {
    '0' <= c <= '9'
  }

  predicate AllDigits(s: string) {
    forall i | 0 <= i < |s| :: IsDigit(s[i])
  }

  /** The number of digits at the head of `s`. */
  function DigitRun(s: string): (n: nat)
    ensures n <= |s|
    ensures AllDigits(s[..n])
    ensures n < |s| ==> !IsDigit(s[n])
  {
    if s != [] && IsDigit(s[0]) then
      var n := 1 + DigitRun(s[1..]);
      assert forall i | 1 <= i < n :: s[..n][i] == s[1..][..n - 1][i - 1];
      n
    else 0
  }

  /** The value of a string of decimal digits, most significant first. */
  function DigitsValue(s: string): nat
    requires AllDigits(s)
  {
    if s == [] then 0
    else DigitsValue(s[..|s| - 1]) * 10 + (s[|s| - 1] as int - '0' as int)
  }

  function Pow10(e: nat): (p: nat)
    ensures p >= 1
  {
    if e == 0 then 1 else 10 * Pow10(e - 1)
  }

  /** `m` times ten to the power `e`. */
  function Scale(m: real, e: int): real {
    if e >= 0 then m * Pow10(e) as real else m / Pow10(-e) as real
  }

  /** A number read from the head of a text: its value and how many characters
      it took. */
  datatype Scan = Scan(value: real, length: nat)

  /** The text begins with a digit, or with a point followed by a digit. */
  predicate StartsUnsigned(s: string) {
    s != [] && (IsDigit(s[0]) || (s[0] == '.' && |s| > 1 && IsDigit(s[1])))
  }

  /** The unsigned decimal at the head of `s`: digits, then optionally a point
      and more digits. */
  function UnsignedPrefix(s: string): (r: Option<Scan>)
    ensures r.Some? <==> StartsUnsigned(s)
    ensures r.Some? ==> 0 < r.value.length <= |s| && r.value.value >= 0.0
  {
    var i := DigitRun(s);
    var whole := DigitsValue(s[..i]);
    if i < |s| && s[i] == '.' then
      var tail := s[i + 1..];
      var f := DigitRun(tail);
      if i + f == 0 then None
      else Some(Scan(whole as real + DigitsValue(tail[..f]) as real / Pow10(f) as real, i + 1 + f))
    else if i == 0 then None
    else Some(Scan(whole as real, i))
  }

  /** The exponent at the head of `s`, when there is a complete one. */
  function ExponentPrefix(s: string): Option<int> {
    if s == [] || (s[0] != 'e' && s[0] != 'E') then None
    else
      var t := s[1..];
      var negative := t != [] && t[0] == '-';
      var u := if t != [] && (t[0] == '-' || t[0] == '+') then t[1..] else t;
      var n := DigitRun(u);
      var digits: int := if n == 0 then 0 else DigitsValue(u[..n]);
      if n == 0 then None
      else if negative then Some(-digits)
      else Some(digits)
  }

  /** The text with a leading sign removed. */
  function Unsigned(s: string): string {
    if s != [] && (s[0] == '-' || s[0] == '+') then s[1..] else s
  }

  /** `(float)$text`. */
  function ToFloat(s: string): (r: real)
    ensures !StartsUnsigned(Unsigned(s)) ==> r == 0.0
    ensures (s == [] || s[0] != '-') ==> r >= 0.0
  {
    var body := Unsigned(s);
    match UnsignedPrefix(body)
    case None => 0.0
    case Some(m) =>
      var magnitude := match ExponentPrefix(body[m.length..])
        case None => m.value
        case Some(e) => Scale(m.value, e);
      ScaleSign(m.value, ExponentPrefix(body[m.length..]));
      if s != [] && s[0] == '-' then -magnitude else magnitude
  }

  /** Scaling keeps a non-negative value non-negative. */
  lemma ScaleSign(m: real, e: Option<int>)
    requires m >= 0.0
    ensures e.Some? ==> Scale(m, e.value) >= 0.0
  {
  }

  // ---------------------------------------------------------------------------
  // Reading back what is written

  /** The decimal digit of `d`. */
  function DigitChar(d: int): (c: char)
    requires 0 <= d < 10
    ensures IsDigit(c) && c as int - '0' as int == d
  {
    ('0' as int + d) as char
  }

  /** `n` written in decimal, without leading zeros. */
  function NatText(n: nat): (s: string)
    ensures s != [] && AllDigits(s)
  {
    if n < 10 then [DigitChar(n)] else NatText(n / 10) + [DigitChar(n % 10)]
  }

  /** The digits of `n` have the value `n`. */
  lemma {:induction false} NatTextValue(n: nat)
    ensures DigitsValue(NatText(n)) == n
  {
    var s := NatText(n);
    if n < 10 {
      assert s[..0] == [];
    } else {
      NatTextValue(n / 10);
      assert s[..|s| - 1] == NatText(n / 10);
    }
  }

  /** Digits followed by more text read as far as the digits go. */
  lemma {:induction false} DigitRunAppend(ds: string, rest: string)
    requires AllDigits(ds)
    requires rest == [] || !IsDigit(rest[0])
    ensures DigitRun(ds + rest) == |ds|
  {
    if ds != [] {
      assert (ds + rest)[1..] == ds[1..] + rest;
      DigitRunAppend(ds[1..], rest);
    }
  }

  /** Digits followed by text that is neither a digit nor a point scan as
      exactly those digits. */
  lemma NatTextScan(n: nat, rest: string)
    requires rest == [] || !(IsDigit(rest[0]) || rest[0] == '.')
    ensures UnsignedPrefix(NatText(n) + rest) == Some(Scan(n as real, |NatText(n)|))
  {
    var ds := NatText(n);
    DigitRunAppend(ds, rest);
    assert (ds + rest)[..|ds|] == ds;
    NatTextValue(n);
  }

  /** An exponent mark, digits and text that is not a digit give exactly
      those digits as exponent. */
  lemma ExponentScan(k: nat, rest: string)
    requires rest == [] || !IsDigit(rest[0])
    ensures ExponentPrefix(['e'] + NatText(k) + rest) == Some(k)
  {
    var es := NatText(k);
    assert (['e'] + es + rest)[1..] == es + rest;
    DigitRunAppend(es, rest);
    assert (es + rest)[..|es|] == es;
    NatTextValue(k);
  }

  /** A natural number written in decimal and followed by text that cannot
      continue a number (not a digit, a point or an exponent mark) reads back
      as that number: `(float)"8h"` is 8. */
  lemma NatTextThenWord(n: nat, rest: string)
    requires rest == [] || !(IsDigit(rest[0]) || rest[0] in ".eE")
    ensures ToFloat(NatText(n) + rest) == n as real
  {
    NatTextScan(n, rest);
    assert (NatText(n) + rest)[|NatText(n)|..] == rest;
  }

  /** A natural number with a decimal exponent, followed by text that is not
      a digit, reads back as the number times that power of ten: `"3e2h"` is
      300. */
  lemma NatTextWithExponent(n: nat, k: nat, rest: string)
    requires rest == [] || !IsDigit(rest[0])
    ensures ToFloat(NatText(n) + ['e'] + NatText(k) + rest) == (n * Pow10(k)) as real
  {
    var after := ['e'] + NatText(k) + rest;
    assert NatText(n) + ['e'] + NatText(k) + rest == NatText(n) + after;
    NatTextThenExponent(n, k, after, rest);
    ScaleUp(n, k);
  }

  lemma NatTextThenExponent(n: nat, k: nat, after: string, rest: string)
    requires rest == [] || !IsDigit(rest[0])
    requires after == ['e'] + NatText(k) + rest
    ensures ToFloat(NatText(n) + after) == Scale(n as real, k)
  {
    var s := NatText(n) + after;
    var m := Scan(n as real, |NatText(n)|);
    assert UnsignedPrefix(s) == Some(m) by { NatTextScan(n, after); }
    assert ExponentPrefix(s[m.length..]) == Some(k) by {
      assert s[m.length..] == after;
      ExponentScan(k, rest);
    }
    assert s != [] && IsDigit(s[0]) by { assert s[0] == NatText(n)[0]; }
    ScanWithExponent(s, m, k);
  }

  /** A non-negative exponent multiplies by that power of ten. */
  lemma ScaleUp(n: nat, k: nat)
    ensures Scale(n as real, k) == (n * Pow10(k)) as real
  {
  }

  /** Unsigned text whose number has an exponent reads as the scaled number. */
  lemma ScanWithExponent(s: string, m: Scan, e: int)
    requires s != [] && IsDigit(s[0])
    requires UnsignedPrefix(s) == Some(m) && m.length <= |s|
    requires ExponentPrefix(s[m.length..]) == Some(e)
    ensures ToFloat(s) == Scale(m.value, e)
  {
    assert Unsigned(s) == s;
  }

  /** A leading minus negates the rest of the text. */
  lemma NegatedText(t: string)
    requires t == [] || (t[0] != '-' && t[0] != '+')
    ensures ToFloat(['-'] + t) == -ToFloat(t)
  {
    assert (['-'] + t)[1..] == t;
  }
}
