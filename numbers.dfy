/** Python's `int()`, `float()` and integer formatting on decimal text, with exact arithmetic. */
module Numbers {
  import opened Wrappers
  import opened Text

  function DigitVal(c: char): nat
    requires IsDigit(c)
  {
    c as int - '0' as int
  }

  function DigitChar(d: nat): char
    requires d < 10
  {
    ('0' as int + d) as char
  }

  predicate AllDigits(s: string) {
    forall i :: 0 <= i < |s| ==> IsDigit(s[i])
  }

  function Pow10(n: nat): (r: nat)
    ensures r >= 1
  {
    if n == 0 then 1 else 10 * Pow10(n - 1)
  }

  /** Value of a string of decimal digits, most significant digit first. */
  function DigitsValue(s: string): nat
    requires AllDigits(s)
  {
    if s == [] then 0 else 10 * DigitsValue(s[..|s| - 1]) + DigitVal(s[|s| - 1])
  }

  lemma {:induction false} DigitsValueBound(s: string)
    requires AllDigits(s)
    ensures DigitsValue(s) < Pow10(|s|)
    decreases |s|
  {
    if s != [] {
      DigitsValueBound(s[..|s| - 1]);
    }
  }

  /** The value of a concatenation: the left part shifted by the length of the right part. */
  lemma {:induction false} DigitsValueAppend(a: string, b: string)
    requires AllDigits(a) && AllDigits(b)
    ensures AllDigits(a + b)
    ensures DigitsValue(a + b) == DigitsValue(a) * Pow10(|b|) + DigitsValue(b)
    decreases |b|
  {
    if b == [] {
      assert a + b == a;
    } else {
      var b' := b[..|b| - 1];
      var c := DigitVal(b[|b| - 1]);
      assert (a + b)[..|a + b| - 1] == a + b';
      assert (a + b)[|a + b| - 1] == b[|b| - 1];
      DigitsValueAppend(a, b');
      var A, P, B := DigitsValue(a), Pow10(|b'|), DigitsValue(b');
      assert DigitsValue(a + b) == 10 * DigitsValue(a + b') + c;
      assert DigitsValue(b) == 10 * B + c;
      assert Pow10(|b|) == 10 * P;
      ShiftStep(A, P, B, c);
    }
  }

  lemma ShiftStep(a: nat, p: nat, b: nat, c: nat)
    ensures 10 * (a * p + b) + c == a * (10 * p) + (10 * b + c)
  {
  }

  /** Python's `str(n)` for a natural number: decimal digits without leading zeros. */
  function FormatNat(n: nat): (r: string)
    ensures |r| >= 1 && AllDigits(r)
    ensures r[0] != '0' || |r| == 1
    ensures DigitsValue(r) == n
  {
    if n < 10 then [DigitChar(n)]
    else
      var r := FormatNat(n / 10) + [DigitChar(n % 10)];
      assert r[..|r| - 1] == FormatNat(n / 10);
      r
  }

  /** Python's `str(i)` for an integer. */
  function FormatInt(i: int): (r: string)
    ensures |r| >= 1
  {
    if i < 0 then "-" + FormatNat(-i) else FormatNat(i)
  }

  /** `s` padded on the left with `c` to at least `w` characters. */
  function PadLeft(s: string, w: nat, c: char): (r: string)
    ensures |r| == if |s| >= w then |s| else w
    ensures EndsWith(r, s)
    ensures forall k :: 0 <= k < |r| - |s| ==> r[k] == c
  {
    if |s| >= w then s else seq(w - |s|, _ => c) + s
  }

  /** Python's `f"{i:0w}"`: the sign first, then the digits zero-padded so that the whole text
      has at least `w` characters. */
  function FormatPad(i: int, w: nat): string {
    if i < 0 then "-" + PadLeft(FormatNat(-i), if w == 0 then 0 else w - 1, '0')
    else PadLeft(FormatNat(i), w, '0')
  }

  lemma PadLeftDigits(s: string, w: nat)
    requires AllDigits(s)
    ensures AllDigits(PadLeft(s, w, '0'))
    ensures DigitsValue(PadLeft(s, w, '0')) == DigitsValue(s)
  {
    if |s| < w {
      var z := seq(w - |s|, _ => '0');
      ZerosValue(z);
      DigitsValueAppend(z, s);
    }
  }

  lemma {:induction false} ZerosValue(z: string)
    requires forall k :: 0 <= k < |z| ==> z[k] == '0'
    ensures AllDigits(z) && DigitsValue(z) == 0
    decreases |z|
  {
    if z != [] {
      ZerosValue(z[..|z| - 1]);
    }
  }

  /** The sign and body of a numeric literal after an optional leading `+` or `-`. */
  function SplitSign(t: string): (bool, string) {
    if |t| > 0 && (t[0] == '-' || t[0] == '+') then (t[0] == '-', t[1..]) else (false, t)
  }

  /** Python's `int(s)` on a string: surrounding white space, an optional sign, ASCII digits. */
  function ParseInt(s: string): Option<int> {
    var sd := SplitSign(Strip(s));
    SignedDigits(sd.0, sd.1)
  }

  /** A non-empty run of digits, negated when `neg`; `None` for anything else. */
  function SignedDigits(neg: bool, d: string): Option<int> {
    if |d| > 0 && AllDigits(d) then
      Some(if neg then -(DigitsValue(d) as int) else DigitsValue(d) as int)
    else None
  }

  lemma StripNoSpace(s: string)
    requires forall k :: 0 <= k < |s| ==> !IsSpace(s[k])
    ensures Strip(s) == s
  {
  }

  /** An optionally negated digit string holds no white space. */
  lemma SignedNoSpace(neg: bool, d: string, s: string)
    requires AllDigits(d) && s == (if neg then "-" else "") + d
    ensures forall k :: 0 <= k < |s| ==> !IsSpace(s[k])
  {
    forall k | 0 <= k < |s| ensures !IsSpace(s[k]) {
      if neg && k == 0 {
        assert s[k] == '-';
      } else {
        assert s[k] == d[if neg then k - 1 else k];
      }
    }
  }

  /** An optionally negated digit string splits into its sign and digits. */
  lemma SignedSplit(neg: bool, d: string, s: string)
    requires AllDigits(d) && s == (if neg then "-" else "") + d
    ensures SplitSign(s) == (neg, d) || (!neg && d == [])
  {
    if neg {
      assert s[0] == '-' && s[1..] == d;
    } else if d != [] {
      assert s == d && IsDigit(d[0]);
    }
  }

  /** An optionally negated digit string strips to itself and splits into its sign and digits. */
  lemma StripSigned(neg: bool, d: string)
    requires AllDigits(d)
    ensures SplitSign(Strip((if neg then "-" else "") + d)) == (neg, d) || (!neg && d == [])
  {
    var s := (if neg then "-" else "") + d;
    SignedNoSpace(neg, d, s);
    StripNoSpace(s);
    SignedSplit(neg, d, s);
  }

  /** `int()` of an optionally negated digit string. */
  lemma ParseIntDigits(neg: bool, d: string)
    requires |d| > 0 && AllDigits(d)
    ensures ParseInt((if neg then "-" else "") + d)
         == Some(if neg then -(DigitsValue(d) as int) else DigitsValue(d) as int)
  {
    StripSigned(neg, d);
    ParseIntSigned((if neg then "-" else "") + d, neg, d, if neg then -(DigitsValue(d) as int) else DigitsValue(d) as int);
  }

  /** `int()` of a text that strips to an optional sign and a non-empty run of digits worth `x`. */
  lemma ParseIntSigned(s: string, neg: bool, d: string, x: int)
    requires |d| > 0 && AllDigits(d)
    requires SplitSign(Strip(s)) == (neg, d)
    requires x == if neg then -(DigitsValue(d) as int) else DigitsValue(d) as int
    ensures ParseInt(s) == Some(x)
  {
  }

  /** `int(str(i)) == i`. */
  lemma ParseFormatInt(i: int)
    ensures ParseInt(FormatInt(i)) == Some(i)
  {
    var n: nat := if i < 0 then -i else i;
    StripSigned(i < 0, FormatNat(n));
    assert FormatInt(i) == (if i < 0 then "-" else "") + FormatNat(n);
    ParseIntSigned(FormatInt(i), i < 0, FormatNat(n), i);
  }

  /** `int(f"{i:0w}") == i`: zero padding never changes the value read back. */
  lemma ParseFormatPad(i: int, w: nat)
    ensures ParseInt(FormatPad(i, w)) == Some(i)
    ensures |FormatPad(i, w)| >= w
  {
    var n: nat := if i < 0 then -i else i;
    var w' := if i < 0 then (if w == 0 then 0 else w - 1) else w;
    var p := PadLeft(FormatNat(n), w', '0');
    PadLeftDigits(FormatNat(n), w');
    StripSigned(i < 0, p);
    assert FormatPad(i, w) == (if i < 0 then "-" else "") + p;
    ParseIntSigned(FormatPad(i, w), i < 0, p, i);
  }

  /** The length of the longest prefix of decimal digits. */
  function DigitRun(s: string): (n: nat)
    ensures n <= |s| && AllDigits(s[..n]) && (n == |s| || !IsDigit(s[n]))
  {
    DigitsFrom(s, 0)
  }

  /** The end of the run of digits that starts at `i`. */
  function DigitsFrom(s: string, i: nat): (j: nat)
    requires i <= |s|
    ensures i <= j <= |s| && (j == |s| || !IsDigit(s[j]))
    ensures forall k :: i <= k < j ==> IsDigit(s[k])
    decreases |s| - i
  {
    if i < |s| && IsDigit(s[i]) then DigitsFrom(s, i + 1) else i
  }

  /** `m * 10^e` for a signed exponent. */
  function Scale(m: real, e: int): real {
    if e >= 0 then m * Pow10(e) as real else m / Pow10(-e) as real
  }

  /** The value of the digits `ip.fp`. */
  function Decimal(ip: string, fp: string): real
    requires AllDigits(ip) && AllDigits(fp)
  {
    DigitsValue(ip) as real + DigitsValue(fp) as real / Pow10(|fp|) as real
  }

  /** An optional exponent part `e[+-]digits` that makes up all of `s`. */
  function ParseExponent(s: string): Option<int> {
    if s == [] then Some(0)
    else if s[0] != 'e' && s[0] != 'E' then None
    else
      var sd := SplitSign(s[1..]);
      SignedDigits(sd.0, sd.1)
  }

  /** A decimal literal without sign: `digits[.digits]` or `.digits`, then an optional exponent. */
  function ParseUnsignedDecimal(b: string): Option<real> {
    var n := DigitRun(b);
    AfterIntegerPart(b[..n], b[n..])
  }

  function AfterIntegerPart(ip: string, rest: string): Option<real>
    requires AllDigits(ip)
  {
    if |rest| > 0 && rest[0] == '.' then
      var m := DigitRun(rest[1..]);
      WithExponent(ip, rest[1..][..m], rest[1..][m..])
    else WithExponent(ip, "", rest)
  }

  /** The mantissa `ip.fp` (at least one digit) scaled by the exponent text `e`. */
  function WithExponent(ip: string, fp: string, e: string): Option<real>
    requires AllDigits(ip) && AllDigits(fp)
  {
    if |ip| + |fp| == 0 then None
    else match ParseExponent(e)
      case None => None
      case Some(x) => Some(Scale(Decimal(ip, fp), x))
  }

  /** Python's `float(s)` on decimal literals: surrounding white space, an optional sign, the
      mantissa and an optional exponent. */
  function ParseFloat(s: string): Option<real> {
    var sd := SplitSign(Strip(s));
    Negated(sd.0, ParseUnsignedDecimal(sd.1))
  }

  function Negated(neg: bool, v: Option<real>): Option<real> {
    match v
    case None => None
    case Some(x) => Some(if neg then -x else x)
  }

  /** `float(str(i)) == i`. */
  lemma ParseFloatFormatInt(i: int)
    ensures ParseFloat(FormatInt(i)) == Some(i as real)
  {
    var n: nat := if i < 0 then -i else i;
    StripSigned(i < 0, FormatNat(n));
    assert FormatInt(i) == (if i < 0 then "-" else "") + FormatNat(n);
    ParseFloatSigned(FormatInt(i), i < 0, FormatNat(n), i as real);
  }

  /** `float()` of a text that strips to an optional sign and a non-empty run of digits worth
      `x`. */
  lemma ParseFloatSigned(s: string, neg: bool, d: string, x: real)
    requires |d| > 0 && AllDigits(d)
    requires SplitSign(Strip(s)) == (neg, d)
    requires x == if neg then -(DigitsValue(d) as real) else DigitsValue(d) as real
    ensures ParseFloat(s) == Some(x)
  {
    UnsignedDigits(d);
  }

  /** A digit string with neither point nor exponent is read as its integer value. */
  lemma UnsignedDigits(d: string)
    requires |d| > 0 && AllDigits(d)
    ensures ParseUnsignedDecimal(d) == Some(DigitsValue(d) as real)
  {
    DigitRunAll(d);
    assert d[..|d|] == d && d[|d|..] == [];
    WholeDecimal(d);
  }

  /** Digits with no point and no exponent: the mantissa unscaled. */
  lemma WholeDecimal(d: string)
    requires |d| > 0 && AllDigits(d)
    ensures AfterIntegerPart(d, []) == Some(DigitsValue(d) as real)
  {
    assert ParseExponent([]) == Some(0);
    assert Decimal(d, "") == DigitsValue(d) as real;
    assert Scale(DigitsValue(d) as real, 0) == DigitsValue(d) as real;
  }

  lemma DigitRunAll(s: string)
    requires AllDigits(s)
    ensures DigitRun(s) == |s|
  {
  }

  /** The digit run of `ip + rest` is `ip` when `rest` does not start with a digit. */
  lemma DigitRunPrefix(ip: string, rest: string)
    requires AllDigits(ip) && (rest == [] || !IsDigit(rest[0]))
    ensures DigitRun(ip + rest) == |ip|
  {
    var s := ip + rest;
    assert forall k :: 0 <= k < |ip| ==> s[k] == ip[k];
    assert |ip| < |s| ==> s[|ip|] == rest[0];
  }

  lemma UnsignedFraction(d: string)
    requires AllDigits(d)
    ensures ParseUnsignedDecimal("0." + d) == Some(DigitsValue(d) as real / Pow10(|d|) as real)
  {
    IntegerPartZero(d);
    FractionPart(d);
    FractionValue(d);
  }

  lemma IntegerPartZero(d: string)
    requires AllDigits(d)
    ensures ParseUnsignedDecimal("0." + d) == AfterIntegerPart("0", "." + d)
  {
    var s := "0." + d;
    DigitRunPrefix("0", "." + d);
    assert s == "0" + ("." + d);
    assert s[..1] == "0" && s[1..] == "." + d;
  }

  lemma FractionValue(d: string)
    requires AllDigits(d)
    ensures WithExponent("0", d, []) == Some(DigitsValue(d) as real / Pow10(|d|) as real)
  {
    assert DigitsValue("0") == 0 by { assert "0"[..0] == []; }
  }

  lemma FractionPart(d: string)
    requires AllDigits(d)
    ensures AfterIntegerPart("0", "." + d) == WithExponent("0", d, [])
  {
    assert ("." + d)[1..] == d;
    DigitRunPrefix(d, []);
    assert d + [] == d && d[..|d|] == d && d[|d|..] == [];
  }

  lemma StripFraction(d: string)
    requires AllDigits(d)
    ensures SplitSign(Strip("0." + d)) == (false, "0." + d)
  {
    var s := "0." + d;
    assert forall k :: 0 <= k < |s| ==> !IsSpace(s[k]) by {
      forall k | 0 <= k < |s| ensures !IsSpace(s[k]) {
        if k >= 2 {
          assert s[k] == d[k - 2];
        }
      }
    }
    StripNoSpace(s);
  }

  /** `float("0." + d)` is the fraction the digits `d` spell. */
  lemma ParseFloatFraction(d: string)
    requires AllDigits(d)
    ensures ParseFloat("0." + d) == Some(DigitsValue(d) as real / Pow10(|d|) as real)
  {
    StripFraction(d);
    UnsignedFraction(d);
  }

  /** The first three digits of `d`, padded with zeros on the right. */
  function Millis(d: string): (r: nat)
    requires AllDigits(d)
    ensures r < 1000
  {
    var t := (d + "000")[..3];
    assert AllDigits(t);
    DigitsValueBound(t);
    DigitsValue(t)
  }

  /** `int(0.d * 1000)` keeps exactly the first three digits after the point. */
  lemma {:induction false} FractionMillis(d: string)
    requires AllDigits(d)
    ensures ((DigitsValue(d) as real / Pow10(|d|) as real) * 1000.0).Floor == Millis(d)
  {
    var t := (d + "000")[..3];
    if |d| <= 3 {
      var z := seq(3 - |d|, _ => '0');
      assert t == d + z;
      ZerosValue(z);
      DigitsValueAppend(d, z);
      Pow10Add(|d|, 3 - |d|);
      ScaleUp(DigitsValue(d), Pow10(|d|), Pow10(3 - |d|));
    } else {
      var hi := d[..3];
      var lo := d[3..];
      assert d == hi + lo;
      assert t == hi;
      DigitsValueAppend(hi, lo);
      DigitsValueBound(lo);
      Pow10Add(3, |lo|);
      DropLow(DigitsValue(hi), DigitsValue(lo), Pow10(|lo|));
    }
  }

  lemma ScaleUp(x: nat, p: nat, q: nat)
    requires p >= 1 && p * q == 1000
    ensures ((x as real / p as real) * 1000.0).Floor == x * q
  {
    assert (x as real / p as real) * (p as real * q as real) == x as real * q as real;
  }

  lemma DropLow(h: nat, l: nat, p: nat)
    requires 0 <= l < p
    ensures (((h * p + l) as real / (1000 * p) as real) * 1000.0).Floor == h
  {
    var P := p as real;
    var v := ((h * p + l) as real / (1000.0 * P)) * 1000.0;
    assert v == (h as real * P + l as real) / P;
    assert v == h as real + l as real / P;
    assert 0.0 <= l as real / P < 1.0;
  }

  lemma {:induction false} Pow10Add(a: nat, b: nat)
    ensures Pow10(a + b) == Pow10(a) * Pow10(b)
    decreases a
  {
    if a > 0 {
      Pow10Add(a - 1, b);
    }
  }

  /** Python's `int(x)` for a float: the integer part, rounding toward zero. */
  function Trunc(x: real): (r: int)
    ensures x >= 0.0 ==> 0 <= r && r as real <= x < r as real + 1.0
    ensures x < 0.0 ==> r <= 0 && r as real - 1.0 < x <= r as real
  {
    if x >= 0.0 then x.Floor else -((-x).Floor)
  }
}
