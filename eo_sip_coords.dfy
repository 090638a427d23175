/** The latitude and longitude fields of an EO-SIP file name: a hemisphere letter, the whole
    degrees, a `-` and the thousandths of a degree. */
module EoSipCoords {
  import opened Wrappers
  import opened Text
  import opened Numbers

  /** Python's `s[1:]`. */
  function DropFirst(s: string): string {
    if s == [] then [] else s[1..]
  }

  /** Python's `f"{s:03}"` on a string: strings align left, so the zeros go on the right. */
  function PadRight(s: string, w: nat, c: char): (r: string)
    ensures |r| == if |s| >= w then |s| else w
    ensures StartsWith(r, s)
    ensures forall k :: |s| <= k < |r| ==> r[k] == c
  {
    if |s| >= w then s else s + seq(w - |s|, _ => c)
  }

  /** `int(float(f"0.{frac}") * 1000)`; `None` where `float` raises `ValueError`. */
  function Thousandths(frac: string): Option<int> {
    MillisOf(ParseFloat("0." + frac))
  }

  /** The whole thousandths in a parsed fraction, truncated toward zero. */
  function MillisOf(p: Option<real>): Option<int> {
    match p
    case None => None
    case Some(x) => Some(Trunc(x * 1000.0))
  }

  /** `format_latitude` as written: the hemisphere comes from `float` of the degree text being
      negative. `None` where the code raises: not exactly one `.`, or a part that `float` or
      `int` rejects. */
  function FormatLatitude(raw: string): Option<string> {
    var parts := Split(raw, '.');
    if |parts| != 2 then None
    else match (Thousandths(parts[1]), ParseFloat(parts[0]))
      case (Some(m), Some(x)) =>
        var south := x < 0.0;
        (match ParseInt(if south then DropFirst(parts[0]) else parts[0])
         case None => None
         case Some(n) => Some([if south then 'S' else 'N'] + FormatPad(n, 2) + "-" + FormatPad(m, 3)))
      case _ => None
  }

  /** `format_longitude` as written: as the latitude, but the degree text (its first character
      dropped when negative) is formatted as a string with `:03`. */
  function FormatLongitude(raw: string): Option<string> {
    var parts := Split(raw, '.');
    if |parts| != 2 then None
    else match (Thousandths(parts[1]), ParseFloat(parts[0]))
      case (Some(m), Some(x)) =>
        var west := x < 0.0;
        Some([if west then 'W' else 'E'] + PadRight(if west then DropFirst(parts[0]) else parts[0], 3, '0')
             + "-" + FormatPad(m, 3))
      case _ => None
  }

  /** Whether the degree text carries a minus sign. */
  predicate Negative(deg: string) {
    SplitSign(Strip(deg)).0
  }

  function Magnitude(n: int): nat {
    if n < 0 then -n else n
  }

  /** `format_latitude` with the hemisphere taken from the sign written in the degree text, so
      that `-0.5` lies south. */
  function FormatLatitudeFixed(raw: string): Option<string> {
    var parts := Split(raw, '.');
    if |parts| != 2 then None
    else match (Thousandths(parts[1]), ParseInt(parts[0]))
      case (Some(m), Some(n)) =>
        Some([if Negative(parts[0]) then 'S' else 'N'] + FormatPad(Magnitude(n), 2) + "-" + FormatPad(m, 3))
      case _ => None
  }

  /** `format_longitude` with the hemisphere from the written sign and the degrees formatted
      as a three-digit integer, as the latitude formats its two. */
  function FormatLongitudeFixed(raw: string): Option<string> {
    var parts := Split(raw, '.');
    if |parts| != 2 then None
    else match (Thousandths(parts[1]), ParseInt(parts[0]))
      case (Some(m), Some(n)) =>
        Some([if Negative(parts[0]) then 'W' else 'E'] + FormatPad(Magnitude(n), 3) + "-" + FormatPad(m, 3))
      case _ => None
  }

  // ---------------------------------------------------------------------------------------
  // Coordinates written as decimal text

  /** The text of a coordinate: an optional minus sign, the degree digits, `.`, the fraction
      digits. */
  function Coord(neg: bool, d: string, f: string): string {
    (if neg then "-" else "") + d + "." + f
  }

  predicate WellWritten(d: string, f: string) {
    |d| > 0 && AllDigits(d) && AllDigits(f)
  }

  /** The three digits after the point: the first three fraction digits, padded with zeros. */
  function ThreeDigits(f: string): string {
    (f + "000")[..3]
  }

  lemma SignedNoDot(neg: bool, d: string)
    requires AllDigits(d)
    ensures '.' !in (if neg then "-" else "") + d
  {
    var s := (if neg then "-" else "") + d;
    forall k | 0 <= k < |s| ensures s[k] != '.' {
      if !(neg && k == 0) {
        assert s[k] == d[if neg then k - 1 else k];
      }
    }
  }

  /** The text splits at its point into the signed degrees and the fraction. */
  lemma CoordSplit(neg: bool, d: string, f: string)
    requires WellWritten(d, f)
    ensures Split(Coord(neg, d, f), '.') == [(if neg then "-" else "") + d, f]
  {
    var sd := (if neg then "-" else "") + d;
    SignedNoDot(neg, d);
    assert '.' !in f by {
      forall k | 0 <= k < |f| ensures f[k] != '.' {
        assert IsDigit(f[k]);
      }
    }
    SplitJoin([sd, f], '.');
    assert Join(".", [sd, f]) == sd + "." + f by { assert [sd, f][1..] == [f]; }
  }


  /** The thousandths of written fraction digits are their first three, right-padded. */
  lemma ThousandthsDigits(f: string)
    requires AllDigits(f)
    ensures Thousandths(f) == Some(Millis(f))
    ensures FormatPad(Millis(f), 3) == ThreeDigits(f)
  {
    ThousandthsValue(f);
    MillisText(f);
  }

  lemma ThousandthsValue(f: string)
    requires AllDigits(f)
    ensures Thousandths(f) == Some(Millis(f))
  {
    var a, b := DigitsValue(f), Pow10(|f|);
    var q := a as real / b as real;
    ParseFloatFraction(f);
    FractionMillis(f);
    NonNegativeQuotient(a, b);
    ThousandthsOf(ParseFloat("0." + f), q, Millis(f));
  }

  lemma NonNegativeQuotient(a: nat, b: nat)
    requires b >= 1
    ensures a as real / b as real >= 0.0
  {
  }

  lemma ThousandthsOf(p: Option<real>, q: real, m: int)
    requires p == Some(q) && q >= 0.0 && (q * 1000.0).Floor == m
    ensures MillisOf(p) == Some(m)
  {
    TruncNonNegative(q * 1000.0);
  }

  lemma TruncNonNegative(x: real)
    requires x >= 0.0
    ensures Trunc(x) == x.Floor
  {
  }

  lemma MillisText(f: string)
    requires AllDigits(f)
    ensures FormatPad(Millis(f), 3) == ThreeDigits(f)
  {
    var t := ThreeDigits(f);
    assert AllDigits(t);
    assert Millis(f) == DigitsValue(t);
    DigitsText(t, Millis(f));
  }

  /** Formatting the value `v` of a digit string with zero padding to the string's own length
      gives the string back. */
  lemma {:induction false} DigitsText(t: string, v: nat)
    requires |t| >= 1 && AllDigits(t) && v == DigitsValue(t)
    ensures PadLeft(FormatNat(v), |t|, '0') == t
    decreases |t|
  {
    var n := |t| - 1;
    var init, c := t[..n], t[n];
    var k := DigitVal(c);
    LastDigit(t, v);
    if n > 0 {
      var u := DigitsValue(init);
      DigitsText(init, u);
      if u == 0 {
        DigitsTextZero(t, init, c, k);
      } else {
        DigitsTextStep(t, init, c, u, k, FormatNat(u));
      }
    }
  }

  /** A digit string taken apart at its last digit. */
  lemma LastDigit(t: string, v: nat)
    requires |t| >= 1 && AllDigits(t) && v == DigitsValue(t)
    ensures var n, c := |t| - 1, t[|t| - 1];
            t == t[..n] + [c] && AllDigits(t[..n]) && DigitVal(c) < 10 && DigitChar(DigitVal(c)) == c &&
            (n == 0 ==> PadLeft(FormatNat(v), |t|, '0') == t) &&
            (n > 0 ==> v == 10 * DigitsValue(t[..n]) + DigitVal(c))
  {
    var n := |t| - 1;
    var init, c := t[..n], t[n];
    assert t == init + [c];
    var k := DigitVal(c);
    assert DigitChar(k) == c;
    if n == 0 {
      assert init == [];
      assert v == k;
      assert FormatNat(v) == [c];
    }
  }

  /** After a run of zeros, the text of the last digit padded back to full length. */
  lemma DigitsTextZero(t: string, init: string, c: char, k: nat)
    requires t == init + [c] && k < 10 && DigitChar(k) == c && |init| >= 1
    requires PadLeft(FormatNat(0), |init|, '0') == init
    ensures PadLeft(FormatNat(k), |t|, '0') == t
  {
    assert FormatNat(0) == "0";
    ZeroPadding(init);
    PadLeftSnoc([], |init|, c);
  }

  /** After a non-zero prefix `u` written as `x`, the text of `10 * u + k` padded to full
      length. */
  lemma DigitsTextStep(t: string, init: string, c: char, u: nat, k: nat, x: string)
    requires t == init + [c] && k < 10 && DigitChar(k) == c && |init| >= 1 && u > 0
    requires x == FormatNat(u) && PadLeft(x, |init|, '0') == init
    ensures PadLeft(FormatNat(10 * u + k), |t|, '0') == t
  {
    FormatNatSnoc(u, k);
    PadLeftSnoc(x, |init|, c);
  }

  /** Text that is `0` padded with zeros is all zeros. */
  lemma ZeroPadding(z: string)
    requires |z| >= 1 && PadLeft("0", |z|, '0') == z
    ensures PadLeft([], |z|, '0') == z
  {
    assert forall i :: 0 <= i < |z| ==> z[i] == '0';
  }

  /** Padding on the left commutes with appending a character. */
  lemma PadLeftSnoc(x: string, n: nat, c: char)
    ensures PadLeft(x + [c], n + 1, '0') == PadLeft(x, n, '0') + [c]
  {
  }

  /** Appending a digit to a number's text multiplies it by ten and adds the digit. */
  lemma FormatNatSnoc(u: nat, k: nat)
    requires u > 0 && k < 10
    ensures FormatNat(10 * u + k) == FormatNat(u) + [DigitChar(k)]
  {
    var v := 10 * u + k;
    assert v / 10 == u && v % 10 == k;
  }

  // ---------------------------------------------------------------------------------------
  // What the formatters give

  /** The formatters once the text is split and its parts are read. */
  lemma LatitudeFrom(raw: string, deg: string, f: string, m: int, x: real, n: int)
    requires Split(raw, '.') == [deg, f] && Thousandths(f) == Some(m) && ParseFloat(deg) == Some(x)
    requires ParseInt(if x < 0.0 then DropFirst(deg) else deg) == Some(n)
    ensures FormatLatitude(raw) == Some([if x < 0.0 then 'S' else 'N'] + FormatPad(n, 2) + "-" + FormatPad(m, 3))
  {
  }

  lemma LongitudeFrom(raw: string, deg: string, f: string, m: int, x: real)
    requires Split(raw, '.') == [deg, f] && Thousandths(f) == Some(m) && ParseFloat(deg) == Some(x)
    ensures FormatLongitude(raw)
         == Some([if x < 0.0 then 'W' else 'E'] + PadRight(if x < 0.0 then DropFirst(deg) else deg, 3, '0')
                 + "-" + FormatPad(m, 3))
  {
  }

  lemma LatitudeFixedFrom(raw: string, deg: string, f: string, m: int, n: int)
    requires Split(raw, '.') == [deg, f] && Thousandths(f) == Some(m) && ParseInt(deg) == Some(n)
    ensures FormatLatitudeFixed(raw)
         == Some([if Negative(deg) then 'S' else 'N'] + FormatPad(Magnitude(n), 2) + "-" + FormatPad(m, 3))
  {
  }

  lemma LongitudeFixedFrom(raw: string, deg: string, f: string, m: int, n: int)
    requires Split(raw, '.') == [deg, f] && Thousandths(f) == Some(m) && ParseInt(deg) == Some(n)
    ensures FormatLongitudeFixed(raw)
         == Some([if Negative(deg) then 'W' else 'E'] + FormatPad(Magnitude(n), 3) + "-" + FormatPad(m, 3))
  {
  }

  /** The signed degree text `sd` of the digits `d`, whose value is `v`, as `float` and `int`
      read it. */
  lemma SignedDegrees(neg: bool, d: string, sd: string, v: nat)
    requires |d| > 0 && AllDigits(d) && v == DigitsValue(d) && sd == (if neg then "-" else "") + d
    ensures ParseFloat(sd) == Some(if neg then -(v as real) else v as real)
    ensures ParseInt(sd) == Some(if neg then -(v as int) else v as int)
    ensures ParseInt(d) == Some(v as int)
    ensures Negative(sd) == neg
    ensures (if neg then DropFirst(sd) else sd) == d
  {
    StripSigned(neg, d);
    ParseFloatSigned(sd, neg, d, if neg then -(v as real) else v as real);
    ParseIntSigned(sd, neg, d, if neg then -(v as int) else v as int);
    StripSigned(false, d);
    assert "" + d == d;
    ParseIntSigned(d, false, d, v as int);
    assert neg ==> sd[1..] == d;
  }

  /** A latitude with digits on both sides of the point gives its hemisphere, the whole
      degrees as two digits, and the first three fraction digits (the as-written code needs a
      non-zero degree value for the south). */
  lemma LatitudeDigits(neg: bool, d: string, f: string)
    requires WellWritten(d, f)
    requires neg ==> DigitsValue(d) > 0
    ensures FormatLatitude(Coord(neg, d, f))
         == Some([if neg then 'S' else 'N'] + FormatPad(DigitsValue(d), 2) + "-" + ThreeDigits(f))
  {
    CoordSplit(neg, d, f);
    ThousandthsDigits(f);
    var sd, v := (if neg then "-" else "") + d, DigitsValue(d);
    SignedDegrees(neg, d, sd, v);
    LatitudeRead(Coord(neg, d, f), neg, sd, d, v, f);
  }

  /** The latitude from the facts about its parts. */
  lemma LatitudeRead(raw: string, neg: bool, sd: string, d: string, v: nat, f: string)
    requires AllDigits(f) && (neg ==> v > 0)
    requires Split(raw, '.') == [sd, f]
    requires Thousandths(f) == Some(Millis(f)) && FormatPad(Millis(f), 3) == ThreeDigits(f)
    requires ParseFloat(sd) == Some(if neg then -(v as real) else v as real)
    requires ParseInt(d) == Some(v as int) && (if neg then DropFirst(sd) else sd) == d
    ensures FormatLatitude(raw)
         == Some([if neg then 'S' else 'N'] + FormatPad(v, 2) + "-" + ThreeDigits(f))
  {
    var x := if neg then -(v as real) else v as real;
    assert x < 0.0 <==> neg;
    var t := if x < 0.0 then DropFirst(sd) else sd;
    assert t == d;
    LatitudeFrom(raw, sd, f, Millis(f), x, v);
  }

  /** A longitude with digits on both sides of the point gives its hemisphere, the degree
      digits as written padded on the right to three characters, and three fraction digits. */
  lemma LongitudeDigits(neg: bool, d: string, f: string)
    requires WellWritten(d, f)
    requires neg ==> DigitsValue(d) > 0
    ensures FormatLongitude(Coord(neg, d, f))
         == Some([if neg then 'W' else 'E'] + PadRight(d, 3, '0') + "-" + ThreeDigits(f))
  {
    CoordSplit(neg, d, f);
    ThousandthsDigits(f);
    var sd, v := (if neg then "-" else "") + d, DigitsValue(d);
    SignedDegrees(neg, d, sd, v);
    LongitudeRead(Coord(neg, d, f), neg, sd, d, v, f);
  }

  /** The longitude from the facts about its parts. */
  lemma LongitudeRead(raw: string, neg: bool, sd: string, d: string, v: nat, f: string)
    requires AllDigits(f) && (neg ==> v > 0)
    requires Split(raw, '.') == [sd, f]
    requires Thousandths(f) == Some(Millis(f)) && FormatPad(Millis(f), 3) == ThreeDigits(f)
    requires ParseFloat(sd) == Some(if neg then -(v as real) else v as real)
    requires (if neg then DropFirst(sd) else sd) == d
    ensures FormatLongitude(raw)
         == Some([if neg then 'W' else 'E'] + PadRight(d, 3, '0') + "-" + ThreeDigits(f))
  {
    var x := if neg then -(v as real) else v as real;
    assert x < 0.0 <==> neg;
    var t := if x < 0.0 then DropFirst(sd) else sd;
    assert t == d;
    LongitudeFrom(raw, sd, f, Millis(f), x);
  }

  /** The value of three digits. */
  lemma DigitsValue3(t: string)
    requires |t| == 3 && AllDigits(t)
    ensures DigitsValue(t) == 100 * DigitVal(t[0]) + 10 * DigitVal(t[1]) + DigitVal(t[2])
  {
    var t2 := t[..2];
    var t1 := t2[..1];
    assert DigitsValue(t) == 10 * DigitsValue(t2) + DigitVal(t[2]);
    assert DigitsValue(t2) == 10 * DigitsValue(t1) + DigitVal(t[1]);
    assert t1[..0] == [];
    assert DigitsValue(t1) == DigitVal(t[0]);
  }

  lemma LatitudeNorthExample(raw: string)
    requires raw == "012.34"
    ensures FormatLatitude(raw) == Some("N12-340")
  {
    TwelveText();
    NorthText();
    LatitudeOf(raw, false, "012", "34", "N12-340");
  }

  lemma LatitudeSouthTenthsExample(raw: string)
    requires raw == "-012.34"
    ensures FormatLatitude(raw) == Some("S12-340")
  {
    TwelveText();
    SouthTenthsText();
    LatitudeOf(raw, true, "012", "34", "S12-340");
  }

  lemma LatitudeSouthExample(raw: string)
    requires raw == "-012.034"
    ensures FormatLatitude(raw) == Some("S12-034")
  {
    TwelveText();
    SouthText();
    LatitudeOf(raw, true, "012", "034", "S12-034");
  }

  /** The pieces of the northern latitude example. */
  lemma NorthText()
    ensures Coord(false, "012", "34") == "012.34"
    ensures "N12-340" == ['N'] + "12" + "-" + ThreeDigits("34")
  {
    var t := "34" + "000";
    assert t[..3] == ['3', '4', '0'];
  }

  /** The pieces of the southern latitude example in tenths. */
  lemma SouthTenthsText()
    ensures Coord(true, "012", "34") == "-012.34" && AllDigits("34")
    ensures "S12-340" == ['S'] + "12" + "-" + ThreeDigits("34")
  {
    var t := "34" + "000";
    assert t[..3] == ['3', '4', '0'];
  }

  /** The pieces of the southern latitude example. */
  lemma SouthText()
    ensures Coord(true, "012", "034") == "-012.034" && AllDigits("034")
    ensures "S12-034" == ['S'] + "12" + "-" + ThreeDigits("034")
  {
    var t := "034" + "000";
    assert t[..3] == ['0', '3', '4'];
  }

  /** The degree field of the latitude examples. */
  lemma TwelveText()
    ensures AllDigits("012") && DigitsValue("012") == 12 && FormatPad(12, 2) == "12"
  {
    DigitsValue3("012");
  }

  lemma LatitudeOf(raw: string, neg: bool, d: string, f: string, out: string)
    requires raw == Coord(neg, d, f) && WellWritten(d, f) && (neg ==> DigitsValue(d) > 0)
    requires out == [if neg then 'S' else 'N'] + FormatPad(DigitsValue(d), 2) + "-" + ThreeDigits(f)
    ensures FormatLatitude(raw) == Some(out)
  {
    LatitudeDigits(neg, d, f);
  }

  lemma LongitudeExamples(east: string, west: string)
    requires east == "123.456" && west == "-012.34"
    ensures FormatLongitude(east) == Some("E123-456")
    ensures FormatLongitude(west) == Some("W012-340")
  {
    LongitudeText();
    LongitudeDigits(false, "123", "456");
    LongitudeDigits(true, "012", "34");
  }

  /** The pieces of the longitude examples. */
  lemma LongitudeText()
    ensures Coord(false, "123", "456") == "123.456" && Coord(true, "012", "34") == "-012.34"
    ensures WellWritten("123", "456") && WellWritten("012", "34") && DigitsValue("012") > 0
    ensures ['E'] + PadRight("123", 3, '0') + "-" + ThreeDigits("456") == "E123-456"
    ensures ['W'] + PadRight("012", 3, '0') + "-" + ThreeDigits("34") == "W012-340"
  {
    DigitsValue3("012");
    var t, u := "456" + "000", "34" + "000";
    assert t[..3] == ['4', '5', '6'] && u[..3] == ['3', '4', '0'];
  }

  // ---------------------------------------------------------------------------------------
  // Where the as-written code departs from the field layout

  /** Degrees written with fewer than three digits come out padded on the right, so the field
      reads ten or a hundred times the longitude. */
  lemma LongitudeShortDegrees(d: string, f: string)
    requires WellWritten(d, f) && |d| < 3 && DigitsValue(d) > 0
    ensures FormatLongitude(Coord(false, d, f)).Some?
    ensures var t := FormatLongitude(Coord(false, d, f)).value;
            AllDigits(t[1..4]) && DigitsValue(t[1..4]) == DigitsValue(d) * Pow10(3 - |d|)
            && DigitsValue(t[1..4]) != DigitsValue(d)
  {
    LongitudeDigits(false, d, f);
    ShortField(FormatLongitude(Coord(false, d, f)).value, d, ThreeDigits(f));
  }

  lemma ShortField(t: string, d: string, rest: string)
    requires |d| < 3 && AllDigits(d) && DigitsValue(d) > 0
    requires t == ['E'] + PadRight(d, 3, '0') + "-" + rest
    ensures AllDigits(t[1..4]) && DigitsValue(t[1..4]) == DigitsValue(d) * Pow10(3 - |d|)
    ensures DigitsValue(t[1..4]) != DigitsValue(d)
  {
    var z := seq(3 - |d|, _ => '0');
    assert t[1..4] == d + z;
    ZerosValue(z);
    DigitsValueAppend(d, z);
    assert Pow10(3 - |d|) >= 10;
  }

  /** `12.5` becomes `E120-500`. */
  lemma LongitudeShortExample(raw: string)
    requires raw == "12.5"
    ensures FormatLongitude(raw) == Some("E120-500")
  {
    assert ['E'] + PadRight("12", 3, '0') + "-" + ThreeDigits("5") == "E120-500" by {
      assert PadRight("12", 3, '0') == "120";
      assert ThreeDigits("5") == "500";
    }
    assert Coord(false, "12", "5") == raw;
    assert WellWritten("12", "5");
    LongitudeDigits(false, "12", "5");
  }

  /** A negative coordinate with zero whole degrees is put in the northern or eastern
      hemisphere, since `float("-0")` is not below zero; the longitude keeps the minus sign in
      its degree field. */
  lemma NegativeZeroDegrees(d: string, f: string)
    requires WellWritten(d, f) && DigitsValue(d) == 0
    ensures FormatLatitude(Coord(true, d, f)) == Some("N" + FormatPad(0, 2) + "-" + ThreeDigits(f))
    ensures FormatLongitude(Coord(true, d, f)) == Some("E" + PadRight("-" + d, 3, '0') + "-" + ThreeDigits(f))
  {
    var sd := "-" + d;
    CoordSplit(true, d, f);
    ThousandthsDigits(f);
    NegativeZeroSign(d, sd);
    NegativeZeroRead(Coord(true, d, f), sd, f);
  }

  /** Minus zero reads as zero for both `float` and `int`. */
  lemma NegativeZeroSign(d: string, sd: string)
    requires |d| > 0 && AllDigits(d) && DigitsValue(d) == 0 && sd == "-" + d
    ensures ParseFloat(sd) == Some(0.0) && ParseInt(sd) == Some(0)
  {
    StripSigned(true, d);
    ParseFloatSigned(sd, true, d, 0.0);
    ParseIntSigned(sd, true, d, 0);
  }

  lemma NegativeZeroRead(raw: string, sd: string, f: string)
    requires AllDigits(f) && Split(raw, '.') == [sd, f]
    requires Thousandths(f) == Some(Millis(f)) && FormatPad(Millis(f), 3) == ThreeDigits(f)
    requires ParseFloat(sd) == Some(0.0) && ParseInt(sd) == Some(0)
    ensures FormatLatitude(raw) == Some("N" + FormatPad(0, 2) + "-" + ThreeDigits(f))
    ensures FormatLongitude(raw) == Some("E" + PadRight(sd, 3, '0') + "-" + ThreeDigits(f))
  {
    LatitudeFrom(raw, sd, f, Millis(f), 0.0, 0);
    LongitudeFrom(raw, sd, f, Millis(f), 0.0);
  }

  /** `-0.5` becomes `N00-500` and `E-00-500`. */
  lemma NegativeZeroExample(raw: string)
    requires raw == "-0.5"
    ensures FormatLatitude(raw) == Some("N00-500")
    ensures FormatLongitude(raw) == Some("E-00-500")
  {
    assert "N" + FormatPad(0, 2) + "-" + ThreeDigits("5") == "N00-500" by {
      assert FormatPad(0, 2) == "00";
      assert ThreeDigits("5") == "500";
    }
    assert "E" + PadRight("-" + "0", 3, '0') + "-" + ThreeDigits("5") == "E-00-500" by {
      assert PadRight("-0", 3, '0') == "-00";
      assert ThreeDigits("5") == "500";
    }
    assert Coord(true, "0", "5") == raw;
    assert WellWritten("0", "5") && DigitsValue("0") == 0;
    NegativeZeroDegrees("0", "5");
  }

  // ---------------------------------------------------------------------------------------
  // The corrected formatters

  /** Every well-written latitude, negative zero included, gets the hemisphere of its sign. */
  lemma LatitudeFixedDigits(neg: bool, d: string, f: string)
    requires WellWritten(d, f)
    ensures FormatLatitudeFixed(Coord(neg, d, f))
         == Some([if neg then 'S' else 'N'] + FormatPad(DigitsValue(d), 2) + "-" + ThreeDigits(f))
  {
    CoordSplit(neg, d, f);
    ThousandthsDigits(f);
    var sd, v := (if neg then "-" else "") + d, DigitsValue(d);
    SignedDegrees(neg, d, sd, v);
    FixedRead(Coord(neg, d, f), neg, sd, v, f);
  }

  /** Every well-written longitude gets the hemisphere of its sign and its whole degrees as a
      zero-padded integer: three characters that read back as the degrees when they are below
      1000. */
  lemma LongitudeFixedDigits(neg: bool, d: string, f: string)
    requires WellWritten(d, f)
    ensures FormatLongitudeFixed(Coord(neg, d, f))
         == Some([if neg then 'W' else 'E'] + FormatPad(DigitsValue(d), 3) + "-" + ThreeDigits(f))
    ensures ParseInt(FormatPad(DigitsValue(d), 3)) == Some(DigitsValue(d) as int)
    ensures DigitsValue(d) < 1000 ==> |FormatPad(DigitsValue(d), 3)| == 3
  {
    CoordSplit(neg, d, f);
    ThousandthsDigits(f);
    var sd, v := (if neg then "-" else "") + d, DigitsValue(d);
    SignedDegrees(neg, d, sd, v);
    FixedRead(Coord(neg, d, f), neg, sd, v, f);
    ParseFormatPad(v, 3);
    if v < 1000 {
      FormatNatShort(v);
    }
  }

  lemma FixedRead(raw: string, neg: bool, sd: string, v: nat, f: string)
    requires AllDigits(f)
    requires Split(raw, '.') == [sd, f]
    requires Thousandths(f) == Some(Millis(f)) && FormatPad(Millis(f), 3) == ThreeDigits(f)
    requires ParseInt(sd) == Some(if neg then -(v as int) else v as int) && Negative(sd) == neg
    ensures FormatLatitudeFixed(raw)
         == Some([if neg then 'S' else 'N'] + FormatPad(v, 2) + "-" + ThreeDigits(f))
    ensures FormatLongitudeFixed(raw)
         == Some([if neg then 'W' else 'E'] + FormatPad(v, 3) + "-" + ThreeDigits(f))
  {
    var n := if neg then -(v as int) else v as int;
    assert Magnitude(n) == v;
    LatitudeFixedFrom(raw, sd, f, Millis(f), n);
    LongitudeFixedFrom(raw, sd, f, Millis(f), n);
  }

  /** Below 1000 a number has at most three digits. */
  lemma FormatNatShort(n: nat)
    requires n < 1000
    ensures |FormatNat(n)| <= 3
  {
    if n >= 10 {
      var q := n / 10;
      assert FormatNat(n) == FormatNat(q) + [DigitChar(n % 10)];
      if q >= 10 {
        assert FormatNat(q) == FormatNat(q / 10) + [DigitChar(q % 10)];
        assert q / 10 < 10;
      }
    }
  }

  /** Where the as-written latitude gives a result, the corrected one gives the same. */
  lemma LatitudeFixedAgrees(neg: bool, d: string, f: string)
    requires WellWritten(d, f) && (neg ==> DigitsValue(d) > 0)
    ensures FormatLatitudeFixed(Coord(neg, d, f)) == FormatLatitude(Coord(neg, d, f))
  {
    LatitudeDigits(neg, d, f);
    LatitudeFixedDigits(neg, d, f);
  }

  /** The corrected formatters on the inputs the as-written ones get wrong. */
  lemma FixedShortExample(raw: string)
    requires raw == "12.5"
    ensures FormatLongitudeFixed(raw) == Some("E012-500")
  {
    assert DigitsValue("12") == 12;
    assert ['E'] + FormatPad(DigitsValue("12"), 3) + "-" + ThreeDigits("5") == "E012-500" by {
      assert FormatPad(12, 3) == "012";
      assert ThreeDigits("5") == "500";
    }
    assert Coord(false, "12", "5") == raw;
    assert WellWritten("12", "5");
    LongitudeFixedDigits(false, "12", "5");
  }

  lemma FixedZeroExample(raw: string)
    requires raw == "-0.5"
    ensures FormatLatitudeFixed(raw) == Some("S00-500")
    ensures FormatLongitudeFixed(raw) == Some("W000-500")
  {
    assert ['S'] + FormatPad(DigitsValue("0"), 2) + "-" + ThreeDigits("5") == "S00-500" by {
      assert DigitsValue("0") == 0;
      assert FormatPad(0, 2) == "00";
      assert ThreeDigits("5") == "500";
    }
    assert ['W'] + FormatPad(DigitsValue("0"), 3) + "-" + ThreeDigits("5") == "W000-500" by {
      assert DigitsValue("0") == 0;
      assert FormatPad(0, 3) == "000";
      assert ThreeDigits("5") == "500";
    }
    assert Coord(true, "0", "5") == raw;
    assert WellWritten("0", "5");
    LatitudeFixedDigits(true, "0", "5");
    LongitudeFixedDigits(true, "0", "5");
  }

}
