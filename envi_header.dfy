/** ENVI `.hdr` files: one `key = value` pair per line, values optionally in braces, turned into a
    dict of lower-cased keys with numbers, lists and strings. */
module EnviHeader {
  import opened Wrappers
  import opened Text
  import opened Numbers
  import opened PyValues

  /** Position of the `=` that separates the key from the value. */
  function EqAt(line: string): nat
    requires '=' in line
  {
    IndexOf(line, '=')
  }

  /** The key of a line: the text before the first `=`, stripped and lower-cased. */
  function KeyOf(line: string): string
    requires '=' in line
  {
    Lower(Strip(line[..EqAt(line)]))
  }

  /** Drops one pair of enclosing braces. */
  function BraceStrip(v: string): string {
    if StartsWith(v, "{") && EndsWith(v, "}") then
      BracedLength(v);
      v[1..|v| - 1]
    else v
  }

  /** A text that starts with `{` and ends with `}` has both. */
  lemma BracedLength(v: string)
    requires StartsWith(v, "{") && EndsWith(v, "}")
    ensures |v| >= 2
  {
    assert v[0] == '{';
    assert v[|v| - 1] == '}';
  }

  lemma BraceStripCases(v: string)
    ensures StartsWith(v, "{") && EndsWith(v, "}") ==> |v| >= 2 && BraceStrip(v) == v[1..|v| - 1]
    ensures !(StartsWith(v, "{") && EndsWith(v, "}")) ==> BraceStrip(v) == v
  {
    if StartsWith(v, "{") && EndsWith(v, "}") {
      BracedLength(v);
    }
  }

  /** The value text of a line: the text after the first `=`, stripped, without enclosing braces. */
  function ValText(line: string): string
    requires '=' in line
  {
    BraceStrip(Strip(line[EqAt(line) + 1..]))
  }

  /** Whether a value is read as a list: it holds a comma and either the line holds a brace or
      the key is `wavelength`. */
  predicate IsListLine(line: string, key: string, val: string) {
    ',' in val && ('{' in line || key == "wavelength")
  }

  /** The stripped comma-separated items of a list value. */
  function Items(val: string): (r: seq<string>)
    ensures |r| == |Split(val, ',')|
    ensures forall i :: 0 <= i < |r| ==> r[i] == Strip(Split(val, ',')[i])
  {
    var parts := Split(val, ',');
    seq(|parts|, i requires 0 <= i < |parts| => Strip(parts[i]))
  }

  predicate AllNumeric(items: seq<string>) {
    forall i :: 0 <= i < |items| ==> ParseFloat(items[i]).Some?
  }

  /** A list value: every item as a float when every item reads as one, otherwise every item as
      its stripped text. */
  function ListValue(val: string): PyVal {
    var items := Items(val);
    if AllNumeric(items) then
      PyList(seq(|items|, i requires 0 <= i < |items| && AllNumeric(items) => PyFloat(ParseFloat(items[i]).value)))
    else PyList(seq(|items|, i requires 0 <= i < |items| => PyStr(items[i])))
  }

  /** A scalar value: a float that is a whole number becomes an int, another float stays a float,
      and text that is not a float stays text. */
  function ScalarValue(val: string): PyVal {
    match ParseFloat(val)
    case Some(x) => if x == x.Floor as real then PyInt(x.Floor) else PyFloat(x)
    case None => PyStr(val)
  }

  function ValueOf(line: string): PyVal
    requires '=' in line
  {
    var key := KeyOf(line);
    var val := ValText(line);
    if IsListLine(line, key, val) then ListValue(val) else ScalarValue(val)
  }

  /** What one line contributes: its key and value, or nothing when it holds no `=`. */
  function Entry(line: string): Option<(string, PyVal)> {
    if '=' in line then Some((KeyOf(line), ValueOf(line))) else None
  }

  function Entries(lines: seq<string>): (r: seq<Option<(string, PyVal)>>)
    ensures |r| == |lines|
    ensures forall i :: 0 <= i < |lines| ==> r[i] == Entry(lines[i])
  {
    seq(|lines|, i requires 0 <= i < |lines| => Entry(lines[i]))
  }

  /** The dict built from the lines in order. */
  function HeaderOf(lines: seq<string>): Dict<PyVal> {
    Collect(Entries(lines))
  }

  /** `parse_envi_header`, with the file given as its lines (each with its line terminator). */
  method ParseEnviHeader(lines: seq<string>) returns (hdr: Dict<PyVal>)
    ensures hdr == HeaderOf(lines)
  {
    hdr := [];
    var n := 0;
    while n < |lines|
      invariant 0 <= n <= |lines|
      invariant hdr == Collect(Entries(lines)[..n])
    {
      var line := lines[n];
      CollectStep(Entries(lines), n);
      assert Entries(lines)[n] == Entry(line);
      if '=' in line {
        var key := KeyOf(line);
        var val := ValText(line);
        var v;
        if ',' in val && ('{' in line || key == "wavelength") {
          v := ListValue(val);
        } else {
          v := ScalarValue(val);
        }
        hdr := Put(hdr, key, v);
      }
      n := n + 1;
    }
    assert Entries(lines)[..n] == Entries(lines);
  }

  /** No key occurs twice in a parsed header. */
  lemma HeaderWf(lines: seq<string>)
    ensures Wf(HeaderOf(lines))
  {
    CollectWf(Entries(lines));
  }

  predicate SetsKey(line: string, k: string) {
    '=' in line && KeyOf(line) == k
  }

  /** The keys are exactly the keys of the lines that hold an `=`. */
  lemma HeaderKeys(lines: seq<string>, k: string)
    ensures k in Keys(HeaderOf(lines)) <==> exists i :: 0 <= i < |lines| && SetsKey(lines[i], k)
  {
    var es := Entries(lines);
    CollectKeys(es, k);
    if exists i :: 0 <= i < |es| && HasKey(es[i], k) {
      var i :| 0 <= i < |es| && HasKey(es[i], k);
      assert SetsKey(lines[i], k);
    }
    if exists i :: 0 <= i < |lines| && SetsKey(lines[i], k) {
      var i :| 0 <= i < |lines| && SetsKey(lines[i], k);
      assert HasKey(es[i], k);
    }
  }

  /** A key holds the value of the last line that sets it. */
  lemma HeaderLastWins(lines: seq<string>, i: nat)
    requires i < |lines| && '=' in lines[i]
    requires forall j :: i < j < |lines| ==> !SetsKey(lines[j], KeyOf(lines[i]))
    ensures Get(HeaderOf(lines), KeyOf(lines[i])) == Some(ValueOf(lines[i]))
  {
    var es := Entries(lines);
    forall j | i < j < |es| ensures !HasKey(es[j], es[i].value.0) {
      assert !SetsKey(lines[j], KeyOf(lines[i]));
    }
    CollectLastWins(es, i);
  }

  /** A key holds no `=`, no upper-case letter and no surrounding white space. */
  lemma KeyShape(line: string)
    requires '=' in line
    ensures '=' !in KeyOf(line)
    ensures forall i :: 0 <= i < |KeyOf(line)| ==> !IsAsciiUpper(KeyOf(line)[i])
    ensures KeyOf(line) == [] || (!IsSpace(KeyOf(line)[0]) && !IsSpace(KeyOf(line)[|KeyOf(line)| - 1]))
  {
    var t := Strip(line[..EqAt(line)]);
    StripIn(line[..EqAt(line)]);
    assert '=' !in t;
    var k := Lower(t);
    forall i | 0 <= i < |k| ensures k[i] != '=' {
      assert k[i] == LowerChar(t[i]);
    }
    if t != [] {
      assert LStrip(line[..EqAt(line)]) != [];
      assert !IsSpace(t[0]);
    }
  }

  /** A list value has one item per comma-separated piece, and the items are either all floats
      (exactly when every piece reads as a float) or all the stripped pieces as text. */
  lemma ListShape(val: string)
    ensures ListValue(val).PyList?
    ensures |ListValue(val).items| == |Split(val, ',')|
    ensures AllNumeric(Items(val)) ==>
              forall i :: 0 <= i < |Split(val, ',')| ==>
                ParseFloat(Strip(Split(val, ',')[i])) == Some(ListValue(val).items[i].x)
    ensures AllNumeric(Items(val)) <==>
              forall i :: 0 <= i < |ListValue(val).items| ==> ListValue(val).items[i].PyFloat?
    ensures !AllNumeric(Items(val)) ==>
              forall i :: 0 <= i < |Split(val, ',')| ==>
                ListValue(val).items[i] == PyStr(Strip(Split(val, ',')[i]))
  {
    var items := Items(val);
    if !AllNumeric(items) {
      assert |items| > 0;
      assert !ListValue(val).items[0].PyFloat?;
    }
  }

  /** A scalar is an int exactly when it reads as a whole number, a float when it reads as a
      number with a fraction, and the value text otherwise. */
  lemma ScalarShape(val: string)
    ensures ScalarValue(val).PyInt? <==>
              ParseFloat(val).Some? && ParseFloat(val).value == ParseFloat(val).value.Floor as real
    ensures ScalarValue(val).PyInt? ==> ParseFloat(val) == Some(ScalarValue(val).i as real)
    ensures ScalarValue(val).PyFloat? ==> ParseFloat(val) == Some(ScalarValue(val).x)
    ensures ScalarValue(val).PyStr? <==> ParseFloat(val).None?
    ensures ScalarValue(val).PyStr? ==> ScalarValue(val).s == val
  {
  }

  /** A key that reads back as itself. */
  predicate PlainKey(k: string) {
    '=' !in k && Lower(k) == k && (k == [] || (!IsSpace(k[0]) && !IsSpace(k[|k| - 1])))
  }

  /** The line `k = i` as a writer puts it. */
  function IntLine(k: string, i: int): string {
    k + " = " + FormatInt(i) + "\n"
  }

  lemma FormatIntShape(i: int)
    ensures '{' !in FormatInt(i) && ',' !in FormatInt(i)
    ensures forall k :: 0 <= k < |FormatInt(i)| ==> !IsSpace(FormatInt(i)[k])
  {
    var s := FormatInt(i);
    var d := FormatNat(if i < 0 then -i else i);
    forall k | 0 <= k < |s| ensures s[k] == '-' || IsDigit(s[k]) {
      if i < 0 {
        if k > 0 { assert s[k] == d[k - 1]; }
      }
    }
  }

  lemma IntLineParts(k: string, i: int)
    requires '=' !in k
    ensures '=' in IntLine(k, i)
    ensures IntLine(k, i)[..EqAt(IntLine(k, i))] == [] + k + " "
    ensures IntLine(k, i)[EqAt(IntLine(k, i)) + 1..] == " " + FormatInt(i) + "\n"
  {
    var line := IntLine(k, i);
    var v := FormatInt(i);
    assert line == (k + " ") + ['='] + (" " + v + "\n");
    IndexOfAfter(k + " ", '=', " " + v + "\n");
  }

  lemma IntLineValText(k: string, i: int)
    requires '=' !in k
    ensures '=' in IntLine(k, i)
    ensures ValText(IntLine(k, i)) == FormatInt(i)
  {
    IntLineParts(k, i);
    var v := FormatInt(i);
    FormatIntShape(i);
    StripPadded(" ", v, "\n");
    NoBrace(v);
  }

  lemma NoBrace(v: string)
    requires '{' !in v
    ensures BraceStrip(v) == v
  {
    if |v| > 0 {
      assert v[0] in v;
    }
  }

  /** The line `k = i` reads back as the key `k` with the int `i`. */
  lemma IntLineRoundTrip(k: string, i: int)
    requires PlainKey(k)
    ensures '=' in IntLine(k, i)
    ensures KeyOf(IntLine(k, i)) == k
    ensures ValueOf(IntLine(k, i)) == PyInt(i)
  {
    IntLineParts(k, i);
    StripPadded([], k, " ");
    IntLineValText(k, i);
    FormatIntShape(i);
    ParseFloatFormatInt(i);
  }

  /** The lines of a header of distinct plain keys with int values. */
  function IntLines(entries: seq<(string, int)>): (r: seq<string>)
    ensures |r| == |entries|
    ensures forall j :: 0 <= j < |entries| ==> r[j] == IntLine(entries[j].0, entries[j].1)
  {
    seq(|entries|, j requires 0 <= j < |entries| => IntLine(entries[j].0, entries[j].1))
  }

  function AsInts(entries: seq<(string, int)>): (r: Dict<PyVal>)
    ensures |r| == |entries|
    ensures forall j :: 0 <= j < |entries| ==> r[j] == (entries[j].0, PyInt(entries[j].1))
  {
    seq(|entries|, j requires 0 <= j < |entries| => (entries[j].0, PyInt(entries[j].1)))
  }

  /** Writing distinct plain keys with int values as `key = value` lines and parsing them gives
      the same entries back, in the same order. */
  lemma IntHeaderRoundTrip(entries: seq<(string, int)>)
    requires forall j :: 0 <= j < |entries| ==> PlainKey(entries[j].0)
    requires forall j, l :: 0 <= j < l < |entries| ==> entries[j].0 != entries[l].0
    ensures HeaderOf(IntLines(entries)) == AsInts(entries)
  {
    var es := Entries(IntLines(entries));
    var d := AsInts(entries);
    forall j | 0 <= j < |es| ensures es[j] == Some(d[j]) {
      IntLineRoundTrip(entries[j].0, entries[j].1);
    }
    CollectDistinct(es, d);
  }
}
