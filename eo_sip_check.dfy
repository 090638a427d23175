/** `check_metadata`: the four groups of checks an EO-SIP conversion runs over the flattened
    metadata before it builds anything, and the exception they end in. */
module EoSipCheck {
  import opened Wrappers
  import opened Numbers
  import opened PyValues
  import opened DateTimes

  /** The four loops, in the order they run. */
  datatype Group = RegexGroup | ListGroup | NumericGroup | DateGroup

  /** What one check makes of a present value: it passes, it is recorded as invalid, it is
      recorded as invalid and ends its loop (`break`), or it raises an exception that no
      `except` clause catches. */
  datatype Verdict = Valid | Invalid | InvalidStop | Raises

  /** What one loop leaves behind. */
  datatype Scan = Scan(missing: set<string>, invalid: set<string>, raised: bool)

  /** How the function ends: it returns, it raises the exception listing the missing entries,
      the one listing the invalid entries, or a `TypeError` from a check. */
  datatype Outcome = Passed | MissingEntries(keys: set<string>) | InvalidEntries(keys: set<string>) | Raised

  const Latitude := "chris_lattitude"
  const Longitude := "chris_longitude"
  const Mode := "chris_chris_mode"
  const ImageDate := "chris_image_date_yyyy_mm_dd_"
  const CentreTime := "chris_calculated_image_centre_time"
  const Wavelength := "wavelength"

  /** The keys each loop visits, in the order of its table. */
  function GroupKeys(g: Group): (keys: seq<string>)
    ensures |keys| >= 1
  {
    match g
    case RegexGroup => [Latitude, Longitude, Mode, ImageDate, CentreTime]
    case ListGroup => [Wavelength]
    case NumericGroup => [Latitude, Longitude]
    case DateGroup => [ImageDate, CentreTime]
  }

  /** The regular expression of each key of the first table. */
  function Pattern(key: string): string {
    if key == Latitude || key == Longitude then "[-]?\\d+.\\d+"
    else if key == Mode then "([1-5]|hrc)"
    else if key == ImageDate then "[A-z0-9-\\s]+"
    else "[A-z0-9-:\\s]+"
  }

  /** The inclusive range of each key of the numeric table. */
  function Bounds(key: string): (b: (int, int))
    ensures b.0 < b.1
  {
    if key == Latitude then (-90, 90) else (-180, 180)
  }

  /** The `strptime` format of each key of the date table. */
  function DateFormatOf(key: string): seq<Directive> {
    if key == ImageDate then DateFormat else TimeFormat
  }

  /** The verdict of one loop on a present (truthy) value. `matches(p, s)` stands for
      `re.match(f"^{p}$", s)` finding a match.
      - Regular expressions: a value that is not a string makes `re.match` raise a `TypeError`,
        which is caught and recorded as invalid.
      - The wavelength list: every item must be a `float`; a string or a dict is iterated and its
        characters or keys are not floats; iterating a number raises a `TypeError`, which the
        `except ValueError` does not catch.
      - Numeric strings: a value that is not a string is invalid and ends the loop; `float`
        raising `ValueError` is invalid; so is a value outside the range.
      - Dates: `strptime` of a value that is not a string raises a `TypeError`; a text it
        rejects raises `ValueError`, which is caught and recorded as invalid. */
  function Judge(g: Group, matches: (string, string) -> bool, key: string, v: PyVal): Verdict {
    match g
    case RegexGroup =>
      if v.PyStr? && matches(Pattern(key), v.s) then Valid else Invalid
    case ListGroup =>
      (match v
       case PyList(items) => if forall i :: 0 <= i < |items| ==> items[i].PyFloat? then Valid else Invalid
       case PyStr(_) => Invalid
       case PyDict(_) => Invalid
       case _ => Raises)
    case NumericGroup =>
      if !v.PyStr? then InvalidStop
      else
        (match ParseFloat(v.s)
         case None => Invalid
         case Some(x) => if Bounds(key).0 as real <= x <= Bounds(key).1 as real then Valid else Invalid)
    case DateGroup =>
      if !v.PyStr? then Raises
      else if Strptime(DateFormatOf(key), v.s).Some? then Valid else Invalid
  }

  /** One loop over `keys`, as a specification: a missing (falsy) value is recorded and ends the
      loop; otherwise the verdict is applied. */
  function ScanKeys(g: Group, matches: (string, string) -> bool, meta: Dict<PyVal>, keys: seq<string>): Scan
    decreases |keys|
  {
    if keys == [] then Scan({}, {}, false)
    else
      var k := keys[0];
      var v := GetVal(meta, k);
      if !Truthy(v) then Scan({k}, {}, false)
      else match Judge(g, matches, k, v)
        case Valid => ScanKeys(g, matches, meta, keys[1..])
        case Invalid =>
          var r := ScanKeys(g, matches, meta, keys[1..]);
          Scan(r.missing, {k} + r.invalid, r.raised)
        case InvalidStop => Scan({}, {k}, false)
        case Raises => Scan({}, {}, true)
  }

  /** The loop from key `i` on: the key's own step followed by the loop from `i + 1`. */
  lemma ScanKeysStep(g: Group, matches: (string, string) -> bool, meta: Dict<PyVal>, keys: seq<string>, i: nat)
    requires i < |keys|
    ensures var k, v := keys[i], GetVal(meta, keys[i]);
      ScanKeys(g, matches, meta, keys[i..]) ==
        if !Truthy(v) then Scan({k}, {}, false)
        else match Judge(g, matches, k, v)
          case Valid => ScanKeys(g, matches, meta, keys[i + 1..])
          case Invalid =>
            var r := ScanKeys(g, matches, meta, keys[i + 1..]);
            Scan(r.missing, {k} + r.invalid, r.raised)
          case InvalidStop => Scan({}, {k}, false)
          case Raises => Scan({}, {}, true)
  {
    assert keys[i..][0] == keys[i] && keys[i..][1..] == keys[i + 1..];
  }

  /** What the keys already visited left, followed by the rest of the loop. */
  function Combine(missing: set<string>, invalid: set<string>, rest: Scan): Scan {
    Scan(missing + rest.missing, invalid + rest.invalid, rest.raised)
  }

  /** One pass of the loop body, for each way it can go. */
  lemma ScanStep(g: Group, matches: (string, string) -> bool, meta: Dict<PyVal>, keys: seq<string>, i: nat,
                 missing: set<string>, invalid: set<string>, verdict: Verdict)
    requires i < |keys|
    requires Combine(missing, invalid, ScanKeys(g, matches, meta, keys[i..])) == ScanKeys(g, matches, meta, keys)
    requires verdict == Judge(g, matches, keys[i], GetVal(meta, keys[i]))
    ensures var k, all := keys[i], ScanKeys(g, matches, meta, keys);
      && (!Truthy(GetVal(meta, k)) ==> Scan(missing + {k}, invalid, false) == all)
      && (Truthy(GetVal(meta, k)) ==>
            && (verdict == Raises ==> Scan(missing, invalid, true) == all)
            && (verdict == InvalidStop ==> Scan(missing, invalid + {k}, false) == all)
            && (verdict == Invalid ==> Combine(missing, invalid + {k}, ScanKeys(g, matches, meta, keys[i + 1..])) == all)
            && (verdict == Valid ==> Combine(missing, invalid, ScanKeys(g, matches, meta, keys[i + 1..])) == all))
  {
    ScanKeysStep(g, matches, meta, keys, i);
  }

  /** One of the four `for` loops of `check_metadata`, with its `break`s. */
  method ScanGroup(g: Group, matches: (string, string) -> bool, meta: Dict<PyVal>) returns (s: Scan)
    ensures s == ScanKeys(g, matches, meta, GroupKeys(g))
  {
    var keys := GroupKeys(g);
    var missing: set<string>, invalid: set<string> := {}, {};
    var i := 0;
    while i < |keys|
      invariant 0 <= i <= |keys|
      invariant Combine(missing, invalid, ScanKeys(g, matches, meta, keys[i..])) == ScanKeys(g, matches, meta, keys)
    {
      var k := keys[i];
      var v := GetVal(meta, k);
      var verdict := Judge(g, matches, k, v);
      ScanStep(g, matches, meta, keys, i, missing, invalid, verdict);
      if !Truthy(v) {
        missing := missing + {k};
        break;
      }
      match verdict {
        case Raises =>
          return Scan(missing, invalid, true);
        case InvalidStop =>
          invalid := invalid + {k};
          break;
        case Invalid =>
          invalid := invalid + {k};
        case Valid =>
      }
      i := i + 1;
    }
    s := Scan(missing, invalid, false);
  }

  /** The result of the four loops: a `TypeError` ends the function at once; otherwise the
      missing entries are reported before the invalid ones. */
  function Decide(scans: seq<Scan>): Outcome {
    if exists i :: 0 <= i < |scans| && scans[i].raised then Raised
    else
      var missing := AllMissing(scans);
      var invalid := AllInvalid(scans);
      if missing != {} then MissingEntries(missing)
      else if invalid != {} then InvalidEntries(invalid)
      else Passed
  }

  /** The union of the missing keys the loops recorded. */
  function AllMissing(scans: seq<Scan>): set<string> {
    set i, k | 0 <= i < |scans| && k in scans[i].missing :: k
  }

  /** The union of the invalid keys the loops recorded. */
  function AllInvalid(scans: seq<Scan>): set<string> {
    set i, k | 0 <= i < |scans| && k in scans[i].invalid :: k
  }

  /** The four loops, in the order they run. */
  const Groups: seq<Group> := [RegexGroup, ListGroup, NumericGroup, DateGroup]

  /** Where a loop stands in the order. */
  function Position(g: Group): (i: nat)
    ensures i < 4 && Groups[i] == g
  {
    match g
    case RegexGroup => 0
    case ListGroup => 1
    case NumericGroup => 2
    case DateGroup => 3
  }

  /** The four loops' results, in order. */
  function Scans(matches: (string, string) -> bool, meta: Dict<PyVal>): (r: seq<Scan>)
    ensures |r| == 4 && forall i :: 0 <= i < 4 ==> r[i] == ScanKeys(Groups[i], matches, meta, GroupKeys(Groups[i]))
  {
    seq(4, i requires 0 <= i < 4 => ScanKeys(Groups[i], matches, meta, GroupKeys(Groups[i])))
  }

  function CheckOutcome(matches: (string, string) -> bool, meta: Dict<PyVal>): Outcome {
    Decide(Scans(matches, meta))
  }

  /** `check_metadata(metadata)`: the four loops add to the same two sets. */
  method CheckMetadata(matches: (string, string) -> bool, meta: Dict<PyVal>) returns (outcome: Outcome)
    ensures outcome == CheckOutcome(matches, meta)
  {
    var scans := Scans(matches, meta);
    var missing: set<string>, invalid: set<string> := {}, {};
    for j := 0 to 4
      invariant forall i :: 0 <= i < j ==> !scans[i].raised
      invariant missing == set i, k | 0 <= i < j && k in scans[i].missing :: k
      invariant invalid == set i, k | 0 <= i < j && k in scans[i].invalid :: k
    {
      var s := ScanGroup(Groups[j], matches, meta);
      assert s == scans[j];
      if s.raised {
        return Raised;
      }
      missing := missing + s.missing;
      invalid := invalid + s.invalid;
    }
    if missing != {} {
      outcome := MissingEntries(missing);
    } else if invalid != {} {
      outcome := InvalidEntries(invalid);
    } else {
      outcome := Passed;
    }
  }

  // ---------------------------------------------------------------------------------------
  // What one loop reports

  /** A loop leaves nothing behind exactly when every one of its keys is present and passes. */
  lemma {:induction false} ScanClean(g: Group, matches: (string, string) -> bool, meta: Dict<PyVal>, keys: seq<string>)
    ensures ScanKeys(g, matches, meta, keys) == Scan({}, {}, false)
        <==> forall k :: k in keys ==> (Truthy(GetVal(meta, k)) && Judge(g, matches, k, GetVal(meta, k)) == Valid)
    decreases |keys|
  {
    if keys != [] {
      ScanClean(g, matches, meta, keys[1..]);
      assert forall k :: k in keys <==> k == keys[0] || k in keys[1..];
    }
  }

  /** A loop records at most one missing key, and only a key of its own whose value is absent or
      falsy; it records as invalid only keys of its own whose present value failed. */
  lemma {:induction false} ScanSound(g: Group, matches: (string, string) -> bool, meta: Dict<PyVal>, keys: seq<string>)
    ensures var r := ScanKeys(g, matches, meta, keys);
      |r.missing| <= 1 &&
      (forall k :: k in r.missing ==> k in keys && !Truthy(GetVal(meta, k))) &&
      (forall k :: k in r.invalid ==>
         (k in keys && Truthy(GetVal(meta, k)) && Judge(g, matches, k, GetVal(meta, k)) in {Invalid, InvalidStop}))
    decreases |keys|
  {
    if keys != [] {
      ScanSound(g, matches, meta, keys[1..]);
      assert forall k :: k in keys[1..] ==> k in keys;
    }
  }

  /** The first missing key of a loop is reported and ends the loop: nothing after it is looked
      at. */
  lemma {:induction false} ScanStopsAtMissing(g: Group, matches: (string, string) -> bool, meta: Dict<PyVal>,
                                              keys: seq<string>, j: nat)
    requires j < |keys| && !Truthy(GetVal(meta, keys[j]))
    requires forall i :: 0 <= i < j ==>
               (Truthy(GetVal(meta, keys[i])) && Judge(g, matches, keys[i], GetVal(meta, keys[i])) in {Valid, Invalid})
    ensures ScanKeys(g, matches, meta, keys).missing == {keys[j]}
    ensures !ScanKeys(g, matches, meta, keys).raised
    ensures forall k :: k in ScanKeys(g, matches, meta, keys).invalid ==> k in keys[..j]
    decreases j
  {
    if j > 0 {
      var rest := keys[1..];
      ScanStopsAtMissing(g, matches, meta, rest, j - 1);
      assert forall i :: 0 <= i < j - 1 ==> rest[i] == keys[i + 1];
      assert forall k :: k in rest[..j - 1] ==> k in keys[..j];
      assert keys[0] in keys[..j];
    }
  }

  // ---------------------------------------------------------------------------------------
  // What `check_metadata` reports

  /** The six keys the checks look at. */
  predicate Checked(k: string) {
    exists g :: k in GroupKeys(g)
  }

  /** Every key of a loop is present and passes its check. */
  predicate GroupPasses(g: Group, matches: (string, string) -> bool, meta: Dict<PyVal>) {
    forall k :: k in GroupKeys(g) ==> (Truthy(GetVal(meta, k)) && Judge(g, matches, k, GetVal(meta, k)) == Valid)
  }

  /** The function returns exactly when every key of every loop is present and passes its
      check. */
  lemma CheckPassed(matches: (string, string) -> bool, meta: Dict<PyVal>)
    ensures CheckOutcome(matches, meta) == Passed <==> forall g :: GroupPasses(g, matches, meta)
  {
    var scans := Scans(matches, meta);
    DecidePassed(scans);
    forall i | 0 <= i < 4
      ensures scans[i] == Scan({}, {}, false) <==> GroupPasses(Groups[i], matches, meta)
    {
      ScanClean(Groups[i], matches, meta, GroupKeys(Groups[i]));
    }
    forall g ensures GroupPasses(g, matches, meta) <==> scans[Position(g)] == Scan({}, {}, false) {
    }
  }

  /** The loops' results lead to a return exactly when none of them recorded anything. */
  lemma DecidePassed(scans: seq<Scan>)
    ensures Decide(scans) == Passed <==> forall i :: 0 <= i < |scans| ==> scans[i] == Scan({}, {}, false)
  {
    if forall i :: 0 <= i < |scans| ==> scans[i] == Scan({}, {}, false) {
      assert AllMissing(scans) == {};
      assert AllInvalid(scans) == {};
    }
    if Decide(scans) == Passed {
      forall i | 0 <= i < |scans| ensures scans[i] == Scan({}, {}, false) {
        assert forall k :: k in scans[i].missing ==> k in AllMissing(scans);
        assert forall k :: k in scans[i].invalid ==> k in AllInvalid(scans);
      }
    }
  }

  /** What a return guarantees about the values: both coordinates are numeric strings within
      their ranges, the wavelengths are a non-empty list of floats, the date and the time parse,
      and every text matches its pattern. */
  lemma PassedValues(matches: (string, string) -> bool, meta: Dict<PyVal>)
    requires CheckOutcome(matches, meta) == Passed
    ensures var lat := GetVal(meta, Latitude);
      lat.PyStr? && ParseFloat(lat.s).Some? && -90.0 <= ParseFloat(lat.s).value <= 90.0
    ensures var lon := GetVal(meta, Longitude);
      lon.PyStr? && ParseFloat(lon.s).Some? && -180.0 <= ParseFloat(lon.s).value <= 180.0
    ensures var w := GetVal(meta, Wavelength);
      w.PyList? && w.items != [] && forall i :: 0 <= i < |w.items| ==> w.items[i].PyFloat?
    ensures var d := GetVal(meta, ImageDate); d.PyStr? && Strptime(DateFormat, d.s).Some?
    ensures var t := GetVal(meta, CentreTime); t.PyStr? && Strptime(TimeFormat, t.s).Some?
    ensures forall k :: k in GroupKeys(RegexGroup) ==> GetVal(meta, k).PyStr? && matches(Pattern(k), GetVal(meta, k).s)
  {
    PassedGroups(matches, meta);
    NumericPasses(matches, meta);
    ListPasses(matches, meta);
    DatePasses(matches, meta);
  }

  lemma PassedGroups(matches: (string, string) -> bool, meta: Dict<PyVal>)
    requires CheckOutcome(matches, meta) == Passed
    ensures GroupPasses(RegexGroup, matches, meta) && GroupPasses(ListGroup, matches, meta)
    ensures GroupPasses(NumericGroup, matches, meta) && GroupPasses(DateGroup, matches, meta)
  {
    CheckPassed(matches, meta);
  }

  lemma ListPasses(matches: (string, string) -> bool, meta: Dict<PyVal>)
    requires GroupPasses(ListGroup, matches, meta)
    ensures var w := GetVal(meta, Wavelength);
      w.PyList? && w.items != [] && forall i :: 0 <= i < |w.items| ==> w.items[i].PyFloat?
  {
    assert Wavelength in GroupKeys(ListGroup);
  }

  lemma NumericPasses(matches: (string, string) -> bool, meta: Dict<PyVal>)
    requires GroupPasses(NumericGroup, matches, meta)
    ensures var lat := GetVal(meta, Latitude);
      lat.PyStr? && ParseFloat(lat.s).Some? && -90.0 <= ParseFloat(lat.s).value <= 90.0
    ensures var lon := GetVal(meta, Longitude);
      lon.PyStr? && ParseFloat(lon.s).Some? && -180.0 <= ParseFloat(lon.s).value <= 180.0
  {
    assert Latitude in GroupKeys(NumericGroup) && Longitude in GroupKeys(NumericGroup);
  }

  lemma DatePasses(matches: (string, string) -> bool, meta: Dict<PyVal>)
    requires GroupPasses(DateGroup, matches, meta)
    ensures var d := GetVal(meta, ImageDate); d.PyStr? && Strptime(DateFormat, d.s).Some?
    ensures var t := GetVal(meta, CentreTime); t.PyStr? && Strptime(TimeFormat, t.s).Some?
  {
    assert ImageDate in GroupKeys(DateGroup) && CentreTime in GroupKeys(DateGroup);
  }

  /** A loop whose checks never end it early finds a missing key of its own, unless a check
      raises. */
  lemma {:induction false} ScanFindsMissing(g: Group, matches: (string, string) -> bool, meta: Dict<PyVal>,
                                            keys: seq<string>, k: string)
    requires g != NumericGroup
    requires k in keys && !Truthy(GetVal(meta, k))
    ensures ScanKeys(g, matches, meta, keys).missing != {} || ScanKeys(g, matches, meta, keys).raised
    decreases |keys|
  {
    if keys[0] != k {
      ScanFindsMissing(g, matches, meta, keys[1..], k);
    }
  }

  /** A missing entry is always reported: the exception for missing entries comes before the
      one for invalid entries, whatever else is wrong, unless a check raises a `TypeError`. */
  lemma MissingReported(matches: (string, string) -> bool, meta: Dict<PyVal>, k: string)
    requires Checked(k) && !Truthy(GetVal(meta, k))
    ensures CheckOutcome(matches, meta).MissingEntries? || CheckOutcome(matches, meta) == Raised
  {
    var scans := Scans(matches, meta);
    var g := if k == Wavelength then ListGroup else RegexGroup;
    assert k in GroupKeys(g);
    ScanFindsMissing(g, matches, meta, GroupKeys(g), k);
    var r := scans[Position(g)];
    if !r.raised {
      var m :| m in r.missing;
      assert m in AllMissing(scans);
    }
  }

  /** A wavelength entry that is a number makes the list check iterate over it, and the
      resulting `TypeError` escapes. */
  lemma WavelengthNumber(matches: (string, string) -> bool, meta: Dict<PyVal>)
    requires GetVal(meta, Wavelength).PyInt? || GetVal(meta, Wavelength).PyFloat?
    requires Truthy(GetVal(meta, Wavelength))
    ensures CheckOutcome(matches, meta) == Raised
  {
    var scans := Scans(matches, meta);
    assert scans[1].raised;
  }
}
