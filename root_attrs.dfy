/** The root attributes of an EOPF product, derived from a CHRIS text header and the header's
    file name (`build_eopf_root_attrs`). The header values are the strings the header parser
    stores; the attributes are strings too. */
module RootAttrs {
  import opened Wrappers
  import opened Text
  import opened PyValues
  import opened DateTimes

  const DateKey := "Image Date (yyyy-mm-dd)"
  const CentreKey := "Calculated Image Centre Time"
  const SensorKey := "Sensor Type"
  const LonKey := "Longitude"
  /** The latitude key as the header spells it. */
  const LatKey := "Lattitude"
  const Prefix := "chris_"

  /** `re.sub(re.escape(suf) + "$", "", s)`: `$` matches at the very end and also just before a
      final newline, which then survives. */
  function SubAtEnd(s: string, suf: string): string {
    if EndsWith(s, suf) then s[..|s| - |suf|]
    else if EndsWith(s, suf + "\n") then s[..|s| - |suf| - 1] + "\n"
    else s
  }

  /** The product id: the base name of the header file without a final `.txt`, then without a
      final `.hdr`. */
  function Stem(filename: string): string {
    SubAtEnd(SubAtEnd(Basename(filename), ".txt"), ".hdr")
  }

  /** The `datetime` attribute: the ISO text of the parsed moment, or the two texts glued
      together around `T` with a trailing `Z` when they do not parse. */
  function DateTimeText(date: string, centre: string): string {
    match Strptime(DateTimeFormat, date + " " + centre)
    case Some(dt) => IsoFormat(dt)
    case None => date + "T" + centre + "Z"
  }

  /** `chris_meta.get(k)`, with a missing key read as the empty (false) string. */
  function Field(meta: Dict<string>, k: string): string {
    Get(meta, k).GetOr("")
  }

  /** The `datetime` attribute, set only when both the date and the centre time are non-empty. */
  function DatetimeAttr(meta: Dict<string>): Option<string> {
    var date, centre := Field(meta, DateKey), Field(meta, CentreKey);
    if date != "" && centre != "" then Some(DateTimeText(date, centre)) else None
  }

  /** The attributes set before the header fields are copied. */
  function Fixed(meta: Dict<string>, filename: string): Dict<string> {
    FixedOf(Stem(filename), DatetimeAttr(meta), Field(meta, SensorKey), Field(meta, LonKey), Field(meta, LatKey))
  }

  /** `if c: attrs[k] = v` for a key `attrs` does not hold yet, which goes at the end. */
  function AddIf(d: Dict<string>, c: bool, k: string, v: string): Dict<string> {
    if c then d + [(k, v)] else d
  }

  /** The attributes set before the copy loop; each of them is a new key. */
  function FixedOf(stem: string, datetime: Option<string>, sensor: string, lon: string, lat: string): Dict<string> {
    var a0 := AddIf(AddIf([], true, "id", stem), true, "product_type", "CHRIS-RCI");
    var a1 := AddIf(a0, datetime.Some?, "datetime", datetime.GetOr(""));
    var a2 := AddIf(a1, true, "platform", "ESA PROBA");
    var a3 := AddIf(a2, sensor != "", "instrument", sensor);
    AddIf(AddIf(a3, lon != "" && lat != "", "center_lon", lon), lon != "" && lat != "", "center_lat", lat)
  }

  /** What the attributes set before the copy loop hold, key by key. */
  function FixedLookup(stem: string, datetime: Option<string>, sensor: string, lon: string, lat: string,
                       k: string): Option<string> {
    if k == "id" then Some(stem)
    else if k == "product_type" then Some("CHRIS-RCI")
    else if k == "datetime" then datetime
    else if k == "platform" then Some("ESA PROBA")
    else if k == "instrument" then (if sensor != "" then Some(sensor) else None)
    else if k == "center_lon" then (if lon != "" && lat != "" then Some(lon) else None)
    else if k == "center_lat" then (if lon != "" && lat != "" then Some(lat) else None)
    else None
  }

  predicate IsWordChar(c: char) {
    IsDigit(c) || IsAsciiLetter(c) || c == '_'
  }

  predicate NotWordChar(c: char) {
    !IsWordChar(c)
  }

  /** `re.sub(r"[^0-9a-zA-Z_]+", "_", k).lower()` */
  function CleanKey(k: string): string {
    Lower(ReplaceRuns(k, NotWordChar, "_"))
  }

  /** One iteration of the copy loop: a field whose clean name is already an attribute is
      skipped, any other goes under `chris_<clean>`. */
  function CopyOne(attrs: Dict<string>, item: (string, string)): Dict<string> {
    var c := CleanKey(item.0);
    if c in Keys(attrs) then attrs else Put(attrs, Prefix + c, item.1)
  }

  function CopyFields(attrs: Dict<string>, items: Dict<string>): Dict<string>
    decreases |items|
  {
    if items == [] then attrs else CopyFields(CopyOne(attrs, items[0]), items[1..])
  }

  function RootAttrsOf(meta: Dict<string>, filename: string): Dict<string> {
    CopyFields(Fixed(meta, filename), meta)
  }

  /** `build_eopf_root_attrs(chris_meta, hdr_filename)` */
  method BuildEopfRootAttrs(meta: Dict<string>, filename: string) returns (attrs: Dict<string>)
    ensures attrs == RootAttrsOf(meta, filename)
  {
    var stem := Basename(filename);
    stem := SubAtEnd(stem, ".txt");
    stem := SubAtEnd(stem, ".hdr");
    // Every key set before the copy loop is new, so each assignment appends.
    attrs := [("id", stem)];
    attrs := attrs + [("product_type", "CHRIS-RCI")];
    ghost var a0 := attrs;
    assert a0 == AddIf(AddIf([], true, "id", stem), true, "product_type", "CHRIS-RCI");
    var date := Field(meta, DateKey);
    var centre := Field(meta, CentreKey);
    if date != "" && centre != "" {
      attrs := attrs + [("datetime", DateTimeText(date, centre))];
    }
    ghost var datetime := DatetimeAttr(meta);
    assert attrs == AddIf(a0, datetime.Some?, "datetime", datetime.GetOr(""));
    attrs := attrs + [("platform", "ESA PROBA")];
    ghost var a2 := attrs;
    assert a2 == AddIf(AddIf(a0, datetime.Some?, "datetime", datetime.GetOr("")), true, "platform", "ESA PROBA");
    var sensor := Field(meta, SensorKey);
    if sensor != "" {
      attrs := attrs + [("instrument", sensor)];
    }
    assert attrs == AddIf(a2, sensor != "", "instrument", sensor);
    ghost var a3 := attrs;
    var lon := Field(meta, LonKey);
    var lat := Field(meta, LatKey);
    if lon != "" && lat != "" {
      attrs := attrs + [("center_lon", lon)];
      attrs := attrs + [("center_lat", lat)];
    }
    assert attrs == AddIf(AddIf(a3, lon != "" && lat != "", "center_lon", lon), lon != "" && lat != "", "center_lat", lat);
    assert attrs == FixedOf(stem, datetime, sensor, lon, lat);
    assert stem == Stem(filename);
    ghost var base := attrs;
    assert base == Fixed(meta, filename);
    var i := 0;
    assert meta[i..] == meta;
    while i < |meta|
      invariant 0 <= i <= |meta|
      invariant CopyFields(attrs, meta[i..]) == CopyFields(base, meta)
    {
      var (k, v) := meta[i];
      var clean := CleanKey(k);
      assert meta[i..][1..] == meta[i + 1..];
      if clean !in Keys(attrs) {
        attrs := Put(attrs, Prefix + clean, v);
      }
      i := i + 1;
    }
    assert meta[i..] == [];
  }

  // ---------------------------------------------------------------------------------------
  // Properties

  /** Copying only ever writes keys that start with `chris_`; every other key keeps its value. */
  lemma {:induction false} CopyKeeps(attrs: Dict<string>, items: Dict<string>, k: string)
    requires !StartsWith(k, Prefix)
    ensures Get(CopyFields(attrs, items), k) == Get(attrs, k)
    decreases |items|
  {
    if items != [] {
      var c := CleanKey(items[0].0);
      assert StartsWith(Prefix + c, Prefix);
      CopyKeeps(CopyOne(attrs, items[0]), items[1..], k);
    }
  }

  /** Copying never removes a key. */
  lemma {:induction false} CopyGrows(attrs: Dict<string>, items: Dict<string>, k: string)
    requires k in Keys(attrs)
    ensures k in Keys(CopyFields(attrs, items))
    decreases |items|
  {
    if items != [] {
      CopyGrows(CopyOne(attrs, items[0]), items[1..], k);
    }
  }

  lemma GetAddIf(d: Dict<string>, c: bool, k: string, v: string, k': string)
    ensures Get(AddIf(d, c, k, v), k') == if Get(d, k').None? && c && k' == k then Some(v) else Get(d, k')
  {
    if c {
      GetAppend(d, [(k, v)], k');
    }
  }

  /** The attributes set before the copy loop are exactly the ones `FixedLookup` lists. */
  lemma FixedGet(stem: string, datetime: Option<string>, sensor: string, lon: string, lat: string, k: string)
    ensures Get(FixedOf(stem, datetime, sensor, lon, lat), k) == FixedLookup(stem, datetime, sensor, lon, lat, k)
  {
    var e: Dict<string> := [];
    var b0 := AddIf(e, true, "id", stem);
    var a0 := AddIf(b0, true, "product_type", "CHRIS-RCI");
    var a1 := AddIf(a0, datetime.Some?, "datetime", datetime.GetOr(""));
    var a2 := AddIf(a1, true, "platform", "ESA PROBA");
    var a3 := AddIf(a2, sensor != "", "instrument", sensor);
    var a4 := AddIf(a3, lon != "" && lat != "", "center_lon", lon);
    GetAddIf(e, true, "id", stem, k);
    GetAddIf(b0, true, "product_type", "CHRIS-RCI", k);
    GetAddIf(a0, datetime.Some?, "datetime", datetime.GetOr(""), k);
    GetAddIf(a1, true, "platform", "ESA PROBA", k);
    GetAddIf(a2, sensor != "", "instrument", sensor, k);
    GetAddIf(a3, lon != "" && lat != "", "center_lon", lon, k);
    GetAddIf(a4, lon != "" && lat != "", "center_lat", lat, k);
  }

  /** A key that does not start with `chris_` holds what the attributes set before the copy
      loop give it. */
  lemma RootFixedGet(meta: Dict<string>, filename: string, k: string)
    requires !StartsWith(k, Prefix)
    ensures Get(RootAttrsOf(meta, filename), k) ==
            FixedLookup(Stem(filename), DatetimeAttr(meta), Field(meta, SensorKey), Field(meta, LonKey),
                        Field(meta, LatKey), k)
  {
    CopyKeeps(Fixed(meta, filename), meta, k);
    FixedGet(Stem(filename), DatetimeAttr(meta), Field(meta, SensorKey), Field(meta, LonKey), Field(meta, LatKey), k);
  }

  lemma PrefixStarts(c: string)
    ensures StartsWith(Prefix + c, Prefix) && (Prefix + c)[|Prefix|..] == c
  {
    assert (Prefix + c)[..|Prefix|] == Prefix;
  }

  /** `datetime` is present exactly when both the date and the centre time are non-empty, and
      is then their parsed ISO text or the fallback concatenation. */
  lemma RootDatetime(meta: Dict<string>, filename: string)
    ensures var date, centre := Field(meta, DateKey), Field(meta, CentreKey);
            Get(RootAttrsOf(meta, filename), "datetime") ==
            if date != "" && centre != "" then Some(DateTimeText(date, centre)) else None
  {
    Unprefixed("datetime");
    RootFixedGet(meta, filename, "datetime");
  }

  /** A date and time written canonically give the same attribute on both paths:
      `f"{date}T{centre}Z"`. */
  lemma CanonicalDatetime(dt: DateTime)
    requires Valid(dt) && dt.year >= 1000
    ensures DateTimeText(DateText(dt), TimeText(dt)) == DateText(dt) + "T" + TimeText(dt) + "Z"
  {
    CanonicalDateTime(dt);
  }

  /** A text that does not parse as a date and time falls back to the concatenation. */
  lemma MalformedDatetime(date: string, centre: string)
    requires Strptime(DateTimeFormat, date + " " + centre).None?
    ensures DateTimeText(date, centre) == date + "T" + centre + "Z"
  {
  }

  /** The copy loop, summarised over the fields still to copy: a field whose clean name `c` is
      new and does not itself start with `chris_` lands under `chris_<c>` unless a later field
      has the same clean name. */
  lemma {:induction false} CopyLands(attrs: Dict<string>, items: Dict<string>, i: nat)
    requires i < |items|
    requires var c := CleanKey(items[i].0);
             !StartsWith(c, Prefix) && c !in Keys(attrs) &&
             forall j :: 0 <= j < |items| && j != i ==> CleanKey(items[j].0) != c
    ensures Get(CopyFields(attrs, items), Prefix + CleanKey(items[i].0)) == Some(items[i].1)
    decreases |items|
  {
    var c := CleanKey(items[i].0);
    var a' := CopyOne(attrs, items[0]);
    if i == 0 {
      CopyPersists(a', items[1..], c, items[0].1);
    } else {
      var c0 := CleanKey(items[0].0);
      assert c0 != c;
      PrefixStarts(c0);
      assert c !in Keys(a');
      forall j | 0 <= j < |items[1..]| && j != i - 1
        ensures CleanKey(items[1..][j].0) != c
      {
        assert items[1..][j] == items[j + 1];
      }
      assert items[1..][i - 1] == items[i];
      CopyLands(a', items[1..], i - 1);
    }
  }

  /** Once `chris_<c>` holds `v`, later fields with other clean names leave it alone. */
  lemma {:induction false} CopyPersists(attrs: Dict<string>, items: Dict<string>, c: string, v: string)
    requires Get(attrs, Prefix + c) == Some(v)
    requires forall j :: 0 <= j < |items| ==> CleanKey(items[j].0) != c
    ensures Get(CopyFields(attrs, items), Prefix + c) == Some(v)
    decreases |items|
  {
    if items != [] {
      var c0 := CleanKey(items[0].0);
      PrefixStarts(c0);
      PrefixStarts(c);
      CopyPersists(CopyOne(attrs, items[0]), items[1..], c, v);
    }
  }

  /** Every header field whose clean name is new and unique is copied under `chris_<clean>`. */
  lemma RootCopiesField(meta: Dict<string>, filename: string, i: nat)
    requires i < |meta|
    requires var c := CleanKey(meta[i].0);
             !StartsWith(c, Prefix) && c !in Keys(Fixed(meta, filename)) &&
             forall j :: 0 <= j < |meta| && j != i ==> CleanKey(meta[j].0) != c
    ensures Get(RootAttrsOf(meta, filename), Prefix + CleanKey(meta[i].0)) == Some(meta[i].1)
  {
    CopyLands(Fixed(meta, filename), meta, i);
  }

  /** While `c` is a key and `chris_<c>` is not, copying never adds `chris_<c>`: a field whose
      clean name is already an attribute is skipped, and no other field writes that key. */
  lemma {:induction false} CopySkips(attrs: Dict<string>, items: Dict<string>, c: string)
    requires c in Keys(attrs) && Prefix + c !in Keys(attrs)
    ensures Prefix + c !in Keys(CopyFields(attrs, items))
    decreases |items|
  {
    if items != [] {
      var c0 := CleanKey(items[0].0);
      var a' := CopyOne(attrs, items[0]);
      if c0 !in Keys(attrs) {
        assert Prefix + c0 != Prefix + c by {
          assert (Prefix + c0)[|Prefix|..] == c0 && (Prefix + c)[|Prefix|..] == c;
        }
        assert Prefix + c !in Keys(a') by {
          GetKeys(attrs, Prefix + c);
          GetKeys(a', Prefix + c);
        }
      }
      CopySkips(a', items[1..], c);
    }
  }

  /** A field whose clean name is one of the attribute names set before the copy loop (`id`,
      `platform`, ...) is never copied. */
  lemma RootSkipsFixedName(stem: string, datetime: Option<string>, sensor: string, lon: string, lat: string,
                           meta: Dict<string>, c: string)
    requires FixedLookup(stem, datetime, sensor, lon, lat, c).Some?
    ensures Prefix + c !in Keys(CopyFields(FixedOf(stem, datetime, sensor, lon, lat), meta))
  {
    var f := FixedOf(stem, datetime, sensor, lon, lat);
    var k := Prefix + c;
    assert k[0] == 'c' && k[1] == 'h';
    FixedGet(stem, datetime, sensor, lon, lat, k);
    FixedGet(stem, datetime, sensor, lon, lat, c);
    GetKeys(f, k);
    GetKeys(f, c);
    CopySkips(f, meta, c);
  }

  /** A key whose first two characters are not `ch` is not a copied field's key. */
  lemma Unprefixed(k: string)
    requires |k| >= 2 && (k[0] != 'c' || k[1] != 'h')
    ensures !StartsWith(k, Prefix)
  {
    if |k| >= |Prefix| {
      assert k[..|Prefix|][0] == k[0] && k[..|Prefix|][1] == k[1];
    }
  }

  /** The id strips `.hdr`, `.txt` or both, in that order, from the base name. */
  lemma StemOfName(dir: string, name: string)
    requires '/' !in name
    requires !EndsWith(name, ".hdr") && !EndsWith(name, ".hdr\n")
    requires !EndsWith(name, ".txt") && !EndsWith(name, ".txt\n")
    ensures Stem(dir + "/" + name + ".hdr.txt") == name
    ensures Stem(dir + "/" + name + ".hdr") == name
    ensures Stem(name + ".txt") == name
  {
    StemHdrTxt(dir, name);
    StemHdr(dir, name);
    StemTxt(name);
  }

  lemma StemHdrTxt(dir: string, name: string)
    requires '/' !in name
    ensures Stem(dir + "/" + name + ".hdr.txt") == name
  {
    var h := name + ".hdr";
    assert dir + "/" + name + ".hdr.txt" == dir + "/" + (h + ".txt");
    BasenameAfter(dir, h + ".txt");
    SubAtEndHit(h, ".txt");
    SubAtEndHit(name, ".hdr");
  }

  lemma StemHdr(dir: string, name: string)
    requires '/' !in name
    ensures Stem(dir + "/" + name + ".hdr") == name
  {
    var h := name + ".hdr";
    assert dir + "/" + name + ".hdr" == dir + "/" + h;
    BasenameAfter(dir, h);
    SubAtEndMiss(h, ".txt");
    SubAtEndHit(name, ".hdr");
  }

  lemma StemTxt(name: string)
    requires '/' !in name
    requires !EndsWith(name, ".hdr") && !EndsWith(name, ".hdr\n")
    ensures Stem(name + ".txt") == name
  {
    var t := name + ".txt";
    assert forall i | 0 <= i < |t| :: t[i] != '/' by {
      forall i | 0 <= i < |t| ensures t[i] != '/' {
        if i < |name| { assert t[i] == name[i]; } else { assert t[i] == ".txt"[i - |name|]; }
      }
    }
    assert Basename(t) == t;
    SubAtEndHit(name, ".txt");
    assert SubAtEnd(t, ".txt") == name;
  }

  lemma SubAtEndHit(s: string, suf: string)
    ensures SubAtEnd(s + suf, suf) == s
  {
    assert (s + suf)[|s|..] == suf;
    assert (s + suf)[..|s|] == s;
  }

  /** A text whose last character is neither the suffix's last character nor a newline is
      left alone. */
  lemma SubAtEndMiss(s: string, suf: string)
    requires s != [] && suf != []
    requires s[|s| - 1] != suf[|suf| - 1] && s[|s| - 1] != '\n'
    ensures SubAtEnd(s, suf) == s
  {
    LastDiffers(s, suf);
    LastDiffers(s, suf + "\n");
  }

  lemma LastDiffers(s: string, p: string)
    requires p != [] && s != [] && s[|s| - 1] != p[|p| - 1]
    ensures !EndsWith(s, p)
  {
    if |p| <= |s| {
      assert s[|s| - |p|..][|p| - 1] != p[|p| - 1];
    }
  }

  lemma BasenameAfter(dir: string, leaf: string)
    requires '/' !in leaf
    ensures Basename(dir + "/" + leaf) == leaf
  {
    LastIndexOfBefore(dir, '/', leaf);
    assert (dir + "/" + leaf)[|dir| + 1..] == leaf;
  }

  /** Clean names hold only digits, lower-case ASCII letters and underscores. */
  lemma CleanKeyChars(k: string)
    ensures forall c :: c in CleanKey(k) ==> IsDigit(c) || IsAsciiLower(c) || c == '_'
  {
    var r := ReplaceRuns(k, NotWordChar, "_");
    ReplaceRunsWord(k);
    forall c | c in CleanKey(k) ensures IsDigit(c) || IsAsciiLower(c) || c == '_' {
      var i :| 0 <= i < |r| && CleanKey(k)[i] == c;
      assert IsWordChar(r[i]);
    }
  }

  lemma {:induction false} ReplaceRunsWord(k: string)
    ensures forall c :: c in ReplaceRuns(k, NotWordChar, "_") ==> IsWordChar(c)
    decreases |k|
  {
    if k != [] {
      if NotWordChar(k[0]) {
        var rest := DropWhile(k, NotWordChar);
        ReplaceRunsWord(rest);
      } else {
        ReplaceRunsWord(k[1..]);
      }
    }
  }

  /** Cleaning a clean name changes nothing. */
  lemma CleanKeyIdempotent(k: string)
    ensures CleanKey(CleanKey(k)) == CleanKey(k)
  {
    var c := CleanKey(k);
    CleanKeyChars(k);
    ReplaceRunsNone(c);
    assert Lower(c) == c;
  }

  lemma {:induction false} ReplaceRunsNone(s: string)
    requires forall c :: c in s ==> IsWordChar(c)
    ensures ReplaceRuns(s, NotWordChar, "_") == s
    decreases |s|
  {
    if s != [] {
      assert s[0] in s;
      ReplaceRunsNone(s[1..]);
    }
  }
}
