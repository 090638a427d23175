/** The naming rules of the EO-SIP converter: the product type of a CHRIS mode, the band that
    stands for each colour of the quick-look image, and the file name of a package. */
module EoSip {
  import opened Wrappers
  import opened Text
  import opened PyValues

  // ---------------------------------------------------------------------------------------
  // Product type

  /** `mode_to_product_type` */
  const ModeTable: Dict<string> := [
    ("1", "CHR_MO1_1P"),
    ("2", "CHR_MO2_1P"),
    ("3", "CHR_MO3_1P"),
    ("4", "CHR_MO4_1P"),
    ("5", "CHR_MO5_1P"),
    ("hrc", "HRC_HRC_1P")
  ]

  /** `mode_to_product_type[mode.lower()]`; `None` where the lookup raises `KeyError`. */
  function ProductType(mode: string): Option<string> {
    Get(ModeTable, Lower(mode))
  }

  /** The mode a product type was looked up from. */
  function ModeOf(productType: string): Option<string> {
    if productType == "HRC_HRC_1P" then Some("hrc")
    else if |productType| == 10 && productType[..6] == "CHR_MO" && productType[7..] == "_1P"
         && '1' <= productType[6] <= '5'
    then Some([productType[6]])
    else None
  }

  /** The table written out: what each key of `mode_to_product_type` gives. */
  lemma ModeTableGet(m: string)
    ensures Get(ModeTable, m) ==
      if m == "1" then Some("CHR_MO1_1P")
      else if m == "2" then Some("CHR_MO2_1P")
      else if m == "3" then Some("CHR_MO3_1P")
      else if m == "4" then Some("CHR_MO4_1P")
      else if m == "5" then Some("CHR_MO5_1P")
      else if m == "hrc" then Some("HRC_HRC_1P")
      else None
  {
    var t := ModeTable;
    assert Get(t, m) == if m == "1" then Some("CHR_MO1_1P") else Get(t[1..], m);
    var t1 := t[1..];
    assert Get(t1, m) == if m == "2" then Some("CHR_MO2_1P") else Get(t1[1..], m);
    var t2 := t1[1..];
    assert Get(t2, m) == if m == "3" then Some("CHR_MO3_1P") else Get(t2[1..], m);
    var t3 := t2[1..];
    assert Get(t3, m) == if m == "4" then Some("CHR_MO4_1P") else Get(t3[1..], m);
    var t4 := t3[1..];
    assert Get(t4, m) == if m == "5" then Some("CHR_MO5_1P") else Get(t4[1..], m);
    var t5 := t4[1..];
    assert Get(t5, m) == if m == "hrc" then Some("HRC_HRC_1P") else Get(t5[1..], m);
    assert t5[1..] == [];
  }

  /** Exactly the five numbered modes and `hrc`, in any letter case, have a product type. */
  lemma ProductTypeDomain(mode: string)
    ensures ProductType(mode).Some? <==> Lower(mode) in ["1", "2", "3", "4", "5", "hrc"]
  {
    ModeTableGet(Lower(mode));
  }

  /** Mode `n` gives `CHR_MO{n}_1P`. */
  lemma ProductTypeNumbered(d: char)
    requires '1' <= d <= '5'
    ensures ProductType([d]) == Some("CHR_MO" + [d] + "_1P")
  {
    assert Lower([d]) == [d];
    ModeTableGet([d]);
    var t := "CHR_MO" + [d] + "_1P";
    if d == '1' {
      assert t == "CHR_MO1_1P";
    } else if d == '2' {
      assert t == "CHR_MO2_1P";
    } else if d == '3' {
      assert t == "CHR_MO3_1P";
    } else if d == '4' {
      assert t == "CHR_MO4_1P";
    } else {
      assert t == "CHR_MO5_1P";
    }
  }

  /** Mode `hrc`, in any letter case, gives `HRC_HRC_1P`. */
  lemma ProductTypeHrc(mode: string)
    requires Lower(mode) == "hrc"
    ensures ProductType(mode) == Some("HRC_HRC_1P")
  {
    ModeTableGet(Lower(mode));
  }

  /** The table is one-to-one: the product type gives back the lower-cased mode. */
  lemma ProductTypeInverse(mode: string)
    requires ProductType(mode).Some?
    ensures ModeOf(ProductType(mode).value) == Some(Lower(mode))
  {
    ModeTableGet(Lower(mode));
  }

  // ---------------------------------------------------------------------------------------
  // Quick-look bands

  datatype Colour = Red | Green | Blue

  /** `all_wavelengths`: the inclusive wavelength range of a colour, in nanometres. */
  function Range(c: Colour): (r: (real, real))
    ensures r.0 < r.1
  {
    match c
    case Red => (625.0, 750.0)
    case Green => (495.0, 570.0)
    case Blue => (400.0, 495.0)
  }

  predicate InRange(c: Colour, w: real) {
    Range(c).0 <= w <= Range(c).1
  }

  function Abs(x: real): real {
    if x < 0.0 then -x else x
  }

  /** The distance of a wavelength from the middle of the colour's range. */
  function Dist(c: Colour, w: real): real {
    Abs(w - (Range(c).0 + Range(c).1) / 2.0)
  }

  /** `i` is the band `get_band_index` picks: in range, nearest to the middle of the range, and
      the first of the bands at that distance. */
  predicate IsPick(c: Colour, ws: seq<real>, i: nat) {
    i < |ws| && InRange(c, ws[i]) &&
    (forall j :: 0 <= j < |ws| && InRange(c, ws[j]) ==> Dist(c, ws[i]) <= Dist(c, ws[j])) &&
    (forall j :: 0 <= j < i && InRange(c, ws[j]) ==> Dist(c, ws[i]) < Dist(c, ws[j]))
  }

  predicate NoneInRange(c: Colour, ws: seq<real>) {
    forall i :: 0 <= i < |ws| ==> !InRange(c, ws[i])
  }

  /** The pick is unique: the specification leaves the method no choice. */
  lemma PickUnique(c: Colour, ws: seq<real>, i: nat, j: nat)
    requires IsPick(c, ws, i) && IsPick(c, ws, j)
    ensures i == j
  {
  }

  /** The `(index, wavelength)` pairs of the bands in range, in band order (`valid_bands`). */
  function ValidBands(c: Colour, ws: seq<real>): (v: seq<(nat, real)>)
    ensures |v| <= |ws|
    decreases |ws|
  {
    if ws == [] then []
    else
      var n := |ws| - 1;
      ValidBands(c, ws[..n]) + (if InRange(c, ws[n]) then [(n, ws[n])] else [])
  }

  /** `valid_bands` holds exactly the bands in range, each with its own wavelength. */
  lemma {:induction false} ValidBandsMembers(c: Colour, ws: seq<real>, p: (nat, real))
    ensures p in ValidBands(c, ws) <==> p.0 < |ws| && p.1 == ws[p.0] && InRange(c, p.1)
    decreases |ws|
  {
    if ws != [] {
      var n := |ws| - 1;
      ValidBandsMembers(c, ws[..n], p);
    }
  }

  /** The bands in range keep their order. */
  lemma {:induction false} ValidBandsSorted(c: Colour, ws: seq<real>)
    ensures forall a :: 0 <= a < |ValidBands(c, ws)| ==> ValidBands(c, ws)[a].0 < |ws|
    ensures forall a, b :: 0 <= a < b < |ValidBands(c, ws)| ==> ValidBands(c, ws)[a].0 < ValidBands(c, ws)[b].0
    decreases |ws|
  {
    if ws != [] {
      ValidBandsSorted(c, ws[..|ws| - 1]);
    }
  }

  /** The position of the first pair of `bands` nearest to the middle of the colour's range
      (Python's `min` with a key keeps the first of equal keys). */
  method Nearest(c: Colour, bands: seq<(nat, real)>) returns (b: nat)
    requires bands != []
    ensures b < |bands|
    ensures forall m :: 0 <= m < |bands| ==> Dist(c, bands[b].1) <= Dist(c, bands[m].1)
    ensures forall m :: 0 <= m < b ==> Dist(c, bands[b].1) < Dist(c, bands[m].1)
  {
    var mid := (Range(c).0 + Range(c).1) / 2.0;
    b := 0;
    var k := 1;
    while k < |bands|
      invariant 1 <= k <= |bands| && b < k
      invariant forall m :: 0 <= m < k ==> Dist(c, bands[b].1) <= Dist(c, bands[m].1)
      invariant forall m :: 0 <= m < b ==> Dist(c, bands[b].1) < Dist(c, bands[m].1)
    {
      if Abs(bands[k].1 - mid) < Abs(bands[b].1 - mid) {
        b := k;
      }
      k := k + 1;
    }
  }

  /** `get_band_index`: the first loop collects the bands in range, `min` with the distance as
      key takes the first of the nearest ones. No band in range raises `ValueError`, here the
      error value names the colour. */
  method GetBandIndex(c: Colour, ws: seq<real>) returns (r: Result<nat, Colour>)
    ensures r.Err? <==> NoneInRange(c, ws)
    ensures r.Err? ==> r.error == c
    ensures r.Ok? ==> IsPick(c, ws, r.value)
  {
    var valid: seq<(nat, real)> := [];
    for i := 0 to |ws|
      invariant valid == ValidBands(c, ws[..i])
    {
      assert ws[..i + 1][..i] == ws[..i];
      if Range(c).0 <= ws[i] <= Range(c).1 {
        valid := valid + [(i, ws[i])];
      }
    }
    assert ws[..|ws|] == ws;
    if valid == [] {
      forall i | 0 <= i < |ws| ensures !InRange(c, ws[i]) {
        ValidBandsMembers(c, ws, (i, ws[i]));
      }
      return Err(c);
    }
    var b := Nearest(c, valid);
    PickFromNearest(c, ws, valid, b);
    return Ok(valid[b].0);
  }

  /** The nearest valid band, first on ties, is the pick among all bands. */
  lemma PickFromNearest(c: Colour, ws: seq<real>, valid: seq<(nat, real)>, b: nat)
    requires valid == ValidBands(c, ws) && b < |valid|
    requires forall m :: 0 <= m < |valid| ==> Dist(c, valid[b].1) <= Dist(c, valid[m].1)
    requires forall m :: 0 <= m < b ==> Dist(c, valid[b].1) < Dist(c, valid[m].1)
    ensures IsPick(c, ws, valid[b].0) && !NoneInRange(c, ws)
  {
    var best := valid[b];
    ValidBandsMembers(c, ws, best);
    ValidBandsSorted(c, ws);
    forall j | 0 <= j < |ws| && InRange(c, ws[j])
      ensures Dist(c, best.1) <= Dist(c, ws[j])
      ensures j < best.0 ==> Dist(c, best.1) < Dist(c, ws[j])
    {
      ValidBandsMembers(c, ws, (j, ws[j]));
      var m :| 0 <= m < |valid| && valid[m] == (j, ws[j]);
      if j < best.0 {
        assert m < b;
      }
    }
  }

  /** `get_band_indexes`: the red, green and blue picks in that order; the first colour without
      a band in range is the error. */
  method GetBandIndexes(ws: seq<real>) returns (r: Result<(nat, nat, nat), Colour>)
    ensures r.Ok? <==> !NoneInRange(Red, ws) && !NoneInRange(Green, ws) && !NoneInRange(Blue, ws)
    ensures r.Ok? ==> IsPick(Red, ws, r.value.0) && IsPick(Green, ws, r.value.1) && IsPick(Blue, ws, r.value.2)
    ensures r.Err? ==> r.error == (if NoneInRange(Red, ws) then Red
                                   else if NoneInRange(Green, ws) then Green else Blue)
  {
    var red := GetBandIndex(Red, ws);
    if red.Err? {
      return Err(Red);
    }
    var green := GetBandIndex(Green, ws);
    if green.Err? {
      return Err(Green);
    }
    var blue := GetBandIndex(Blue, ws);
    if blue.Err? {
      return Err(Blue);
    }
    return Ok((red.value, green.value, blue.value));
  }

  /** 495 nm lies in both the green and the blue range, and the red range is disjoint from the
      others. */
  lemma RangesMeet(w: real)
    ensures InRange(Green, w) && InRange(Blue, w) <==> w == 495.0
    ensures InRange(Red, w) ==> !InRange(Green, w) && !InRange(Blue, w)
  {
  }

  // ---------------------------------------------------------------------------------------
  // File name

  /** The metadata keys of the file name, in order. */
  const NameKeys: seq<string> := ["sat_id", "file_class", "product_type", "formatted_timestamp",
                                  "formatted_latitude", "formatted_longitude"]

  /** The values of `keys`, all of them or `None` (a missing key raises `KeyError`). */
  function Values(meta: Dict<string>, keys: seq<string>): (r: Option<seq<string>>)
    ensures r.Some? ==> |r.value| == |keys| && forall i :: 0 <= i < |keys| ==> Get(meta, keys[i]) == Some(r.value[i])
    ensures r.None? ==> exists i :: 0 <= i < |keys| && Get(meta, keys[i]).None?
    decreases |keys|
  {
    if keys == [] then Some([])
    else match (Get(meta, keys[0]), Values(meta, keys[1..]))
      case (Some(v), Some(vs)) => Some([v] + vs)
      case (None, _) => None
      case (_, None) => None
  }

  /** `generate_file_name`: the six fields joined with `_`. */
  function GenerateFileName(meta: Dict<string>): Option<string> {
    match Values(meta, NameKeys)
    case None => None
    case Some(vs) => Some(Join("_", vs))
  }

  /** Splitting two texts joined with a separator gives the pieces of the one, then the pieces of
      the other. */
  lemma {:induction false} SplitConcat(a: string, b: string, sep: char)
    ensures Split(a + [sep] + b, sep) == Split(a, sep) + Split(b, sep)
    decreases |a|
  {
    if sep !in a {
      SplitConcatHead(a, b, sep);
    } else {
      var i := IndexOf(a, sep);
      var x, r := a[..i], a[i + 1..];
      SplitConcatStep(a, b, sep, i);
      SplitConcat(r, b, sep);
      ConcatAssoc([x], Split(r, sep), Split(b, sep), Split(a + [sep] + b, sep), Split(a, sep));
    }
  }

  lemma ConcatAssoc(x: seq<string>, p: seq<string>, q: seq<string>, whole: seq<string>, left: seq<string>)
    requires whole == x + (p + q) && left == x + p
    ensures whole == left + q
  {
  }

  lemma SplitConcatHead(a: string, b: string, sep: char)
    requires sep !in a
    ensures Split(a + [sep] + b, sep) == [a] + Split(b, sep)
  {
    var s := a + [sep] + b;
    IndexOfAfter(a, sep, b);
    assert s[..|a|] == a && s[|a| + 1..] == b;
  }

  lemma SplitConcatStep(a: string, b: string, sep: char, i: nat)
    requires sep in a && i == IndexOf(a, sep)
    ensures Split(a + [sep] + b, sep) == [a[..i]] + Split(a[i + 1..] + [sep] + b, sep)
    ensures Split(a, sep) == [a[..i]] + Split(a[i + 1..], sep)
  {
    var s := a + [sep] + b;
    assert s[i] == sep && s[..i] == a[..i];
    IndexOfPrefix(s, sep, i);
    assert s[i + 1..] == a[i + 1..] + [sep] + b;
  }

  lemma IndexOfPrefix(s: string, c: char, i: nat)
    requires i < |s| && s[i] == c && c !in s[..i]
    ensures c in s && IndexOf(s, c) == i
  {
    var j := IndexOf(s, c);
    assert forall q :: 0 <= q < i ==> s[q] != c by {
      forall q | 0 <= q < i ensures s[q] != c {
        assert s[..i][q] == s[q];
      }
    }
    assert forall q :: 0 <= q < j ==> s[q] != c by {
      forall q | 0 <= q < j ensures s[q] != c {
        assert s[..j][q] == s[q];
      }
    }
  }

  /** The pieces of every text in turn. */
  function Pieces(vs: seq<string>, sep: char): seq<string>
    decreases |vs|
  {
    if vs == [] then [] else Split(vs[0], sep) + Pieces(vs[1..], sep)
  }

  /** Splitting a join gives the pieces of the joined texts, whatever they contain. */
  lemma {:induction false} SplitJoinPieces(vs: seq<string>, sep: char)
    requires vs != []
    ensures Split(Join([sep], vs), sep) == Pieces(vs, sep)
    decreases |vs|
  {
    if |vs| > 1 {
      SplitConcat(vs[0], Join([sep], vs[1..]), sep);
      SplitJoinPieces(vs[1..], sep);
    } else {
      assert vs[1..] == [];
    }
  }

  /** The `_`-separated pieces of a file name are those of its six fields in order; a product
      type such as `CHR_MO1_1P` contributes three of them. */
  lemma FileNamePieces(meta: Dict<string>)
    requires GenerateFileName(meta).Some?
    ensures Split(GenerateFileName(meta).value, '_') == Pieces(Values(meta, NameKeys).value, '_')
  {
    SplitJoinPieces(Values(meta, NameKeys).value, '_');
  }

  /** The name is the six fields with a `_` between each two. */
  lemma FileNameFields(meta: Dict<string>)
    requires GenerateFileName(meta).Some?
    ensures var vs := Values(meta, NameKeys).value;
            GenerateFileName(meta).value
            == vs[0] + "_" + vs[1] + "_" + vs[2] + "_" + vs[3] + "_" + vs[4] + "_" + vs[5]
  {
    JoinSix(Values(meta, NameKeys).value);
  }

  lemma JoinSix(vs: seq<string>)
    requires |vs| == 6
    ensures Join("_", vs) == vs[0] + "_" + vs[1] + "_" + vs[2] + "_" + vs[3] + "_" + vs[4] + "_" + vs[5]
  {
    assert Join("_", vs[5..]) == vs[5];
    assert Join("_", vs[4..]) == vs[4] + "_" + vs[5] by { assert vs[4..][1..] == vs[5..]; }
    assert Join("_", vs[3..]) == vs[3] + "_" + Join("_", vs[4..]) by { assert vs[3..][1..] == vs[4..]; }
    assert Join("_", vs[2..]) == vs[2] + "_" + Join("_", vs[3..]) by { assert vs[2..][1..] == vs[3..]; }
    assert Join("_", vs[1..]) == vs[1] + "_" + Join("_", vs[2..]) by { assert vs[1..][1..] == vs[2..]; }
  }
}
