/** The EOPF product built from a decoded cube (`_build_eopf_product`): the ground sampling
    distance read from the CHRIS mode, the radiance units fallback chain, the `oaNN_radiance`
    band variables, the product name and the order in which attribute sources are merged. The
    product tree is a dict from group or variable path to node. */
module Eopf {
  import opened Wrappers
  import opened Text
  import opened Numbers
  import opened PyValues
  import opened PyConvert
  import opened DataCube
  import opened Reader
  import RootAttrs

  const ModeKey := "chris mode"
  const Base := "measurements/image"
  const RootUnitsKey := "chris_calibration_data_units"
  const EnviUnitsKey := "calibration data units"
  const Radiance := PyStr("radiance")

  /** `_gsd_from_mode`: 36 m or 18 m. */
  function GsdFromMode(meta: Dict<PyVal>): (g: int)
    ensures g == 36 || g == 18
  {
    if PyToInt(GetVal(NormKeys(meta), ModeKey)) == Some(1) then 36 else 18
  }

  /** 36 m exactly when the last header key whose normal form is "chris mode" holds a value that
      `int()` turns into 1; a missing key, `None` and a text that is not an integer give 18 m. */
  lemma GsdFromModeSpec(meta: Dict<PyVal>)
    ensures var v := FindLast(meta, NormKey, ModeKey);
            GsdFromMode(meta) == 36 <==> v.Some? && PyToInt(v.value) == Some(1)
  {
    NormKeysGet(meta, ModeKey);
  }

  /** `int()` reads mode 1 from the text `1` padded with zeros on the left and with blanks on
      both sides, such as `01` or ` 1 `. */
  lemma ModeOneText(a: string, w: nat, b: string)
    requires forall k :: 0 <= k < |a| ==> IsSpace(a[k])
    requires forall k :: 0 <= k < |b| ==> IsSpace(b[k])
    ensures PyToInt(PyStr(a + FormatPad(1, w) + b)) == Some(1)
  {
    var d := FormatPad(1, w);
    ParseFormatPad(1, w);
    PadLeftDigits(FormatNat(1), w);
    assert IsDigit(d[0]) && IsDigit(d[|d| - 1]);
    StripPadded(a, d, b);
    StripTrimmed(d);
  }

  /** Any other integer, written out, is read as itself and so is not mode 1. */
  lemma ModeOtherText(n: int)
    ensures PyToInt(PyStr(FormatInt(n))) == Some(n)
  {
    ParseFormatInt(n);
  }

  /** Python's `a or b or …`: the first truthy operand, or the last one when none is. */
  function FirstTruthy(vs: seq<PyVal>): (r: PyVal)
    requires vs != []
    ensures r in vs
    ensures Truthy(r) <==> exists i :: 0 <= i < |vs| && Truthy(vs[i])
    ensures !Truthy(r) ==> r == vs[|vs| - 1]
    ensures Truthy(r) ==> exists i :: 0 <= i < |vs| && vs[i] == r && forall j :: 0 <= j < i ==> !Truthy(vs[j])
    decreases |vs|
  {
    if |vs| == 1 || Truthy(vs[0]) then vs[0]
    else
      var r := FirstTruthy(vs[1..]);
      assert forall i :: 0 < i < |vs| ==> vs[i] == vs[1..][i - 1];
      r
  }

  /** A missing entry of a dict of texts reads as `None`. */
  function TextOrNone(v: Option<string>): (r: PyVal)
    ensures v.None? ==> r == PyNone
    ensures v.Some? ==> r == PyStr(v.value)
  {
    match v
    case None => PyNone
    case Some(s) => PyStr(s)
  }

  /** `_radiance_units`: the root attribute first, then the ENVI key, then the ENVI copy of the
      CHRIS key, each taken only when truthy; when none is, the last of them (`None` if absent). */
  function RadianceUnits(envi: Dict<PyVal>, root: Dict<string>): (r: PyVal)
    ensures var a, b, c := TextOrNone(Get(root, RootUnitsKey)), GetVal(envi, EnviUnitsKey), GetVal(envi, RootUnitsKey);
            (Truthy(r) <==> Truthy(a) || Truthy(b) || Truthy(c)) &&
            (Truthy(a) ==> r == a) &&
            (!Truthy(a) && Truthy(b) ==> r == b) &&
            (!Truthy(a) && !Truthy(b) ==> r == c)
  {
    var a, b, c := TextOrNone(Get(root, RootUnitsKey)), GetVal(envi, EnviUnitsKey), GetVal(envi, RootUnitsKey);
    FirstTruthyThree(a, b, c);
    FirstTruthy([a, b, c])
  }

  lemma FirstTruthyThree(a: PyVal, b: PyVal, c: PyVal)
    ensures FirstTruthy([a, b, c]) == if Truthy(a) then a else if Truthy(b) then b else c
  {
    assert [a, b, c][1..] == [b, c];
    assert [b, c][1..] == [c];
  }

  /** `f"oa{k:02d}_radiance"` */
  function BandName(k: nat): string {
    "oa" + FormatPad(k, 2) + "_radiance"
  }

  /** The band number written in a variable name, if it has the `oaNN_radiance` shape. */
  function BandNumber(n: string): Option<int> {
    if |n| >= 11 && n[..2] == "oa" && EndsWith(n, "_radiance") then ParseInt(n[2..|n| - 9]) else None
  }

  /** The band number is read back from its variable name, so different bands have different
      names. */
  lemma BandNameRoundTrip(k: nat)
    ensures BandNumber(BandName(k)) == Some(k)
  {
    var d := FormatPad(k, 2);
    ParseFormatPad(k, 2);
    Middle("oa", d, "_radiance");
  }

  /** The three parts of a concatenation. */
  lemma Middle(a: string, d: string, b: string)
    ensures var n := a + d + b;
            n[..|a|] == a && n[|n| - |b|..] == b && n[|a|..|n| - |b|] == d
  {
  }

  lemma BandNameInjective(j: nat, k: nat)
    requires BandName(j) == BandName(k)
    ensures j == k
  {
    BandNameRoundTrip(j);
    BandNameRoundTrip(k);
  }

  lemma BandNameExamples()
    ensures BandName(1) == "oa01_radiance"
    ensures BandName(18) == "oa18_radiance"
  {
    assert FormatNat(1) == "1";
    assert FormatNat(18) == "18" by {
      assert FormatNat(1) == "1" && FormatNat(8) == "8";
    }
    assert FormatPad(1, 2) == "01";
    assert FormatPad(18, 2) == "18";
  }

  /** `os.path.splitext(p)[0]`: everything before the last dot, unless only dots precede it
      (a leading-dot name such as `.hdr` has no extension). */
  function SplitExtRoot(p: string): (r: string)
    ensures |r| <= |p| && r == p[..|r|]
    ensures r == p || (p[|r|] == '.' && '.' !in p[|r| + 1..] && exists j :: 0 <= j < |r| && r[j] != '.')
  {
    if '.' !in p then p
    else
      var i := LastIndexOf(p, '.');
      if exists j :: 0 <= j < i && p[j] != '.' then
        assert forall j :: 0 <= j < i ==> p[..i][j] == p[j];
        p[..i]
      else p
  }

  /** A name with some character other than a dot, followed by one extension, loses exactly
      that extension. */
  lemma SplitExtName(name: string, ext: string)
    requires '.' !in ext
    requires exists j :: 0 <= j < |name| && name[j] != '.'
    ensures SplitExtRoot(name + "." + ext) == name
  {
    var p := name + "." + ext;
    assert p[|name|] == '.';
    assert p[|name| + 1..] == ext;
    var r := SplitExtRoot(p);
    var j :| 0 <= j < |name| && name[j] != '.';
    assert p[j] == name[j];
    LastDot(p, |name|);
    assert p[..|name|] == name;
  }

  lemma LastDot(p: string, i: nat)
    requires i < |p| && p[i] == '.' && '.' !in p[i + 1..]
    ensures '.' in p && LastIndexOf(p, '.') == i
  {
    forall m | i < m < |p| ensures p[m] != '.' {
      assert p[m] == p[i + 1..][m - i - 1];
    }
  }

  /** The product name: `product_name` when truthy, otherwise the header file's name without its
      last extension. */
  function ProductName(given: Option<string>, hdrPath: string): (n: string)
    ensures given.Some? && given.value != [] ==> n == given.value
    ensures given.None? || given.value == [] ==> n == SplitExtRoot(Basename(hdrPath))
  {
    if given.Some? && given.value != [] then given.value else SplitExtRoot(Basename(hdrPath))
  }

  /** `write_eopf_zarr` names the product after the output path without its extension. */
  function ZarrProductName(outPath: string): string {
    SplitExtRoot(Basename(outPath))
  }

  /** Writing to `dir/name.zarr` names the product `name`; a header `dir/x.hdr.txt` names an
      unnamed product `x.hdr`. */
  lemma ZarrProductNameOf(dir: string, name: string, ext: string)
    requires '/' !in name && '.' !in ext && '/' !in ext
    requires exists j :: 0 <= j < |name| && name[j] != '.'
    ensures ZarrProductName(dir + "/" + name + "." + ext) == name
    ensures ProductName(None, dir + "/" + name + "." + ext) == name
  {
    var leaf := name + "." + ext;
    assert dir + "/" + name + "." + ext == dir + "/" + leaf;
    assert '/' !in leaf by {
      forall i | 0 <= i < |leaf| ensures leaf[i] != '/' {
        if i < |name| { assert leaf[i] == name[i]; }
        else if i > |name| { assert leaf[i] == ext[i - |name| - 1]; }
      }
    }
    RootAttrs.BasenameAfter(dir, leaf);
    SplitExtName(name, ext);
  }

  /** A node of the product tree. */
  datatype Node =
    | Group
    /** A coordinate variable along one dimension, with its length. */
    | Coord(dim: string, size: nat)
    /** A band variable: the bands `sel` picks for its label, which for a label that occurs
        once is the single (y, x) band. */
    | Band(data: Cube, attrs: Dict<PyVal>)

  datatype Product = Product(name: string, tree: Dict<Node>, attrs: Dict<PyVal>)

  /** `xs.sel(band=l)` along the band axis: the entries whose label is `l`, in order. A label
      that occurs once selects one entry, a repeated label all of its entries. */
  function SelLabel<T>(labels: seq<int>, xs: seq<T>, l: int): (r: seq<T>)
    requires |labels| == |xs|
    ensures |r| <= |xs|
    decreases |xs|
  {
    if xs == [] then []
    else (if labels[0] == l then [xs[0]] else []) + SelLabel(labels[1..], xs[1..], l)
  }

  /** Every selected entry sits at a position that carries the label. */
  lemma {:induction false} SelLabelSound<T>(labels: seq<int>, xs: seq<T>, l: int, k: nat)
    requires |labels| == |xs| && k < |SelLabel(labels, xs, l)|
    ensures exists j :: 0 <= j < |xs| && labels[j] == l && xs[j] == SelLabel(labels, xs, l)[k]
    decreases |xs|
  {
    var head := if labels[0] == l then [xs[0]] else [];
    if k >= |head| {
      SelLabelSound(labels[1..], xs[1..], l, k - |head|);
      var j :| 0 <= j < |xs| - 1 && labels[1..][j] == l && xs[1..][j] == SelLabel(labels[1..], xs[1..], l)[k - |head|];
      assert labels[j + 1] == l && xs[j + 1] == SelLabel(labels, xs, l)[k];
    } else {
      assert labels[0] == l && xs[0] == SelLabel(labels, xs, l)[k];
    }
  }

  /** A label carried by position `i` alone selects exactly the entry at `i`. */
  lemma {:induction false} SelLabelOnce<T>(labels: seq<int>, xs: seq<T>, i: nat)
    requires |labels| == |xs| && i < |xs|
    requires forall j :: 0 <= j < |labels| && j != i ==> labels[j] != labels[i]
    ensures SelLabel(labels, xs, labels[i]) == [xs[i]]
    decreases |xs|
  {
    if i == 0 {
      SelLabelAbsent(labels[1..], xs[1..], labels[0]);
    } else {
      assert labels[0] != labels[i];
      assert labels[1..][i - 1] == labels[i];
      SelLabelOnce(labels[1..], xs[1..], i - 1);
    }
  }

  /** A label no position carries selects nothing. */
  lemma {:induction false} SelLabelAbsent<T>(labels: seq<int>, xs: seq<T>, l: int)
    requires |labels| == |xs|
    requires forall j :: 0 <= j < |labels| ==> labels[j] != l
    ensures SelLabel(labels, xs, l) == []
    decreases |xs|
  {
    if xs != [] {
      assert labels[0] != l;
      SelLabelAbsent(labels[1..], xs[1..], l);
    }
  }

  /** A label carried by two positions selects at least two entries. */
  lemma {:induction false} SelLabelRepeated<T>(labels: seq<int>, xs: seq<T>, i: nat, j: nat)
    requires |labels| == |xs| && i < j < |xs| && labels[i] == labels[j]
    ensures |SelLabel(labels, xs, labels[i])| >= 2
    decreases |xs|
  {
    var l := labels[i];
    if i == 0 {
      SelLabelHas(labels[1..], xs[1..], l, j - 1);
    } else {
      assert labels[1..][i - 1] == l && labels[1..][j - 1] == l;
      SelLabelRepeated(labels[1..], xs[1..], i - 1, j - 1);
    }
  }

  /** A label some position carries selects at least one entry. */
  lemma {:induction false} SelLabelHas<T>(labels: seq<int>, xs: seq<T>, l: int, j: nat)
    requires |labels| == |xs| && j < |xs| && labels[j] == l
    ensures |SelLabel(labels, xs, l)| >= 1
    decreases |xs|
  {
    if j > 0 && labels[0] != l {
      assert labels[1..][j - 1] == l;
      SelLabelHas(labels[1..], xs[1..], l, j - 1);
    }
  }

  /** `float(da["wavelength"].sel(band=bi))` for the label `bi` of band `i`, when the cube has a
      wavelength coordinate and the conversion succeeds; `float` of a selection holding more than
      one wavelength raises, and the exception is swallowed. */
  function BandWavelength(da: DataArray, i: nat): Option<real>
    requires WellFormed(da) && i < |da.labels|
  {
    if da.wavelength.Some? then
      var ws := SelLabel(da.labels, da.wavelength.value, da.labels[i]);
      if |ws| == 1 then PyToFloat(ws[0]) else None
    else None
  }

  /** The attributes of a band variable, in the order they are set. */
  function BandAttrs(units: PyVal, wl: Option<real>): Dict<PyVal> {
    var a := [("measurement", Radiance)];
    var b := if Truthy(units) then a + [("units", units)] else a;
    if wl.Some? then b + [("wavelength_nm", PyFloat(wl.value))] else b
  }

  /** Every band is a radiance measurement; it carries units exactly when there are units and a
      wavelength exactly when one was read. */
  lemma BandAttrsGet(units: PyVal, wl: Option<real>)
    ensures var r := BandAttrs(units, wl);
            Get(r, "measurement") == Some(Radiance) &&
            Get(r, "units") == (if Truthy(units) then Some(units) else None) &&
            Get(r, "wavelength_nm") == (if wl.Some? then Some(PyFloat(wl.value)) else None) &&
            |r| <= 3
  {
    var a := [("measurement", Radiance)];
    var b := if Truthy(units) then a + [("units", units)] else a;
    if Truthy(units) {
      GetAppend(a, [("units", units)], "units");
      GetAppend(a, [("units", units)], "measurement");
      GetAppend(a, [("units", units)], "wavelength_nm");
    }
    if wl.Some? {
      var e := [("wavelength_nm", PyFloat(wl.value))];
      GetAppend(b, e, "units");
      GetAppend(b, e, "measurement");
      GetAppend(b, e, "wavelength_nm");
    }
  }

  function BandPath(k: nat): string {
    Base + "/" + BandName(k)
  }

  /** The node stored for the band at position `i`: the bands selected by its label. */
  function BandNode(da: DataArray, units: PyVal, i: nat): Node
    requires WellFormed(da) && i < |da.labels|
  {
    Band(SelLabel(da.labels, da.values, da.labels[i]), BandAttrs(units, BandWavelength(da, i)))
  }

  predicate DistinctLabels(labels: seq<int>) {
    forall a, b :: 0 <= a < b < |labels| ==> labels[a] != labels[b]
  }

  /** With distinct labels, as `read` gives without a band subset, the node of band `i` holds
      that band alone and the wavelength at its position. */
  lemma BandNodeDistinct(da: DataArray, units: PyVal, i: nat)
    requires WellFormed(da) && i < |da.labels| && DistinctLabels(da.labels)
    ensures BandNode(da, units, i) ==
            Band([da.values[i]], BandAttrs(units, if da.wavelength.Some? then PyToFloat(da.wavelength.value[i]) else None))
  {
    assert forall j :: 0 <= j < |da.labels| && j != i ==> da.labels[j] != da.labels[i] by {
      forall j | 0 <= j < |da.labels| && j != i ensures da.labels[j] != da.labels[i] {
        if j < i { assert da.labels[j] != da.labels[i]; } else { assert da.labels[i] != da.labels[j]; }
      }
    }
    SelLabelOnce(da.labels, da.values, i);
    if da.wavelength.Some? {
      SelLabelOnce(da.labels, da.wavelength.value, i);
    }
  }

  /** A label that two bands share gives each of them a node holding at least two bands and no
      `wavelength_nm`. */
  lemma BandNodeRepeated(da: DataArray, units: PyVal, i: nat, j: nat)
    requires WellFormed(da) && i < |da.labels| && j < |da.labels| && i != j && da.labels[i] == da.labels[j]
    ensures |BandNode(da, units, i).data| >= 2
    ensures Get(BandNode(da, units, i).attrs, "wavelength_nm") == None
  {
    var a, b := if i < j then i else j, if i < j then j else i;
    SelLabelRepeated(da.labels, da.values, a, b);
    if da.wavelength.Some? {
      SelLabelRepeated(da.labels, da.wavelength.value, a, b);
    }
    BandAttrsGet(units, BandWavelength(da, i));
  }

  /** The groups and coordinates created before the band loop. */
  function Skeleton(da: DataArray): Dict<Node> {
    [("measurements", Group), (Base, Group), (Base + "/y", Coord("y", da.height)), (Base + "/x", Coord("x", da.width))]
  }

  /** `(name(1), nodes[0]), (name(2), nodes[1]), …`: one entry per node, numbered from 1. */
  function Entries(name: nat -> string, nodes: seq<Node>): (r: Dict<Node>)
    ensures |r| == |nodes| && forall i :: 0 <= i < |nodes| ==> r[i] == (name(i + 1), nodes[i])
  {
    seq(|nodes|, i requires 0 <= i < |nodes| => (name(i + 1), nodes[i]))
  }

  /** The band variables in band order. */
  function BandNodes(da: DataArray, units: PyVal): (r: seq<Node>)
    requires WellFormed(da)
    ensures |r| == |da.labels| && forall i :: 0 <= i < |r| ==> r[i] == BandNode(da, units, i)
  {
    seq(|da.labels|, i requires 0 <= i < |da.labels| => BandNode(da, units, i))
  }

  /** The tree after the first `n` bands. */
  function TreeUpTo(da: DataArray, units: PyVal, n: nat): (t: Dict<Node>)
    requires WellFormed(da) && n <= |da.labels|
    ensures |t| == 4 + n
  {
    Skeleton(da) + Entries(BandPath, BandNodes(da, units)[..n])
  }

  /** The product attributes: the STAC discovery block, then the ENVI header, then the root
      attributes, then `measurement`, then `measurement:units` when there are units. */
  function ProductAttrs(envi: Dict<PyVal>, root: Dict<string>, units: PyVal): Dict<PyVal> {
    var b := Update(Update([("stac_discovery", Stac(root))], envi), StrValues(root));
    var c := Put(b, "measurement", Radiance);
    if Truthy(units) then Put(c, "measurement:units", units) else c
  }

  /** `{"properties": {...}}` from the root attributes. */
  function Stac(root: Dict<string>): PyVal {
    PyDict([("properties", PyDict([("product:type", TextOrNone(Get(root, "product_type"))),
                                   ("start_datetime", TextOrNone(Get(root, "datetime"))),
                                   ("platform", TextOrNone(Get(root, "platform"))),
                                   ("instrument", TextOrNone(Get(root, "instrument")))]))])
  }

  /** The band number written in a band path. */
  function BandPathNumber(q: string): Option<int> {
    if |q| >= |Base| + 1 then BandNumber(q[|Base| + 1..]) else None
  }

  lemma BandPathRoundTrip(k: nat)
    ensures BandPathNumber(BandPath(k)) == Some(k)
    ensures |BandPath(k)| >= |Base| + 14
  {
    var n := BandName(k);
    BandNameRoundTrip(k);
    assert |FormatPad(k, 2)| >= 2;
    AfterPrefix(Base + "/", n);
  }

  lemma AfterPrefix(p: string, n: string)
    ensures |p + n| == |p| + |n| && (p + n)[|p|..] == n
  {
  }

  ghost predicate Injective(name: nat -> string) {
    forall j, k :: name(j) == name(k) ==> j == k
  }

  /** No name is a key of `pre`. */
  ghost predicate Avoids(name: nat -> string, pre: Dict<Node>) {
    forall k :: name(k) !in Keys(pre)
  }

  /** Band paths are all different, and none is a group or a coordinate path. */
  lemma BandPaths(da: DataArray)
    ensures Injective(BandPath) && Avoids(BandPath, Skeleton(da))
  {
    forall j, k | BandPath(j) == BandPath(k) ensures j == k {
      BandPathRoundTrip(j);
      BandPathRoundTrip(k);
    }
    forall k ensures BandPath(k) !in Keys(Skeleton(da)) {
      BandPathLong(k);
      SkeletonShort(da);
    }
  }

  lemma BandPathLong(k: nat)
    ensures |BandPath(k)| > |Base| + 2
  {
    ParseFormatPad(k, 2);
  }

  lemma SkeletonShort(da: DataArray)
    ensures forall q :: q in Keys(Skeleton(da)) ==> |q| <= |Base| + 2
  {
    assert Keys(Skeleton(da)) == ["measurements", Base, Base + "/y", Base + "/x"];
  }

  lemma SkeletonWf(da: DataArray)
    ensures Wf(Skeleton(da))
  {
    assert |Base + "/y"| == |Base + "/x"| == |Base| + 2;
    assert (Base + "/y")[|Base| + 1] != (Base + "/x")[|Base| + 1];
  }

  /** Numbered entries with distinct names that avoid `pre` add no repeated key. */
  lemma EntriesWf(pre: Dict<Node>, name: nat -> string, nodes: seq<Node>)
    requires Wf(pre) && Injective(name) && Avoids(name, pre)
    ensures Wf(pre + Entries(name, nodes))
  {
    var t := pre + Entries(name, nodes);
    forall a, b | 0 <= a < b < |t| ensures t[a].0 != t[b].0 {
      if b >= |pre| {
        assert t[b].0 == name(b - |pre| + 1);
        if a < |pre| {
          assert Keys(pre)[a] == t[a].0;
        } else {
          assert t[a].0 == name(a - |pre| + 1);
        }
      }
    }
  }

  lemma EntriesSnoc(name: nat -> string, nodes: seq<Node>, n: nat)
    requires n < |nodes|
    ensures Entries(name, nodes[..n + 1]) == Entries(name, nodes[..n]) + [(name(n + 1), nodes[n])]
  {
  }

  /** Putting the next numbered entry appends it. */
  lemma EntriesPut(pre: Dict<Node>, name: nat -> string, nodes: seq<Node>, n: nat)
    requires n < |nodes| && Wf(pre) && Injective(name) && Avoids(name, pre)
    ensures Put(pre + Entries(name, nodes[..n]), name(n + 1), nodes[n]) == pre + Entries(name, nodes[..n + 1])
  {
    var t := pre + Entries(name, nodes[..n]);
    var e := (name(n + 1), nodes[n]);
    EntriesSnoc(name, nodes, n);
    assert pre + Entries(name, nodes[..n + 1]) == t + [e];
    EntriesWf(pre, name, nodes[..n + 1]);
    WfLast(t + [e]);
    assert (t + [e])[..|t|] == t;
    PutNew(t, e.0, e.1);
  }

  /** The keys of numbered entries after `pre`. */
  lemma EntriesKeys(pre: Dict<Node>, name: nat -> string, nodes: seq<Node>, q: string)
    ensures q in Keys(pre + Entries(name, nodes)) <==>
            q in Keys(pre) || exists k :: 1 <= k <= |nodes| && q == name(k)
  {
    var t := pre + Entries(name, nodes);
    if exists k :: 1 <= k <= |nodes| && q == name(k) {
      var k :| 1 <= k <= |nodes| && q == name(k);
      assert Keys(t)[|pre| + k - 1] == q;
    }
    if q in Keys(t) {
      var j :| 0 <= j < |t| && Keys(t)[j] == q;
      if j >= |pre| {
        assert q == name(j - |pre| + 1);
      } else {
        assert q == Keys(pre)[j];
      }
    }
    if q in Keys(pre) {
      var j :| 0 <= j < |pre| && Keys(pre)[j] == q;
      assert Keys(t)[j] == q;
    }
  }

  /** Adding band `i` appends its entry. */
  lemma TreeStep(da: DataArray, units: PyVal, i: nat)
    requires WellFormed(da) && i < |da.labels|
    ensures Put(TreeUpTo(da, units, i), BandPath(i + 1), BandNode(da, units, i))
            == TreeUpTo(da, units, i + 1)
  {
    SkeletonWf(da);
    BandPaths(da);
    EntriesPut(Skeleton(da), BandPath, BandNodes(da, units), i);
  }

  /** No path occurs twice in the tree. */
  lemma TreeWf(da: DataArray, units: PyVal, n: nat)
    requires WellFormed(da) && n <= |da.labels|
    ensures Wf(TreeUpTo(da, units, n))
  {
    SkeletonWf(da);
    BandPaths(da);
    EntriesWf(Skeleton(da), BandPath, BandNodes(da, units)[..n]);
  }

  /** One variable per band: the band at position `i` is stored under `oa{i+1:02d}_radiance`
      with its own cells and attributes. */
  lemma TreeBand(da: DataArray, units: PyVal, i: nat)
    requires WellFormed(da) && i < |da.labels|
    ensures Get(TreeUpTo(da, units, |da.labels|), BandPath(i + 1)) == Some(BandNode(da, units, i))
  {
    var t := TreeUpTo(da, units, |da.labels|);
    TreeWf(da, units, |da.labels|);
    assert t[4 + i] == (BandPath(i + 1), BandNode(da, units, i));
    GetAt(t, 4 + i);
  }

  /** The tree holds the two groups, the two coordinates and one path per band, and nothing else. */
  lemma TreeKeys(da: DataArray, units: PyVal, q: string)
    requires WellFormed(da)
    ensures q in Keys(TreeUpTo(da, units, |da.labels|)) <==>
            q in Keys(Skeleton(da)) || exists k :: 1 <= k <= |da.labels| && q == BandPath(k)
  {
    var nodes := BandNodes(da, units);
    assert nodes[..|da.labels|] == nodes;
    EntriesKeys(Skeleton(da), BandPath, nodes, q);
  }

  /** Where each product attribute comes from: `measurement` is always "radiance";
      `measurement:units` is the units when there are any; otherwise a root attribute overrides
      an ENVI header entry, which overrides the STAC discovery block. */
  lemma ProductAttrsGet(envi: Dict<PyVal>, root: Dict<string>, units: PyVal, k: string)
    requires Wf(envi) && Wf(root)
    ensures Get(ProductAttrs(envi, root, units), k) ==
            if k == "measurement" then Some(Radiance)
            else if k == "measurement:units" && Truthy(units) then Some(units)
            else if Get(root, k).Some? then Some(PyStr(Get(root, k).value))
            else if Get(envi, k).Some? then Get(envi, k)
            else if k == "stac_discovery" then Some(Stac(root))
            else None
  {
    var s := [("stac_discovery", Stac(root))];
    var a := Update(s, envi);
    var sv := StrValues(root);
    UpdateGet(s, envi, k);
    UpdateGet(a, sv, k);
    FindLastSame(envi, k);
    StrValuesWf(root);
    FindLastSame(sv, k);
    StrValuesGet(root, k);
  }

  /** `_build_eopf_product`. `chris` is the parsed CHRIS header of `hdrPath` (read without the
      spectral table, so every value is a string); the ground sampling distance it computes is
      only logged. */
  method BuildEopfProduct(da: DataArray, envi: Dict<PyVal>, chris: Dict<PyVal>, hdrPath: string,
                          given: Option<string>)
    returns (p: Product, base: string)
    requires WellFormed(da)
    ensures base == Base
    ensures var root := RootAttrs.RootAttrsOf(TextMeta(chris), hdrPath);
            var units := RadianceUnits(envi, root);
            p == Product(ProductName(given, hdrPath), TreeUpTo(da, units, |da.labels|), ProductAttrs(envi, root, units))
  {
    var root := RootAttrs.BuildEopfRootAttrs(TextMeta(chris), hdrPath);
    var gsd := GsdFromMode(chris);
    base := Base;
    var name := if given.Some? && given.value != [] then given.value else SplitExtRoot(Basename(hdrPath));
    var units := RadianceUnits(envi, root);
    var tree := BuildTree(da, units);
    var attrs: Dict<PyVal> := [];
    attrs := Put(attrs, "stac_discovery", Stac(root));
    attrs := Update(attrs, envi);
    attrs := Update(attrs, StrValues(root));
    attrs := Put(attrs, "measurement", Radiance);
    if Truthy(units) {
      attrs := Put(attrs, "measurement:units", units);
    }
    p := Product(name, tree, attrs);
  }

  /** The groups, the coordinates and the band loop of `_build_eopf_product`. Band `i` is named
      by its position and its data is selected by its label. */
  method BuildTree(da: DataArray, units: PyVal) returns (tree: Dict<Node>)
    requires WellFormed(da)
    ensures tree == TreeUpTo(da, units, |da.labels|)
  {
    tree := [];
    tree := Put(tree, "measurements", Group);
    tree := Put(tree, Base, Group);
    tree := Put(tree, Base + "/y", Coord("y", da.height));
    tree := Put(tree, Base + "/x", Coord("x", da.width));
    SkeletonPuts(da);
    var hasWl := da.wavelength.Some?;
    var i := 0;
    while i < |da.labels|
      invariant 0 <= i <= |da.labels|
      invariant tree == TreeUpTo(da, units, i)
    {
      var vname := BandName(i + 1);
      var attrs := BandAttributes(da, units, hasWl, i);
      TreeStep(da, units, i);
      var arr := SelLabel(da.labels, da.values, da.labels[i]);
      tree := Put(tree, Base + "/" + vname, Band(arr, attrs));
      i := i + 1;
    }
  }

  /** The attributes the band loop builds for band `i`, one assignment at a time. */
  method BandAttributes(da: DataArray, units: PyVal, hasWl: bool, i: nat) returns (attrs: Dict<PyVal>)
    requires WellFormed(da) && i < |da.labels| && hasWl == da.wavelength.Some?
    ensures attrs == BandAttrs(units, BandWavelength(da, i))
  {
    attrs := [];
    attrs := Put(attrs, "measurement", Radiance);
    if Truthy(units) {
      attrs := Put(attrs, "units", units);
    }
    if hasWl {
      var ws := SelLabel(da.labels, da.wavelength.value, da.labels[i]);
      if |ws| == 1 {
        var w := PyToFloat(ws[0]);
        if w.Some? {
          attrs := Put(attrs, "wavelength_nm", PyFloat(w.value));
        }
      }
    }
    BandAttrsPuts(units, BandWavelength(da, i));
  }

  /** The four skeleton assignments each add a new path. */
  lemma SkeletonPuts(da: DataArray)
    ensures Put(Put(Put(Put([], "measurements", Group), Base, Group), Base + "/y", Coord("y", da.height)),
                Base + "/x", Coord("x", da.width)) == Skeleton(da)
  {
    var t1: Dict<Node> := [("measurements", Group)];
    PutNew(t1, Base, Group);
    var t2 := t1 + [(Base, Group)];
    assert Keys(t2) == ["measurements", Base];
    PutNew(t2, Base + "/y", Coord("y", da.height));
    var t3 := t2 + [(Base + "/y", Coord("y", da.height))];
    assert Keys(t3) == ["measurements", Base, Base + "/y"];
    assert (Base + "/y")[|Base| + 1] != (Base + "/x")[|Base| + 1];
    PutNew(t3, Base + "/x", Coord("x", da.width));
  }

  /** The attribute assignments of the band loop give `BandAttrs`. */
  lemma BandAttrsPuts(units: PyVal, wl: Option<real>)
    ensures var a := Put([], "measurement", Radiance);
            var b := if Truthy(units) then Put(a, "units", units) else a;
            (if wl.Some? then Put(b, "wavelength_nm", PyFloat(wl.value)) else b) == BandAttrs(units, wl)
  {
    var a: Dict<PyVal> := [("measurement", Radiance)];
    PutNew(a, "units", units);
    var b := if Truthy(units) then a + [("units", units)] else a;
    assert Keys(b) == if Truthy(units) then ["measurement", "units"] else ["measurement"];
    assert "wavelength_nm" !in Keys(b);
    if wl.Some? {
      PutNew(b, "wavelength_nm", PyFloat(wl.value));
    }
  }
}
