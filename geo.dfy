/** Geolocation rules of the COG/Zarr writer: the UTM EPSG code of a point, the affine transform
    centred on the image centre, the coordinate arrays it generates, the grid-mapping attributes
    and their EPSG read-back, the centre and ground sampling distance from the CHRIS header, and
    the constant viewing-geometry layers. */
module Geo {
  import opened Wrappers
  import opened Text
  import opened Numbers
  import opened PyValues
  import opened PyConvert

  /** The UTM zone of a longitude: six-degree bands numbered from 1 eastwards from 180° W. */
  function UtmZone(lon: real): int {
    ((lon + 180.0) / 6.0).Floor + 1
  }

  /** `geo_utm_epsg_from_lonlat`: 326xx on or north of the equator, 327xx south of it, where
      xx is the zone whose six-degree band holds the longitude. */
  function UtmEpsg(lon: real, lat: real): (r: int)
    ensures var z := r - (if lat >= 0.0 then 32600 else 32700);
            -180.0 + 6.0 * (z - 1) as real <= lon < -180.0 + 6.0 * z as real
  {
    (if lat >= 0.0 then 326 else 327) * 100 + UtmZone(lon)
  }

  /** For longitudes in [-180, 180) the code names one of the 60 zones of the hemisphere. */
  lemma UtmEpsgRange(lon: real, lat: real)
    requires -180.0 <= lon < 180.0
    ensures lat >= 0.0 ==> 32601 <= UtmEpsg(lon, lat) <= 32660
    ensures lat < 0.0 ==> 32701 <= UtmEpsg(lon, lat) <= 32760
  {
    var z := UtmEpsg(lon, lat) - (if lat >= 0.0 then 32600 else 32700);
    assert -180.0 + 6.0 * (z - 1) as real <= lon < -180.0 + 6.0 * z as real;
  }

  lemma UtmEpsgExamples()
    ensures UtmEpsg(-110.54, 31.60) == 32612
    ensures UtmEpsg(12.0, -34.0) == 32733
  {
  }

  /** A GDAL geotransform: origin x, pixel width, row rotation, origin y, column rotation,
      pixel height (negative for north-up images). */
  datatype GeoTransform = GeoTransform(a: real, b: real, c: real, d: real, e: real, f: real)

  /** `geo_affine_from_center`: a north-up transform whose origin lies half the image extent
      west and north of the given centre. */
  function AffineFromCenter(east: real, north: real, width: int, height: int, xres: real, yres: real)
    : (gt: GeoTransform)
    ensures gt.a + gt.b * (width as real / 2.0) == east
    ensures gt.d + gt.f * (height as real / 2.0) == north
    ensures gt.b == xres && gt.f == -yres && gt.c == 0.0 && gt.e == 0.0
  {
    GeoTransform(east - xres * (width as real / 2.0), xres, 0.0, north + yres * (height as real / 2.0), 0.0, -yres)
  }

  /** The length of `np.arange(n)`. */
  function Arange(n: int): nat {
    if n < 0 then 0 else n
  }

  /** `a + b * np.arange(n)` */
  function Axis(a: real, b: real, n: int): (r: seq<real>)
    ensures |r| == Arange(n)
  {
    seq(Arange(n), i requires 0 <= i < Arange(n) => a + b * i as real)
  }

  /** `geo_build_xy_coords`: the x values along a row and the y values down a column. */
  function BuildXYCoords(gt: GeoTransform, width: int, height: int): (seq<real>, seq<real>) {
    (Axis(gt.a, gt.b, width), Axis(gt.d, gt.f, height))
  }

  /** With positive pixel sizes the x values increase and the y values decrease strictly. */
  lemma CoordsMonotone(gt: GeoTransform, width: int, height: int, i: nat, j: nat)
    requires gt.b > 0.0 && gt.f < 0.0
    ensures var (x, y) := BuildXYCoords(gt, width, height);
            (i < j < |x| ==> x[i] < x[j]) && (i < j < |y| ==> y[i] > y[j])
  {
    var (x, y) := BuildXYCoords(gt, width, height);
    if i < j < |x| {
      assert x[j] - x[i] == gt.b * (j - i) as real;
    }
    if i < j < |y| {
      assert y[j] - y[i] == gt.f * (j - i) as real;
    }
  }

  /** For a transform centred on (east, north), column i lies (w/2 - i) pixels west of the
      centre, and with an even width the middle column sits exactly on it. */
  lemma CentredColumns(east: real, north: real, width: int, height: int, xres: real, yres: real, i: nat)
    requires i < Arange(width)
    ensures var x := BuildXYCoords(AffineFromCenter(east, north, width, height, xres, yres), width, height).0;
            x[i] == east - xres * (width as real / 2.0 - i as real)
            && (width % 2 == 0 && i == width / 2 ==> x[i] == east)
  {
  }

  /** `geo_grid_mapping_attrs` */
  function GridMappingAttrs(epsg: int): Dict<PyVal> {
    [("grid_mapping_name", PyStr("transverse_mercator")),
     ("spatial_ref", PyStr("EPSG:" + FormatInt(epsg))),
     ("epsg_code", PyStr("EPSG:" + FormatInt(epsg)))]
  }

  /** `geo_epsg_from_da`: the integer after the first `:` of a string `spatial_ref` that starts
      with `EPSG:` in any case; `None` for anything else. */
  function EpsgFromAttrs(attrs: Dict<PyVal>): Option<int> {
    var v: Option<PyVal> := Get(attrs, "spatial_ref");
    if v.Some? && v.value.PyStr? && StartsWith(Upper(v.value.s), "EPSG:") then
      var parts := Split(v.value.s, ':');
      if |parts| < 2 then None else ParseInt(parts[1])
    else None
  }

  /** Reading back the grid-mapping attributes gives the code they were made from. */
  lemma EpsgRoundTrip(epsg: int)
    ensures EpsgFromAttrs(GridMappingAttrs(epsg)) == Some(epsg)
  {
    var t := FormatInt(epsg);
    var s := "EPSG:" + t;
    assert Get(GridMappingAttrs(epsg), "spatial_ref") == Some(PyStr(s));
    assert Upper(s)[..5] == "EPSG:" by {
      assert s[0] == 'E' && s[1] == 'P' && s[2] == 'S' && s[3] == 'G' && s[4] == ':';
    }
    FormatIntNoColon(epsg);
    assert Join([':'], ["EPSG", t]) == s;
    SplitJoin(["EPSG", t], ':');
    ParseFormatInt(epsg);
  }

  lemma FormatIntNoColon(i: int)
    ensures ':' !in FormatInt(i)
  {
    var n := if i < 0 then -i else i;
    var d := FormatNat(n);
    assert forall k :: 0 <= k < |d| ==> IsDigit(d[k]);
    if i < 0 {
      assert FormatInt(i) == "-" + d;
      assert forall k :: 0 <= k < |FormatInt(i)| ==> FormatInt(i)[k] == '-' || IsDigit(FormatInt(i)[k]);
    }
  }

  /** A reference that does not start with `EPSG:` (in any case), or is not a string, reads as
      no code. */
  lemma EpsgRejects(attrs: Dict<PyVal>)
    requires forall s :: Get(attrs, "spatial_ref") == Some(PyStr(s)) ==> !StartsWith(Upper(s), "EPSG:")
    ensures EpsgFromAttrs(attrs).None?
  {
  }

  /** The centre point is read from the text header: both coordinates or neither. */
  datatype Centre = Centre(lon: Option<real>, lat: Option<real>, gsd: real)

  /** `float(str(v).strip())` for an optional header text: a missing value is the text `None`,
      which is not a number. */
  function TextFloat(v: Option<string>): Option<real> {
    match v
    case None => None
    case Some(s) => ParseFloat(Strip(s))
  }

  /** `int(str(v).strip())` for an optional header text. */
  function TextInt(v: Option<string>): Option<int> {
    match v
    case None => None
    case Some(s) => ParseInt(Strip(s))
  }

  /** `meta.get("Lattitude") or meta.get("Latitude")`: the misspelt key wins unless it is missing
      or empty. */
  function LatitudeText(meta: Dict<string>): Option<string> {
    var a := Get(meta, "Lattitude");
    if a.Some? && a.value != "" then a else Get(meta, "Latitude")
  }

  /** Nominal ground sampling distance: 36 m in mode 1, 18 m otherwise. */
  function GsdOfMode(mode: Option<int>): (g: real)
    ensures g == 36.0 <==> mode == Some(1)
    ensures g == 18.0 <==> mode != Some(1)
  {
    if mode == Some(1) then 36.0 else 18.0
  }

  /** `geo_extract_center_lat_lon_gsd` */
  function ExtractCenterLatLonGsd(meta: Dict<string>): (r: Centre)
    ensures r.lon.Some? <==> r.lat.Some?
    ensures r.gsd == 36.0 <==> TextInt(Get(meta, "CHRIS Mode")) == Some(1)
  {
    var lonf := TextFloat(Get(meta, "Longitude"));
    var latf := TextFloat(LatitudeText(meta));
    var mode := TextInt(Get(meta, "CHRIS Mode"));
    if lonf.Some? && latf.Some? then Centre(lonf, latf, GsdOfMode(mode))
    else Centre(None, None, GsdOfMode(mode))
  }

  /** When both coordinates parse they are returned as read, the latitude from `Lattitude`
      whenever that key holds a non-empty text. */
  lemma CentreFromHeader(meta: Dict<string>, lon: string, lat: string)
    requires Get(meta, "Longitude") == Some(lon) && Get(meta, "Lattitude") == Some(lat) && lat != ""
    requires ParseFloat(Strip(lon)).Some? && ParseFloat(Strip(lat)).Some?
    ensures ExtractCenterLatLonGsd(meta).lon == ParseFloat(Strip(lon))
    ensures ExtractCenterLatLonGsd(meta).lat == ParseFloat(Strip(lat))
  {
  }

  /** A missing longitude leaves both coordinates unknown. */
  lemma CentreWithoutLongitude(meta: Dict<string>)
    requires Get(meta, "Longitude").None?
    ensures ExtractCenterLatLonGsd(meta).lon.None? && ExtractCenterLatLonGsd(meta).lat.None?
  {
  }

  /** The viewing-geometry layers and the normalised header keys they come from. */
  const AngleNames: seq<(string, string)> :=
    [("sza", "solar zenith angle"), ("oza", "observation zenith angle"),
     ("oaa", "observation azimuth angle"), ("saa", "solar azimuth angle")]

  /** `np.full((H, W), x)` */
  function Fill(H: nat, W: nat, x: real): (g: seq<seq<real>>)
    ensures |g| == H && forall y :: 0 <= y < H ==> |g[y]| == W && forall i :: 0 <= i < W ==> g[y][i] == x
  {
    seq(H, _ => seq(W, _ => x))
  }

  /** The layer for one header value: absent when the value is missing or not a number. */
  function LayerOf(v: Option<PyVal>, H: nat, W: nat): Option<seq<seq<real>>> {
    match v
    case None => None
    case Some(val) =>
      match PyToFloat(val)
      case None => None
      case Some(x) => Some(Fill(H, W, x))
  }

  function AngleEntries(cm: Dict<PyVal>, H: nat, W: nat): (es: seq<Option<(string, seq<seq<real>>)>>)
    ensures |es| == |AngleNames|
    ensures forall j :: 0 <= j < |AngleNames| ==>
              es[j] == match LayerOf(Get(cm, AngleNames[j].1), H, W)
                       case None => None
                       case Some(g) => Some((AngleNames[j].0, g))
  {
    seq(|AngleNames|, j requires 0 <= j < |AngleNames| =>
      match LayerOf(Get(cm, AngleNames[j].1), H, W)
      case None => None
      case Some(g) => Some((AngleNames[j].0, g)))
  }

  /** `geo_constant_geometry_arrays`: one H×W layer per angle whose header value (under any
      spelling that normalises to its key, the last such spelling winning) is a number. */
  method ConstantGeometryArrays(H: nat, W: nat, meta: Dict<PyVal>) returns (out: Dict<seq<seq<real>>>)
    ensures Wf(out)
    ensures forall j :: 0 <= j < |AngleNames| ==>
              Get(out, AngleNames[j].0) == LayerOf(FindLast(meta, NormKey, AngleNames[j].1), H, W)
    ensures forall k :: k in Keys(out) ==> exists j :: 0 <= j < |AngleNames| && AngleNames[j].0 == k
  {
    var cm := NormKeys(meta);
    var names: seq<(string, Option<PyVal>)> :=
      [("sza", Get(cm, "solar zenith angle")), ("oza", Get(cm, "observation zenith angle")),
       ("oaa", Get(cm, "observation azimuth angle")), ("saa", Get(cm, "solar azimuth angle"))];
    ghost var es := AngleEntries(cm, H, W);
    out := [];
    var j := 0;
    while j < |names|
      invariant 0 <= j <= |names| == |AngleNames|
      invariant out == Collect(es[..j])
    {
      assert names[j].1 == Get(cm, AngleNames[j].1);
      CollectStep(es, j);
      var v := names[j].1;
      if v.Some? {
        var x := PyToFloat(v.value);
        if x.Some? {
          out := Put(out, names[j].0, Fill(H, W, x.value));
        }
      }
      j := j + 1;
    }
    assert es[..j] == es;
    CollectWf(es);
    forall j | 0 <= j < |AngleNames|
      ensures Get(out, AngleNames[j].0) == LayerOf(FindLast(meta, NormKey, AngleNames[j].1), H, W)
    {
      NormKeysGet(meta, AngleNames[j].1);
      AngleGet(es, cm, H, W, j);
    }
    forall k | k in Keys(out) ensures exists j :: 0 <= j < |AngleNames| && AngleNames[j].0 == k {
      CollectKeys(es, k);
    }
  }

  /** Each angle name holds the layer of its own entry: the four names differ. */
  lemma AngleGet(es: seq<Option<(string, seq<seq<real>>)>>, cm: Dict<PyVal>, H: nat, W: nat, j: nat)
    requires es == AngleEntries(cm, H, W) && j < |AngleNames|
    ensures Get(Collect(es), AngleNames[j].0) == LayerOf(Get(cm, AngleNames[j].1), H, W)
  {
    var n := AngleNames[j].0;
    forall i | 0 <= i < |es| && i != j ensures !HasKey(es[i], n) {
      assert AngleNames[i].0 != n;
    }
    if es[j].Some? {
      CollectLastWins(es, j);
    } else {
      CollectKeys(es, n);
      GetKeys(Collect(es), n);
    }
  }
}
