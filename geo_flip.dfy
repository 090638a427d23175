/** The orbit-direction rotation of `geo_flip_using_gps`: the GPS rows of the acquisition year,
    the direction of the pass between the first and the last of them, the image's place in its
    sequence, and the 180° rotation of every band. */
module GeoFlip {
  import opened Wrappers
  import opened Text
  import opened Numbers
  import opened PyValues
  import opened DataCube

  /** One tab-separated row of the GPS file. */
  type Row = seq<string>

  const DateKey := "Image Date (yyyy-mm-dd)"
  const ImageNoKey := "Image No x of y"

  /** The first four characters of the image date, when there are four. */
  function YearFilter(meta: Dict<string>): (f: Option<string>)
    ensures f.Some? ==> |f.value| == 4 && StartsWith(Get(meta, DateKey).GetOr(""), f.value)
  {
    var y := Get(meta, DateKey).GetOr("");
    if |y| >= 4 then Some(y[..4]) else None
  }

  /** A row is used when it is not empty and its joined fields contain the year, if any. */
  predicate Passes(row: Row, year: Option<string>) {
    row != [] && (year.None? || Contains(Join("", row), year.value))
  }

  /** The rows that pass, in file order. */
  function Passing(rows: seq<Row>, year: Option<string>): (p: seq<Row>)
    ensures |p| <= |rows|
    decreases |rows|
  {
    if rows == [] then []
    else
      var last := rows[|rows| - 1];
      Passing(rows[..|rows| - 1], year) + (if Passes(last, year) then [last] else [])
  }

  /** The passing rows are exactly the rows of the file that pass. */
  lemma {:induction false} PassingMembers(rows: seq<Row>, year: Option<string>, r: Row)
    ensures r in Passing(rows, year) <==> r in rows && Passes(r, year)
    decreases |rows|
  {
    if rows != [] {
      var init := rows[..|rows| - 1];
      PassingMembers(init, year, r);
      assert rows == init + [rows[|rows| - 1]];
    }
  }

  /** The first passing row, and the last passing row after it. */
  function Ends(p: seq<Row>): (Option<Row>, Option<Row>) {
    (if |p| >= 1 then Some(p[0]) else None, if |p| >= 2 then Some(p[|p| - 1]) else None)
  }

  /** The row loop: the first passing row goes to `first`, every later one to `last`. */
  method SelectGpsRows(rows: seq<Row>, year: Option<string>) returns (first: Option<Row>, last: Option<Row>)
    ensures (first, last) == Ends(Passing(rows, year))
  {
    first, last := None, None;
    var seen := 0;
    var i := 0;
    while i < |rows|
      invariant 0 <= i <= |rows|
      invariant seen == (if |Passing(rows[..i], year)| >= 1 then 1 else 0)
      invariant (first, last) == Ends(Passing(rows[..i], year))
    {
      var row := rows[i];
      assert rows[..i + 1][..i] == rows[..i];
      if row == [] {
      } else if year.Some? && !Contains(Join("", row), year.value) {
      } else if seen == 0 {
        first := Some(row);
        seen := 1;
      } else {
        last := Some(row);
      }
      i := i + 1;
    }
    assert rows[..i] == rows;
  }

  /** `float(s.strip())` of fields 3, 5 and 7 of a row, converted from Earth-centred
      coordinates to a geodetic latitude; `None` when the row is short or a field is not a
      number. */
  function RowLatitude(row: Row, geodeticLat: (real, real, real) -> real): Option<real> {
    if |row| < 8 then None
    else
      var x := ParseFloat(Strip(row[3]));
      var y := ParseFloat(Strip(row[5]));
      var z := ParseFloat(Strip(row[7]));
      if x.Some? && y.Some? && z.Some? then Some(geodeticLat(x.value, y.value, z.value)) else None
  }

  /** `int(str(meta.get("Image No x of y")).split()[0])`, defaulting to 1 when that fails
      (a missing value is the text `None`, which is not a number). */
  function ImageIndex(meta: Dict<string>): int {
    match Get(meta, ImageNoKey)
    case None => 1
    case Some(s) =>
      var w := SplitWords(s);
      if w == [] then 1 else ParseInt(w[0]).GetOr(1)
  }

  /** Ascending passes rotate images 1, 3 and 5 of a sequence; descending passes rotate 2 and 4. */
  predicate NeedFlip(descending: bool, index: int) {
    (!descending && index in {1, 3, 5}) || (descending && index in {2, 4})
  }

  /** Only the five images of a sequence are ever rotated, and for each of them reversing the
      pass direction reverses the decision. */
  lemma NeedFlipTable(descending: bool, index: int)
    ensures NeedFlip(descending, index) ==> 1 <= index <= 5
    ensures 1 <= index <= 5 ==> (NeedFlip(!descending, index) <==> !NeedFlip(descending, index))
  {
  }

  /** Whether `geo_flip_using_gps` rotates. `meta` is `None` when reading the CHRIS header
      raised (an absent header path reads as an empty header), `rows` is `None` when the GPS
      file could not be read; every such failure leaves the image as it is. */
  predicate ShouldFlip(gpsGiven: bool, timesGiven: bool, meta: Option<Dict<string>>,
                       rows: Option<seq<Row>>, geodeticLat: (real, real, real) -> real)
  {
    gpsGiven && timesGiven && meta.Some? && rows.Some? &&
    FlipFor(Ends(Passing(rows.value, YearFilter(meta.value))), meta.value, geodeticLat)
  }

  /** The decision once the first and last rows are known: both must be present and give
      latitudes; the pass is descending when the latitude falls between them. */
  predicate FlipFor(ends: (Option<Row>, Option<Row>), meta: Dict<string>, geodeticLat: (real, real, real) -> real) {
    ends.0.Some? && ends.1.Some? &&
    var s := RowLatitude(ends.0.value, geodeticLat);
    var e := RowLatitude(ends.1.value, geodeticLat);
    s.Some? && e.Some? && NeedFlip(s.value > e.value, ImageIndex(meta))
  }

  /** One band turned through 180°: the rows in reverse order, each reversed. */
  function Turn(m: seq<seq<real>>): (r: seq<seq<real>>)
    ensures |r| == |m| && forall y :: 0 <= y < |m| ==> r[y] == Reverse(m[|m| - 1 - y])
  {
    seq(|m|, y requires 0 <= y < |m| => Reverse(m[|m| - 1 - y]))
  }

  /** `np.flip(arr, axis=(1, 2))` */
  function Rot180(c: Cube): (r: Cube)
    ensures |r| == |c| && forall b :: 0 <= b < |c| ==> r[b] == Turn(c[b])
  {
    seq(|c|, b requires 0 <= b < |c| => Turn(c[b]))
  }

  /** The rotation keeps the shape and moves cell (y, x) to (H-1-y, W-1-x) in every band. */
  lemma Rot180Cells(c: Cube, B: nat, H: nat, W: nat, b: nat, y: nat, x: nat)
    requires Shaped(c, B, H, W) && b < B && y < H && x < W
    ensures Shaped(Rot180(c), B, H, W)
    ensures Rot180(c)[b][y][x] == c[b][H - 1 - y][W - 1 - x]
  {
  }

  /** Rotating twice gives the image back. */
  lemma Rot180Twice(c: Cube)
    ensures Rot180(Rot180(c)) == c
  {
    forall b | 0 <= b < |c| ensures Turn(Turn(c[b])) == c[b] {
      var m := c[b];
      forall y | 0 <= y < |m| ensures Turn(Turn(m))[y] == m[y] {
        assert Turn(Turn(m))[y] == Reverse(Reverse(m[y]));
      }
    }
  }

  /** `geo_flip_using_gps` over the rows of the GPS file. */
  method FlipUsingGps(arr: Cube, gpsGiven: bool, timesGiven: bool, meta: Option<Dict<string>>,
                      rows: Option<seq<Row>>, geodeticLat: (real, real, real) -> real)
    returns (out: Cube)
    ensures out == if ShouldFlip(gpsGiven, timesGiven, meta, rows, geodeticLat) then Rot180(arr) else arr
  {
    if !(gpsGiven && timesGiven) || meta.None? || rows.None? {
      return arr;
    }
    var year := YearFilter(meta.value);
    var first, last := SelectGpsRows(rows.value, year);
    if first.None? || last.None? {
      return arr;
    }
    var s := RowLatitude(first.value, geodeticLat);
    var e := RowLatitude(last.value, geodeticLat);
    if s.None? || e.None? {
      return arr;
    }
    var descending := s.value > e.value;
    var index := ImageIndex(meta.value);
    if NeedFlip(descending, index) {
      return Rot180(arr);
    }
    return arr;
  }

  /** Fewer than two usable GPS rows leave the image as it is. */
  lemma FewRowsNoFlip(gpsGiven: bool, timesGiven: bool, meta: Dict<string>, rows: seq<Row>,
                      geodeticLat: (real, real, real) -> real)
    requires |Passing(rows, YearFilter(meta))| < 2
    ensures !ShouldFlip(gpsGiven, timesGiven, Some(meta), Some(rows), geodeticLat)
  {
  }

  /** A single word is read as the image number when it is an integer and as 1 otherwise; a
      header without the entry gives image 1. */
  lemma ImageIndexWord(meta: Dict<string>, w: string)
    requires Get(meta, ImageNoKey) == Some(w)
    requires w != [] && forall c :: c in w ==> !IsSpace(c)
    ensures ImageIndex(meta) == ParseInt(w).GetOr(1)
  {
    assert SplitSpaceRuns(w) == [w];
    assert NonEmpty([w]) == [w];
  }

  lemma ImageIndexMissing(meta: Dict<string>)
    requires Get(meta, ImageNoKey).None?
    ensures ImageIndex(meta) == 1
  {
  }
}
