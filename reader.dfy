/** The CHRIS raw-cube reader: an ENVI header and a raw file are checked and resolved into an
    element type, byte order, shape and interleave when the reader is opened, and `Read` decodes
    the file into a (band, y, x) cube with band labels, an optional wavelength coordinate, an
    optional band subset, scaling and a cast to an output type. */
module Reader {
  import opened Wrappers
  import opened Text
  import opened Numbers
  import opened PyValues
  import opened PyConvert
  import opened EnviHeader
  import opened DataCube

  /** The exceptions the reader raises, one constructor per distinct failure. */
  datatype ReaderError =
    | MissingKey(key: string)              // KeyError: a required header field is absent
    | NotAnInt(key: string)                // int() of a header value fails
    | UnsupportedCode(code: int)           // the data type code is not in the ENVI table
    | InterleaveNotText                    // `.upper()` of an interleave value that is not a string
    | SizeMismatch(size: int, expected: int)
    | UnsupportedInterleave(tag: string)
    | BadShape                             // a negative dimension
    | ShortFile                            // fewer elements in the file than the shape needs
    | MissingBands                         // a requested band label does not exist
    | EmptyData                            // min/max of an empty cube

  /** The header fields the reader needs, in the order it checks them. */
  const RequiredKeys: seq<string> := ["samples", "lines", "bands", "data type"]

  /** The first of `ks` that is not a key of `hdr`. */
  function FirstMissing(hdr: Dict<PyVal>, ks: seq<string>): Option<string> {
    if ks == [] then None
    else if ks[0] !in Keys(hdr) then Some(ks[0])
    else FirstMissing(hdr, ks[1..])
  }

  /** Nothing is missing exactly when every key is present; what is missing is a key that is
      absent while all keys before it are present. */
  lemma {:induction false} FirstMissingSpec(hdr: Dict<PyVal>, ks: seq<string>)
    ensures FirstMissing(hdr, ks).None? <==> forall j :: 0 <= j < |ks| ==> ks[j] in Keys(hdr)
    ensures FirstMissing(hdr, ks).Some? ==>
              exists i :: 0 <= i < |ks| && ks[i] == FirstMissing(hdr, ks).value &&
                          ks[i] !in Keys(hdr) && forall j :: 0 <= j < i ==> ks[j] in Keys(hdr)
  {
    if ks != [] && ks[0] in Keys(hdr) {
      var r := FirstMissing(hdr, ks[1..]);
      FirstMissingSpec(hdr, ks[1..]);
      if r.Some? {
        var i :| 0 <= i < |ks| - 1 && ks[1..][i] == r.value && r.value !in Keys(hdr) &&
                 forall j :: 0 <= j < i ==> ks[1..][j] in Keys(hdr);
        assert ks[i + 1] == r.value;
        forall j | 0 <= j < i + 1 ensures ks[j] in Keys(hdr) {
          if j > 0 { assert ks[j] == ks[1..][j - 1]; }
        }
      } else {
        forall j | 0 <= j < |ks| ensures ks[j] in Keys(hdr) {
          if j > 0 { assert ks[j] == ks[1..][j - 1]; }
        }
      }
    }
  }

  /** The first missing key is the one the check loop stops at. */
  lemma {:induction false} FirstMissingAt(hdr: Dict<PyVal>, ks: seq<string>, i: nat)
    requires i < |ks| && ks[i] !in Keys(hdr)
    requires forall j :: 0 <= j < i ==> ks[j] in Keys(hdr)
    ensures FirstMissing(hdr, ks) == Some(ks[i])
  {
    if i > 0 {
      assert ks[0] in Keys(hdr);
      assert ks[1..][i - 1] == ks[i];
      assert forall j :: 0 <= j < i - 1 ==> ks[1..][j] == ks[j + 1];
      FirstMissingAt(hdr, ks[1..], i - 1);
    }
  }

  /** `int(header[k])` */
  function IntField(hdr: Dict<PyVal>, k: string): Result<int, ReaderError> {
    match Get(hdr, k)
    case None => Err(MissingKey(k))
    case Some(v) =>
      match PyToInt(v)
      case None => Err(NotAnInt(k))
      case Some(i) => Ok(i)
  }

  /** `"<" if header.get("byte order", 0) == 0 else ">"`: Python's `==` makes `0` and `0.0`
      equal to `0` and every other value (a string "0" included) unequal. */
  function OrderOf(hdr: Dict<PyVal>): ByteOrder {
    match Get(hdr, "byte order")
    case None => Little
    case Some(v) => if v == PyInt(0) || v == PyFloat(0.0) then Little else Big
  }

  /** The element type of a data type code. */
  function TypeOf(code: int): Result<DType, ReaderError> {
    match EnviLookup(code)
    case None => Err(UnsupportedCode(code))
    case Some(t) => Ok(t)
  }

  /** `header.get("interleave", "bsq").upper()` */
  function InterleaveText(hdr: Dict<PyVal>): Result<string, ReaderError> {
    match Get(hdr, "interleave")
    case None => Ok("BSQ")
    case Some(v) => if v.PyStr? then Ok(Upper(v.s)) else Err(InterleaveNotText)
  }

  /** `int(header.get("header offset", 0))` */
  function OffsetOf(hdr: Dict<PyVal>): Result<int, ReaderError> {
    match Get(hdr, "header offset")
    case None => Ok(0)
    case Some(v) =>
      match PyToInt(v)
      case None => Err(NotAnInt("header offset"))
      case Some(i) => Ok(i)
  }

  /** `n` elements of type `t` take exactly `size` bytes. */
  predicate Fits(n: int, size: int, t: DType) {
    size == n * ItemSize(t)
  }

  /** The element type of the first entry of `table` whose item size makes `n` elements take
      `size` bytes. */
  function FirstFit(table: seq<(int, DType)>, n: int, size: int): (r: Option<DType>)
    ensures r.None? <==> forall j :: 0 <= j < |table| ==> !Fits(n, size, table[j].1)
    ensures r.Some? ==> exists i :: 0 <= i < |table| && table[i].1 == r.value && Fits(n, size, r.value) &&
                          forall j :: 0 <= j < i ==> !Fits(n, size, table[j].1)
  {
    if table == [] then None
    else if Fits(n, size, table[0].1) then Some(table[0].1)
    else
      var r := FirstFit(table[1..], n, size);
      if r.Some? then
        var i :| 0 <= i < |table| - 1 && table[1..][i].1 == r.value && Fits(n, size, r.value) &&
                 forall j :: 0 <= j < i ==> !Fits(n, size, table[1..][j].1);
        assert table[i + 1].1 == r.value;
        assert forall j :: 0 <= j < i + 1 ==> !Fits(n, size, table[j].1) by {
          forall j | 0 <= j < i + 1 ensures !Fits(n, size, table[j].1) {
            if j > 0 { assert table[j] == table[1..][j - 1]; }
          }
        }
        r
      else
        assert forall j :: 0 <= j < |table| ==> !Fits(n, size, table[j].1) by {
          forall j | 0 <= j < |table| ensures !Fits(n, size, table[j].1) {
            if j > 0 { assert table[j] == table[1..][j - 1]; }
          }
        }
        r
  }

  /** The entry the fallback loop breaks at is the first fitting one. */
  lemma {:induction false} FirstFitAt(table: seq<(int, DType)>, n: int, size: int, i: nat)
    requires i < |table| && Fits(n, size, table[i].1)
    requires forall j :: 0 <= j < i ==> !Fits(n, size, table[j].1)
    ensures FirstFit(table, n, size) == Some(table[i].1)
  {
    if i > 0 {
      assert !Fits(n, size, table[0].1);
      assert table[1..][i - 1] == table[i];
      assert forall j :: 0 <= j < i - 1 ==> table[1..][j] == table[j + 1];
      FirstFitAt(table[1..], n, size, i - 1);
    }
  }

  /** The size check: the header's type when `n` elements of it take `size` bytes, otherwise the
      first table entry that does, otherwise a size mismatch quoting the expected size. */
  function ChooseType(base: DType, n: int, size: int): (r: Result<DType, ReaderError>)
    ensures r.Ok? ==> Fits(n, size, r.value)
    ensures r.Ok? && r.value != base ==>
              !Fits(n, size, base) &&
              exists i :: 0 <= i < |EnviTable| && EnviTable[i].1 == r.value &&
                          forall j :: 0 <= j < i ==> !Fits(n, size, EnviTable[j].1)
    ensures r.Err? <==> forall j :: 0 <= j < |EnviTable| ==> !Fits(n, size, EnviTable[j].1)
    ensures r.Err? ==> r.error == SizeMismatch(size, n * ItemSize(base))
  {
    InTable(base);
    if Fits(n, size, base) then Ok(base)
    else
      match FirstFit(EnviTable, n, size)
      case None => Err(SizeMismatch(size, n * ItemSize(base)))
      case Some(t) => Ok(t)
  }

  /** Every element type has a code in the table. */
  lemma InTable(t: DType)
    ensures exists i :: 0 <= i < |EnviTable| && EnviTable[i].1 == t
  {
    match t
    case UInt8 => assert EnviTable[0].1 == t;
    case Int16 => assert EnviTable[1].1 == t;
    case Int32 => assert EnviTable[2].1 == t;
    case Float32 => assert EnviTable[3].1 == t;
    case Float64 => assert EnviTable[4].1 == t;
    case UInt16 => assert EnviTable[5].1 == t;
    case UInt32 => assert EnviTable[6].1 == t;
    case Int64 => assert EnviTable[7].1 == t;
    case UInt64 => assert EnviTable[8].1 == t;
  }

  /** What opening a reader resolves from the header and the file size. */
  datatype Config = Config(dtype: DType, order: ByteOrder, width: int, height: int, bands: int,
                           interleave: string, offset: int)

  /** The conversions of the reader's constructor once the required fields are present, in the
      order it makes them; `dtype` is the header's own type, before the size check. */
  function HeaderFields(hdr: Dict<PyVal>): Result<Config, ReaderError> {
    Fields(OrderOf(hdr), IntField(hdr, "data type"), IntField(hdr, "samples"), IntField(hdr, "lines"),
           IntField(hdr, "bands"), InterleaveText(hdr), OffsetOf(hdr))
  }

  /** The configuration from the converted fields: the first conversion that failed, in the
      order data type, its table lookup, samples, lines, bands, interleave, offset. */
  function Fields(order: ByteOrder, code: Result<int, ReaderError>, samples: Result<int, ReaderError>,
                  lines: Result<int, ReaderError>, bands: Result<int, ReaderError>,
                  interleave: Result<string, ReaderError>, offset: Result<int, ReaderError>)
    : Result<Config, ReaderError>
  {
    var c :- code;
    var base :- TypeOf(c);
    var w :- samples;
    var h :- lines;
    var b :- bands;
    var il :- interleave;
    var off :- offset;
    Ok(Config(base, order, w, h, b, il, off))
  }

  /** The size check for a configuration with the header's own type: the payload is the file
      size minus the header offset. */
  function SizeChoice(c: Config, fileSize: int): Result<DType, ReaderError> {
    ChooseType(c.dtype, c.width * c.height * c.bands, fileSize - c.offset)
  }

  /** The checks and conversions of the reader's constructor, in the order it makes them. */
  function Configure(hdr: Dict<PyVal>, fileSize: int): Result<Config, ReaderError> {
    match FirstMissing(hdr, RequiredKeys)
    case Some(k) => Err(MissingKey(k))
    case None =>
      var c :- HeaderFields(hdr);
      var t :- SizeChoice(c, fileSize);
      Ok(c.(dtype := t))
  }

  /** An xarray `DataArray` with dimensions (band, y, x): the cube, the `band` coordinate, the
      lengths of `y` and `x` (their coordinates are `0..height-1` and `0..width-1`), the optional
      `wavelength` coordinate on `band`, the element type and the attributes. */
  datatype DataArray = DataArray(values: Cube, labels: seq<int>, height: nat, width: nat,
                                 wavelength: Option<seq<PyVal>>, dtype: DType, attrs: Dict<PyVal>)

  /** The coordinates agree with the cube. */
  predicate WellFormed(da: DataArray) {
    Shaped(da.values, |da.labels|, da.height, da.width)
    && (da.wavelength.Some? ==> |da.wavelength.value| == |da.labels|)
  }

  /** `np.arange(1, B + 1)` */
  function Labels(B: nat): (r: seq<int>)
    ensures |r| == B && forall i :: 0 <= i < B ==> r[i] == i + 1
  {
    seq(B, i requires 0 <= i < B => i + 1)
  }

  /** The interleave a tag names. */
  function LayoutOf(tag: string): Option<Interleave> {
    if tag == "BSQ" then Some(BSQ)
    else if tag == "BIL" then Some(BIL)
    else if tag == "BIP" then Some(BIP)
    else None
  }

  /** `np.fromfile(file, dtype, count=W*H*B)` reshaped and transposed to (band, y, x). */
  function Decode(file: seq<bv8>, floats: FloatDecoder, t: DType, order: ByteOrder, tag: string,
                  B: int, H: int, W: int): (r: Result<Cube, ReaderError>)
    ensures r.Ok? ==> 0 <= B && 0 <= H && 0 <= W && Shaped(r.value, B, H, W)
  {
    match LayoutOf(tag)
    case None => Err(UnsupportedInterleave(tag))
    case Some(il) =>
      if B < 0 || H < 0 || W < 0 then Err(BadShape)
      else if |file| < B * H * W * ItemSize(t) then Err(ShortFile)
      else Ok(Reshape(Elements(file, t, order, floats, B * H * W), il, B, H, W))
  }

  /** The bytes after the first `offset` of the file: the payload whose length the size check
      compares (a negative offset skips nothing, an offset past the end leaves nothing). */
  function Payload(file: seq<bv8>, offset: int): seq<bv8> {
    if offset <= 0 then file else if offset >= |file| then [] else file[offset..]
  }

  /** The read as written: `np.fromfile` is given no offset, so the elements are taken from the
      first byte of the file, header bytes included. */
  function DecodeAsWritten(c: Config, file: seq<bv8>, floats: FloatDecoder): Result<Cube, ReaderError> {
    Decode(file, floats, c.dtype, c.order, c.interleave, c.bands, c.height, c.width)
  }

  /** The read the size check presupposes: the elements are taken from the payload. */
  function DecodePayload(c: Config, file: seq<bv8>, floats: FloatDecoder): Result<Cube, ReaderError> {
    Decode(Payload(file, c.offset), floats, c.dtype, c.order, c.interleave, c.bands, c.height, c.width)
  }

  /** The wavelength coordinate: the header's list cut to the first `B` entries when it has at
      least that many. */
  function Wavelengths(hdr: Dict<PyVal>, B: nat): (r: Option<seq<PyVal>>)
    ensures r.Some? ==> |r.value| == B
  {
    match Get(hdr, "wavelength")
    case Some(v) => if v.PyList? && |v.items| >= B then Some(v.items[..B]) else None
    case None => None
  }

  /** The first position of label `l`. */
  function PosOf(labels: seq<int>, l: int): (r: nat)
    requires l in labels
    ensures r < |labels| && labels[r] == l && l !in labels[..r]
  {
    if labels[0] == l then 0
    else
      var r := PosOf(labels[1..], l);
      assert labels[..r + 1] == [labels[0]] + labels[1..][..r];
      r + 1
  }

  /** `da.sel(band=req)`: the bands with the requested labels, in the requested order, the
      wavelength coordinate following them. */
  function Select(da: DataArray, req: seq<int>): (r: Result<DataArray, ReaderError>)
    requires WellFormed(da)
    ensures r.Ok? <==> forall i :: 0 <= i < |req| ==> req[i] in da.labels
    ensures r.Err? ==> r.error == MissingBands
    ensures r.Ok? ==>
              WellFormed(r.value) && r.value.labels == req &&
              (r.value.height, r.value.width, r.value.dtype, r.value.attrs) == (da.height, da.width, da.dtype, da.attrs)
    ensures r.Ok? ==> forall i :: 0 <= i < |req| ==>
              var p := PosOf(da.labels, req[i]);
              da.labels[p] == req[i] && r.value.values[i] == da.values[p] &&
              (r.value.wavelength.Some? <==> da.wavelength.Some?) &&
              (da.wavelength.Some? ==> r.value.wavelength.value[i] == da.wavelength.value[p])
  {
    if forall i :: 0 <= i < |req| ==> req[i] in da.labels then
      Ok(da.(values := seq(|req|, i requires 0 <= i < |req| => da.values[PosOf(da.labels, req[i])]),
             labels := req,
             wavelength := match da.wavelength
                           case None => None
                           case Some(ws) => Some(seq(|req|, i requires 0 <= i < |req| => ws[PosOf(da.labels, req[i])]))))
    else Err(MissingBands)
  }

  /** `da.astype("float32") / s`: the arithmetic gives a new array without the attributes. */
  function Scaled(da: DataArray, s: real): (r: DataArray)
    requires s != 0.0
    ensures WellFormed(da) ==> WellFormed(r)
    ensures r == da.(values := r.values, dtype := Float32, attrs := [])
    ensures |r.values| == |da.values|
    ensures forall b, y, x :: 0 <= b < |da.values| && 0 <= y < |da.values[b]| && 0 <= x < |da.values[b][y]| ==>
              y < |r.values[b]| && x < |r.values[b][y]| && r.values[b][y][x] == da.values[b][y][x] / s
  {
    da.(values := MapCube(da.values, v => v / s), dtype := Float32, attrs := [])
  }

  /** The cast to an output type: an integer type spreads `[min, max]` over `[0, iinfo.max]`
      (a constant cube becomes zeros); a float type keeps the values. */
  function Cast(da: DataArray, t: DType): (r: Result<DataArray, ReaderError>)
    ensures r.Err? <==> IsInteger(t) && |Cells(da.values)| == 0
    ensures r.Err? ==> r.error == EmptyData
    ensures r.Ok? ==> r.value == da.(values := r.value.values, dtype := t)
    ensures r.Ok? && WellFormed(da) ==> WellFormed(r.value)
    ensures r.Ok? && !IsInteger(t) ==> r.value.values == da.values
  {
    if IsInteger(t) then
      var cells := Cells(da.values);
      if |cells| == 0 then Err(EmptyData)
      else
        var lo, hi := SeqMin(cells), SeqMax(cells);
        if hi - lo == 0.0 then Ok(da.(values := MapCube(da.values, v => 0.0), dtype := t))
        else
          MinBelowMax(cells);
          Ok(da.(values := MapCube(da.values, v => Quantise(v, lo, hi, IntMax(t)) as real), dtype := t))
    else Ok(da.(dtype := t))
  }

  lemma MinBelowMax(s: seq<real>)
    requires |s| > 0
    ensures SeqMin(s) <= SeqMax(s)
  {
    var i :| 0 <= i < |s| && s[i] == SeqMax(s);
  }

  /** Python's truth value of the `scale_factor` argument. */
  predicate ScaleOn(scale: Option<real>) {
    scale.Some? && scale.value != 0.0
  }

  /** What `read` returns for a reader in configuration `c`: the elements are taken from the
      first byte of the file, as `np.fromfile` is given no offset. */
  function ReadSpec(c: Config, hdr: Dict<PyVal>, file: seq<bv8>, floats: FloatDecoder,
                    scale: Option<real>, outBands: seq<int>, outDtype: Option<DType>): Result<DataArray, ReaderError>
  {
    var cube :- DecodeAsWritten(c, file, floats);
    var da := DataArray(cube, Labels(c.bands), c.height, c.width, Wavelengths(hdr, c.bands), c.dtype, hdr);
    var da1 :- if outBands != [] then Select(da, outBands) else Ok(da);
    var da2 := if ScaleOn(scale) then Scaled(da1, scale.value) else da1;
    if outDtype.Some? then Cast(da2, outDtype.value) else Ok(da2)
  }

  /** An `RCIReader`. The raw file is given by its bytes and the header by its parsed dict;
      `floats` decodes IEEE 754 elements. `outBands == []` stands for both `None` and `[]`. */
  class RciReader {
    var header: Dict<PyVal>
    var file: seq<bv8>
    var floats: FloatDecoder
    var dtype: DType
    var order: ByteOrder
    var width: int
    var height: int
    var bands: int
    var interleave: string
    var offset: int
    var transform: Option<PyVal>
    var crs: Option<PyVal>
    var scaleFactor: Option<real>
    var outBands: seq<int>
    var outDtype: Option<DType>
    var da: Option<DataArray>

    /** The configuration the fields hold. */
    function Settings(): Config
      reads this
    {
      Config(dtype, order, width, height, bands, interleave, offset)
    }

    constructor (header: Dict<PyVal>, file: seq<bv8>, floats: FloatDecoder, c: Config,
                 scaleFactor: Option<real>, outBands: seq<int>, outDtype: Option<DType>)
      ensures Settings() == c && Holds(header, file, floats, scaleFactor, outBands, outDtype)
    {
      this.header := header;
      this.file := file;
      this.floats := floats;
      dtype, order := c.dtype, c.order;
      width, height, bands := c.width, c.height, c.bands;
      interleave, offset := c.interleave, c.offset;
      transform := Get(header, "map info");
      crs := Get(header, "coordinate system string");
      this.scaleFactor, this.outBands, this.outDtype := scaleFactor, outBands, outDtype;
      da := None;
    }

    /** `RCIReader(rci_path, hdr_path, ...)`: parses the header lines, then configures the
        reader from the parsed header. */
    static method Open(lines: seq<string>, file: seq<bv8>, floats: FloatDecoder,
                       scaleFactor: Option<real>, outBands: seq<int>, outDtype: Option<DType>)
      returns (r: Result<RciReader, ReaderError>)
      ensures Configure(HeaderOf(lines), |file|).Err? ==> r == Err(Configure(HeaderOf(lines), |file|).error)
      ensures Configure(HeaderOf(lines), |file|).Ok? ==>
                r.Ok? && fresh(r.value) && r.value.Settings() == Configure(HeaderOf(lines), |file|).value
      ensures r.Ok? ==> r.value.Holds(HeaderOf(lines), file, floats, scaleFactor, outBands, outDtype)
    {
      var hdr := ParseEnviHeader(lines);
      r := FromHeader(hdr, file, floats, scaleFactor, outBands, outDtype);
    }

    /** The fields besides the configuration that opening sets. */
    ghost predicate Holds(hdr: Dict<PyVal>, file: seq<bv8>, floats: FloatDecoder,
                    scaleFactor: Option<real>, outBands: seq<int>, outDtype: Option<DType>)
      reads this
    {
      header == hdr && this.file == file && this.floats == floats
      && transform == Get(hdr, "map info") && crs == Get(hdr, "coordinate system string")
      && this.scaleFactor == scaleFactor && this.outBands == outBands && this.outDtype == outDtype
      && da == None
    }

    /** The body of the constructor after the header is parsed: the required fields, the type
        and byte order, the shape, interleave and offset, and the size check. */
    static method FromHeader(hdr: Dict<PyVal>, file: seq<bv8>, floats: FloatDecoder,
                             scaleFactor: Option<real>, outBands: seq<int>, outDtype: Option<DType>)
      returns (r: Result<RciReader, ReaderError>)
      ensures Configure(hdr, |file|).Err? ==> r == Err(Configure(hdr, |file|).error)
      ensures Configure(hdr, |file|).Ok? ==>
                r.Ok? && fresh(r.value) && r.value.Settings() == Configure(hdr, |file|).value
      ensures r.Ok? ==> r.value.Holds(hdr, file, floats, scaleFactor, outBands, outDtype)
    {
      var missing := MissingField(hdr);
      if missing.Some? {
        return Err(MissingKey(missing.value));
      }
      var c :- HeaderFields(hdr);
      var t :- SizeCheck(c, |file|);
      var rd := new RciReader(hdr, file, floats, c.(dtype := t), scaleFactor, outBands, outDtype);
      return Ok(rd);
    }

    /** The required-field loop: the first field the header lacks. */
    static method MissingField(hdr: Dict<PyVal>) returns (missing: Option<string>)
      ensures missing == FirstMissing(hdr, RequiredKeys)
    {
      var i := 0;
      while i < |RequiredKeys|
        invariant 0 <= i <= |RequiredKeys|
        invariant forall j :: 0 <= j < i ==> RequiredKeys[j] in Keys(hdr)
      {
        if RequiredKeys[i] !in Keys(hdr) {
          FirstMissingAt(hdr, RequiredKeys, i);
          return Some(RequiredKeys[i]);
        }
        i := i + 1;
      }
      FirstMissingSpec(hdr, RequiredKeys);
      return None;
    }

    /** The size check with its for-else fallback over the code table: `dtype` starts as the
        header's type and is replaced by the first table type whose item size makes the
        `width * height * bands` elements take the payload's `size` bytes. */
    static method SizeCheck(c: Config, fileSize: int) returns (r: Result<DType, ReaderError>)
      ensures r == SizeChoice(c, fileSize)
    {
      var base := c.dtype;
      var size := fileSize - c.offset;
      var n := c.width * c.height * c.bands;
      var dtype := base;
      if size != n * ItemSize(dtype) {
        var found := FirstFitIn(EnviTable, n, size);
        if found.None? {
          return Err(SizeMismatch(size, n * ItemSize(base)));
        }
        dtype := found.value;
      }
      return Ok(dtype);
    }

    /** The `for` loop over the code table that stops at the first type that fits. */
    static method FirstFitIn(table: seq<(int, DType)>, n: int, size: int) returns (found: Option<DType>)
      ensures found == FirstFit(table, n, size)
    {
      var k := 0;
      while k < |table|
        invariant 0 <= k <= |table|
        invariant forall j :: 0 <= j < k ==> !Fits(n, size, table[j].1)
      {
        if size == n * ItemSize(table[k].1) {
          FirstFitAt(table, n, size, k);
          return Some(table[k].1);
        }
        k := k + 1;
      }
      return None;
    }

    /** `read()`: decodes the file, builds the array, subsets, scales and casts it, and keeps
        the result in `da`. */
    method Read() returns (r: Result<DataArray, ReaderError>)
      modifies this`da
      ensures r == ReadSpec(Settings(), header, file, floats, scaleFactor, outBands, outDtype)
      ensures da == if r.Ok? then Some(r.value) else old(da)
    {
      var cube :- DecodeAsWritten(Settings(), file, floats);
      var arr := DataArray(cube, Labels(bands), height, width, Wavelengths(header, bands), dtype, header);
      if outBands != [] {
        arr :- Select(arr, outBands);
      }
      if ScaleOn(scaleFactor) {
        arr := Scaled(arr, scaleFactor.value);
      }
      if outDtype.Some? {
        arr :- Cast(arr, outDtype.value);
      }
      da := Some(arr);
      return Ok(arr);
    }
  }
}
