/** What opening and reading a raw cube guarantee: the order of the header checks, the size
    check and its fallback, the interleave index maps and their round trip, the wavelength
    coordinate, band selection, scaling and quantisation. */
module ReaderProps {
  import opened Wrappers
  import opened PyValues
  import opened DataCube
  import opened Reader

  /** A required field that is absent fails opening with its name, the first absent one in the
      order samples, lines, bands, data type. */
  lemma ConfigureMissingKey(hdr: Dict<PyVal>, fileSize: int, i: nat)
    requires i < |RequiredKeys| && RequiredKeys[i] !in Keys(hdr)
    requires forall j :: 0 <= j < i ==> RequiredKeys[j] in Keys(hdr)
    ensures Configure(hdr, fileSize) == Err(MissingKey(RequiredKeys[i]))
  {
    FirstMissingAt(hdr, RequiredKeys, i);
  }

  /** Opening fails with a missing key exactly when a required field is absent. */
  lemma ConfigureKeysPresent(hdr: Dict<PyVal>, fileSize: int)
    ensures (Configure(hdr, fileSize).Err? && Configure(hdr, fileSize).error.MissingKey?) <==>
            exists i :: 0 <= i < |RequiredKeys| && RequiredKeys[i] !in Keys(hdr)
  {
    FirstMissingSpec(hdr, RequiredKeys);
    if FirstMissing(hdr, RequiredKeys).None? {
      RequiredPresent(hdr);
      HeaderFieldsNotMissing(hdr);
      var c := HeaderFields(hdr);
      if c.Ok? && SizeChoice(c.value, fileSize).Err? {
        assert Configure(hdr, fileSize) == Err(SizeChoice(c.value, fileSize).error);
      }
    }
  }

  /** With every required field present, none of their conversions fails for a missing key. */
  lemma RequiredPresent(hdr: Dict<PyVal>)
    requires forall j :: 0 <= j < |RequiredKeys| ==> RequiredKeys[j] in Keys(hdr)
    ensures Get(hdr, "samples").Some? && Get(hdr, "lines").Some?
    ensures Get(hdr, "bands").Some? && Get(hdr, "data type").Some?
  {
    assert RequiredKeys[0] == "samples" && RequiredKeys[1] == "lines";
    assert RequiredKeys[2] == "bands" && RequiredKeys[3] == "data type";
    GetKeys(hdr, "samples");
    GetKeys(hdr, "lines");
    GetKeys(hdr, "bands");
    GetKeys(hdr, "data type");
  }

  /** Once the required fields are present, the conversions fail only for a bad value. */
  lemma HeaderFieldsNotMissing(hdr: Dict<PyVal>)
    requires Get(hdr, "samples").Some? && Get(hdr, "lines").Some?
    requires Get(hdr, "bands").Some? && Get(hdr, "data type").Some?
    ensures HeaderFields(hdr).Err? ==> !HeaderFields(hdr).error.MissingKey?
  {
    FieldsNotMissing(OrderOf(hdr), IntField(hdr, "data type"), IntField(hdr, "samples"),
                     IntField(hdr, "lines"), IntField(hdr, "bands"), InterleaveText(hdr), OffsetOf(hdr));
  }

  /** A failure of the combined conversions is a failure of one of them. */
  lemma FieldsNotMissing(order: ByteOrder, code: Result<int, ReaderError>, samples: Result<int, ReaderError>,
                         lines: Result<int, ReaderError>, bands: Result<int, ReaderError>,
                         interleave: Result<string, ReaderError>, offset: Result<int, ReaderError>)
    requires code.Err? ==> !code.error.MissingKey?
    requires samples.Err? ==> !samples.error.MissingKey?
    requires lines.Err? ==> !lines.error.MissingKey?
    requires bands.Err? ==> !bands.error.MissingKey?
    requires interleave.Err? ==> !interleave.error.MissingKey?
    requires offset.Err? ==> !offset.error.MissingKey?
    ensures var r := Fields(order, code, samples, lines, bands, interleave, offset);
            r.Err? ==> !r.error.MissingKey?
  {
  }

  /** The conversions of a successful open: the byte order the header gives, the shape,
      interleave and offset converted from the header, and the table type of the header's data
      type code. */
  lemma HeaderFieldsOk(hdr: Dict<PyVal>, h: Config)
    requires HeaderFields(hdr) == Ok(h)
    ensures h.order == Little <==>
              Get(hdr, "byte order").None? || Get(hdr, "byte order") == Some(PyInt(0)) ||
              Get(hdr, "byte order") == Some(PyFloat(0.0))
    ensures IntField(hdr, "samples") == Ok(h.width) && IntField(hdr, "lines") == Ok(h.height)
    ensures IntField(hdr, "bands") == Ok(h.bands)
    ensures InterleaveText(hdr) == Ok(h.interleave) && OffsetOf(hdr) == Ok(h.offset)
    ensures IntField(hdr, "data type").Ok?
    ensures EnviLookup(IntField(hdr, "data type").value) == Some(h.dtype)
  {
    FieldsOk(OrderOf(hdr), IntField(hdr, "data type"), IntField(hdr, "samples"), IntField(hdr, "lines"),
             IntField(hdr, "bands"), InterleaveText(hdr), OffsetOf(hdr), h);
  }

  /** Combined conversions that succeed hold each conversion's value. */
  lemma FieldsOk(order: ByteOrder, code: Result<int, ReaderError>, samples: Result<int, ReaderError>,
                 lines: Result<int, ReaderError>, bands: Result<int, ReaderError>,
                 interleave: Result<string, ReaderError>, offset: Result<int, ReaderError>, h: Config)
    requires Fields(order, code, samples, lines, bands, interleave, offset) == Ok(h)
    ensures h.order == order && code.Ok? && EnviLookup(code.value) == Some(h.dtype)
    ensures samples == Ok(h.width) && lines == Ok(h.height) && bands == Ok(h.bands)
    ensures interleave == Ok(h.interleave) && offset == Ok(h.offset)
  {
  }

  /** A successful open has every required field, the header's conversions, and a payload of
      exactly width·height·bands elements of the chosen type, which is the header's own type
      when that fits and otherwise the first table type that does. */
  lemma ConfigureOk(hdr: Dict<PyVal>, fileSize: int, c: Config)
    requires Configure(hdr, fileSize) == Ok(c)
    ensures forall j :: 0 <= j < |RequiredKeys| ==> RequiredKeys[j] in Keys(hdr)
    ensures HeaderFields(hdr).Ok? && c == HeaderFields(hdr).value.(dtype := c.dtype)
    ensures fileSize - c.offset == c.width * c.height * c.bands * ItemSize(c.dtype)
    ensures SizeChoice(HeaderFields(hdr).value, fileSize) == Ok(c.dtype)
  {
    ConfigureParts(hdr, fileSize, c);
    FirstMissingSpec(hdr, RequiredKeys);
    var h := HeaderFields(hdr).value;
    assert c.width == h.width && c.height == h.height && c.bands == h.bands && c.offset == h.offset;
    SizeChoiceOk(h, fileSize, c.dtype);
  }

  /** A successful open passed the required-field loop, the conversions and the size check. */
  lemma ConfigureParts(hdr: Dict<PyVal>, fileSize: int, c: Config)
    requires Configure(hdr, fileSize) == Ok(c)
    ensures FirstMissing(hdr, RequiredKeys).None?
    ensures HeaderFields(hdr).Ok? && c == HeaderFields(hdr).value.(dtype := c.dtype)
    ensures SizeChoice(HeaderFields(hdr).value, fileSize) == Ok(c.dtype)
  {
  }

  /** A size check that picks `t` found the payload to be width·height·bands items of `t`. */
  lemma SizeChoiceOk(h: Config, fileSize: int, t: DType)
    requires SizeChoice(h, fileSize) == Ok(t)
    ensures fileSize - h.offset == h.width * h.height * h.bands * ItemSize(t)
    ensures ChooseType(h.dtype, h.width * h.height * h.bands, fileSize - h.offset) == Ok(t)
  {
  }

  /** The fallback never picks a type that an earlier table entry of the same item size would
      have matched first: it picks uint8, int16, int32 or float64. */
  lemma FallbackTypes(base: DType, n: int, size: int)
    requires ChooseType(base, n, size).Ok? && ChooseType(base, n, size).value != base
    ensures ChooseType(base, n, size).value in {UInt8, Int16, Int32, Float64}
  {
    var t := ChooseType(base, n, size).value;
    var i :| 0 <= i < |EnviTable| && EnviTable[i].1 == t &&
             forall j :: 0 <= j < i ==> !Fits(n, size, EnviTable[j].1);
    FirstOfItsSize(n, size, i);
  }

  /** The first table entry that fits is the first entry of its item size. */
  lemma FirstOfItsSize(n: int, size: int, i: nat)
    requires i < |EnviTable| && Fits(n, size, EnviTable[i].1)
    requires forall j :: 0 <= j < i ==> !Fits(n, size, EnviTable[j].1)
    ensures EnviTable[i].1 in {UInt8, Int16, Int32, Float64}
  {
    var t := EnviTable[i].1;
    var j := if ItemSize(t) == 1 then 0 else if ItemSize(t) == 2 then 1 else if ItemSize(t) == 4 then 2 else 4;
    assert ItemSize(EnviTable[j].1) == ItemSize(t);
    assert i <= j;
  }

  /** Two bands of int32 data under a header that claims three bands of 4 × 3 pixels: no table
      type makes 36 elements take 96 bytes, so opening fails quoting 96 and the expected 144. */
  lemma SizeMismatchExample()
    ensures ChooseType(Int32, 4 * 3 * 3, 96) == Err(SizeMismatch(96, 144))
  {
    assert forall j :: 0 <= j < |EnviTable| ==> !Fits(36, 96, EnviTable[j].1);
  }

  /** Which failure a decode gives: an unknown interleave tag before anything is read, then a
      negative dimension, then a file too short for the shape. */
  lemma DecodeErrors(file: seq<bv8>, floats: FloatDecoder, t: DType, order: ByteOrder, tag: string,
                     B: int, H: int, W: int)
    ensures var r := Decode(file, floats, t, order, tag, B, H, W);
            (r == Err(UnsupportedInterleave(tag)) <==> LayoutOf(tag).None?) &&
            (r == Err(BadShape) <==> LayoutOf(tag).Some? && (B < 0 || H < 0 || W < 0)) &&
            (r == Err(ShortFile) <==> LayoutOf(tag).Some? && 0 <= B && 0 <= H && 0 <= W &&
                                      |file| < B * H * W * ItemSize(t))
  {
  }

  /** Only the three interleave tags decode. */
  lemma LayoutTags(tag: string)
    ensures LayoutOf(tag).Some? <==> tag in {"BSQ", "BIL", "BIP"}
  {
  }

  /** Cell (b, y, x) of a decoded cube is the element stored at the interleave's flat index:
      b·H·W + y·W + x for BSQ, y·B·W + b·W + x for BIL and y·W·B + x·B + b for BIP. */
  lemma DecodeCell(file: seq<bv8>, floats: FloatDecoder, t: DType, order: ByteOrder, tag: string,
                   B: nat, H: nat, W: nat, b: nat, y: nat, x: nat)
    requires Decode(file, floats, t, order, tag, B, H, W).Ok?
    requires b < B && y < H && x < W
    ensures LayoutOf(tag).Some?
    ensures FlatIndex(LayoutOf(tag).value, B, H, W, b, y, x) < B * H * W
    ensures var k := FlatIndex(LayoutOf(tag).value, B, H, W, b, y, x);
            var s := ItemSize(t);
            k * s + s <= |file| &&
            Decode(file, floats, t, order, tag, B, H, W).value[b][y][x] ==
              ElementValue(t, order, floats, ItemAt(file, t, k))
  {
    var il := LayoutOf(tag).value;
    FlatIndexBound(il, B, H, W, b, y, x);
  }

  /** A file holding the elements of a cube in any interleave decodes to that cube. */
  lemma DecodeLayout(file: seq<bv8>, floats: FloatDecoder, t: DType, order: ByteOrder, tag: string,
                     c: Cube, B: nat, H: nat, W: nat)
    requires LayoutOf(tag).Some? && Shaped(c, B, H, W)
    requires B * H * W * ItemSize(t) <= |file|
    requires Elements(file, t, order, floats, B * H * W) == Layout(LayoutOf(tag).value, c, B, H, W)
    ensures Decode(file, floats, t, order, tag, B, H, W) == Ok(c)
  {
    LayoutRoundTrip(LayoutOf(tag).value, c, B, H, W);
  }

  /** The payload is what the size check measures: with a header offset inside the file it is
      the file from that byte on, as long as the file minus the offset. */
  lemma PayloadBytes(file: seq<bv8>, offset: int)
    ensures 0 <= offset <= |file| ==> Payload(file, offset) == file[offset..]
    ensures 0 <= offset <= |file| ==> |Payload(file, offset)| == |file| - offset
    ensures |Payload(file, offset)| <= |file|
  {
  }

  /** After a successful open with a known interleave and a non-negative shape and offset, the
      payload holds exactly the elements the shape needs, so the payload decode succeeds and
      never reports a short file. */
  lemma OpenedPayloadDecodes(hdr: Dict<PyVal>, file: seq<bv8>, floats: FloatDecoder, c: Config)
    requires Configure(hdr, |file|) == Ok(c)
    requires LayoutOf(c.interleave).Some?
    requires 0 <= c.width && 0 <= c.height && 0 <= c.bands && 0 <= c.offset
    ensures DecodePayload(c, file, floats).Ok?
    ensures Shaped(DecodePayload(c, file, floats).value, c.bands, c.height, c.width)
  {
    ConfigureOk(hdr, |file|, c);
    PayloadSize(|file|, c);
    PayloadBytes(file, c.offset);
    DecodeFits(Payload(file, c.offset), floats, c.dtype, c.order, c.interleave, c.bands, c.height, c.width);
  }

  /** After a successful open with a known interleave and a non-negative shape and offset, the
      read as written also decodes to the header's shape, since the whole file is at least as
      long as the payload; its cells are taken from the first byte on (`DecodeCell`). */
  lemma OpenedDecodesAsWritten(hdr: Dict<PyVal>, file: seq<bv8>, floats: FloatDecoder, c: Config)
    requires Configure(hdr, |file|) == Ok(c)
    requires LayoutOf(c.interleave).Some?
    requires 0 <= c.width && 0 <= c.height && 0 <= c.bands && 0 <= c.offset
    ensures DecodeAsWritten(c, file, floats).Ok?
    ensures Shaped(DecodeAsWritten(c, file, floats).value, c.bands, c.height, c.width)
  {
    ConfigureOk(hdr, |file|, c);
    PayloadSize(|file|, c);
    DecodeFits(file, floats, c.dtype, c.order, c.interleave, c.bands, c.height, c.width);
  }

  /** A payload size that the size check accepted lies inside the file. */
  lemma PayloadSize(fileSize: int, c: Config)
    requires 0 <= c.width && 0 <= c.height && 0 <= c.bands && 0 <= c.offset
    requires fileSize - c.offset == c.width * c.height * c.bands * ItemSize(c.dtype)
    ensures c.offset <= fileSize
    ensures fileSize - c.offset == c.bands * c.height * c.width * ItemSize(c.dtype)
  {
    MulMono(0, c.width, c.height);
    MulMono(0, c.width * c.height, c.bands);
    var n := c.width * c.height * c.bands;
    assert n == c.bands * c.height * c.width;
    MulMono(0, n, ItemSize(c.dtype));
  }

  /** A file at least as long as the shape needs decodes under a known interleave. */
  lemma DecodeFits(file: seq<bv8>, floats: FloatDecoder, t: DType, order: ByteOrder, tag: string,
                   B: int, H: int, W: int)
    requires LayoutOf(tag).Some? && 0 <= B && 0 <= H && 0 <= W
    requires |file| >= B * H * W * ItemSize(t)
    ensures Decode(file, floats, t, order, tag, B, H, W).Ok?
  {
  }

  /** The header of the offset example opens as one uint8 element behind a one-byte header. */
  lemma OffsetExampleOpens()
    ensures Configure(OffsetHeader(), 2) == Ok(Config(UInt8, Little, 1, 1, 1, "BSQ", 1))
  {
    OffsetExampleKeys();
    OffsetExampleFields();
    assert Fits(1, 1, UInt8);
    assert SizeChoice(Config(UInt8, Little, 1, 1, 1, "BSQ", 1), 2) == Ok(UInt8);
  }

  /** The offset example's header has every required field. */
  lemma OffsetExampleKeys()
    ensures FirstMissing(OffsetHeader(), RequiredKeys) == None
  {
    var ks := Keys(OffsetHeader());
    assert ks[0] == "samples" && ks[1] == "lines" && ks[2] == "bands" && ks[3] == "data type";
    FirstMissingSpec(OffsetHeader(), RequiredKeys);
  }

  /** The fields of the offset example's header. */
  lemma OffsetExampleFields()
    ensures HeaderFields(OffsetHeader()) == Ok(Config(UInt8, Little, 1, 1, 1, "BSQ", 1))
  {
    var hdr := OffsetHeader();
    assert IntField(hdr, "data type") == Ok(1) && IntField(hdr, "samples") == Ok(1);
    assert IntField(hdr, "lines") == Ok(1) && IntField(hdr, "bands") == Ok(1);
    assert Get(hdr, "byte order") == None && Get(hdr, "interleave") == None;
    assert OffsetOf(hdr) == Ok(1);
    assert HeaderFields(hdr) == Ok(Config(UInt8, Little, 1, 1, 1, "BSQ", 1));
  }

  function OffsetHeader(): Dict<PyVal> {
    [("samples", PyInt(1)), ("lines", PyInt(1)), ("bands", PyInt(1)),
     ("data type", PyInt(1)), ("header offset", PyInt(1))]
  }

  /** The offset is not skipped: a one-element uint8 file behind a one-byte header passes the
      size check (2 bytes minus the offset 1), yet the read as written decodes the header byte
      7 where the payload holds 42. */
  lemma OffsetNotSkipped(floats: FloatDecoder)
    ensures Configure(OffsetHeader(), 2) == Ok(Config(UInt8, Little, 1, 1, 1, "BSQ", 1))
    ensures var r := DecodeAsWritten(Config(UInt8, Little, 1, 1, 1, "BSQ", 1), [7, 42], floats);
            r.Ok? && Shaped(r.value, 1, 1, 1) && r.value[0][0][0] == 7.0
    ensures var r := DecodePayload(Config(UInt8, Little, 1, 1, 1, "BSQ", 1), [7, 42], floats);
            r.Ok? && Shaped(r.value, 1, 1, 1) && r.value[0][0][0] == 42.0
  {
    OffsetExampleOpens();
    OneByteDecode([7, 42], floats);
    assert Payload([7, 42], 1) == [42];
    OneByteDecode([42], floats);
  }

  /** One uint8 BSQ element decodes to the value of the file's first byte. */
  lemma OneByteDecode(file: seq<bv8>, floats: FloatDecoder)
    requires 1 <= |file|
    ensures var r := Decode(file, floats, UInt8, Little, "BSQ", 1, 1, 1);
            r.Ok? && Shaped(r.value, 1, 1, 1) && r.value[0][0][0] == file[0] as real
  {
    DecodeCell(file, floats, UInt8, Little, "BSQ", 1, 1, 1, 0, 0, 0);
    assert FlatIndex(BSQ, 1, 1, 1, 0, 0, 0) == 0;
    ByteValue(floats, file[0..1]);
  }

  lemma ByteValue(floats: FloatDecoder, bs: seq<bv8>)
    requires |bs| == 1
    ensures ElementValue(UInt8, Little, floats, bs) == bs[0] as real
  {
    assert UnsignedLE(bs) == bs[0] as nat + 256 * UnsignedLE(bs[1..]);
  }

  /** The array `read` returns: its coordinates agree with the cube, its rows and columns are the
      header's lines and samples, its attributes are the header unless scaling dropped them, its
      band labels are the requested ones or 1..bands, and its type is the output type, or float32
      after scaling, or the file's type. */
  lemma ReadArray(c: Config, hdr: Dict<PyVal>, file: seq<bv8>, floats: FloatDecoder,
                  scale: Option<real>, outBands: seq<int>, outDtype: Option<DType>, da: DataArray)
    requires ReadSpec(c, hdr, file, floats, scale, outBands, outDtype) == Ok(da)
    ensures WellFormed(da)
    ensures da.height == c.height && da.width == c.width
    ensures da.attrs == if ScaleOn(scale) then [] else hdr
    ensures da.labels == if outBands != [] then outBands else Labels(c.bands)
    ensures da.dtype == if outDtype.Some? then outDtype.value
                        else if ScaleOn(scale) then Float32 else c.dtype
  {
    var cube := DecodeAsWritten(c, file, floats).value;
    var da0 := DataArray(cube, Labels(c.bands), c.height, c.width, Wavelengths(hdr, c.bands), c.dtype, hdr);
    assert WellFormed(da0);
  }

  /** Without a band subset the wavelength coordinate is present exactly when the header's
      `wavelength` is a list with at least `bands` entries, and then it is their first `bands`. */
  lemma ReadWavelength(c: Config, hdr: Dict<PyVal>, file: seq<bv8>, floats: FloatDecoder,
                       scale: Option<real>, outDtype: Option<DType>, da: DataArray)
    requires ReadSpec(c, hdr, file, floats, scale, [], outDtype) == Ok(da)
    ensures da.wavelength.Some? <==>
              Get(hdr, "wavelength").Some? && Get(hdr, "wavelength").value.PyList? &&
              |Get(hdr, "wavelength").value.items| >= c.bands
    ensures da.wavelength.Some? ==> da.wavelength.value == Get(hdr, "wavelength").value.items[..c.bands]
  {
  }

  /** The labels 1..B hold label l at position l - 1. */
  lemma LabelsPos(B: nat, l: int)
    ensures l in Labels(B) <==> 1 <= l <= B
    ensures 1 <= l <= B ==> PosOf(Labels(B), l) == l - 1
  {
    if 1 <= l <= B {
      assert Labels(B)[l - 1] == l;
      var p := PosOf(Labels(B), l);
      assert Labels(B)[p] == p + 1;
    }
  }

  /** A band subset succeeds exactly when every requested label is in 1..bands; band i of the
      result is band `outBands[i]` of the file, and the wavelength coordinate follows. */
  lemma ReadSelect(c: Config, hdr: Dict<PyVal>, file: seq<bv8>, floats: FloatDecoder,
                   outBands: seq<int>, cube: Cube)
    requires outBands != []
    requires DecodeAsWritten(c, file, floats) == Ok(cube)
    ensures var r := ReadSpec(c, hdr, file, floats, None, outBands, None);
            (r.Ok? <==> forall i :: 0 <= i < |outBands| ==> 1 <= outBands[i] <= c.bands) &&
            (r.Err? ==> r.error == MissingBands) &&
            (r.Ok? ==> forall i :: 0 <= i < |outBands| ==>
                         r.value.values[i] == cube[outBands[i] - 1] &&
                         (r.value.wavelength.Some? ==>
                            r.value.wavelength.value[i] == Get(hdr, "wavelength").value.items[outBands[i] - 1]))
  {
    var B: nat := c.bands;
    var da := DataArray(cube, Labels(B), c.height, c.width, Wavelengths(hdr, B), c.dtype, hdr);
    assert WellFormed(da);
    forall i | 0 <= i < |outBands| {
      LabelsPos(B, outBands[i]);
    }
  }

  /** Scaling divides every value of the file by the scale factor, makes the array float32 and
      leaves it without attributes. */
  lemma ReadScaled(c: Config, hdr: Dict<PyVal>, file: seq<bv8>, floats: FloatDecoder, s: real,
                   cube: Cube, b: nat, y: nat, x: nat)
    requires s != 0.0
    requires DecodeAsWritten(c, file, floats) == Ok(cube)
    requires b < c.bands && y < c.height && x < c.width
    ensures var r := ReadSpec(c, hdr, file, floats, Some(s), [], None);
            r.Ok? && r.value.dtype == Float32 && r.value.attrs == [] &&
            r.value.values[b][y][x] == cube[b][y][x] / s
  {
  }

  /** After an integer cast every value is a whole number in [0, iinfo.max]: zero when the cube
      is constant, and otherwise the value's position between the cube's minimum and maximum
      scaled to iinfo.max and truncated. */
  lemma CastQuantises(da: DataArray, t: DType, r: DataArray, b: nat, y: nat, x: nat)
    requires WellFormed(da) && IsInteger(t) && Cast(da, t) == Ok(r)
    requires b < |da.labels| && y < da.height && x < da.width
    ensures |Cells(da.values)| > 0
    ensures var lo, hi := SeqMin(Cells(da.values)), SeqMax(Cells(da.values));
            var v := da.values[b][y][x];
            lo <= v <= hi &&
            0.0 <= r.values[b][y][x] <= IntMax(t) as real &&
            (lo == hi ==> r.values[b][y][x] == 0.0) &&
            (lo < hi ==> r.values[b][y][x] == Quantise(v, lo, hi, IntMax(t)) as real)
  {
    var cells := Cells(da.values);
    CellIn(da.values, |da.labels|, da.height, da.width, b, y, x);
    var lo, hi := SeqMin(cells), SeqMax(cells);
    var v := da.values[b][y][x];
    var i :| 0 <= i < |cells| && cells[i] == v;
    if lo < hi {
      QuantiseRange(v, v, lo, hi, IntMax(t));
    }
  }

  /** An integer cast sends the cube's minimum to 0 and, when the cube is not constant, its
      maximum to iinfo.max. */
  lemma CastEnds(da: DataArray, t: DType, r: DataArray, b: nat, y: nat, x: nat)
    requires WellFormed(da) && IsInteger(t) && Cast(da, t) == Ok(r)
    requires b < |da.labels| && y < da.height && x < da.width
    ensures 0 < |Cells(da.values)|
    ensures da.values[b][y][x] == SeqMin(Cells(da.values)) ==> r.values[b][y][x] == 0.0
    ensures da.values[b][y][x] == SeqMax(Cells(da.values)) != SeqMin(Cells(da.values)) ==>
              r.values[b][y][x] == IntMax(t) as real
  {
    var cells := Cells(da.values);
    CellIn(da.values, |da.labels|, da.height, da.width, b, y, x);
    MinBelowMax(cells);
    if SeqMin(cells) < SeqMax(cells) {
      QuantiseEnds(SeqMin(cells), SeqMax(cells), IntMax(t));
    }
  }

  /** An integer cast fails exactly when the cube has no cells. */
  lemma CastEmpty(da: DataArray, t: DType)
    requires WellFormed(da) && IsInteger(t)
    ensures Cast(da, t).Err? <==> |da.labels| == 0 || da.height == 0 || da.width == 0
  {
    CellsLength(da.values, |da.labels|, da.height, da.width);
    var B, H, W := |da.labels|, da.height, da.width;
    assert B * H * W == 0 <==> B == 0 || H == 0 || W == 0 by {
      if B != 0 && H != 0 && W != 0 {
        MulMono(1, B, H);
        MulMono(1, B * H, W);
      }
    }
  }
}
