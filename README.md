# CHRIS utilities — a verified model of the ingest, naming and packaging rules

`chris-utils` converts raw CHRIS/PROBA hyperspectral acquisitions into EOPF products, EO-SIP
packages and SAFE directories. This project models the deterministic rules at the core of that
tool in Dafny and proves properties about them:

- **Raw cube decoder** (`RCIReader`). It resolves the element type from the ENVI code table and
  the byte order, checks the file size with a fallback over the table, and reorders BSQ/BIL/BIP
  layouts into a (band, y, x) cube. It also attaches wavelengths, selects bands, scales and casts.
- **ENVI `key = value` header parser** (`parse_envi_header`).
- **CHRIS `//`-comment header parser** (`parse_chris_hdr_txt`) and the EOPF root-attribute
  mapping built from it (`build_eopf_root_attrs`).
- **Geolocation rules**: UTM EPSG code, affine transform, pixel-centre coordinates, GSD, the
  `EPSG:` round trip, the orbit-flip decision and the constant geometry arrays.
- **EOPF naming helpers**: key normalisation, GSD from mode, the units fallback chain, band
  naming and the attribute-merge order of the product tree.
- **EO-SIP rules**: product types, the RGB band picker, the latitude/longitude file-name fields,
  the file-name layout and `check_metadata`'s missing/invalid classification.
- **SAFE packaging**: the CRC-16/CCITT-FALSE checksum, package-type validation and output
  directory naming of `make_safe`, and the data-object derivation of the manifest's `XFDU`.

Python values are modelled by one datatype `PyVal` (None, int, float as `real`, str, list, dict).
A Python dict is an insertion-ordered association list (`PyValues.Dict`). `Put` replaces a
value in place or appends a new key, so key collisions behave as they do in Python.

Objects whose state the source updates in place are classes (`Reader.RciReader`). Loops that
thread variables are methods with invariants, and each is proved against a specification
function. Helpers of the Python standard library are modelled in their own modules:
`str.split`/`strip`/`rsplit` in `Text`, `int()`/`float()`/formatting in `Numbers`, and
`datetime.strptime` in `DateTimes`.

Where the source's tests and its code disagree, the model follows the code:
- `tests/cog_zarr/test_reader.py:8-31` expects a leading zero-wavelength band to be dropped.
  `chris_utils/cog_zarr/reader.py` has no such step, so the model has none.
- `read` does not skip the header offset (see Findings). `Reader.RciReader.Read` models this:
  it decodes from the first byte of the file.

## Model

| member | source | states |
|---|---|---|
| DataCube.EnviLookupTable | chris_utils/cog_zarr/reader.py:12-22 | a data-type code resolves exactly when one of the nine table entries carries it, and then to that entry's element type |
| DataCube.IntValue | chris_utils/cog_zarr/reader.py:36-41 | an integer element decodes to a value in its type's range whose remainder modulo 256^size is the bytes' unsigned reading (two's complement) |
| DataCube.IntValueUnique | chris_utils/cog_zarr/reader.py:36-41 | no other number in the type's range has that remainder, so range and remainder determine the element's value |
| DataCube.CongruentInRange | chris_utils/cog_zarr/reader.py:36-41 | two numbers of a window of p consecutive integers that agree modulo p are equal |
| DataCube.ByteOrderSwap | chris_utils/cog_zarr/reader.py:36-41 | reading an element big-endian equals reading its reversed bytes little-endian |
| DataCube.Elements | chris_utils/cog_zarr/reader.py:84-85 | `fromfile` with a count of n yields exactly n elements, element k decoded from the k-th run of itemsize bytes |
| DataCube.Reshape | chris_utils/cog_zarr/reader.py:88-93 | the reordered array has shape (bands, lines, samples), and cell (b, y, x) is the flat element at the interleave's index |
| DataCube.LayoutIndex | tests/cog_zarr/conftest.py:107-113 | in a cube written out as BSQ, BIL or BIP, cell (b, y, x) sits at that interleave's flat index |
| DataCube.LayoutRoundTrip | tests/cog_zarr/conftest.py:107-113 | reordering a cube written in any of the three layouts gives back the same cube |
| DataCube.MapCube | chris_utils/cog_zarr/reader.py:123 | an element-wise operation keeps the cube's shape and transforms every cell |
| DataCube.CellIn | chris_utils/cog_zarr/reader.py:129-130 | a shaped cube has B·H·W cells, and every cell is among the values whose min and max are taken |
| DataCube.SeqMin | chris_utils/cog_zarr/reader.py:130 | the minimum is one of the values and no value is smaller |
| DataCube.SeqMax | chris_utils/cog_zarr/reader.py:130 | the maximum is one of the values and no value is larger |
| DataCube.QuantiseRange | chris_utils/cog_zarr/reader.py:135 | normalisation maps [min, max] into [0, maxT] and preserves order |
| DataCube.QuantiseEnds | chris_utils/cog_zarr/reader.py:135 | the minimum maps to 0 and the maximum maps to maxT |
| Reader.FirstMissingSpec | chris_utils/cog_zarr/reader.py:31-33 | no key is reported missing iff all required keys are present; a reported key is absent and every key before it is present |
| Reader.FirstMissingAt | chris_utils/cog_zarr/reader.py:31-33 | the first absent key in the checking order is the one reported |
| Reader.FirstFit | chris_utils/cog_zarr/reader.py:56-63 | the fallback finds nothing iff no table entry's itemsize matches the payload; otherwise it finds a matching entry with no matching entry before it |
| Reader.FirstFitAt | chris_utils/cog_zarr/reader.py:56-63 | the first matching entry in table order is the one chosen |
| Reader.ChooseType | chris_utils/cog_zarr/reader.py:52-69 | a chosen type always matches the payload size; the type changes only by fallback; the error happens iff no entry matches and quotes the file size and the expected size |
| Reader.InTable | chris_utils/cog_zarr/reader.py:12-22 | every element type appears in the code table, so the fallback can reach any of them |
| Reader.Labels | chris_utils/cog_zarr/reader.py:99 | band labels are 1..bands |
| Reader.Decode | chris_utils/cog_zarr/reader.py:84-95 | a successful decode yields a cube of shape (bands, lines, samples) |
| Reader.Wavelengths | chris_utils/cog_zarr/reader.py:105-108 | an attached wavelength coordinate has exactly one entry per band |
| Reader.PosOf | chris_utils/cog_zarr/reader.py:118-119 | the position of a label is its first occurrence |
| Reader.Select | chris_utils/cog_zarr/reader.py:118-119 | selection succeeds iff every requested label exists; the result has the requested labels in request order with each band's data and wavelength; nothing else changes |
| Reader.Scaled | chris_utils/cog_zarr/reader.py:122-123 | scaling divides every cell by the factor, makes the type float32, keeps shape, labels and wavelengths, and leaves the array without attributes, as xarray arithmetic drops them |
| Reader.Cast | chris_utils/cog_zarr/reader.py:126-138 | the cast fails iff the target is an integer type and the cube is empty; a float target keeps the values; only values and dtype change |
| Reader.MinBelowMax | chris_utils/cog_zarr/reader.py:130 | the minimum of a non-empty array is at most its maximum |
| Reader.RciReader.constructor | chris_utils/cog_zarr/reader.py:42-80 | the reader stores the resolved settings and the inputs, with no array yet |
| Reader.RciReader.Open | chris_utils/cog_zarr/reader.py:26-80 | construction from header lines fails with exactly the error the configuration rules give, and otherwise holds their settings |
| Reader.RciReader.FromHeader | chris_utils/cog_zarr/reader.py:30-80 | the same, starting from a parsed header |
| Reader.RciReader.MissingField | chris_utils/cog_zarr/reader.py:31-33 | the key-checking loop reports the first missing required key |
| Reader.RciReader.SizeCheck | chris_utils/cog_zarr/reader.py:51-69 | the size check with its for-else fallback gives the type the size rule chooses, or its error |
| Reader.RciReader.FirstFitIn | chris_utils/cog_zarr/reader.py:56-63 | the fallback loop breaks at the first table entry that matches |
| Reader.RciReader.Read | chris_utils/cog_zarr/reader.py:82-141 | `read` decodes from the first byte of the file (no offset skipped), returns the array the read rules define (the header as attributes, or none after scaling) and stores it in `da` on success |
| ReaderProps.ConfigureMissingKey | chris_utils/cog_zarr/reader.py:31-33 | when required keys are absent, construction fails with a KeyError naming the first absent one in the order samples, lines, bands, data type |
| ReaderProps.ConfigureKeysPresent | chris_utils/cog_zarr/reader.py:31-33 | construction fails with a missing key iff some required key is absent |
| ReaderProps.RequiredPresent | chris_utils/cog_zarr/reader.py:31-33 | when the key check passes, all four required values can be looked up |
| ReaderProps.HeaderFieldsNotMissing | chris_utils/cog_zarr/reader.py:36-49 | once the keys are present, conversion failures are never reported as missing keys |
| ReaderProps.HeaderFieldsOk | chris_utils/cog_zarr/reader.py:36-49 | byte order is little-endian iff it is absent or equal to 0; the sizes, interleave and offset come from the header values; the element type is the table entry for the data-type code |
| ReaderProps.ConfigureOk | chris_utils/cog_zarr/reader.py:30-69 | an opened reader had every required key, takes its fields from the header, and its payload size equals samples·lines·bands·itemsize |
| ReaderProps.ConfigureParts | chris_utils/cog_zarr/reader.py:30-69 | an opened reader passed the key check, the field conversions and the size rule, in that order |
| ReaderProps.SizeChoiceOk | chris_utils/cog_zarr/reader.py:52-69 | the chosen type makes file size minus offset equal to samples·lines·bands·itemsize |
| ReaderProps.FallbackTypes | chris_utils/cog_zarr/reader.py:56-63 | a fallback only ever picks uint8, int16, int32 or float64, because the table is scanned in order |
| ReaderProps.FirstOfItsSize | chris_utils/cog_zarr/reader.py:56-63 | the first matching entry in table order is the first of its itemsize |
| ReaderProps.SizeMismatchExample | tests/cog_zarr/test_reader.py:84-101 | an int32 header claiming 4×3×3 with 96 payload bytes fails with "File size 96 != expected 144" |
| ReaderProps.DecodeErrors | chris_utils/cog_zarr/reader.py:88-95 | decoding fails with "Unsupported interleave" iff the tag is not BSQ/BIL/BIP; a negative dimension and a file too short for B·H·W elements fail with their own errors |
| ReaderProps.LayoutTags | chris_utils/cog_zarr/reader.py:88-95 | the accepted interleave tags are exactly BSQ, BIL and BIP |
| ReaderProps.DecodeCell | chris_utils/cog_zarr/reader.py:88-93 | the decoded cell (b, y, x) is the raw element at b·H·W+y·W+x (BSQ), y·B·W+b·W+x (BIL) or y·W·B+x·B+b (BIP) |
| ReaderProps.DecodeLayout | tests/cog_zarr/test_reader.py:33-56 | a file holding a cube written in any supported layout decodes to that cube |
| ReaderProps.PayloadBytes | chris_utils/cog_zarr/reader.py:52 | the payload is the file after the header offset, and its size is the file size minus the offset |
| ReaderProps.OpenedPayloadDecodes | chris_utils/cog_zarr/reader.py:52-54 | for an opened reader with a supported layout, the payload after the offset always decodes to a cube of the header's shape |
| ReaderProps.PayloadSize | chris_utils/cog_zarr/reader.py:52-54 | a passed size check leaves the offset inside the file and bytes for exactly B·H·W elements |
| ReaderProps.DecodeFits | chris_utils/cog_zarr/reader.py:84-95 | a file of at least B·H·W elements with a supported layout always decodes |
| ReaderProps.OpenedDecodesAsWritten | chris_utils/cog_zarr/reader.py:84-95 | for an opened reader with a supported layout, the read from byte 0 also decodes to the header's shape, as the file is at least as long as the payload |
| ReaderProps.OffsetNotSkipped | chris_utils/cog_zarr/reader.py:84-85 | a header with offset 1 over the bytes [7, 42] opens; the reader as written yields 7, where the payload holds 42 |
| ReaderProps.ReadArray | chris_utils/cog_zarr/reader.py:97-141 | the read array is well formed, keeps the header's lines/samples, has the header as attributes without a scale factor and none with one, has labels 1..bands or the requested ones, and has the requested dtype, else float32 when scaled, else the decoded one |
| ReaderProps.ReadWavelength | chris_utils/cog_zarr/reader.py:105-108 | a wavelength coordinate is attached iff the header's wavelength is a list with at least `bands` entries, and it is the first `bands` of them |
| ReaderProps.LabelsPos | chris_utils/cog_zarr/reader.py:99 | label l exists iff 1 ≤ l ≤ bands, and it sits at position l−1 |
| ReaderProps.ReadSelect | chris_utils/cog_zarr/reader.py:118-119 | with `out_bands`, the read fails iff some label is out of range, and otherwise band i of the result is band `out_bands[i]` of the cube decoded from byte 0, with its wavelength |
| ReaderProps.ReadScaled | chris_utils/cog_zarr/reader.py:122-123 | with a scale factor, the result is float32, has no attributes, and every cell is the cell decoded from byte 0 divided by the factor |
| ReaderProps.CastQuantises | chris_utils/cog_zarr/reader.py:126-135 | an integer cast maps a constant cube to zeros and every other cell to trunc((v−min)/(max−min)·maxT), within [0, maxT] |
| ReaderProps.CastEnds | chris_utils/cog_zarr/reader.py:130-135 | the minimum cell becomes 0 and the maximum cell becomes maxT |
| ReaderProps.CastEmpty | chris_utils/cog_zarr/reader.py:129-130 | an integer cast fails exactly when some dimension is zero |
| EnviHeader.BraceStripCases | chris_utils/cog_zarr/header.py:14-15 | a value wrapped in `{…}` loses exactly its outer pair, and any other value is unchanged |
| EnviHeader.Items | chris_utils/cog_zarr/header.py:19 | list items are the comma-separated pieces, each trimmed |
| EnviHeader.Entries | chris_utils/cog_zarr/header.py:7-10 | one entry per header line, in order |
| EnviHeader.ParseEnviHeader | chris_utils/cog_zarr/header.py:1-33 | the parsing loop builds the header dict that the line rules define |
| EnviHeader.HeaderWf | chris_utils/cog_zarr/header.py:24-32 | the parsed header has no duplicate keys |
| EnviHeader.HeaderKeys | chris_utils/cog_zarr/header.py:7-11 | a key is in the header iff some line with `=` has that lower-cased, trimmed key; lines without `=` create none |
| EnviHeader.HeaderLastWins | chris_utils/cog_zarr/header.py:24-32 | a key holds the value of the last line that sets it |
| EnviHeader.KeyShape | chris_utils/cog_zarr/header.py:10-11 | keys contain no `=`, no upper-case letter and no surrounding whitespace, because the line splits at its first `=` |
| EnviHeader.ListShape | chris_utils/cog_zarr/header.py:17-24 | a list value has one item per comma piece; items are all numbers when every piece parses, and otherwise all trimmed strings, never a mix |
| EnviHeader.ScalarShape | chris_utils/cog_zarr/header.py:25-32 | a scalar is an int iff it parses as a number with no fractional part, a float when it parses otherwise, and else the string itself |
| EnviHeader.IntLineRoundTrip | chris_utils/cog_zarr/header.py:10-32 | a line `key = n` parses back to the key and the integer n |
| EnviHeader.IntHeaderRoundTrip | chris_utils/cog_zarr/header.py:1-33 | a header written from distinct keys with integer values parses back to those entries in order |
| HdrParser.RowEntries | chris_utils/cog_zarr/hdr_parser.py:50 | a table row pairs each column with the field at the same position |
| HdrParser.InlineParts | chris_utils/cog_zarr/hdr_parser.py:64 | splitting an inline comment always yields at least one piece |
| HdrParser.TableValue | chris_utils/cog_zarr/hdr_parser.py:84-85 | the spectral table is a list with one dict per kept row, in order |
| HdrParser.ParseChrisHdrTxt | chris_utils/cog_zarr/hdr_parser.py:7-87 | a missing file gives FileNotFoundError and an unreadable one PermissionError, before any line is read; otherwise the result is the state after all lines, plus the table when kept |
| HdrParser.ParseLine | chris_utils/cog_zarr/hdr_parser.py:31-81 | the loop body moves the parser state by exactly one line step |
| HdrParser.ParseComment | chris_utils/cog_zarr/hdr_parser.py:35-70 | a comment line moves the state as the comment rules define |
| HdrParser.ParseOutsideTable | chris_utils/cog_zarr/hdr_parser.py:57-70 | outside the table, a section title clears the pending key and any other line is read as a key line |
| HdrParser.ParseKeyLine | chris_utils/cog_zarr/hdr_parser.py:62-70 | an inline comment stores its last piece under its first piece and clears the pending key; other text becomes the pending key |
| HdrParser.StoreInline | chris_utils/cog_zarr/hdr_parser.py:63-67 | the stripped last piece is stored under the stripped first piece |
| HdrParser.ParsePlain | chris_utils/cog_zarr/hdr_parser.py:72-81 | a non-comment line moves the state as the plain-line rules define |
| HdrParserProps.CommentOf | chris_utils/cog_zarr/hdr_parser.py:32-36 | the text of a `//` line is the line without its slashes, stripped |
| HdrParserProps.TabParts | chris_utils/cog_zarr/hdr_parser.py:64-65 | `key<TAB>value` splits into exactly key and value |
| HdrParserProps.SpaceParts | chris_utils/cog_zarr/hdr_parser.py:64-65 | without a tab, `key  value` splits at the run of two or more spaces into exactly key and value |
| HdrParserProps.CommentLine | chris_utils/cog_zarr/hdr_parser.py:32-36 | a `//` line is handled as a comment with its stripped text |
| HdrParserProps.InlineComment | chris_utils/cog_zarr/hdr_parser.py:62-67 | outside the table, an inline comment stores the last piece under the first and clears the pending key |
| HdrParserProps.InlineTab | chris_utils/cog_zarr/hdr_parser.py:62-67 | the line `//key<TAB>value` stores value under key |
| HdrParserProps.InlineSpaces | chris_utils/cog_zarr/hdr_parser.py:62-67 | the line `//key  value` stores value under key |
| HdrParserProps.PendingKey | chris_utils/cog_zarr/hdr_parser.py:68-76 | a bare `//Key` line sets the pending key; the next non-empty plain line becomes its value and clears it |
| HdrParserProps.BlankLine | chris_utils/cog_zarr/hdr_parser.py:73-76 | a blank plain line changes nothing, so a pending key waits for the next non-empty line |
| HdrParserProps.SectionTitle | chris_utils/cog_zarr/hdr_parser.py:57-60 | an empty comment or one ending in "ATTRIBUTES" clears the pending key and adds no entry |
| HdrParserProps.CommentStepFacts | chris_utils/cog_zarr/hdr_parser.py:38-70 | in table mode a comment line keeps table mode, the metadata and the pending key; it adds at most one row, of the column count, and only when the table is kept |
| HdrParserProps.AddRowFacts | chris_utils/cog_zarr/hdr_parser.py:47-50 | a row is appended only when its field count equals the column count |
| HdrParserProps.PlainStepFacts | chris_utils/cog_zarr/hdr_parser.py:72-81 | a plain line never changes table mode or the columns, and adds at most one row, of the column count, only in table mode when the table is kept |
| HdrParserProps.StepFacts | chris_utils/cog_zarr/hdr_parser.py:31-81 | no line turns table mode off; in table mode a comment line leaves the metadata alone; rows grow by at most one row of the column count; stored values stay strings |
| HdrParserProps.TableStaysOn | chris_utils/cog_zarr/hdr_parser.py:39-55 | once table mode is on, it stays on for the rest of the file |
| HdrParserProps.TableCommentsInert | chris_utils/cog_zarr/hdr_parser.py:45-55 | in table mode, comment lines never change the metadata or the pending key |
| HdrParserProps.StepRows | chris_utils/cog_zarr/hdr_parser.py:45-81 | each line step appends at most one row, and only one whose length matches the columns |
| HdrParserProps.NoTableWithoutKeep | chris_utils/cog_zarr/hdr_parser.py:41-55 | without `keep_spectral_table`, no columns or rows are ever collected |
| HdrParserProps.RunTextValued | chris_utils/cog_zarr/hdr_parser.py:66-75 | every metadata value the parser stores is a string |
| HdrParserProps.FinishTable | chris_utils/cog_zarr/hdr_parser.py:83-85 | `spectral_table` is present iff the table is kept, and then it holds the rows |
| HdrParserProps.SpectralTable | chris_utils/cog_zarr/hdr_parser.py:83-85 | the result has `spectral_table` exactly when it is kept, possibly as an empty list |
| HdrParserProps.RowField | chris_utils/cog_zarr/hdr_parser.py:50 | a row maps each column name to its field, with a later equal column taking precedence |
| RootAttrs.BuildEopfRootAttrs | chris_utils/cog_zarr/hdr_parser.py:90-131 | the step-by-step filling of `attrs` gives the attribute dict the mapping rules define |
| RootAttrs.CopyKeeps | chris_utils/cog_zarr/hdr_parser.py:125-130 | copying the source keys never changes an attribute whose name lacks the `chris_` prefix |
| RootAttrs.CopyGrows | chris_utils/cog_zarr/hdr_parser.py:125-130 | copying never removes an attribute |
| RootAttrs.GetAddIf | chris_utils/cog_zarr/hdr_parser.py:101-124 | a conditional field is added only when its condition holds and its name is new |
| RootAttrs.FixedGet | chris_utils/cog_zarr/hdr_parser.py:95-124 | each fixed attribute (`id`, `product_type`, `platform`, `datetime`, `instrument`, `center_lon`, `center_lat`) holds its rule's value |
| RootAttrs.RootFixedGet | chris_utils/cog_zarr/hdr_parser.py:95-130 | among names without the `chris_` prefix, the attributes are exactly `id` (the stem), `product_type` "CHRIS-RCI", `platform` "ESA PROBA", `datetime` by its rule, `instrument` only with a sensor type, and `center_lon`/`center_lat` only with both coordinates |
| RootAttrs.RootDatetime | chris_utils/cog_zarr/hdr_parser.py:102-110 | `datetime` is set only when both date and centre time are present, and then to their combined text |
| RootAttrs.CanonicalDatetime | chris_utils/cog_zarr/hdr_parser.py:105-110 | a parseable date and time give ISO `YYYY-MM-DDTHH:MM:SSZ` |
| RootAttrs.MalformedDatetime | chris_utils/cog_zarr/hdr_parser.py:109-110 | an unparseable date and time give `{date}T{centre}Z` |
| RootAttrs.CopyLands | chris_utils/cog_zarr/hdr_parser.py:126-130 | a copied key lands under `chris_` plus its cleaned name unless that name is already taken |
| RootAttrs.CopyPersists | chris_utils/cog_zarr/hdr_parser.py:126-130 | an existing `chris_` attribute survives unless a source key cleans to the same name |
| RootAttrs.RootCopiesField | chris_utils/cog_zarr/hdr_parser.py:125-130 | a source field is copied as `chris_` plus its cleaned key, with its value, when that cleaned key does not start with `chris_`, is not a fixed attribute's name, and is the cleaned key of no other field |
| RootAttrs.CopySkips | chris_utils/cog_zarr/hdr_parser.py:127-129 | a cleaned key that names an existing attribute is not copied |
| RootAttrs.RootSkipsFixedName | chris_utils/cog_zarr/hdr_parser.py:127-129 | a source key whose cleaned form is a fixed attribute's name is never copied |
| RootAttrs.StemOfName | chris_utils/cog_zarr/hdr_parser.py:96-100 | `id` is the basename without a trailing ".txt" and then without a trailing ".hdr" |
| RootAttrs.StemHdrTxt | chris_utils/cog_zarr/hdr_parser.py:97-99 | `dir/name.hdr.txt` gives `name` |
| RootAttrs.StemHdr | chris_utils/cog_zarr/hdr_parser.py:97-99 | `dir/name.hdr` gives `name` |
| RootAttrs.StemTxt | chris_utils/cog_zarr/hdr_parser.py:97-99 | `name.txt` gives `name` |
| RootAttrs.SubAtEndHit | chris_utils/cog_zarr/hdr_parser.py:98-99 | a matching suffix is removed |
| RootAttrs.SubAtEndMiss | chris_utils/cog_zarr/hdr_parser.py:98-99 | a name that does not end with the suffix is unchanged |
| RootAttrs.CleanKeyChars | chris_utils/cog_zarr/hdr_parser.py:127 | a cleaned key contains only digits, lower-case letters and `_` |
| RootAttrs.CleanKeyIdempotent | chris_utils/cog_zarr/hdr_parser.py:127 | cleaning a cleaned key changes nothing |
| DateTimes.MatchField | chris_utils/cog_zarr/hdr_parser.py:107 | a directive consumes between one character and the rest of the text |
| DateTimes.Strptime | chris_utils/cog_zarr/hdr_parser.py:107 | a parsed date-time is a valid calendar date and time |
| DateTimes.Pad2IsFormatPad | chris_utils/cog_zarr/hdr_parser.py:108 | the two-digit fields of the ISO text are zero-padded decimal |
| DateTimes.YearTextIsFormatInt | chris_utils/cog_zarr/hdr_parser.py:108 | the year of the ISO text is the decimal year |
| DateTimes.ScanDate | chris_utils/eo_sip/eo_sip_converter.py:123 | `%Y-%m-%d` reads back the date of its canonical text and leaves what follows |
| DateTimes.ScanTime | chris_utils/eo_sip/eo_sip_converter.py:123 | `%H:%M:%S` reads back the time of its canonical text and leaves what follows |
| DateTimes.ScanAppend | chris_utils/cog_zarr/hdr_parser.py:107 | parsing with two formats joined is parsing with the first and then the second |
| DateTimes.CanonicalDateTime | chris_utils/cog_zarr/hdr_parser.py:105-110 | `strptime` of a date and time's canonical text gives back that date-time |
| DateTimes.CanonicalDateAndTime | chris_utils/eo_sip/eo_sip_converter.py:117-125 | the date and time formats of `check_metadata` accept canonical dates and times |
| DateTimes.StrptimeScanned | chris_utils/cog_zarr/hdr_parser.py:107 | a full match of a valid date-time is accepted |
| DateTimes.TrailingTextRejected | chris_utils/cog_zarr/hdr_parser.py:107 | text after a complete date is rejected |
| DateTimes.SingleDigitFields | chris_utils/cog_zarr/hdr_parser.py:105-110 | single-digit fields such as `2020-1-2 3:4:5` are accepted, and they normalise to ISO text that differs from the raw combination |
| Geo.UtmEpsg | chris_utils/cog_zarr/geo.py:29-31 | the code's zone is the 6° longitude band holding the point, offset by 32600 north and 32700 south |
| Geo.UtmEpsgRange | chris_utils/cog_zarr/geo.py:29-31 | for longitudes in [−180, 180) the code lies in 32601..32660 north and 32701..32760 south |
| Geo.UtmEpsgExamples | tests/cog_zarr/test_geo.py:17-26 | (−110.54, 31.60) gives 32612 and (12, −34) gives 32733 |
| Geo.AffineFromCenter | chris_utils/cog_zarr/geo.py:34-39 | the transform maps the image centre to the given easting/northing, with pixel sizes xres and −yres and no rotation |
| Geo.Axis | chris_utils/cog_zarr/geo.py:42-48 | a coordinate axis has one entry per pixel |
| Geo.CoordsMonotone | chris_utils/cog_zarr/geo.py:42-48 | x coordinates strictly increase and y coordinates strictly decrease for positive resolutions |
| Geo.CentredColumns | chris_utils/cog_zarr/geo.py:34-48 | column i of a centred transform lies at east − xres·(w/2 − i), so for an even width column w/2 is the given easting |
| Geo.EpsgRoundTrip | chris_utils/cog_zarr/geo.py:141-152 | reading the EPSG code back from the grid-mapping attributes gives the code written |
| Geo.FormatIntNoColon | chris_utils/cog_zarr/geo.py:54 | a formatted code contains no `:`, so the split after "EPSG:" finds it whole |
| Geo.EpsgRejects | chris_utils/cog_zarr/geo.py:141-152 | a `spatial_ref` that is not a string starting with "EPSG:" in any case gives None |
| Geo.GsdOfMode | chris_utils/cog_zarr/geo.py:69-73 | GSD is 36 exactly when the mode is 1, and 18 otherwise |
| Geo.ExtractCenterLatLonGsd | chris_utils/cog_zarr/geo.py:59-74 | longitude and latitude are both present or both absent, and GSD is 36 iff "CHRIS Mode" parses as 1 |
| Geo.CentreFromHeader | chris_utils/cog_zarr/geo.py:62-68 | with both coordinates parseable, the centre is their float values, with "Lattitude" preferred over "Latitude" |
| Geo.CentreWithoutLongitude | chris_utils/cog_zarr/geo.py:62-68 | without a longitude both coordinates are None |
| Geo.Fill | chris_utils/cog_zarr/geo.py:180 | a filled layer has shape (H, W) and every cell equals the constant |
| Geo.AngleEntries | chris_utils/cog_zarr/geo.py:163-183 | one optional layer per angle name, in the order the source lists them |
| Geo.ConstantGeometryArrays | chris_utils/cog_zarr/geo.py:155-183 | the loop's output has only angle names as keys, and each angle holds a constant layer of its metadata value (found by normalised key) exactly when that value parses |
| Geo.AngleGet | chris_utils/cog_zarr/geo.py:163-183 | looking up an angle gives the layer for its metadata value |
| GeoFlip.YearFilter | chris_utils/cog_zarr/geo.py:93-94 | the year filter is the first four characters of the image date, and absent if the date is shorter |
| GeoFlip.Passing | chris_utils/cog_zarr/geo.py:101-105 | the passing rows are a subsequence of the rows |
| GeoFlip.PassingMembers | chris_utils/cog_zarr/geo.py:101-105 | a row is kept iff it is a row, is non-empty and its joined fields contain the year filter (when there is one) |
| GeoFlip.SelectGpsRows | chris_utils/cog_zarr/geo.py:97-110 | the loop returns the first and last passing rows |
| GeoFlip.NeedFlipTable | chris_utils/cog_zarr/geo.py:121-132 | a flip needs an image index in 1..5, and reversing the orbit direction flips exactly the indices that were not flipped |
| DataCube.Reverse | chris_utils/cog_zarr/geo.py:135 | reversal puts element i at position n−1−i; it serves both the byte-order swap and the 180° turn |
| GeoFlip.Turn | chris_utils/cog_zarr/geo.py:135 | a band turned by 180° has its rows in reverse order, each row reversed |
| GeoFlip.Rot180 | chris_utils/cog_zarr/geo.py:133-135 | the flip turns every band and keeps the band order |
| GeoFlip.Rot180Cells | chris_utils/cog_zarr/geo.py:133-135 | the flip keeps the shape and moves cell (b, y, x) to (b, H−1−y, W−1−x) |
| GeoFlip.Rot180Twice | chris_utils/cog_zarr/geo.py:133-135 | flipping twice gives the original cube |
| GeoFlip.FlipUsingGps | chris_utils/cog_zarr/geo.py:77-138 | the result is the rotated cube when the decision says flip, and the input unchanged otherwise |
| GeoFlip.FewRowsNoFlip | chris_utils/cog_zarr/geo.py:111-112 | fewer than two passing rows never cause a flip |
| GeoFlip.ImageIndexWord | chris_utils/cog_zarr/geo.py:123-128 | the image index is the number in the header, or 1 when it does not parse |
| GeoFlip.ImageIndexMissing | chris_utils/cog_zarr/geo.py:123-128 | a missing image number defaults to 1 |
| PyConvert.PyToInt | chris_utils/cog_zarr/eopf_utils.py:29 | `int()` keeps an int, truncates a float toward zero (the integer of its sign less than 1 closer to zero), parses a str as a decimal integer, and fails on anything else |
| PyConvert.PyToFloat | chris_utils/cog_zarr/geo.py:65 | `float()` widens an int, keeps a float, parses a string, and fails on anything else |
| PyConvert.TextMetaGet | chris_utils/cog_zarr/eopf_utils.py:103 | text metadata keeps exactly the string values of the metadata |
| PyConvert.StrValuesGet | chris_utils/cog_zarr/eopf_utils.py:103-104 | string attributes keep their keys and wrap every value as a Python string |
| PyConvert.NormKeyNormal | chris_utils/cog_zarr/eopf_utils.py:17-19 | a normalised key is trimmed, lower-case and single-spaced |
| PyConvert.NormKeyIdempotent | chris_utils/cog_zarr/eopf_utils.py:17-19 | normalising twice is normalising once |
| PyConvert.NormKeysGet | chris_utils/cog_zarr/eopf_utils.py:17-19 | a normalised key maps to the value of the last original key that normalises to it, and every key of the result is normal |
| PyConvert.UpdateGet | chris_utils/cog_zarr/eopf_utils.py:108-109 | after `dict.update`, the new dict's value wins and other keys keep their old values |
| Eopf.GsdFromMode | chris_utils/cog_zarr/eopf_utils.py:22-32 | the GSD is 36 or 18 |
| Eopf.GsdFromModeSpec | chris_utils/cog_zarr/eopf_utils.py:22-32 | the GSD is 36 exactly when the normalised "chris mode" value int-parses to 1 |
| Eopf.ModeOneText | tests/cog_zarr/test_eopf_utils.py:263-276 | "1", "01" and " 1 " (any zero padding, any surrounding whitespace) parse to 1 |
| Eopf.ModeOtherText | chris_utils/cog_zarr/eopf_utils.py:29-32 | every formatted integer parses back to itself, so "2" gives 18 |
| Eopf.FirstTruthy | chris_utils/cog_zarr/eopf_utils.py:37-41 | an `or` chain returns its first truthy value, or its last value when none is truthy |
| Eopf.RadianceUnits | chris_utils/cog_zarr/eopf_utils.py:35-41 | the units are the first truthy among root `chris_calibration_data_units`, ENVI `calibration data units` and ENVI `chris_calibration_data_units` |
| Eopf.FirstTruthyThree | chris_utils/cog_zarr/eopf_utils.py:37-41 | the three-way chain picks the first truthy value, else the third |
| Eopf.BandNameRoundTrip | chris_utils/cog_zarr/eopf_utils.py:84 | the band number reads back from its `oaNN_radiance` name |
| Eopf.BandNameInjective | chris_utils/cog_zarr/eopf_utils.py:84 | distinct bands get distinct names |
| Eopf.BandNameExamples | chris_utils/cog_zarr/eopf_utils.py:84 | band 1 is `oa01_radiance` and band 18 is `oa18_radiance` |
| Eopf.SplitExtRoot | chris_utils/cog_zarr/eopf_utils.py:67 | the root is a prefix of the name, and is the whole name unless what follows is the last extension |
| Eopf.SplitExtName | chris_utils/cog_zarr/eopf_utils.py:67 | `name.ext` gives `name` |
| Eopf.ProductName | chris_utils/cog_zarr/eopf_utils.py:63-67 | a truthy `product_name` wins; otherwise the name is the header file's basename minus its extension |
| Eopf.ZarrProductNameOf | chris_utils/cog_zarr/eopf_utils.py:121 | `write_eopf_zarr` names the product after the output's basename minus its extension |
| Eopf.BandAttrsGet | chris_utils/cog_zarr/eopf_utils.py:88-95 | each band has `measurement="radiance"`, gets `units` only when the units are truthy, and gets `wavelength_nm` only when it has a wavelength |
| Eopf.Entries | chris_utils/cog_zarr/eopf_utils.py:82-96 | the band nodes are added in band order under their paths |
| Eopf.BandNodes | chris_utils/cog_zarr/eopf_utils.py:82-96 | one node per band, in band order |
| Eopf.TreeUpTo | chris_utils/cog_zarr/eopf_utils.py:70-96 | after n bands the product tree has the four skeleton entries plus n band entries |
| Eopf.BandPaths | chris_utils/cog_zarr/eopf_utils.py:83-96 | band paths are distinct and never collide with the skeleton groups |
| Eopf.TreeWf | chris_utils/cog_zarr/eopf_utils.py:70-96 | the product tree has no duplicate paths |
| Eopf.TreeBand | chris_utils/cog_zarr/eopf_utils.py:83-96 | band k's node is stored under its `oaNN_radiance` path |
| Eopf.TreeKeys | chris_utils/cog_zarr/eopf_utils.py:70-96 | the tree's paths are exactly the skeleton's plus one per band |
| Eopf.ProductAttrsGet | chris_utils/cog_zarr/eopf_utils.py:98-114 | the product attributes take the ENVI header, overridden by the root attributes, then `measurement="radiance"` forced last; `measurement:units` appears only with units, and `stac_discovery` only when neither header sets it |
| Eopf.BuildEopfProduct | chris_utils/cog_zarr/eopf_utils.py:44-116 | the product is named as the naming rule says and holds the tree and merged attributes defined above |
| Eopf.BuildTree | chris_utils/cog_zarr/eopf_utils.py:70-96 | the per-band loop names band i by its position and selects its data by its label, building the product tree defined above |
| Eopf.SelLabelSound | chris_utils/cog_zarr/eopf_utils.py:85 | `sel(band=l)` selects only entries at positions labelled l |
| Eopf.SelLabelOnce | chris_utils/cog_zarr/eopf_utils.py:85 | a label carried by one position selects exactly that entry |
| Eopf.SelLabelAbsent | chris_utils/cog_zarr/eopf_utils.py:85 | a label no position carries selects nothing |
| Eopf.SelLabelRepeated | chris_utils/cog_zarr/eopf_utils.py:85 | a label carried by two positions selects at least two entries |
| Eopf.SelLabelHas | chris_utils/cog_zarr/eopf_utils.py:85 | a label some position carries selects at least one entry |
| Eopf.BandNodeDistinct | chris_utils/cog_zarr/eopf_utils.py:83-96 | with distinct labels, band i's node holds band i alone and the wavelength at position i |
| Eopf.BandNodeRepeated | chris_utils/cog_zarr/eopf_utils.py:83-96 | with a label two bands share, each of their nodes holds at least two bands and no `wavelength_nm`, as `float()` of the two-element selection raises inside the `try` |
| Eopf.BandAttributes | chris_utils/cog_zarr/eopf_utils.py:86-95 | the in-place attribute updates of one band give its attribute rule, with the wavelength selected by the band's label |
| Eopf.SkeletonPuts | chris_utils/cog_zarr/eopf_utils.py:70-76 | the skeleton is built by adding the measurements group, the base group and the y and x coordinates in that order |
| Eopf.BandAttrsPuts | chris_utils/cog_zarr/eopf_utils.py:88-95 | the band attributes are built by the source's sequence of updates |
| EoSip.ModeTableGet | chris_utils/eo_sip/eo_sip_converter.py:22-29 | the table maps "1".."5" to CHR_MO{n}_1P and "hrc" to HRC_HRC_1P |
| EoSip.ProductTypeDomain | chris_utils/eo_sip/eo_sip_converter.py:566-568 | a product type exists iff the lower-cased mode is one of "1".."5" or "hrc" |
| EoSip.ProductTypeNumbered | chris_utils/eo_sip/eo_sip_converter.py:22-27 | mode n in 1..5 gives CHR_MO{n}_1P |
| EoSip.ProductTypeHrc | chris_utils/eo_sip/eo_sip_converter.py:566-568 | mode "hrc" in any case gives HRC_HRC_1P |
| EoSip.ProductTypeInverse | chris_utils/eo_sip/eo_sip_converter.py:22-29 | the mode reads back (lower-cased) from its product type |
| EoSip.Range | chris_utils/eo_sip/eo_sip_converter.py:31-35 | every colour range is non-empty |
| EoSip.PickUnique | chris_utils/eo_sip/eo_sip_converter.py:353-357 | at most one index satisfies the pick rule |
| EoSip.ValidBands | chris_utils/eo_sip/eo_sip_converter.py:343-346 | the in-range bands are at most as many as the wavelengths |
| EoSip.ValidBandsMembers | chris_utils/eo_sip/eo_sip_converter.py:343-346 | a pair is kept iff it is an index with its own wavelength inside the colour's inclusive range |
| EoSip.ValidBandsSorted | chris_utils/eo_sip/eo_sip_converter.py:343-346 | kept bands are in increasing index order |
| EoSip.Nearest | chris_utils/eo_sip/eo_sip_converter.py:353-355 | the loop returns a band closest to the range midpoint, and the first such band on ties |
| EoSip.GetBandIndex | chris_utils/eo_sip/eo_sip_converter.py:341-357 | it raises iff no wavelength is in range; otherwise the index is in range, closest to the midpoint, and the first on ties |
| EoSip.PickFromNearest | chris_utils/eo_sip/eo_sip_converter.py:353-357 | the nearest kept band's index satisfies the pick rule |
| EoSip.GetBandIndexes | chris_utils/eo_sip/eo_sip_converter.py:334-338 | the result is the red, green and blue picks in that order, or the error of the first colour with no band in range |
| EoSip.RangesMeet | chris_utils/eo_sip/eo_sip_converter.py:31-35 | green and blue overlap only at 495 nm, and red overlaps neither |
| EoSip.Values | chris_utils/eo_sip/eo_sip_converter.py:455 | the file-name fields are looked up in order, and the lookup fails iff one is missing |
| EoSip.SplitJoinPieces | chris_utils/eo_sip/eo_sip_converter.py:455 | splitting a `_`-joined list gives back the pieces of each field |
| EoSip.FileNamePieces | chris_utils/eo_sip/eo_sip_converter.py:452-455 | splitting the file name at `_` gives the pieces of the six fields, in order |
| EoSip.FileNameFields | chris_utils/eo_sip/eo_sip_converter.py:452-455 | the file name joins `sat_id`, `file_class`, `product_type`, `formatted_timestamp`, `formatted_latitude` and `formatted_longitude` with `_` |
| EoSipCheck.GroupKeys | chris_utils/eo_sip/eo_sip_converter.py:55-70 | every check group has at least one key |
| EoSipCheck.Bounds | chris_utils/eo_sip/eo_sip_converter.py:66 | each numeric key's bounds form a non-empty interval |
| EoSipCheck.ScanGroup | chris_utils/eo_sip/eo_sip_converter.py:75-125 | the loop over one group collects the missing and invalid keys that the group's scan rule defines |
| EoSipCheck.Position | chris_utils/eo_sip/eo_sip_converter.py:72-125 | each group has its place among the four groups checked |
| EoSipCheck.Scans | chris_utils/eo_sip/eo_sip_converter.py:72-125 | the four groups are scanned in the source's order |
| EoSipCheck.CheckMetadata | chris_utils/eo_sip/eo_sip_converter.py:54-130 | the check returns the outcome the group scans and the decision rule define |
| EoSipCheck.ScanClean | chris_utils/eo_sip/eo_sip_converter.py:75-125 | a group whose every key is present and valid reports nothing |
| EoSipCheck.ScanSound | chris_utils/eo_sip/eo_sip_converter.py:75-125 | at most one key is reported missing; every key reported missing or invalid belongs to the group and really is missing or fails its check |
| EoSipCheck.ScanStopsAtMissing | chris_utils/eo_sip/eo_sip_converter.py:75-78 | scanning stops at the first missing key, which is the only one reported missing, and only earlier keys can be invalid |
| EoSipCheck.CheckPassed | chris_utils/eo_sip/eo_sip_converter.py:127-130 | the check passes iff every group passes |
| EoSipCheck.DecidePassed | chris_utils/eo_sip/eo_sip_converter.py:127-130 | the decision is a pass iff no scan reports anything |
| EoSipCheck.PassedValues | chris_utils/eo_sip/eo_sip_converter.py:54-130 | after a pass, latitude and longitude are strings within [−90, 90] and [−180, 180], every wavelength is a float, the date and time parse, and the pattern keys match |
| EoSipCheck.ScanFindsMissing | chris_utils/eo_sip/eo_sip_converter.py:75-120 | a missing key in a non-numeric group is reported, or the scan raises |
| EoSipCheck.MissingReported | chris_utils/eo_sip/eo_sip_converter.py:127-130 | a missing checked key makes the check fail with "Missing…" or raise |
| EoSipCheck.WavelengthNumber | chris_utils/eo_sip/eo_sip_converter.py:86-97 | a truthy scalar number as `wavelength` makes the check raise, since it is not iterable |
| EoSipCoords.PadRight | chris_utils/eo_sip/eo_sip_converter.py:446 | right padding keeps the text and fills up to the width |
| EoSipCoords.CoordSplit | chris_utils/eo_sip/eo_sip_converter.py:415 | the raw text splits at its `.` into the degree text and the fraction text |
| EoSipCoords.ThousandthsDigits | chris_utils/eo_sip/eo_sip_converter.py:416 | the fraction field is the first three fraction digits, right-padded with zeros |
| EoSipCoords.LatitudeDigits | chris_utils/eo_sip/eo_sip_converter.py:407-426 | for a decimal text (negative only with non-zero degrees), the latitude field is N or S by sign, the absolute degrees as 2 digits, `-`, and 3 fraction digits |
| EoSipCoords.LongitudeDigits | chris_utils/eo_sip/eo_sip_converter.py:429-449 | for a decimal text (negative only with non-zero degrees), the longitude field is E or W by sign, the degree text without its `-` right-padded with zeros to 3, `-`, and 3 fraction digits |
| EoSipCoords.LatitudeNorthExample | tests/eo_sip/test_eo_sip_converter.py:110-121 | "012.34" gives "N12-340" |
| EoSipCoords.LatitudeSouthTenthsExample | tests/eo_sip/test_eo_sip_converter.py:110-121 | "-012.34" gives "S12-340" |
| EoSipCoords.LatitudeSouthExample | tests/eo_sip/test_eo_sip_converter.py:110-121 | "-012.034" gives "S12-034" |
| EoSipCoords.LongitudeExamples | tests/eo_sip/test_eo_sip_converter.py:124-136 | "123.456" gives "E123-456" and "-012.34" gives "W012-340" |
| EoSipCoords.LongitudeShortDegrees | chris_utils/eo_sip/eo_sip_converter.py:446 | a degree text of fewer than 3 digits is padded on the right, so the field reads d·10^(3−len) instead of d |
| EoSipCoords.LongitudeShortExample | chris_utils/eo_sip/eo_sip_converter.py:446 | "12.5" gives "E120-500" as written |
| EoSipCoords.NegativeZeroDegrees | chris_utils/eo_sip/eo_sip_converter.py:418-422 | a negative value with zero degrees is read as non-negative, since −0.0 is not below 0 |
| EoSipCoords.NegativeZeroExample | chris_utils/eo_sip/eo_sip_converter.py:418-422 | "-0.5" gives "N00-500" and "E-00-500" as written |
| EoSipCoords.LatitudeFixedDigits | chris_utils/eo_sip/eo_sip_converter.py:407-426 | the corrected latitude takes the hemisphere from the sign of the text, also for zero degrees |
| EoSipCoords.LongitudeFixedDigits | chris_utils/eo_sip/eo_sip_converter.py:429-449 | the corrected longitude takes the hemisphere from the sign of the text and left-pads the degree value with zeros to 3 digits, which read back as the degrees |
| EoSipCoords.LatitudeFixedAgrees | chris_utils/eo_sip/eo_sip_converter.py:407-426 | the corrected latitude agrees with the original whenever the degrees are non-zero |
| EoSipCoords.FixedShortExample | chris_utils/eo_sip/eo_sip_converter.py:446 | the corrected longitude gives "E012-500" for "12.5" |
| EoSipCoords.FixedZeroExample | chris_utils/eo_sip/eo_sip_converter.py:441-445 | the corrected formatters give "S00-500" and "W000-500" for "-0.5" |
| Safe.Utf8Char | chris_utils/safe/safe_maker.py:26 | a character encodes to 1 to 4 bytes, and to one byte iff it is ASCII |
| Safe.Utf8Ascii | chris_utils/safe/safe_maker.py:26 | an ASCII string encodes to its own character codes |
| Safe.CrcAppend | chris_utils/safe/safe_maker.py:26 | the CRC of a concatenation continues from the CRC of its first part |
| Safe.CrcResidue | chris_utils/safe/safe_maker.py:24-28 | appending the CRC's own two bytes, high byte first, brings the CRC to 0 (no reflection, no final XOR) |
| Safe.CrcHqx | chris_utils/safe/safe_maker.py:26 | the bitwise loop computes CRC-16 with polynomial 0x1021 over the bytes |
| Safe.HexDigit | chris_utils/safe/safe_maker.py:28 | each nibble prints as an upper-case hex digit |
| Safe.HexDigitValue | chris_utils/safe/safe_maker.py:28 | each hex digit reads back as its nibble |
| Safe.Hex4 | chris_utils/safe/safe_maker.py:28 | the checksum text is exactly 4 upper-case hex digits |
| Safe.Hex4RoundTrip | chris_utils/safe/safe_maker.py:28 | the 4 hex digits read back as the 16-bit CRC, so zero padding loses nothing |
| Safe.CalculateCrcChecksum | chris_utils/safe/safe_maker.py:24-28 | the checksum is CRC-16/CCITT-FALSE (init 0xFFFF) of the UTF-8 bytes, as 4 hex digits |
| Safe.CrcAbc123 | tests/safe/test_safe_maker.py:20-30 | the bytes 41 42 43 31 32 33 give "1659" |
| Safe.ChecksumAbc123 | tests/safe/test_safe_maker.py:20-30 | the UTF-8 encoding of the text "ABC123" gives "1659" |
| Safe.CrcTestString | tests/safe/test_safe_maker.py:20-30 | the bytes of "test string" (74 65 73 74 20 73 74 72 69 6E 67) give "61CA" |
| Safe.ChecksumTestString | tests/safe/test_safe_maker.py:20-30 | the UTF-8 encoding of the text "test string" gives "61CA" |
| Safe.ListedIn | chris_utils/safe/safe_maker.py:98 | the validity check finds a type iff it is in the list |
| Safe.PackageTagCases | chris_utils/safe/safe_maker.py:96-100 | None or an empty type gives an empty tag, one of the six valid types gives `_` plus the type, and any other type is the unknown-package-type error |
| Safe.SafeDirectoryShape | chris_utils/safe/safe_maker.py:107-112 | the output directory starts with `{output}/` and ends with `{tag}_{crc}.SAFE` |
| Safe.AbsoluteRootSegment | chris_utils/safe/safe_maker.py:107-108 | for an absolute input, the root is a trailing part of the input containing no `/`, that is its last segment |
| Safe.DirectoryChecksum | chris_utils/safe/safe_maker.py:105-112 | the checksum reads back from the four characters before `.SAFE` in the directory name |
| Safe.MakeSafe | chris_utils/safe/safe_maker.py:68-112 | an invalid package type fails before anything is built; otherwise one directory per comma-separated input, each named by the directory rule with the manifest's checksum |
| Safe.PackageLoop | chris_utils/safe/safe_maker.py:87-112 | the loop over the inputs yields the directories the naming rule gives, in input order |
| Safe.Directories | chris_utils/safe/safe_maker.py:87-112 | one directory per input |
| Safe.DirectoriesAt | chris_utils/safe/safe_maker.py:87-112 | directory j is named after input j |
| Safe.PackageDirectory | chris_utils/safe/safe_maker.py:96-112 | one input's directory is named by the tag and the checksum, or the package-type error is returned |
| Manifest.FileInfo | chris_utils/safe/manifest_xml_generator.py:13-16 | the table describes exactly the "xsd" and "measurement" extensions |
| Manifest.TitleFrom | chris_utils/safe/manifest_xml_generator.py:122 | `title` keeps the length of the text |
| Manifest.Title | chris_utils/safe/manifest_xml_generator.py:122 | `title` keeps the length of the text |
| Manifest.TitleChars | chris_utils/safe/manifest_xml_generator.py:122 | `title` upper-cases a letter at the start or after a non-letter and lower-cases every other letter; other characters are unchanged |
| Manifest.TitleFromLower | chris_utils/safe/manifest_xml_generator.py:122 | `title` changes only the case of letters |
| Manifest.TitleIdempotent | chris_utils/safe/manifest_xml_generator.py:122 | applying `title` twice is applying it once |
| Manifest.RSplit2 | chris_utils/safe/manifest_xml_generator.py:112 | `rsplit("/", 2)` gives at least two pieces iff the path contains `/` |
| Manifest.RSplit2Join | chris_utils/safe/manifest_xml_generator.py:112 | there are one to three pieces, the pieces after the first contain no `/`, and joining them with `/` gives the path back |
| Manifest.RSplit2Pieces | chris_utils/safe/manifest_xml_generator.py:112-115 | the last piece is the file name and the one before it is the parent directory |
| Manifest.RSplit2Tail | chris_utils/safe/manifest_xml_generator.py:112-115 | the path ends with the parent directory, `/` and the file name; neither contains `/` |
| Manifest.ExtensionEnds | chris_utils/safe/manifest_xml_generator.py:116 | the extension contains no `.` and ends the file name |
| Manifest.HrefEnds | chris_utils/safe/manifest_xml_generator.py:131 | `href` is the path's last two segments |
| Manifest.DescribeCases | chris_utils/safe/manifest_xml_generator.py:118-125 | "xsd" gives the schema text, rep and ID; "measurement" gives its table entry; anything else gives "Measurement Data" |
| Manifest.DescribeOther | chris_utils/safe/manifest_xml_generator.py:120-122 | any other extension gets an ID of "measurementData" followed by the extension with only its letter case changed |
| Manifest.DataObjectFields | chris_utils/safe/manifest_xml_generator.py:127-144 | each data object has MIME type "application/octet-stream", locator type "URL", the digest under "MD5", href `{parent}/{file name}` (a suffix of the path), and text, ID and rep ID from its extension |
| Manifest.MapPairs | chris_utils/safe/manifest_xml_generator.py:110-144 | one result per input pair |
| Manifest.DataObjectsInOrder | chris_utils/safe/manifest_xml_generator.py:110-144 | exactly one data object per path, in path order |
| Manifest.RepIdOfLast | chris_utils/safe/manifest_xml_generator.py:105-121 | the rep ID used later is the last object's, or "CHRISBaseSchema" when there are none |
| Manifest.NewDataObject | chris_utils/safe/manifest_xml_generator.py:111-144 | the loop body builds the data object the derivation rule gives |
| Manifest.NewXfdu | chris_utils/safe/manifest_xml_generator.py:101-189 | the XFDU holds one data object per path (none for None), and the content unit and metadata object use the last rep ID |
| Manifest.DataObjectLoop | chris_utils/safe/manifest_xml_generator.py:110-144 | the loop builds the data-object list in order and ends with the last rep ID |
| PyValues.Put | chris_utils/cog_zarr/header.py:28 | assigning a key replaces its value in place or appends it, keeping the other entries |
| PyValues.GetUpdate | chris_utils/cog_zarr/eopf_utils.py:108-109 | after an update, a key has the new value when the update holds it, and the old one otherwise |
| PyValues.CollectLastWins | chris_utils/cog_zarr/header.py:24-28 | after a series of assignments, a key holds its last assigned value |
| PyValues.CollectKeys | chris_utils/cog_zarr/header.py:24-28 | after a series of assignments, the keys are exactly those assigned |
| Text.SplitJoin | chris_utils/eo_sip/eo_sip_converter.py:455 | splitting a join of pieces that contain no separator gives the pieces back |
| Text.JoinSplit | chris_utils/cog_zarr/header.py:19 | joining the pieces of a split with the same separator gives the text back |
| Text.StripTrimmed | chris_utils/cog_zarr/header.py:11 | `strip` leaves text without surrounding whitespace unchanged |
| Numbers.ParseFormatInt | chris_utils/cog_zarr/reader.py:45-47 | `int()` of a formatted integer gives the integer back |

## Left out

- `RCIReader.to_zarr` and `to_cog` (chris_utils/cog_zarr/reader.py:143-203): container writers through zarr and GDAL.
- `write_eopf_zarr`/`write_eopf_cog` store writes (chris_utils/cog_zarr/eopf_utils.py:119-149): only the product naming is modelled. EOProduct/EOGroup become a map from path to node record.
- What `EOVariable` does with a selection of more than one band under the dimensions ("y", "x"), which happens when `out_bands` repeats a label: that belongs to the eopf library. The band node records the selected bands as they are.
- IEEE floating point: element values and all arithmetic are real numbers. The decoding of float32/float64 bytes is the parameter `FloatDecoder`. Rounding to float32 after scaling is not modelled.
- Python `float()` of "inf", "nan" and digit strings with underscores is not modelled. `float()` accepts decimal literals with an optional exponent.
- Numbers.ParseInt: Python's `int()` also accepts underscores between digits ("1_000") and non-ASCII Unicode decimal digits; the model accepts ASCII digits only.
- Unicode text semantics: strings are sequences of characters with no Unicode tables. `Text.Lower`, `Text.Upper` and `Manifest.Title` know only ASCII letters (the whitespace test `Text.IsSpace` has Python's full set), where Python's `str.lower/upper/title/split/strip` are Unicode-aware. For example, `"attributeſ".upper() == "ATTRIBUTES"` in Python, so the source treats such a line as a section title and `HdrParser` does not. This affects the ENVI key lowering (`EnviHeader`), the CHRIS section titles (`HdrParser`), `PyConvert.NormKey`, `EoSip.ProductType`, `Manifest.Title` and `Geo.EpsgFromAttrs`, which tests `Upper(s)` for the prefix `EPSG:` where Python's `"epſg:32612".upper()` is `"EPSG:32612"`.
- Reader.Cast: the `out_dtype` target is one of the nine ENVI element types of `DataCube.DType`; numpy accepts any dtype (int8 with `iinfo.max` 127, uint64, float16, bool and others), which the model cannot express.
- Reader.Decode: a negative `samples`, `lines` or `bands` is the error `BadShape`. numpy reads the whole file for a negative `count` and infers a single -1 dimension in `reshape`; the size check lets such a header through only when the offset lies past the end of the file.
- DateTimes.IsoFormat: `%Y` is written as the year without padding, as glibc's `strftime` does on older CPython releases; newer releases zero-pad years below 1000 to four digits on Linux ("0999"). The two agree for the four-digit years that `DateTimes.CanonicalDateTime` is stated for.
- DateTimes.Strptime: `%Y`, `%m`, `%d`, `%H`, `%M` and `%S` accept ASCII digits only, where CPython's `strptime` accepts any Unicode decimal digit.
- The pyproj ECEF→geodetic conversion and GDAL `conv_coords` (chris_utils/cog_zarr/geo.py:13-16, 114-120): the conversion is the parameter `geodeticLat`.
- The GPS and centre-times files of `geo_flip_using_gps`: their rows are parameters, and the "any exception" fallback is modelled only for the cases the model can name (missing files, missing metadata, too few rows).
- `gpstime2datetime`, `calculate_angles`, the trig helpers and quantile normalisation of `eo_sip_converter.py`: floating-point numerics.
- The regular-expression test in `check_metadata`: the parameter `matches(pattern, text)`.
- `process_cog`, `process_zarr`, `process_safe`, `get_file_size`, `get_image`, `convert_eo_sip`, `make_rgb_thumbnail`: file, image and ZIP plumbing.
- `make_safe`'s filesystem work (directory creation, copying, zipping, writing the index and manifest): the manifest text is a parameter, and the result is the list of output directory names.
- `calculate_md5_checksum`: MD5 digests are a parameter of the manifest's data objects.
- Logging and printed warnings.
- `Manifest.NewXfdu`: requires every path to contain `/`, because `split_path[-2]` raises on a bare file name.
- The pydantic-xml model classes (metadata, information, SAFE metadata and measurement XML generators): declarative serialisation.
- `chris_utils/cog_zarr/transformer.py`, `chris_utils/geometry/chris_georef.py` and `chris_utils/utils.py`: plumbing and a CLI script.

## Findings

| source | as written | input that shows it | evidently intended | confidence | as-written member | corrected member |
|---|---|---|---|---|---|---|
| chris_utils/eo_sip/eo_sip_converter.py:446 | the longitude's degree text is a string formatted with `:03`, which pads a string on the right | "12.5" gives "E120-500" | "E012-500", left-padded degrees like the test cases | not executed; medium | EoSipCoords.LongitudeShortExample | EoSipCoords.FixedShortExample |
| chris_utils/eo_sip/eo_sip_converter.py:418-422 | the hemisphere is chosen by `float(deg) < 0`, and −0.0 is not below 0 | "-0.5" gives latitude "N00-500" and longitude "E-00-500" | "S00-500" and "W000-500" | not executed; high | EoSipCoords.NegativeZeroExample | EoSipCoords.FixedZeroExample |
| chris_utils/cog_zarr/reader.py:84-85 | the header offset is subtracted in the size check (line 52) but `fromfile` reads from the start of the file | header offset 1, one uint8 cell, file bytes [7, 42]: the cell reads 7 | the cell reads 42, the byte after the offset | not executed; medium | ReaderProps.OffsetNotSkipped | ReaderProps.OpenedPayloadDecodes |

The model's reader (`Reader.RciReader.Read`, specified by `Reader.ReadSpec`) decodes as
written, from the first byte of the file. `Reader.DecodePayload` is the corrected decoding,
and `ReaderProps.OpenedPayloadDecodes` proves it always succeeds for an opened reader. The
coordinate formatters are modelled both as written (`FormatLatitude`, `FormatLongitude`) and
corrected (`FormatLatitudeFixed`, `FormatLongitudeFixed`).
