/** The SAFE packaging rules of `safe_maker.py`: the CRC-16 checksum that names a package, its
    four hexadecimal digits, the package-type tag and the output directory name. */
module Safe {
  import opened Wrappers
  import opened Text

  // ---------------------------------------------------------------------------------------
  // UTF-8

  /** The UTF-8 encoding of one character (a Unicode scalar value): itself below 0x80, two
      to four bytes above. */
  function Utf8Char(c: char): (r: seq<bv8>)
    ensures 1 <= |r| <= 4
    ensures (c as int < 0x80) <==> |r| == 1
  {
    if c as int < 0x80 then [c as int as bv8] else Utf8Multi(c as int)
  }

  /** The lead byte and continuation bytes of a code point from 0x80 on. */
  function Utf8Multi(n: int): (r: seq<bv8>)
    requires 0x80 <= n < 0x11_0000
    ensures 2 <= |r| <= 4
  {
    if n < 0x800 then [(0xC0 + n / 0x40) as bv8, (0x80 + n % 0x40) as bv8]
    else if n < 0x1_0000 then
      [(0xE0 + n / 0x1000) as bv8, (0x80 + n / 0x40 % 0x40) as bv8, (0x80 + n % 0x40) as bv8]
    else
      [(0xF0 + n / 0x4_0000) as bv8, (0x80 + n / 0x1000 % 0x40) as bv8,
       (0x80 + n / 0x40 % 0x40) as bv8, (0x80 + n % 0x40) as bv8]
  }

  /** `s.encode("utf-8")` */
  function Utf8(s: string): (r: seq<bv8>)
    ensures |r| >= |s|
  {
    Utf8From(s, 0)
  }

  /** The encoding of the characters from position `i` on. */
  function Utf8From(s: string, i: nat): (r: seq<bv8>)
    requires i <= |s|
    ensures |r| >= |s| - i
    decreases |s| - i
  {
    if i == |s| then [] else Utf8Char(s[i]) + Utf8From(s, i + 1)
  }

  /** ASCII text from position `i` on encodes as itself, one byte per character. */
  lemma {:induction false} Utf8FromAscii(s: string, i: nat)
    requires i <= |s| && forall k :: i <= k < |s| ==> s[k] as int < 0x80
    ensures |Utf8From(s, i)| == |s| - i
    ensures forall k :: i <= k < |s| ==> Utf8From(s, i)[k - i] == s[k] as int as bv8
    decreases |s| - i
  {
    if i < |s| {
      Utf8FromAscii(s, i + 1);
      var u, v := Utf8From(s, i), Utf8From(s, i + 1);
      assert u == [s[i] as int as bv8] + v;
      assert forall j :: 1 <= j < |u| ==> u[j] == v[j - 1];
    }
  }

  /** ASCII text encodes as itself, one byte per character. */
  lemma Utf8Ascii(s: string)
    requires forall i :: 0 <= i < |s| ==> s[i] as int < 0x80
    ensures |Utf8(s)| == |s|
    ensures forall i :: 0 <= i < |s| ==> Utf8(s)[i] == s[i] as int as bv8
  {
    Utf8FromAscii(s, 0);
  }

  // ---------------------------------------------------------------------------------------
  // CRC-16

  const Poly: bv16 := 0x1021
  const Init: bv16 := 0xFFFF

  /** One shift of the register: the top bit leaves, and when it was set the polynomial is
      added in. */
  function Shift(crc: bv16): bv16 {
    if crc & 0x8000 != 0 then (crc << 1) ^ Poly else crc << 1
  }

  /** `n` shifts of the register. */
  function Shifts(crc: bv16, n: nat): bv16
    decreases n
  {
    if n == 0 then crc else Shifts(Shift(crc), n - 1)
  }

  /** One byte fed into the register, most significant bit first. */
  function CrcByte(crc: bv16, b: bv8): bv16 {
    Shifts(crc ^ ((b as bv16) << 8), 8)
  }

  /** `binascii.crc_hqx(data, crc)`: CRC-16 with polynomial 0x1021, no reflection and no final
      XOR, over the bytes in order. */
  function Crc(crc: bv16, data: seq<bv8>): bv16
    decreases |data|
  {
    if data == [] then crc else Crc(CrcByte(crc, data[0]), data[1..])
  }

  /** Feeding two pieces one after the other is feeding their concatenation, so the checksum
      can be computed incrementally. */
  lemma {:induction false} CrcAppend(crc: bv16, a: seq<bv8>, b: seq<bv8>)
    ensures Crc(crc, a + b) == Crc(Crc(crc, a), b)
    decreases |a|
  {
    if a == [] {
      assert a + b == b;
    } else {
      assert (a + b)[0] == a[0] && (a + b)[1..] == a[1..] + b;
      CrcAppend(CrcByte(crc, a[0]), a[1..], b);
    }
  }

  /** A register whose top byte is clear shifts out eight times without meeting the
      polynomial. */
  lemma LowByteShifts(x: bv16)
    requires x < 0x100
    ensures Shifts(x, 8) == x << 8
  {
    var x1 := Shift(x);
    assert x1 == x << 1;
    var x2 := Shift(x1);
    assert x2 == x << 2;
    var x3 := Shift(x2);
    assert x3 == x << 3;
    var x4 := Shift(x3);
    assert x4 == x << 4;
    var x5 := Shift(x4);
    assert x5 == x << 5;
    var x6 := Shift(x5);
    assert x6 == x << 6;
    var x7 := Shift(x6);
    assert x7 == x << 7;
    assert Shifts(x, 8) == Shift(x7);
  }

  /** An empty register stays empty. */
  lemma {:induction false} ZeroShifts(n: nat)
    ensures Shifts(0, n) == 0
  {
    if n > 0 {
      ZeroShifts(n - 1);
    }
  }

  lemma CrcTwo(r: bv16, a: bv8, b: bv8)
    ensures Crc(r, [a, b]) == CrcByte(CrcByte(r, a), b)
  {
    assert [a, b][1..] == [b] && [b][1..] == [];
    assert Crc(r, [a, b]) == Crc(CrcByte(r, a), [b]) == Crc(CrcByte(CrcByte(r, a), b), []);
  }

  /** Feeding the register's high byte leaves its low byte, shifted up. */
  lemma HighByte(r: bv16)
    ensures CrcByte(r, (r >> 8) as bv8) == (r & 0xFF) << 8
  {
    assert r ^ ((((r >> 8) as bv8) as bv16) << 8) == r & 0xFF;
    LowByteShifts(r & 0xFF);
  }

  /** Feeding a byte into a register holding just that byte in its high half clears it. */
  lemma SameByte(b: bv8)
    ensures CrcByte((b as bv16) << 8, b) == 0
  {
    assert ((b as bv16) << 8) ^ ((b as bv16) << 8) == 0;
    ZeroShifts(8);
  }

  /** The register's own two bytes, high byte first, clear it. */
  lemma OwnBytes(r: bv16)
    ensures Crc(r, [(r >> 8) as bv8, (r & 0xFF) as bv8]) == 0
  {
    var hi, lo := (r >> 8) as bv8, (r & 0xFF) as bv8;
    CrcTwo(r, hi, lo);
    HighByte(r);
    assert (r & 0xFF) << 8 == (lo as bv16) << 8;
    SameByte(lo);
  }

  /** Appending the checksum to the data, high byte first, brings the register to zero: the
      property a receiver checks. */
  lemma CrcResidue(crc: bv16, data: seq<bv8>)
    ensures var r := Crc(crc, data);
      Crc(crc, data + [(r >> 8) as bv8, (r & 0xFF) as bv8]) == 0
  {
    var r := Crc(crc, data);
    CrcAppend(crc, data, [(r >> 8) as bv8, (r & 0xFF) as bv8]);
    OwnBytes(r);
  }

  /** The checksum loop: each byte is folded into the register one bit at a time. */
  method CrcHqx(data: seq<bv8>, init: bv16) returns (crc: bv16)
    ensures crc == Crc(init, data)
  {
    crc := init;
    for i := 0 to |data|
      invariant Crc(crc, data[i..]) == Crc(init, data)
    {
      assert data[i..][0] == data[i] && data[i..][1..] == data[i + 1..];
      var reg := crc ^ ((data[i] as bv16) << 8);
      for k := 0 to 8
        invariant Shifts(reg, 8 - k) == CrcByte(crc, data[i])
      {
        reg := Shift(reg);
      }
      crc := reg;
    }
    assert data[|data|..] == [];
  }

  // ---------------------------------------------------------------------------------------
  // Four hexadecimal digits

  const HexDigits := "0123456789ABCDEF"

  /** The digit of a value below 16. */
  function HexDigit(n: bv16): (c: char)
    requires n < 16
    ensures c in HexDigits
  {
    HexDigits[n as int]
  }

  /** The value of an upper-case hexadecimal digit. */
  function HexValue(c: char): Option<bv16> {
    if '0' <= c <= '9' then Some((c as int - '0' as int) as bv16)
    else if 'A' <= c <= 'F' then Some((c as int - 'A' as int + 10) as bv16)
    else None
  }

  lemma HexDigitValue(n: bv16)
    requires n < 16
    ensures HexValue(HexDigit(n)) == Some(n)
  {
    if n < 10 {
      assert HexDigits[n as int] as int == '0' as int + n as int;
    } else {
      assert HexDigits[n as int] as int == 'A' as int + n as int - 10;
    }
  }

  /** `f"{crc:04X}"`: four upper-case hexadecimal digits, most significant first, with leading
      zeros. */
  function Hex4(x: bv16): (r: string)
    ensures |r| == 4 && forall i :: 0 <= i < 4 ==> r[i] in HexDigits
  {
    [HexDigit(x >> 12), HexDigit((x >> 8) & 0xF), HexDigit((x >> 4) & 0xF), HexDigit(x & 0xF)]
  }

  /** Reading four hexadecimal digits back; `None` for other text. */
  function ParseHex4(s: string): Option<bv16> {
    if |s| != 4 then None
    else match (HexValue(s[0]), HexValue(s[1]), HexValue(s[2]), HexValue(s[3]))
      case (Some(a), Some(b), Some(c), Some(d)) => Some((a << 12) | (b << 8) | (c << 4) | d)
      case _ => None
  }

  lemma NibblesJoin(x: bv16)
    ensures ((x >> 12) << 12) | ((((x >> 8) & 0xF)) << 8) | (((x >> 4) & 0xF) << 4) | (x & 0xF) == x
  {
  }

  /** The four digits determine the checksum. */
  lemma Hex4RoundTrip(x: bv16)
    ensures ParseHex4(Hex4(x)) == Some(x)
  {
    var a, b, c, d := x >> 12, (x >> 8) & 0xF, (x >> 4) & 0xF, x & 0xF;
    var s := Hex4(x);
    HexDigitValue(a);
    HexDigitValue(b);
    HexDigitValue(c);
    HexDigitValue(d);
    assert HexValue(s[0]) == Some(a) && HexValue(s[1]) == Some(b);
    assert HexValue(s[2]) == Some(c) && HexValue(s[3]) == Some(d);
    NibblesJoin(x);
  }

  /** `calculate_crc_checksum(data)` */
  method CalculateCrcChecksum(data: string) returns (hex: string)
    ensures hex == Hex4(Crc(Init, Utf8(data)))
  {
    var crc := CrcHqx(Utf8(data), Init);
    hex := Hex4(crc);
  }

  /** A run of register states, each the previous one with the next byte fed in, ends at
      the checksum. */
  lemma {:induction false} CrcTrace(init: bv16, data: seq<bv8>, states: seq<bv16>)
    requires |states| == |data| > 0
    requires CrcByte(init, data[0]) == states[0]
    requires forall i :: 0 < i < |data| ==> CrcByte(states[i - 1], data[i]) == states[i]
    ensures Crc(init, data) == states[|states| - 1]
    decreases |data|
  {
    if |data| > 1 {
      CrcTrace(states[0], data[1..], states[1..]);
    }
  }

  /** Text whose characters have the codes of `data`, all below 0x80, encodes as `data`. */
  lemma AsciiBytes(s: string, data: seq<bv8>)
    requires |s| == |data|
    requires forall i :: 0 <= i < |s| ==> data[i] < 0x80 && s[i] as int == data[i] as int
    ensures Utf8(s) == data
  {
    Utf8Ascii(s);
  }

  /** The checksum of the bytes 41 42 43 31 32 33 is 1659. */
  lemma CrcAbc123(data: seq<bv8>)
    requires data == [0x41, 0x42, 0x43, 0x31, 0x32, 0x33]
    ensures Hex4(Crc(Init, data)) == "1659"
  {
    var states: seq<bv16> := [0xB915, 0x4B74, 0xF508, 0x91C8, 0x4D89, 0x1659];
    CrcTrace(Init, data, states);
  }

  /** The checksum of the UTF-8 encoding of "ABC123" is 1659. */
  lemma ChecksumAbc123()
    ensures Hex4(Crc(Init, Utf8("ABC123"))) == "1659"
  {
    AsciiBytes("ABC123", [0x41, 0x42, 0x43, 0x31, 0x32, 0x33]);
    CrcAbc123(Utf8("ABC123"));
  }

  /** The checksum of the bytes 74 65 73 74 20 73 74 72 69 6E 67 is 61CA. */
  lemma CrcTestString(data: seq<bv8>)
    requires data == [0x74, 0x65, 0x73, 0x74, 0x20, 0x73, 0x74, 0x72, 0x69, 0x6E, 0x67]
    ensures Hex4(Crc(Init, data)) == "61CA"
  {
    var states: seq<bv16> :=
      [0xDFE3, 0xE591, 0x727F, 0x1FC6, 0x01BC, 0xE2D5, 0x367F, 0x7740, 0xB3FF, 0xE5D0, 0x61CA];
    CrcTrace(Init, data, states);
  }

  /** The checksum of the UTF-8 encoding of "test string" is 61CA. */
  lemma ChecksumTestString()
    ensures Hex4(Crc(Init, Utf8("test string"))) == "61CA"
  {
    AsciiBytes("test string", [0x74, 0x65, 0x73, 0x74, 0x20, 0x73, 0x74, 0x72, 0x69, 0x6E, 0x67]);
    CrcTestString(Utf8("test string"));
  }

  // ---------------------------------------------------------------------------------------
  // Package directories

  /** The package types a SAFE package may be tagged with. */
  const ValidPackageTypes: seq<string> :=
    ["RPI-BAS", "RPI-DAT", "RPI-MTD", "COL-MTD", "DAT-PRD", "DAT-AUX"]

  /** The exception `make_safe` raises for a package type it does not know. */
  datatype SafeError = UnknownPackageType(packageType: string)

  /** The message of that exception. */
  function Message(e: SafeError): string {
    "Package type " + e.packageType + " not in ['RPI-BAS', 'RPI-DAT', 'RPI-MTD', 'COL-MTD', 'DAT-PRD', 'DAT-AUX']"
  }

  /** The tag a package type adds to the directory name: none when the type is absent or empty,
      `_` and the type when it is one of the valid types, an error otherwise. */
  function PackageTag(packageType: Option<string>): Result<string, SafeError> {
    match packageType
    case None => Ok("")
    case Some(t) =>
      if t == "" then Ok("")
      else if !Listed(t, ValidPackageTypes, 0) then Err(UnknownPackageType(t))
      else Ok("_" + t)
  }

  /** `t in list[i..]`, one entry at a time. */
  predicate Listed(t: string, list: seq<string>, i: nat)
    decreases |list| - i
  {
    i < |list| && (list[i] == t || Listed(t, list, i + 1))
  }

  lemma {:induction false} ListedIn(t: string, list: seq<string>, i: nat)
    requires i <= |list|
    ensures Listed(t, list, i) <==> t in list[i..]
    decreases |list| - i
  {
    if i < |list| {
      ListedIn(t, list, i + 1);
      assert list[i..] == [list[i]] + list[i + 1..];
    }
  }

  /** An unknown, non-empty package type is exactly what is refused, with the message that
      names it; an accepted type gives no tag when absent or empty and `_` and the type
      otherwise, so the tag names the type. */
  lemma PackageTagCases(packageType: Option<string>)
    ensures var r := PackageTag(packageType);
      (r.Err? <==> packageType.Some? && packageType.value != "" && packageType.value !in ValidPackageTypes)
      && (r.Err? ==> r.error == UnknownPackageType(packageType.value))
      && (r.Ok? ==> (r.value == "" <==> packageType.GetOr("") == ""))
      && (r.Ok? && r.value != "" ==> r.value[0] == '_' && r.value[1..] == packageType.value
                                      && r.value[1..] in ValidPackageTypes)
  {
    if packageType.Some? {
      ListedIn(packageType.value, ValidPackageTypes, 0);
      assert ValidPackageTypes[0..] == ValidPackageTypes;
    }
  }

  /** `os.path.isabs` on a POSIX path. */
  predicate IsAbs(path: string) {
    |path| > 0 && path[0] == '/'
  }

  /** The directory a package of `file` is written under: the last `/` segment of an absolute
      input, and the input as written otherwise, below `output`. */
  function OutputRoot(output: string, file: string): string {
    var segments := Split(file, '/');
    if IsAbs(file) then output + "/" + segments[|segments| - 1] else output + "/" + file
  }

  /** `{output_root}{package_type_tag}_{checksum}.SAFE` */
  function SafeDirectory(output: string, file: string, tag: string, checksum: string): string {
    OutputRoot(output, file) + tag + "_" + checksum + ".SAFE"
  }

  /** A package directory lies below `output/` and ends with the tag, `_`, the checksum and
      `.SAFE`. */
  lemma SafeDirectoryShape(output: string, file: string, tag: string, checksum: string)
    ensures var r := SafeDirectory(output, file, tag, checksum);
      StartsWith(r, output + "/") && EndsWith(r, tag + "_" + checksum + ".SAFE")
  {
    var root, suffix := OutputRoot(output, file), tag + "_" + checksum + ".SAFE";
    var r := SafeDirectory(output, file, tag, checksum);
    assert r == root + suffix;
    assert StartsWith(root, output + "/");
    assert r[..|output + "/"|] == root[..|output + "/"|];
    assert r[|r| - |suffix|..] == suffix;
  }

  /** An absolute input contributes only its last segment: what lies between `output/` and the
      tag holds no `/`. */
  lemma AbsoluteRootSegment(output: string, file: string)
    requires IsAbs(file)
    ensures var r := OutputRoot(output, file);
      '/' !in r[|output| + 1..] && EndsWith(file, r[|output| + 1..])
  {
    var segments := Split(file, '/');
    var last := segments[|segments| - 1];
    var root := OutputRoot(output, file);
    assert root == output + "/" + last;
    assert root[|output| + 1..] == last;
    JoinSplit(file, '/');
    JoinLast(segments, '/');
  }

  /** The checksum can be read back from the four characters before `.SAFE`. */
  lemma DirectoryChecksum(output: string, file: string, tag: string, crc: bv16)
    ensures var r := SafeDirectory(output, file, tag, Hex4(crc));
      |r| >= 9 && ParseHex4(r[|r| - 9..|r| - 5]) == Some(crc)
  {
    var r := SafeDirectory(output, file, tag, Hex4(crc));
    assert r[|r| - 9..|r| - 5] == Hex4(crc);
    Hex4RoundTrip(crc);
  }

  /** The package directories `make_safe` creates, one per comma-separated input in input
      order, or the error it raises for an unknown package type. `manifest` is the manifest
      text whose checksum names every package. */
  method MakeSafe(inputs: string, output: string, packageType: Option<string>, manifest: string)
    returns (r: Result<seq<string>, SafeError>)
    ensures PackageTag(packageType).Err? ==> r == Err(UnknownPackageType(packageType.value))
    ensures PackageTag(packageType).Ok? ==>
      (r.Ok? && |r.value| == |Split(inputs, ',')|
       && forall i :: 0 <= i < |r.value| ==>
         r.value[i] == SafeDirectory(output, Split(inputs, ',')[i], PackageTag(packageType).value,
                                     Hex4(Crc(Init, Utf8(manifest)))))
  {
    r := PackageLoop(Split(inputs, ','), output, packageType, manifest);
  }

  /** The loop of `make_safe` over the input files, which are never none. */
  method PackageLoop(files: seq<string>, output: string, packageType: Option<string>, manifest: string)
    returns (r: Result<seq<string>, SafeError>)
    requires files != []
    ensures PackageTag(packageType).Err? ==> r == Err(UnknownPackageType(packageType.value))
    ensures PackageTag(packageType).Ok? ==>
      (r.Ok? && |r.value| == |files|
       && forall i :: 0 <= i < |r.value| ==>
         r.value[i] == SafeDirectory(output, files[i], PackageTag(packageType).value,
                                     Hex4(Crc(Init, Utf8(manifest)))))
  {
    var dirs: seq<string> := [];
    for i := 0 to |files|
      invariant |dirs| == i
      invariant i > 0 ==> PackageTag(packageType).Ok?
      invariant i > 0 ==> dirs == Directories(output, files[..i], PackageTag(packageType).value,
                                              Hex4(Crc(Init, Utf8(manifest))))
    {
      var dir := PackageDirectory(output, files[i], packageType, manifest);
      if dir.Err? {
        return Err(dir.error);
      }
      DirectoriesSnoc(output, files, i, PackageTag(packageType).value, Hex4(Crc(Init, Utf8(manifest))), dirs);
      dirs := dirs + [dir.value];
    }
    assert files[..|files|] == files;
    DirectoriesAt(output, files, PackageTag(packageType).value, Hex4(Crc(Init, Utf8(manifest))));
    r := Ok(dirs);
  }

  /** The package directories of the given inputs, in order. */
  function Directories(output: string, files: seq<string>, tag: string, checksum: string): (r: seq<string>)
    ensures |r| == |files|
  {
    seq(|files|, j requires 0 <= j < |files| => SafeDirectory(output, files[j], tag, checksum))
  }

  lemma DirectoriesAt(output: string, files: seq<string>, tag: string, checksum: string)
    ensures forall j :: 0 <= j < |files| ==>
      Directories(output, files, tag, checksum)[j] == SafeDirectory(output, files[j], tag, checksum)
  {
  }

  lemma DirectoriesSnoc(output: string, files: seq<string>, i: nat, tag: string, checksum: string, dirs: seq<string>)
    requires i < |files| && (i > 0 ==> dirs == Directories(output, files[..i], tag, checksum)) && (i == 0 ==> dirs == [])
    ensures dirs + [SafeDirectory(output, files[i], tag, checksum)] == Directories(output, files[..i + 1], tag, checksum)
  {
  }

  /** One pass of the loop of `make_safe`: the package type's tag (or the error it raises),
      the manifest's checksum and the directory named after them. */
  method PackageDirectory(output: string, file: string, packageType: Option<string>, manifest: string)
    returns (r: Result<string, SafeError>)
    ensures PackageTag(packageType).Err? ==> r == Err(UnknownPackageType(packageType.value))
    ensures PackageTag(packageType).Ok? ==>
      r == Ok(SafeDirectory(output, file, PackageTag(packageType).value, Hex4(Crc(Init, Utf8(manifest)))))
  {
    var tag := PackageTag(packageType);
    if tag.Err? {
      return Err(tag.error);
    }
    var checksum := CalculateCrcChecksum(manifest);
    var root := OutputRoot(output, file);
    r := Ok(root + tag.value + "_" + checksum + ".SAFE");
  }
}
