/** The data-object section of a SAFE manifest (`manifest_xml_generator.py`): how each packaged
    file becomes a data object with an ID, a representation ID and a location, and which
    representation ID the content unit and the metadata object then carry. */
module Manifest {
  import opened Wrappers
  import opened Text

  /** One row of the file-information table: the location's text, the object ID (`None` when
      it is derived from the extension) and the representation ID. */
  datatype Info = Info(textInfo: string, dataObjectId: Option<string>, repId: string)

  datatype Checksum = Checksum(checksumName: string, value: string)
  datatype FileLocation = FileLocation(locatorType: string, textInfo: string, href: string)
  datatype ByteStream = ByteStream(mimeType: string, fileLocation: FileLocation, checksum: Checksum)
  datatype DataObject = DataObject(dataObjectId: string, repId: string, byteStream: ByteStream)

  /** The parts of the manifest the packaged files decide: the data objects, and the
      representation ID shared by the inner content unit and the metadata object. */
  datatype Xfdu = Xfdu(dataObjects: seq<DataObject>, contentUnitRepId: string,
                       metadataObjectId: string, dataObjectPointer: string)

  const FileId := "CHRIS"
  const BaseRepId := "CHRISBaseSchema"

  /** `file_info[ext]`, with `None` for a missing key. */
  function FileInfo(ext: string): (r: Option<Info>)
    ensures r.Some? <==> ext == "xsd" || ext == "measurement"
  {
    if ext == "xsd" then Some(Info("SAFE Restriction to XFDU Schema", None, "xmlBaseSchema"))
    else if ext == "measurement" then Some(Info("Measurement Data", Some("measurementData"), "measurementSchema"))
    else None
  }

  // ---------------------------------------------------------------------------------------
  // str.title

  /** `str.title()` continued after a character that was (`prevCased`) or was not a letter:
      a letter is upper-cased when it starts a run of letters and lower-cased inside one. */
  function TitleFrom(s: string, prevCased: bool): (r: string)
    ensures |r| == |s|
    decreases |s|
  {
    if s == [] then []
    else if IsAsciiLetter(s[0]) then
      [if prevCased then LowerChar(s[0]) else UpperChar(s[0])] + TitleFrom(s[1..], true)
    else [s[0]] + TitleFrom(s[1..], false)
  }

  /** `str.title()` */
  function Title(s: string): (r: string)
    ensures |r| == |s|
  {
    TitleFrom(s, false)
  }

  /** Whether position `i` starts a run of letters. */
  predicate StartsWord(s: string, i: nat, prevCased: bool)
    requires i < |s|
  {
    if i == 0 then !prevCased else !IsAsciiLetter(s[i - 1])
  }

  /** Character by character: non-letters are kept, a letter that starts a run is upper case
      and every other letter lower case. */
  lemma {:induction false} TitleFromChars(s: string, prevCased: bool)
    ensures var r := TitleFrom(s, prevCased);
      forall i :: 0 <= i < |s| ==>
        r[i] == (if !IsAsciiLetter(s[i]) then s[i]
                 else if StartsWord(s, i, prevCased) then UpperChar(s[i]) else LowerChar(s[i]))
    decreases |s|
  {
    if s != [] {
      var cased := IsAsciiLetter(s[0]);
      TitleFromChars(s[1..], cased);
      var r := TitleFrom(s, prevCased);
      var t := TitleFrom(s[1..], cased);
      assert forall i :: 1 <= i < |s| ==> r[i] == t[i - 1];
      assert forall i :: 1 <= i < |s| ==> StartsWord(s, i, prevCased) == StartsWord(s[1..], i - 1, cased);
    }
  }

  /** The character-by-character reading of `str.title()` for a whole string. */
  lemma TitleChars(s: string)
    ensures var r := Title(s);
      forall i :: 0 <= i < |s| ==>
        r[i] == (if !IsAsciiLetter(s[i]) then s[i]
                 else if i == 0 || !IsAsciiLetter(s[i - 1]) then UpperChar(s[i])
                 else LowerChar(s[i]))
  {
    TitleFromChars(s, false);
    assert forall i :: 0 <= i < |s| ==> StartsWord(s, i, false) == (i == 0 || !IsAsciiLetter(s[i - 1]));
  }

  lemma CaseLetter(c: char)
    ensures IsAsciiLetter(UpperChar(c)) == IsAsciiLetter(c) == IsAsciiLetter(LowerChar(c))
    ensures UpperChar(LowerChar(c)) == UpperChar(c) && LowerChar(UpperChar(c)) == LowerChar(c)
    ensures UpperChar(UpperChar(c)) == UpperChar(c) && LowerChar(LowerChar(c)) == LowerChar(c)
  {
  }

  /** Title-casing title-cased text changes nothing. */
  lemma {:induction false} TitleFromIdempotent(s: string, prevCased: bool)
    ensures TitleFrom(TitleFrom(s, prevCased), prevCased) == TitleFrom(s, prevCased)
    decreases |s|
  {
    if s != [] {
      CaseLetter(s[0]);
      var r := TitleFrom(s, prevCased);
      var cased := IsAsciiLetter(s[0]);
      TitleFromIdempotent(s[1..], cased);
      assert r[1..] == TitleFrom(s[1..], cased);
      assert IsAsciiLetter(r[0]) == cased;
    }
  }

  /** Title-casing changes only the case of letters. */
  lemma {:induction false} TitleFromLower(s: string, prevCased: bool)
    ensures Lower(TitleFrom(s, prevCased)) == Lower(s)
    decreases |s|
  {
    if s != [] {
      CaseLetter(s[0]);
      var r := TitleFrom(s, prevCased);
      TitleFromLower(s[1..], IsAsciiLetter(s[0]));
      assert r[1..] == TitleFrom(s[1..], IsAsciiLetter(s[0]));
      assert forall i :: 1 <= i < |s| ==> Lower(r)[i] == Lower(r[1..])[i - 1];
      assert forall i :: 1 <= i < |s| ==> Lower(s)[i] == Lower(s[1..])[i - 1];
    }
  }

  lemma TitleIdempotent(s: string)
    ensures Title(Title(s)) == Title(s)
  {
    TitleFromIdempotent(s, false);
  }

  // ---------------------------------------------------------------------------------------
  // Paths

  /** `path.rsplit("/", 2)`: at most two splits, taken from the right. */
  function RSplit2(path: string): (r: seq<string>)
    ensures ('/' in path) <==> |r| >= 2
  {
    if '/' !in path then [path]
    else
      var i := LastIndexOf(path, '/');
      var head := path[..i];
      if '/' !in head then [head, path[i + 1..]]
      else
        var j := LastIndexOf(head, '/');
        [head[..j], head[j + 1..], path[i + 1..]]
  }

  /** At most three pieces, of which all but the first are free of `/`, and joined back with
      `/` they are the path. */
  lemma RSplit2Join(path: string)
    ensures var r := RSplit2(path);
      1 <= |r| <= 3 && (forall i :: 0 < i < |r| ==> '/' !in r[i]) && Join("/", r) == path
  {
    if '/' in path {
      var i := LastIndexOf(path, '/');
      var head, tail := path[..i], path[i + 1..];
      AroundSlash(path, i);
      if '/' in head {
        var j := LastIndexOf(head, '/');
        AroundSlash(head, j);
        JoinThree(head[..j], head[j + 1..], tail);
      } else {
        JoinTwo(head, tail);
      }
    }
  }

  /** A string is the text before a `/`, the `/` and the text after it. */
  lemma AroundSlash(s: string, i: nat)
    requires i < |s| && s[i] == '/'
    ensures s == s[..i] + "/" + s[i + 1..]
  {
  }

  lemma JoinTwo(a: string, b: string)
    ensures Join("/", [a, b]) == a + "/" + b
  {
    assert [a, b][1..] == [b];
  }

  lemma JoinThree(a: string, b: string, c: string)
    ensures Join("/", [a, b, c]) == (a + "/" + b) + "/" + c
  {
    assert [a, b, c][1..] == [b, c];
    JoinTwo(b, c);
  }

  /** The directory holding the file: the text between the last two `/` (or before the last
      one when there is only one). */
  function ParentDir(path: string): string
    requires '/' in path
  {
    var head := path[..LastIndexOf(path, '/')];
    if '/' in head then head[LastIndexOf(head, '/') + 1..] else head
  }

  /** The file name: the text after the last `/`. */
  function FileName(path: string): string
    requires '/' in path
  {
    path[LastIndexOf(path, '/') + 1..]
  }

  /** The directory and the file name are the last two pieces of `rsplit("/", 2)`. */
  lemma RSplit2Pieces(path: string)
    requires '/' in path
    ensures var parts := RSplit2(path);
      parts[|parts| - 2] == ParentDir(path) && parts[|parts| - 1] == FileName(path)
  {
  }

  /** The last two pieces of `rsplit("/", 2)` hold no `/` and, joined by one, end the path. */
  lemma RSplit2Tail(path: string)
    requires '/' in path
    ensures var parts := RSplit2(path);
      var a, b := parts[|parts| - 2], parts[|parts| - 1];
      '/' !in a && '/' !in b && EndsWith(path, a + "/" + b)
  {
    var parts := RSplit2(path);
    var a, b := parts[|parts| - 2], parts[|parts| - 1];
    RSplit2Join(path);
    JoinSuffix(parts, |parts| - 2);
    assert parts[|parts| - 2..] == [a, b];
    JoinTwo(a, b);
  }

  /** Two pieces free of `/`, joined by one, split back into two. */
  lemma TwoPieces(a: string, b: string)
    requires '/' !in a && '/' !in b
    ensures |Split(a + "/" + b, '/')| == 2
  {
    SplitJoin([a, b], '/');
    JoinTwo(a, b);
  }

  /** `file_name.split(".")[-1]`: the text after the last dot, or the whole name. */
  function Extension(fileName: string): string {
    var parts := Split(fileName, '.');
    parts[|parts| - 1]
  }

  /** The extension holds no dot and ends the name. */
  lemma ExtensionEnds(fileName: string)
    ensures '.' !in Extension(fileName) && EndsWith(fileName, Extension(fileName))
  {
    var parts := Split(fileName, '.');
    JoinSplit(fileName, '.');
    JoinLast(parts, '.');
  }

  /** `href`: the file's parent directory and its name. */
  function Href(path: string): string
    requires '/' in path
  {
    ParentDir(path) + "/" + FileName(path)
  }

  /** The path ends with its `href`, which has exactly two `/`-separated pieces. */
  lemma HrefEnds(path: string)
    requires '/' in path
    ensures EndsWith(path, Href(path)) && |Split(Href(path), '/')| == 2
  {
    RSplit2Pieces(path);
    RSplit2Tail(path);
    TwoPieces(ParentDir(path), FileName(path));
  }

  /** A join ends with the join of any non-empty tail of its parts. */
  lemma {:induction false} JoinSuffix(parts: seq<string>, k: nat)
    requires k < |parts|
    ensures EndsWith(Join("/", parts), Join("/", parts[k..]))
    decreases k
  {
    if k > 0 {
      JoinSuffix(parts[1..], k - 1);
      assert parts[1..][k - 1..] == parts[k..];
      assert Join("/", parts) == parts[0] + "/" + Join("/", parts[1..]);
    }
  }

  // ---------------------------------------------------------------------------------------
  // Data objects

  /** The text, object ID and representation ID of a file with extension `ext`: the table's
      row when there is one, the measurement row with the title-cased extension appended
      otherwise, and an ID derived from the extension when the row has none. */
  function Describe(ext: string): (r: (string, string, string)) {
    var info := match FileInfo(ext)
      case Some(row) => row
      case None => Info("Measurement Data", Some("measurementData" + Title(ext)), "measurementSchema");
    (info.textInfo, info.dataObjectId.GetOr(ext + "Schema"), info.repId)
  }

  /** The three cases of `Describe`. */
  lemma DescribeCases(ext: string)
    ensures ext == "xsd" ==>
      Describe(ext) == ("SAFE Restriction to XFDU Schema", "xsdSchema", "xmlBaseSchema")
    ensures ext == "measurement" ==>
      Describe(ext) == ("Measurement Data", "measurementData", "measurementSchema")
    ensures ext != "xsd" && ext != "measurement" ==>
      Describe(ext) == ("Measurement Data", "measurementData" + Title(ext), "measurementSchema")
  {
    if ext == "xsd" {
      assert ext + "Schema" == "xsdSchema";
    }
  }

  /** An extension outside the table is recoverable from the object ID up to case: the ID is
      `measurementData` followed by the extension title-cased. */
  lemma DescribeOther(ext: string)
    requires ext != "xsd" && ext != "measurement"
    ensures var id := Describe(ext).1;
      StartsWith(id, "measurementData") && |id| == 15 + |ext|
      && Lower(id[15..]) == Lower(ext)
  {
    var id := Describe(ext).1;
    assert id[15..] == Title(ext);
    TitleFromLower(ext, false);
  }

  /** The data object of one packaged file, whose MD5 digest is `digest`. */
  function DataObjectOf(path: string, digest: string): DataObject
    requires '/' in path
  {
    var (textInfo, id, repId) := Describe(Extension(FileName(path)));
    DataObject(id, repId,
      ByteStream("application/octet-stream", FileLocation("URL", textInfo, Href(path)),
                 Checksum("MD5", digest)))
  }

  /** Every data object is an MD5-checked octet stream located by URL, its location is the
      file's parent directory and name, and its IDs are the ones its extension selects. */
  lemma DataObjectFields(path: string, digest: string)
    requires '/' in path
    ensures var d := DataObjectOf(path, digest);
      d.byteStream.mimeType == "application/octet-stream"
      && d.byteStream.fileLocation.locatorType == "URL"
      && d.byteStream.checksum == Checksum("MD5", digest)
      && EndsWith(path, d.byteStream.fileLocation.href)
      && d.byteStream.fileLocation.href == ParentDir(path) + "/" + FileName(path)
      && var (t, id, rep) := Describe(Extension(FileName(path)));
      d.byteStream.fileLocation.textInfo == t && d.dataObjectId == id && d.repId == rep
  {
    HrefEnds(path);
  }

  /** The representation ID the content unit and the metadata object carry: the last data
      object's, or the base schema's when there are none. */
  function LastRepId(objects: seq<DataObject>): string {
    if objects == [] then BaseRepId else objects[|objects| - 1].repId
  }

  /** Every path names its parent directory. */
  predicate AllHaveParent(paths: seq<string>) {
    forall i :: 0 <= i < |paths| ==> '/' in paths[i]
  }

  /** `f` applied to each path and its digest, in order, built by appending as a loop does. */
  function MapPairs<T>(f: (string, string) --> T, paths: seq<string>, digests: seq<string>): (r: seq<T>)
    requires |digests| == |paths| && forall i :: 0 <= i < |paths| ==> f.requires(paths[i], digests[i])
    ensures |r| == |paths|
    decreases |paths|
  {
    if paths == [] then []
    else
      var n := |paths| - 1;
      MapPairs(f, paths[..n], digests[..n]) + [f(paths[n], digests[n])]
  }

  /** The element at position `i` is `f` of the `i`-th path and digest. */
  lemma {:induction false} MapPairsAt<T>(f: (string, string) --> T, paths: seq<string>, digests: seq<string>, i: nat)
    requires |digests| == |paths| && forall i :: 0 <= i < |paths| ==> f.requires(paths[i], digests[i])
    requires i < |paths|
    ensures MapPairs(f, paths, digests)[i] == f(paths[i], digests[i])
    decreases |paths|
  {
    var n := |paths| - 1;
    if i < n {
      var init, front := paths[..n], digests[..n];
      assert forall k :: 0 <= k < n ==> init[k] == paths[k] && front[k] == digests[k];
      MapPairsAt(f, init, front, i);
    }
  }

  /** A sequence holding `f` of each path and digest, in order, is the one `MapPairs` builds. */
  lemma MapPairsAll<T>(f: (string, string) --> T, paths: seq<string>, digests: seq<string>, r: seq<T>)
    requires |digests| == |paths| && forall i :: 0 <= i < |paths| ==> f.requires(paths[i], digests[i])
    requires |r| == |paths| && forall i :: 0 <= i < |paths| ==> r[i] == f(paths[i], digests[i])
    ensures r == MapPairs(f, paths, digests)
  {
    forall i | 0 <= i < |paths|
      ensures r[i] == MapPairs(f, paths, digests)[i]
    {
      MapPairsAt(f, paths, digests, i);
    }
  }

  /** The data objects of the given paths, each with its file's digest. */
  function DataObjects(paths: seq<string>, digests: seq<string>): (r: seq<DataObject>)
    requires AllHaveParent(paths) && |digests| == |paths|
  {
    MapPairs(DataObjectOf, paths, digests)
  }

  /** Exactly one data object per path, in the order of the paths. */
  lemma DataObjectsInOrder(paths: seq<string>, digests: seq<string>)
    requires AllHaveParent(paths) && |digests| == |paths|
    ensures var r := DataObjects(paths, digests);
      |r| == |paths| && forall i :: 0 <= i < |paths| ==> r[i] == DataObjectOf(paths[i], digests[i])
  {
    forall i | 0 <= i < |paths|
      ensures DataObjects(paths, digests)[i] == DataObjectOf(paths[i], digests[i])
    {
      MapPairsAt(DataObjectOf, paths, digests, i);
    }
  }

  /** The content unit's representation ID is the base schema's when there are no files and
      otherwise the one the last file's extension selects. */
  lemma RepIdOfLast(paths: seq<string>, digests: seq<string>)
    requires AllHaveParent(paths) && |digests| == |paths|
    ensures LastRepId(DataObjects(paths, digests))
      == if paths == [] then "CHRISBaseSchema" else Describe(Extension(FileName(paths[|paths| - 1]))).2
  {
    if paths != [] {
      MapPairsAt(DataObjectOf, paths, digests, |paths| - 1);
    }
  }

  /** One pass of the data-object loop: the data object of `path`, whose file's MD5 digest is
      `digest`, built step by step the way the loop body builds it. */
  method NewDataObject(path: string, digest: string) returns (d: DataObject)
    requires '/' in path
    ensures d == DataObjectOf(path, digest)
  {
    var ext := Extension(FileName(path));
    var textInfo: string, id: Option<string>, repId: string;
    match FileInfo(ext) {
      case Some(row) =>
        textInfo, id, repId := row.textInfo, row.dataObjectId, row.repId;
      case None =>
        textInfo, id, repId := "Measurement Data", Some("measurementData" + Title(ext)), "measurementSchema";
    }
    var objectId := if id.None? then ext + "Schema" else id.value;
    assert (textInfo, objectId, repId) == Describe(ext);
    var stream := ByteStream("application/octet-stream", FileLocation("URL", textInfo, Href(path)),
                             Checksum("MD5", digest));
    d := DataObject(objectId, repId, stream);
  }

  /** `XFDU(data_objects=...)`: one data object per path when the list is given and not empty.
      `digests` holds the MD5 digest of each file's contents, in the same order. */
  method NewXfdu(dataObjects: Option<seq<string>>, digests: seq<string>) returns (x: Xfdu)
    requires dataObjects.Some? ==> AllHaveParent(dataObjects.value)
    requires |digests| == |dataObjects.GetOr([])|
    ensures x.dataObjects == DataObjects(dataObjects.GetOr([]), digests)
    ensures x.contentUnitRepId == x.metadataObjectId == LastRepId(x.dataObjects)
    ensures x.dataObjectPointer == FileId
  {
    var repId := FileId + "BaseSchema";
    assert repId == BaseRepId;
    var list: seq<DataObject> := [];
    if dataObjects.Some? && dataObjects.value != [] {
      list, repId := DataObjectLoop(dataObjects.value, digests, repId);
    }
    x := Xfdu(list, repId, repId, FileId);
  }

  /** The loop over a non-empty list of paths: one data object per path, in order, with the
      representation ID left at the last one's. */
  method DataObjectLoop(paths: seq<string>, digests: seq<string>, repId0: string)
    returns (list: seq<DataObject>, repId: string)
    requires AllHaveParent(paths) && |digests| == |paths| && paths != []
    ensures list == DataObjects(paths, digests) && repId == LastRepId(list)
  {
    list, repId := [], repId0;
    for i := 0 to |paths|
      invariant |list| == i
      invariant forall k {:trigger DataObjectOf(paths[k], digests[k])} :: 0 <= k < i ==>
        list[k] == DataObjectOf(paths[k], digests[k])
      invariant i > 0 ==> repId == list[i - 1].repId
    {
      var obj := NewDataObject(paths[i], digests[i]);
      list := list + [obj];
      repId := obj.repId;
    }
    MapPairsAll(DataObjectOf, paths, digests, list);
  }
}
