/** The CHRIS `//`-comment header parser: a line-driven state machine with a pending key, a
    table mode that stays on once entered, and a spectral table whose rows must have as many
    fields as its column line. */
module HdrParser {
  import opened Wrappers
  import opened Text
  import opened PyValues

  datatype HdrError = FileNotFound | PermissionDenied

  /** The variables the parsing loop threads from line to line. */
  datatype ParseState = ParseState(meta: Dict<PyVal>, lastKey: Option<string>, inTable: bool,
                                   columns: seq<string>, rows: seq<Dict<PyVal>>)

  const Start := ParseState([], None, false, [], [])

  /** `dict(zip(columns, vals))` for rows of equal length: the columns put in order, so a repeated
      column name holds the later value. */
  function RowOf(columns: seq<string>, vals: seq<string>): Dict<PyVal>
    requires |columns| == |vals|
  {
    Collect(RowEntries(columns, vals))
  }

  function RowEntries(columns: seq<string>, vals: seq<string>): (r: seq<Option<(string, PyVal)>>)
    requires |columns| == |vals|
    ensures |r| == |columns| && forall i :: 0 <= i < |r| ==> r[i] == Some((columns[i], PyStr(vals[i])))
  {
    seq(|columns|, i requires 0 <= i < |columns| => Some((columns[i], PyStr(vals[i]))))
  }

  /** A table row: kept only when it splits into as many fields as there are columns. */
  function AddRow(st: ParseState, text: string): ParseState {
    var vals := SplitSpaceRuns(text);
    if |vals| == |st.columns| then st.(rows := st.rows + [RowOf(st.columns, vals)]) else st
  }

  /** The text of a comment line: the line without its leading slashes, stripped. */
  function CommentText(raw: string): string {
    Strip(LStripChar(raw, '/'))
  }

  /** The pieces of an inline `key value` comment: tab-separated when there is a tab, otherwise
      separated by runs of two or more spaces. */
  function InlineParts(text: string): (r: seq<string>)
    ensures |r| >= 1
  {
    if '\t' in text then Split(text, '\t') else SplitSpaceRuns2(text)
  }

  predicate IsInline(text: string) {
    '\t' in text || Contains(text, "  ")
  }

  predicate IsSectionTitle(text: string) {
    text == [] || EndsWith(Upper(text), "ATTRIBUTES")
  }

  predicate IsTableHead(text: string) {
    StartsWith(Upper(text), "WLLOW")
  }

  /** One comment line. */
  function CommentStep(st: ParseState, text: string, keep: bool): ParseState {
    if IsTableHead(text) then st.(inTable := true, columns := if keep then SplitSpaceRuns(text) else st.columns)
    else if st.inTable && keep then AddRow(st, text)
    else if st.inTable then st
    else if IsSectionTitle(text) then st.(lastKey := None)
    else if IsInline(text) then
      var parts := InlineParts(text);
      st.(meta := Put(st.meta, Strip(parts[0]), PyStr(Strip(parts[|parts| - 1]))), lastKey := None)
    else st.(lastKey := Some(text))
  }

  /** One line other than a comment. */
  function PlainStep(st: ParseState, raw: string, keep: bool): ParseState {
    var s := Strip(raw);
    if st.lastKey.Some? && st.lastKey.value != [] && s != [] then
      st.(meta := Put(st.meta, st.lastKey.value, PyStr(s)), lastKey := None)
    else if st.inTable && keep && s != [] then AddRow(st, s)
    else st
  }

  /** One line as the file iterator yields it (its newline removed first). */
  function Step(st: ParseState, line: string, keep: bool): ParseState {
    var raw := RStripChar(line, '\n');
    if StartsWith(raw, "//") then CommentStep(st, CommentText(raw), keep) else PlainStep(st, raw, keep)
  }

  /** `Step` taken apart into its two cases, for proofs that must not unfold the line helpers. */
  lemma StepIs(st: ParseState, line: string, keep: bool)
    ensures var raw := RStripChar(line, '\n');
            Step(st, line, keep) ==
            if StartsWith(raw, "//") then CommentStep(st, CommentText(raw), keep) else PlainStep(st, raw, keep)
  {
  }

  /** The state after the given lines. */
  function Run(lines: seq<string>, keep: bool): ParseState
    decreases |lines|
  {
    if lines == [] then Start else Step(Run(lines[..|lines| - 1], keep), lines[|lines| - 1], keep)
  }

  lemma RunStep(lines: seq<string>, i: nat, keep: bool)
    requires i < |lines|
    ensures Run(lines[..i + 1], keep) == Step(Run(lines[..i], keep), lines[i], keep)
  {
    assert lines[..i + 1][..i] == lines[..i];
  }

  /** The table as a Python list of row dicts. */
  function TableValue(rows: seq<Dict<PyVal>>): (r: PyVal)
    ensures r.PyList? && |r.items| == |rows| && forall i :: 0 <= i < |rows| ==> r.items[i] == PyDict(rows[i])
  {
    PyList(seq(|rows|, i requires 0 <= i < |rows| => PyDict(rows[i])))
  }

  /** The dict returned for the final state. */
  function Finish(st: ParseState, keep: bool): Dict<PyVal> {
    if keep then Put(st.meta, "spectral_table", TableValue(st.rows)) else st.meta
  }

  /** `parse_chris_hdr_txt`: the file is given by whether it exists, whether it is readable and
      its lines. Both checks come before any line is read. */
  method ParseChrisHdrTxt(isFile: bool, readable: bool, lines: seq<string>, keep: bool)
    returns (r: Result<Dict<PyVal>, HdrError>)
    ensures !isFile ==> r == Err(FileNotFound)
    ensures isFile && !readable ==> r == Err(PermissionDenied)
    ensures isFile && readable ==> r == Ok(Finish(Run(lines, keep), keep))
  {
    if !isFile {
      return Err(FileNotFound);
    }
    if !readable {
      return Err(PermissionDenied);
    }
    var meta: Dict<PyVal> := [];
    var lastKey: Option<string> := None;
    var columns: seq<string> := [];
    var rows: seq<Dict<PyVal>> := [];
    var inTable := false;
    var i := 0;
    while i < |lines|
      invariant 0 <= i <= |lines|
      invariant ParseState(meta, lastKey, inTable, columns, rows) == Run(lines[..i], keep)
    {
      meta, lastKey, inTable, columns, rows := ParseLine(meta, lastKey, inTable, columns, rows, lines[i], keep);
      RunStep(lines, i, keep);
      i := i + 1;
    }
    assert lines[..i] == lines;
    if keep {
      meta := Put(meta, "spectral_table", TableValue(rows));
    }
    return Ok(meta);
  }

  /** The body of the parsing loop: one line read into the loop's variables. */
  method ParseLine(meta0: Dict<PyVal>, lastKey0: Option<string>, inTable0: bool, columns0: seq<string>,
                   rows0: seq<Dict<PyVal>>, line: string, keep: bool)
    returns (meta: Dict<PyVal>, lastKey: Option<string>, inTable: bool, columns: seq<string>,
             rows: seq<Dict<PyVal>>)
    ensures ParseState(meta, lastKey, inTable, columns, rows) ==
            Step(ParseState(meta0, lastKey0, inTable0, columns0, rows0), line, keep)
  {
    StepIs(ParseState(meta0, lastKey0, inTable0, columns0, rows0), line, keep);
    var raw := RStripChar(line, '\n');
    if StartsWith(raw, "//") {
      meta, lastKey, inTable, columns, rows :=
        ParseComment(meta0, lastKey0, inTable0, columns0, rows0, CommentText(raw), keep);
    } else {
      meta, lastKey, inTable, columns, rows := ParsePlain(meta0, lastKey0, inTable0, columns0, rows0, raw, keep);
    }
  }

  /** A comment line, given its text. */
  method ParseComment(meta0: Dict<PyVal>, lastKey0: Option<string>, inTable0: bool, columns0: seq<string>,
                      rows0: seq<Dict<PyVal>>, text: string, keep: bool)
    returns (meta: Dict<PyVal>, lastKey: Option<string>, inTable: bool, columns: seq<string>,
             rows: seq<Dict<PyVal>>)
    ensures ParseState(meta, lastKey, inTable, columns, rows) ==
            CommentStep(ParseState(meta0, lastKey0, inTable0, columns0, rows0), text, keep)
  {
    meta, lastKey, inTable, columns, rows := meta0, lastKey0, inTable0, columns0, rows0;
    ghost var st := ParseState(meta0, lastKey0, inTable0, columns0, rows0);
    if IsTableHead(text) {
      inTable := true;
      if keep {
        columns := SplitSpaceRuns(text);
      }
    } else if inTable && keep {
      var vals := SplitSpaceRuns(text);
      if |vals| == |columns| {
        rows := rows + [RowOf(columns, vals)];
      }
      assert ParseState(meta, lastKey, inTable, columns, rows) == AddRow(st, text);
    } else if !inTable {
      meta, lastKey := ParseOutsideTable(meta0, lastKey0, text);
    }
  }

  /** A comment line outside the wavelength table that does not start one: a section title
      forgets the pending key, and any other line is read as a key line. */
  method ParseOutsideTable(meta0: Dict<PyVal>, lastKey0: Option<string>, text: string)
    returns (meta: Dict<PyVal>, lastKey: Option<string>)
    ensures var st := ParseState(meta0, lastKey0, false, [], []);
      !IsTableHead(text) ==> ParseState(meta, lastKey, false, [], []) == CommentStep(st, text, false)
  {
    if IsSectionTitle(text) {
      meta, lastKey := meta0, None;
    } else {
      meta, lastKey := ParseKeyLine(meta0, text);
    }
  }

  /** A key line: an inline `key value` comment is stored at once, and any other text becomes
      the key whose value is on the next line. */
  method ParseKeyLine(meta0: Dict<PyVal>, text: string) returns (meta: Dict<PyVal>, lastKey: Option<string>)
    ensures IsInline(text) ==>
      var parts := InlineParts(text);
      meta == Put(meta0, Strip(parts[0]), PyStr(Strip(parts[|parts| - 1]))) && lastKey == None
    ensures !IsInline(text) ==> meta == meta0 && lastKey == Some(text)
  {
    if IsInline(text) {
      meta := StoreInline(meta0, text);
      lastKey := None;
    } else {
      meta, lastKey := meta0, Some(text);
    }
  }

  /** An inline comment: its last piece, stripped, stored under its first piece, stripped. */
  method StoreInline(meta0: Dict<PyVal>, text: string) returns (meta: Dict<PyVal>)
    ensures var parts := InlineParts(text);
            meta == Put(meta0, Strip(parts[0]), PyStr(Strip(parts[|parts| - 1])))
  {
    var parts := InlineParts(text);
    meta := Put(meta0, Strip(parts[0]), PyStr(Strip(parts[|parts| - 1])));
  }

  /** A line other than a comment, given with its newline removed. */
  method ParsePlain(meta0: Dict<PyVal>, lastKey0: Option<string>, inTable0: bool, columns0: seq<string>,
                    rows0: seq<Dict<PyVal>>, raw: string, keep: bool)
    returns (meta: Dict<PyVal>, lastKey: Option<string>, inTable: bool, columns: seq<string>,
             rows: seq<Dict<PyVal>>)
    ensures ParseState(meta, lastKey, inTable, columns, rows) ==
            PlainStep(ParseState(meta0, lastKey0, inTable0, columns0, rows0), raw, keep)
  {
    meta, lastKey, inTable, columns, rows := meta0, lastKey0, inTable0, columns0, rows0;
    var s := Strip(raw);
    if lastKey.Some? && lastKey.value != [] && s != [] {
      meta := Put(meta, lastKey.value, PyStr(s));
      lastKey := None;
    } else if inTable && keep && s != [] {
      var vals := SplitSpaceRuns(s);
      if |vals| == |columns| {
        rows := rows + [RowOf(columns, vals)];
      }
    }
  }
}
