/** What the CHRIS header parser guarantees: the two inline forms, the pending key, section
    titles, the table mode that never ends, the row-length filter and the spectral table. */
module HdrParserProps {
  import opened Wrappers
  import opened Text
  import opened PyValues
  import opened HdrParser

  /** A line `"//" + t` keeps its text when `t` does not end with a newline. */
  lemma NoNewline(t: string)
    requires t == [] || t[|t| - 1] != '\n'
    ensures RStripChar("//" + t, '\n') == "//" + t
  {
    var raw := "//" + t;
    assert raw[|raw| - 1] != '\n';
  }

  /** The two leading slashes go when `t` does not start with a third one. */
  lemma TwoSlashes(t: string)
    requires t == [] || t[0] != '/'
    ensures LStripChar("//" + t, '/') == t
  {
    LStripTwo('/', t);
  }

  /** A comment line `"//" + t` where `t` does not start with a slash has the text `t`, stripped. */
  lemma CommentOf(t: string)
    requires t == [] || (t[0] != '/' && t[|t| - 1] != '\n')
    ensures RStripChar("//" + t, '\n') == "//" + t
    ensures StartsWith("//" + t, "//")
    ensures CommentText("//" + t) == Strip(t)
  {
    NoNewline(t);
    TwoSlashes(t);
    assert ("//" + t)[..2] == "//";
  }

  /** The pieces of `key + "\t" + val` are the key and the value when neither holds a tab. */
  lemma TabParts(key: string, val: string)
    requires '\t' !in key && '\t' !in val
    ensures InlineParts(key + "\t" + val) == [key, val]
  {
    var text := key + "\t" + val;
    assert text[|key|] == '\t';
    assert Join("\t", [key, val]) == text by {
      assert Join("\t", [key, val][1..]) == val;
    }
    SplitJoin([key, val], '\t');
  }

  /** The first double space of `key + "  " + val` is the one after the key. */
  lemma DoubleSpaceAt(key: string, val: string)
    requires !Contains(key, "  ") && (key == [] || key[|key| - 1] != ' ')
    ensures DoubleSpaceFrom(key + "  " + val, 0) == |key|
  {
    var text := key + "  " + val;
    var r := DoubleSpaceFrom(text, 0);
    assert text[|key|] == ' ' && text[|key| + 1] == ' ';
    if r < |key| {
      if r + 1 < |key| {
        assert key[r..r + 2] == text[r..r + 2] == "  ";
        ContainsAt(key, "  ", r);
      }
      assert false;
    }
  }

  /** Two spaces in front of a text that does not start with a space are dropped. */
  lemma DropTwoBlanks(val: string)
    requires val == [] || val[0] != ' '
    ensures DropWhile("  " + val, IsBlank) == val
  {
    DropWhileRun("  ", val, IsBlank);
  }

  /** One step of `SplitSpaceRuns2`. */
  lemma SplitRuns2Step(s: string)
    requires DoubleSpaceFrom(s, 0) < |s|
    ensures var i := DoubleSpaceFrom(s, 0);
            SplitSpaceRuns2(s) == [s[..i]] + SplitSpaceRuns2(DropWhile(s[i..], IsBlank))
  {
  }

  /** Without a tab the pieces are those between runs of two or more spaces. */
  lemma InlineNoTab(text: string)
    requires '\t' !in text
    ensures InlineParts(text) == SplitSpaceRuns2(text)
  {
  }

  /** `key + "  " + val` splits into the key and the value at its double space. */
  lemma SpaceRuns(key: string, val: string)
    requires !Contains(key, "  ") && !Contains(val, "  ")
    requires key == [] || key[|key| - 1] != ' '
    requires val == [] || val[0] != ' '
    ensures SplitSpaceRuns2(key + "  " + val) == [key, val]
  {
    var text := key + "  " + val;
    DoubleSpaceAt(key, val);
    SplitRuns2Step(text);
    CatParts(key, val);
    DropTwoBlanks(val);
    OnePiece(val);
  }

  /** The key and the rest of `key + "  " + val`. */
  lemma CatParts(key: string, val: string)
    ensures (key + "  " + val)[..|key|] == key
    ensures (key + "  " + val)[|key|..] == "  " + val
  {
  }

  /** A text without two spaces in a row is one piece. */
  lemma OnePiece(val: string)
    requires !Contains(val, "  ")
    ensures SplitSpaceRuns2(val) == [val]
  {
    var r := DoubleSpaceFrom(val, 0);
    if r < |val| {
      assert val[r..r + 2] == "  ";
      ContainsAt(val, "  ", r);
    }
  }

  /** No tab in `key + "  " + val` when neither part holds one. */
  lemma NoTabIn(key: string, val: string)
    requires '\t' !in key && '\t' !in val
    ensures '\t' !in key + "  " + val
  {
    var text := key + "  " + val;
    forall k | 0 <= k < |text| ensures text[k] != '\t' {
      if k < |key| { assert text[k] == key[k]; }
      else if k >= |key| + 2 { assert text[k] == val[k - |key| - 2]; }
    }
  }

  /** The pieces of `key + "  " + val` are the key and the value when neither holds two spaces in
      a row, the key does not end with a space and the value does not start with one. */
  lemma SpaceParts(key: string, val: string)
    requires '\t' !in key && '\t' !in val
    requires !Contains(key, "  ") && !Contains(val, "  ")
    requires key == [] || key[|key| - 1] != ' '
    requires val == [] || val[0] != ' '
    ensures InlineParts(key + "  " + val) == [key, val]
  {
    NoTabIn(key, val);
    InlineNoTab(key + "  " + val);
    SpaceRuns(key, val);
  }

  /** A comment line `"//" + t` is the comment step for the stripped text `t`. */
  lemma CommentLine(st: ParseState, t: string, keep: bool)
    requires t == [] || (t[0] != '/' && t[|t| - 1] != '\n')
    ensures Step(st, "//" + t, keep) == CommentStep(st, Strip(t), keep)
  {
    CommentOf(t);
    StepIs(st, "//" + t, keep);
  }

  /** An inline comment outside the table stores its last piece under its first one. */
  lemma InlineComment(st: ParseState, text: string, keep: bool)
    requires !st.inTable && IsInline(text) && !IsTableHead(text) && !IsSectionTitle(text)
    ensures var parts := InlineParts(text);
            CommentStep(st, text, keep) ==
            st.(meta := Put(st.meta, Strip(parts[0]), PyStr(Strip(parts[|parts| - 1]))), lastKey := None)
  {
  }

  /** `"//Key<TAB>Value"` outside the table stores the value under the key and clears any
      pending key. */
  lemma InlineTab(st: ParseState, key: string, val: string, keep: bool)
    requires !st.inTable
    requires key != [] && val != [] && key[0] != '/' && Trimmed(key) && Trimmed(val)
    requires '\t' !in key && '\t' !in val
    requires !IsTableHead(key + "\t" + val) && !IsSectionTitle(key + "\t" + val)
    ensures Step(st, "//" + key + "\t" + val, keep) == st.(meta := Put(st.meta, key, PyStr(val)), lastKey := None)
  {
    var t := key + "\t" + val;
    assert "//" + key + "\t" + val == "//" + t;
    assert t[0] == key[0] && t[|t| - 1] == val[|val| - 1];
    CommentLine(st, t, keep);
    StripTrimmed(t);
    StripTrimmed(key);
    StripTrimmed(val);
    TabParts(key, val);
    assert IsInline(t) by { assert t[|key|] == '\t'; }
    InlineComment(st, t, keep);
  }

  /** Two spaces between key and value make the text inline. */
  lemma SpacedInline(key: string, val: string)
    ensures IsInline(key + "  " + val)
  {
    var t := key + "  " + val;
    assert t[|key|..|key| + 2] == "  ";
    ContainsAt(t, "  ", |key|);
  }

  /** `"//Key  Value"` (two or more spaces) outside the table stores the value under the key. */
  lemma InlineSpaces(st: ParseState, key: string, val: string, keep: bool)
    requires !st.inTable
    requires key != [] && val != [] && key[0] != '/' && Trimmed(key) && Trimmed(val)
    requires '\t' !in key && '\t' !in val && !Contains(key, "  ") && !Contains(val, "  ")
    requires !IsTableHead(key + "  " + val) && !IsSectionTitle(key + "  " + val)
    ensures Step(st, "//" + key + "  " + val, keep) == st.(meta := Put(st.meta, key, PyStr(val)), lastKey := None)
  {
    var t := key + "  " + val;
    assert "//" + key + "  " + val == "//" + t;
    assert t[0] == key[0] && t[|t| - 1] == val[|val| - 1];
    CommentLine(st, t, keep);
    StripTrimmed(t);
    StripTrimmed(key);
    StripTrimmed(val);
    SpaceParts(key, val);
    SpacedInline(key, val);
    InlineComment(st, t, keep);
  }

  /** A bare `"//Key"` outside the table makes the key pending; the next line that is not a
      comment and not blank becomes its value, and the key is no longer pending. */
  lemma PendingKey(st: ParseState, key: string, line: string, keep: bool)
    requires !st.inTable
    requires key != [] && key[0] != '/' && Trimmed(key)
    requires !IsInline(key) && !IsTableHead(key) && !IsSectionTitle(key)
    requires !StartsWith(RStripChar(line, '\n'), "//") && Strip(RStripChar(line, '\n')) != []
    ensures Step(st, "//" + key, keep) == st.(lastKey := Some(key))
    ensures Step(st.(lastKey := Some(key)), line, keep) ==
            st.(meta := Put(st.meta, key, PyStr(Strip(RStripChar(line, '\n')))), lastKey := None)
  {
    CommentOf(key);
    StripTrimmed(key);
  }

  /** A blank line that is not a comment changes nothing, so a pending key waits past it. */
  lemma BlankLine(st: ParseState, line: string, keep: bool)
    requires !StartsWith(RStripChar(line, '\n'), "//") && Strip(RStripChar(line, '\n')) == []
    ensures Step(st, line, keep) == st
  {
  }

  /** An empty comment or a section title ending in "ATTRIBUTES" outside the table adds nothing
      and drops the pending key. */
  lemma SectionTitle(st: ParseState, t: string, keep: bool)
    requires !st.inTable
    requires t == [] || (t[0] != '/' && Trimmed(t))
    requires IsSectionTitle(t) && !IsTableHead(t)
    ensures Step(st, "//" + t, keep) == st.(lastKey := None)
  {
    CommentOf(t);
    StripTrimmed(t);
  }

  /** What one comment line can change: in table mode it stores nothing and keeps the pending
      key; without `keep` it records no row and no column; it adds at most one row, of the
      current column count; and it stores text only. */
  lemma CommentStepFacts(st: ParseState, text: string, keep: bool)
    ensures var st' := CommentStep(st, text, keep);
            (st.inTable ==> st'.inTable && st'.meta == st.meta && st'.lastKey == st.lastKey) &&
            (!keep ==> st'.rows == st.rows && st'.columns == st.columns) &&
            (st'.rows == st.rows ||
             (keep && st.inTable &&
              exists vals :: |vals| == |st.columns| && st'.rows == st.rows + [RowOf(st.columns, vals)])) &&
            (TextValued(st.meta) ==> TextValued(st'.meta))
  {
    var st' := CommentStep(st, text, keep);
    if IsTableHead(text) {
    } else if st.inTable && keep {
      AddRowFacts(st, text);
    } else if st.inTable {
    } else if IsSectionTitle(text) {
    } else if IsInline(text) {
      var parts := InlineParts(text);
      PutText(st.meta, Strip(parts[0]), Strip(parts[|parts| - 1]));
    }
  }

  /** A row is added only when its values match the columns. */
  lemma AddRowFacts(st: ParseState, text: string)
    ensures var st' := AddRow(st, text);
            st'.inTable == st.inTable && st'.meta == st.meta && st'.lastKey == st.lastKey &&
            st'.columns == st.columns &&
            (st'.rows == st.rows ||
             exists vals :: |vals| == |st.columns| && st'.rows == st.rows + [RowOf(st.columns, vals)])
  {
    var vals := SplitSpaceRuns(text);
    if |vals| == |st.columns| {
      assert AddRow(st, text).rows == st.rows + [RowOf(st.columns, vals)];
    }
  }

  /** Storing text keeps every stored value text. */
  lemma PutText(d: Dict<PyVal>, k: string, s: string)
    ensures TextValued(d) ==> TextValued(Put(d, k, PyStr(s)))
  {
  }

  /** What one line other than a comment can change: the table mode and columns stay; without
      `keep` no row is recorded; at most one row of the current column count is added; and only
      text is stored. */
  lemma PlainStepFacts(st: ParseState, raw: string, keep: bool)
    ensures var st' := PlainStep(st, raw, keep);
            st'.inTable == st.inTable && st'.columns == st.columns &&
            (!keep ==> st'.rows == st.rows) &&
            (st'.rows == st.rows ||
             (keep && st.inTable &&
              exists vals :: |vals| == |st.columns| && st'.rows == st.rows + [RowOf(st.columns, vals)])) &&
            (TextValued(st.meta) ==> TextValued(st'.meta))
  {
    var st' := PlainStep(st, raw, keep);
    if st'.rows != st.rows {
      var vals := SplitSpaceRuns(Strip(raw));
      assert |vals| == |st.columns| && st'.rows == st.rows + [RowOf(st.columns, vals)];
    }
  }

  /** What any line can change, from the two cases above. */
  lemma StepFacts(st: ParseState, line: string, keep: bool)
    ensures var st' := Step(st, line, keep);
            (st.inTable ==> st'.inTable) &&
            (st.inTable && StartsWith(RStripChar(line, '\n'), "//") ==>
               st'.meta == st.meta && st'.lastKey == st.lastKey) &&
            (!keep ==> st'.rows == st.rows && st'.columns == st.columns) &&
            (st'.rows == st.rows ||
             (keep && st.inTable &&
              exists vals :: |vals| == |st.columns| && st'.rows == st.rows + [RowOf(st.columns, vals)])) &&
            (TextValued(st.meta) ==> TextValued(st'.meta))
  {
    StepIs(st, line, keep);
    var raw := RStripChar(line, '\n');
    if StartsWith(raw, "//") {
      CommentStepFacts(st, CommentText(raw), keep);
    } else {
      PlainStepFacts(st, raw, keep);
    }
  }

  /** The table mode, once on, stays on for the rest of the file. */
  lemma {:induction false} TableStaysOn(lines: seq<string>, i: nat, j: nat, keep: bool)
    requires i <= j <= |lines| && Run(lines[..i], keep).inTable
    ensures Run(lines[..j], keep).inTable
    decreases j - i
  {
    if i < j {
      StepKeepsTable(lines, i, keep);
      TableStaysOn(lines, i + 1, j, keep);
    }
  }

  /** One line read in table mode leaves the table mode on. */
  lemma StepKeepsTable(lines: seq<string>, j: nat, keep: bool)
    requires j < |lines| && Run(lines[..j], keep).inTable
    ensures Run(lines[..j + 1], keep).inTable
  {
    RunStep(lines, j, keep);
    StepFacts(Run(lines[..j], keep), lines[j], keep);
  }

  /** After the table starts, comment lines never store a value or set a pending key. */
  lemma {:induction false} TableCommentsInert(lines: seq<string>, i: nat, j: nat, keep: bool)
    requires i <= j <= |lines| && Run(lines[..i], keep).inTable
    requires forall k :: i <= k < j ==> StartsWith(RStripChar(lines[k], '\n'), "//")
    ensures Run(lines[..j], keep).inTable
    ensures Run(lines[..j], keep).meta == Run(lines[..i], keep).meta
    ensures Run(lines[..j], keep).lastKey == Run(lines[..i], keep).lastKey
    decreases j
  {
    if j > i {
      TableCommentsInert(lines, i, j - 1, keep);
      RunStep(lines, j - 1, keep);
      StepFacts(Run(lines[..j - 1], keep), lines[j - 1], keep);
    }
  }

  /** A line adds at most one row, only in table mode with the table kept, and only a row that
      splits into exactly as many fields as the current columns. */
  lemma StepRows(st: ParseState, line: string, keep: bool)
    ensures var st' := Step(st, line, keep);
            st'.rows == st.rows ||
            (keep && st.inTable &&
             exists vals :: |vals| == |st.columns| && st'.rows == st.rows + [RowOf(st.columns, vals)])
  {
    StepFacts(st, line, keep);
  }

  /** Without `keep_spectral_table` no row and no column is ever recorded. */
  lemma {:induction false} NoTableWithoutKeep(lines: seq<string>)
    ensures Run(lines, false).rows == [] && Run(lines, false).columns == []
    decreases |lines|
  {
    if lines != [] {
      NoTableWithoutKeep(lines[..|lines| - 1]);
      StepFacts(Run(lines[..|lines| - 1], false), lines[|lines| - 1], false);
    }
  }

  ghost predicate TextValued(d: Dict<PyVal>) {
    forall k :: Get(d, k).Some? ==> Get(d, k).value.PyStr?
  }

  /** Every value the parser stores under a header key is a string. */
  lemma {:induction false} RunTextValued(lines: seq<string>, keep: bool)
    ensures TextValued(Run(lines, keep).meta)
    decreases |lines|
  {
    if lines != [] {
      RunTextValued(lines[..|lines| - 1], keep);
      StepFacts(Run(lines[..|lines| - 1], keep), lines[|lines| - 1], keep);
    }
  }

  /** The `spectral_table` entry of the returned dict, for a state whose stored values are text. */
  lemma FinishTable(st: ParseState, keep: bool)
    requires TextValued(st.meta)
    ensures var r := Get(Finish(st, keep), "spectral_table");
            ((r.Some? && r.value.PyList?) <==> keep) && (keep ==> r == Some(TableValue(st.rows)))
  {
  }

  /** `spectral_table` holds a list exactly when the table is kept, and then the list holds the
      recorded rows in order. */
  lemma SpectralTable(lines: seq<string>, keep: bool)
    ensures var r := Get(Finish(Run(lines, keep), keep), "spectral_table");
            (r.Some? && r.value.PyList?) <==> keep
    ensures keep ==> Get(Finish(Run(lines, keep), keep), "spectral_table") == Some(TableValue(Run(lines, keep).rows))
  {
    RunTextValued(lines, keep);
    FinishTable(Run(lines, keep), keep);
  }

  /** A kept row maps each column to its field; with a repeated column name the later field wins. */
  lemma RowField(columns: seq<string>, vals: seq<string>, i: nat)
    requires |columns| == |vals| && i < |columns|
    requires forall j :: i < j < |columns| ==> columns[j] != columns[i]
    ensures Get(RowOf(columns, vals), columns[i]) == Some(PyStr(vals[i]))
  {
    var es := RowEntries(columns, vals);
    forall j | i < j < |es| ensures !HasKey(es[j], es[i].value.0) {
    }
    CollectLastWins(es, i);
  }
}
