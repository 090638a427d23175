/** Python string operations used by the header parsers and the naming rules, over `string`
    (a sequence of Unicode scalar values). Case mapping covers ASCII letters only. */
module Text {

  /** Python's `str.isspace()`, which is also what `\s` matches in a `str` regular expression. */
  predicate IsSpace(c: char) {
    var n := c as int;
    (9 <= n <= 13) || (28 <= n <= 32) || n == 0x85 || n == 0xA0 || n == 0x1680
    || (0x2000 <= n <= 0x200A) || n == 0x2028 || n == 0x2029 || n == 0x202F
    || n == 0x205F || n == 0x3000
  }

  predicate IsAsciiUpper(c: char) { 'A' <= c <= 'Z' }
  predicate IsAsciiLower(c: char) { 'a' <= c <= 'z' }
  predicate IsAsciiLetter(c: char) { IsAsciiUpper(c) || IsAsciiLower(c) }
  predicate IsDigit(c: char) { '0' <= c <= '9' }

  function LowerChar(c: char): char {
    if IsAsciiUpper(c) then (c as int + 32) as char else c
  }

  function UpperChar(c: char): char {
    if IsAsciiLower(c) then (c as int - 32) as char else c
  }

  /** `str.lower()` */
  function Lower(s: string): string {
    seq(|s|, i requires 0 <= i < |s| => LowerChar(s[i]))
  }

  /** `str.upper()` */
  function Upper(s: string): string {
    seq(|s|, i requires 0 <= i < |s| => UpperChar(s[i]))
  }

  /** The end of the run of white space that starts at `i`. */
  function SpacesFrom(s: string, i: nat): (j: nat)
    requires i <= |s|
    ensures i <= j <= |s| && (j == |s| || !IsSpace(s[j]))
    ensures forall k :: i <= k < j ==> IsSpace(s[k])
    decreases |s| - i
  {
    if i < |s| && IsSpace(s[i]) then SpacesFrom(s, i + 1) else i
  }

  /** The start of the run of white space that ends at `j`. */
  function SpacesBefore(s: string, j: nat): (i: nat)
    requires j <= |s|
    ensures i <= j && (i == 0 || !IsSpace(s[i - 1]))
    ensures forall k :: i <= k < j ==> IsSpace(s[k])
  {
    if j > 0 && IsSpace(s[j - 1]) then SpacesBefore(s, j - 1) else j
  }

  /** `str.lstrip()`: the longest suffix that does not start with white space. */
  function LStrip(s: string): (r: string)
    ensures |r| <= |s| && r == s[|s| - |r|..]
    ensures r == [] || !IsSpace(r[0])
    ensures forall i :: 0 <= i < |s| - |r| ==> IsSpace(s[i])
  {
    s[SpacesFrom(s, 0)..]
  }

  /** `str.rstrip()`: the longest prefix that does not end with white space. */
  function RStrip(s: string): (r: string)
    ensures |r| <= |s| && r == s[..|r|]
    ensures r == [] || !IsSpace(r[|r| - 1])
    ensures forall i :: |r| <= i < |s| ==> IsSpace(s[i])
  {
    s[..SpacesBefore(s, |s|)]
  }

  /** `str.strip()` */
  function Strip(s: string): string {
    RStrip(LStrip(s))
  }

  /** Leading white space disappears under `lstrip` up to the first other character. */
  lemma LStripSpaces(a: string, s: string)
    requires forall k :: 0 <= k < |a| ==> IsSpace(a[k])
    requires s == [] || !IsSpace(s[0])
    ensures LStrip(a + s) == s
  {
    var t := a + s;
    assert forall k :: 0 <= k < |a| ==> t[k] == a[k];
    assert |a| < |t| ==> t[|a|] == s[0];
    assert SpacesFrom(t, 0) == |a|;
    assert t[|a|..] == s;
  }

  /** Trailing white space disappears under `rstrip` back to the last other character. */
  lemma RStripSpaces(s: string, b: string)
    requires forall k :: 0 <= k < |b| ==> IsSpace(b[k])
    requires s == [] || !IsSpace(s[|s| - 1])
    ensures RStrip(s + b) == s
  {
    var t := s + b;
    assert forall k :: |s| <= k < |t| ==> t[k] == b[k - |s|];
    assert 0 < |s| ==> t[|s| - 1] == s[|s| - 1];
    assert SpacesBefore(t, |t|) == |s|;
    assert t[..|s|] == s;
  }

  /** `strip` removes white-space padding and nothing else. */
  lemma StripPadded(a: string, s: string, b: string)
    requires forall k :: 0 <= k < |a| ==> IsSpace(a[k])
    requires forall k :: 0 <= k < |b| ==> IsSpace(b[k])
    requires s == [] || (!IsSpace(s[0]) && !IsSpace(s[|s| - 1]))
    ensures Strip(a + s + b) == s
  {
    if s == [] {
      assert a + s + b == a + b;
      LStripSpaces(a + b, []);
      assert a + b + [] == a + b;
    } else {
      assert a + s + b == a + (s + b);
      LStripSpaces(a, s + b);
      RStripSpaces(s, b);
    }
  }

  /** Neither end is white space. */
  predicate Trimmed(s: string) {
    s == [] || (!IsSpace(s[0]) && !IsSpace(s[|s| - 1]))
  }

  /** `strip` leaves a trimmed string as it is. */
  lemma StripTrimmed(s: string)
    requires Trimmed(s)
    ensures Strip(s) == s
  {
    assert SpacesFrom(s, 0) == 0 && s[0..] == s;
    assert SpacesBefore(s, |s|) == |s| && s[..|s|] == s;
  }

  /** Python's `sub in s` holds when `sub` occurs at position `i`. */
  lemma ContainsAt(s: string, sub: string, i: nat)
    requires i + |sub| <= |s| && s[i..i + |sub|] == sub
    ensures Contains(s, sub)
  {
    OccursAt(s, sub, 0, i);
  }

  lemma {:induction false} OccursAt(s: string, sub: string, j: nat, i: nat)
    requires j <= i && i + |sub| <= |s| && s[i..i + |sub|] == sub
    ensures OccursFrom(s, sub, j)
    decreases i - j
  {
    if j < i {
      OccursAt(s, sub, j + 1, i);
    }
  }

  /** A string in which `sub` does not occur has no occurrence at any position. */
  lemma NotContainsAt(s: string, sub: string, i: nat)
    requires !Contains(s, sub) && i + |sub| <= |s|
    ensures s[i..i + |sub|] != sub
  {
    if s[i..i + |sub|] == sub {
      ContainsAt(s, sub, i);
    }
  }

  /** Every character of `s.strip()` comes from `s`. */
  lemma StripIn(s: string)
    ensures forall c :: c in Strip(s) ==> c in s
  {
    var l := LStrip(s);
    var r := RStrip(l);
    forall c | c in r ensures c in s {
      var i :| 0 <= i < |r| && r[i] == c;
      assert l[i] == c;
      assert s[|s| - |l| + i] == c;
    }
  }

  /** `str.lstrip(c)` for a single character `c`. */
  function LStripChar(s: string, c: char): (r: string)
    ensures |r| <= |s| && r == s[|s| - |r|..]
    ensures r == [] || r[0] != c
  {
    s[CharsFrom(s, c, 0)..]
  }

  /** The end of the run of `c` that starts at `i`. */
  function CharsFrom(s: string, c: char, i: nat): (j: nat)
    requires i <= |s|
    ensures i <= j <= |s| && (j == |s| || s[j] != c)
    ensures forall k :: i <= k < j ==> s[k] == c
    decreases |s| - i
  {
    if i < |s| && s[i] == c then CharsFrom(s, c, i + 1) else i
  }

  /** The start of the run of `c` that ends at `j`. */
  function CharsBefore(s: string, c: char, j: nat): (i: nat)
    requires j <= |s|
    ensures i <= j && (i == 0 || s[i - 1] != c)
    ensures forall k :: i <= k < j ==> s[k] == c
  {
    if j > 0 && s[j - 1] == c then CharsBefore(s, c, j - 1) else j
  }

  /** A run of `c` disappears under `lstrip(c)` up to the first other character. */
  lemma LStripCharRun(a: string, s: string, c: char)
    requires forall k :: 0 <= k < |a| ==> a[k] == c
    requires s == [] || s[0] != c
    ensures LStripChar(a + s, c) == s
  {
    var t := a + s;
    assert forall k :: 0 <= k < |a| ==> t[k] == a[k];
    assert |a| < |t| ==> t[|a|] == s[0];
    assert CharsFrom(t, c, 0) == |a|;
    assert t[|a|..] == s;
  }

  /** Two leading copies of `c` disappear under `lstrip(c)` when no third one follows. */
  lemma LStripTwo(c: char, t: string)
    requires t == [] || t[0] != c
    ensures LStripChar([c, c] + t, c) == t
  {
    LStripCharRun([c, c], t, c);
  }

  /** `str.rstrip(c)` for a single character `c`. */
  function RStripChar(s: string, c: char): (r: string)
    ensures |r| <= |s| && r == s[..|r|]
    ensures r == [] || r[|r| - 1] != c
  {
    s[..CharsBefore(s, c, |s|)]
  }

  predicate StartsWith(s: string, p: string) {
    |p| <= |s| && s[..|p|] == p
  }

  predicate EndsWith(s: string, p: string) {
    |p| <= |s| && s[|s| - |p|..] == p
  }

  /** Python's `sub in s`. */
  predicate Contains(s: string, sub: string) {
    OccursFrom(s, sub, 0)
  }

  /** `sub` occurs in `s` at position `i` or later. */
  predicate OccursFrom(s: string, sub: string, i: nat)
    decreases |s| - i
  {
    i + |sub| <= |s| && (s[i..i + |sub|] == sub || (i < |s| && OccursFrom(s, sub, i + 1)))
  }

  /** Index of the first occurrence of `c` (Python's `s.index(c)`). */
  function IndexOf(s: string, c: char): (r: nat)
    requires c in s
    ensures r < |s| && s[r] == c && c !in s[..r]
  {
    var r := FindFrom(s, c, 0);
    assert forall k :: 0 <= k < r ==> s[..r][k] == s[k];
    r
  }

  /** The first `c` at or after `i`. */
  function FindFrom(s: string, c: char, i: nat): (r: nat)
    requires i <= |s| && exists k :: i <= k < |s| && s[k] == c
    ensures i <= r < |s| && s[r] == c && forall k :: i <= k < r ==> s[k] != c
    decreases |s| - i
  {
    if s[i] == c then i else FindFrom(s, c, i + 1)
  }

  /** Index of the last occurrence of `c` (Python's `s.rindex(c)`). */
  function LastIndexOf(s: string, c: char): (r: nat)
    requires c in s
    ensures r < |s| && s[r] == c && c !in s[r + 1..]
  {
    var r := FindBefore(s, c, |s|);
    var t := s[r + 1..];
    assert forall k :: 0 <= k < |t| ==> t[k] == s[r + 1 + k];
    r
  }

  /** The last `c` before `j`. */
  function FindBefore(s: string, c: char, j: nat): (r: nat)
    requires j <= |s| && exists k :: 0 <= k < j && s[k] == c
    ensures r < j && s[r] == c && forall k :: r < k < j ==> s[k] != c
  {
    if s[j - 1] == c then j - 1 else FindBefore(s, c, j - 1)
  }

  /** `s.split(sep)` for a one-character separator: the pieces between every pair of separators. */
  function Split(s: string, sep: char): (r: seq<string>)
    ensures |r| >= 1
    ensures forall i :: 0 <= i < |r| ==> sep !in r[i]
    decreases |s|
  {
    if sep !in s then [s]
    else
      var i := IndexOf(s, sep);
      [s[..i]] + Split(s[i + 1..], sep)
  }

  /** `sep.join(parts)` */
  function Join(sep: string, parts: seq<string>): string
    decreases |parts|
  {
    if |parts| == 0 then ""
    else if |parts| == 1 then parts[0]
    else parts[0] + sep + Join(sep, parts[1..])
  }

  /** Splitting a join on a separator that no part contains gives the parts back. */
  lemma {:induction false} SplitJoin(parts: seq<string>, sep: char)
    requires |parts| >= 1
    requires forall i :: 0 <= i < |parts| ==> sep !in parts[i]
    ensures Split(Join([sep], parts), sep) == parts
    decreases |parts|
  {
    if |parts| == 1 {
    } else {
      var s := Join([sep], parts);
      var rest := Join([sep], parts[1..]);
      assert s == parts[0] + [sep] + rest;
      IndexOfAfter(parts[0], sep, rest);
      assert s[|parts[0]| + 1..] == rest;
      assert s[..|parts[0]|] == parts[0];
      SplitJoin(parts[1..], sep);
    }
  }

  /** The first `c` in `p + [c] + rest` is the one after `p` when `p` holds none. */
  lemma {:induction false} IndexOfAfter(p: string, c: char, rest: string)
    requires c !in p
    ensures c in p + [c] + rest && IndexOf(p + [c] + rest, c) == |p|
    decreases |p|
  {
    var s := p + [c] + rest;
    assert s[|p|] == c;
    if p != [] {
      assert s[1..] == p[1..] + [c] + rest;
      IndexOfAfter(p[1..], c, rest);
    }
  }

  /** The last `c` in `p + [c] + rest` is the one before `rest` when `rest` holds none. */
  lemma {:induction false} LastIndexOfBefore(p: string, c: char, rest: string)
    requires c !in rest
    ensures c in p + [c] + rest && LastIndexOf(p + [c] + rest, c) == |p|
    decreases |rest|
  {
    var s := p + [c] + rest;
    assert s[|p|] == c;
    if rest != [] {
      assert s[..|s| - 1] == p + [c] + rest[..|rest| - 1];
      LastIndexOfBefore(p, c, rest[..|rest| - 1]);
    }
  }

  /** Joining the pieces of a split with the same separator gives the string back. */
  lemma {:induction false} JoinSplit(s: string, sep: char)
    ensures Join([sep], Split(s, sep)) == s
    decreases |s|
  {
    if sep in s {
      var i := IndexOf(s, sep);
      var tail := s[i + 1..];
      var parts := Split(s, sep);
      assert parts == [s[..i]] + Split(tail, sep);
      JoinSplit(tail, sep);
      assert parts[1..] == Split(tail, sep);
      assert Join([sep], parts) == s[..i] + [sep] + Join([sep], parts[1..]);
      assert s == s[..i] + [sep] + tail;
    }
  }

  /** A join ends with its last part. */
  lemma {:induction false} JoinLast(parts: seq<string>, sep: char)
    requires |parts| >= 1
    ensures EndsWith(Join([sep], parts), parts[|parts| - 1])
    decreases |parts|
  {
    if |parts| > 1 {
      JoinLast(parts[1..], sep);
      var rest := Join([sep], parts[1..]);
      assert Join([sep], parts) == parts[0] + [sep] + rest;
      assert parts[1..][|parts[1..]| - 1] == parts[|parts| - 1];
    }
  }

  /** Drops the leading characters that satisfy `p`. */
  function DropWhile(s: string, p: char -> bool): (r: string)
    ensures |r| <= |s| && r == s[|s| - |r|..]
    ensures r == [] || !p(r[0])
  {
    s[RunFrom(s, p, 0)..]
  }

  /** The end of the run of characters satisfying `p` that starts at `i`. */
  function RunFrom(s: string, p: char -> bool, i: nat): (j: nat)
    requires i <= |s|
    ensures i <= j <= |s| && (j == |s| || !p(s[j]))
    ensures forall k :: i <= k < j ==> p(s[k])
    decreases |s| - i
  {
    if i < |s| && p(s[i]) then RunFrom(s, p, i + 1) else i
  }

  /** A run of characters satisfying `p` is dropped up to the first other character. */
  lemma DropWhileRun(a: string, s: string, p: char -> bool)
    requires forall k :: 0 <= k < |a| ==> p(a[k])
    requires s == [] || !p(s[0])
    ensures DropWhile(a + s, p) == s
  {
    var t := a + s;
    assert forall k :: 0 <= k < |a| ==> t[k] == a[k];
    assert |a| < |t| ==> t[|a|] == s[0];
    assert RunFrom(t, p, 0) == |a|;
    assert t[|a|..] == s;
  }

  /** `re.sub("[P]+", rep, s)`: every maximal run of characters satisfying `p` becomes `rep`. */
  function ReplaceRuns(s: string, p: char -> bool, rep: string): string
    decreases |s|
  {
    if s == [] then []
    else if p(s[0]) then rep + ReplaceRuns(DropWhile(s, p), p, rep)
    else [s[0]] + ReplaceRuns(s[1..], p, rep)
  }

  /** `re.split(r"\s+", s)`: the pieces between maximal runs of white space (empty at the ends
      when `s` starts or ends with white space). */
  function SplitSpaceRuns(s: string): (r: seq<string>)
    ensures |r| >= 1
    ensures forall k :: 0 <= k < |r| ==> forall c :: c in r[k] ==> !IsSpace(c)
    decreases |s|
  {
    if forall c :: c in s ==> !IsSpace(c) then [s]
    else
      var i := FirstSpace(s);
      var rest := DropWhile(s[i..], IsSpace);
      [s[..i]] + SplitSpaceRuns(rest)
  }

  function FirstSpace(s: string): (r: nat)
    requires exists c :: c in s && IsSpace(c)
    ensures r < |s| && IsSpace(s[r]) && forall c :: c in s[..r] ==> !IsSpace(c)
  {
    var r := SpaceFrom(s, 0);
    assert forall k :: 0 <= k < r ==> s[..r][k] == s[k];
    r
  }

  /** The first white-space character at or after `i`. */
  function SpaceFrom(s: string, i: nat): (r: nat)
    requires i <= |s| && exists k :: i <= k < |s| && IsSpace(s[k])
    ensures i <= r < |s| && IsSpace(s[r]) && forall k :: i <= k < r ==> !IsSpace(s[k])
    decreases |s| - i
  {
    if IsSpace(s[i]) then i else SpaceFrom(s, i + 1)
  }

  /** `str.split()` with no argument: the non-empty words between runs of white space. */
  function SplitWords(s: string): (r: seq<string>)
    ensures forall k :: 0 <= k < |r| ==> r[k] != []
  {
    NonEmpty(SplitSpaceRuns(s))
  }

  function NonEmpty(ss: seq<string>): (r: seq<string>)
    ensures forall k :: 0 <= k < |r| ==> r[k] != []
    ensures forall k :: 0 <= k < |ss| && ss[k] != [] ==> ss[k] in r
    ensures forall w :: w in r ==> w in ss
  {
    if ss == [] then []
    else if ss[0] == [] then NonEmpty(ss[1..])
    else [ss[0]] + NonEmpty(ss[1..])
  }

  predicate IsBlank(c: char) { c == ' ' }

  /** The first pair of adjacent spaces at or after `i`, or `|s|` when there is none. */
  function DoubleSpaceFrom(s: string, i: nat): (r: nat)
    requires i <= |s|
    ensures i <= r <= |s|
    ensures r < |s| ==> r + 1 < |s| && s[r] == ' ' && s[r + 1] == ' '
    ensures forall k :: i <= k < r && k + 1 < |s| ==> !(s[k] == ' ' && s[k + 1] == ' ')
    decreases |s| - i
  {
    if i + 1 >= |s| then |s|
    else if s[i] == ' ' && s[i + 1] == ' ' then i
    else DoubleSpaceFrom(s, i + 1)
  }

  /** `re.split(r" {2,}", s)`: the pieces between maximal runs of two or more spaces. */
  function SplitSpaceRuns2(s: string): (r: seq<string>)
    ensures |r| >= 1
    decreases |s|
  {
    var i := DoubleSpaceFrom(s, 0);
    if i == |s| then [s]
    else
      var rest := DropWhile(s[i..], IsBlank);
      assert |rest| < |s| by {
        if |rest| == |s| - i {
          assert rest[0] == s[i];
        }
      }
      [s[..i]] + SplitSpaceRuns2(rest)
  }

  /** `os.path.basename(p)`: the text after the last `/`. */
  function Basename(p: string): (r: string)
    ensures '/' !in r && EndsWith(p, r)
  {
    if '/' in p then p[LastIndexOf(p, '/') + 1..] else p
  }
}
