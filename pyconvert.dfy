/** Python's conversions of header values (`int(v)`, `float(v)`), the text-valued view of a
    parsed header, and the key normalisation `re.sub(r"\s+", " ", k).strip().lower()` shared by
    the EOPF writer and the geometry layers. */
module PyConvert {
  import opened Wrappers
  import opened Text
  import opened Numbers
  import opened PyValues

  /** Python's `int(v)` on a header value: an `int` as it is, a `float` truncated toward zero,
      a `str` parsed as a decimal integer; anything else raises. */
  function PyToInt(v: PyVal): (r: Option<int>)
    ensures v.PyInt? ==> r == Some(v.i)
    ensures v.PyFloat? && v.x >= 0.0 ==> r.Some? && 0 <= r.value && r.value as real <= v.x < r.value as real + 1.0
    ensures v.PyFloat? && v.x < 0.0 ==> r.Some? && r.value <= 0 && r.value as real - 1.0 < v.x <= r.value as real
    ensures v.PyStr? ==> r == ParseInt(v.s)
    ensures !(v.PyInt? || v.PyFloat? || v.PyStr?) ==> r.None?
  {
    match v
    case PyInt(i) => Some(i)
    case PyFloat(x) => Some(Trunc(x))
    case PyStr(s) => ParseInt(s)
    case _ => None
  }

  /** Python's `float(v)`, which for these values is also `float(str(v).strip())`: an `int` or
      a `float` as its value, a `str` parsed as a decimal literal; `None` and containers raise
      (their `str` texts are never numerals). */
  function PyToFloat(v: PyVal): (r: Option<real>)
    ensures v.PyInt? ==> r == Some(v.i as real)
    ensures v.PyFloat? ==> r == Some(v.x)
    ensures v.PyStr? ==> r == ParseFloat(v.s)
    ensures (v.PyNone? || v.PyList? || v.PyDict?) ==> r.None?
  {
    match v
    case PyInt(i) => Some(i as real)
    case PyFloat(x) => Some(x)
    case PyStr(s) => ParseFloat(s)
    case _ => None
  }

  /** The entries of a header dict whose values are strings, in order. */
  function TextMeta(d: Dict<PyVal>): (r: Dict<string>)
    ensures |r| <= |d|
    decreases |d|
  {
    if d == [] then []
    else if d[0].1.PyStr? then [(d[0].0, d[0].1.s)] + TextMeta(d[1..])
    else TextMeta(d[1..])
  }

  /** A key missing from the header is missing from its text view, and a key whose value is a
      string has that string there. */
  lemma {:induction false} TextMetaGet(d: Dict<PyVal>, k: string)
    ensures Get(d, k).None? ==> Get(TextMeta(d), k).None?
    ensures Get(d, k).Some? && Get(d, k).value.PyStr? ==> Get(TextMeta(d), k) == Some(Get(d, k).value.s)
    decreases |d|
  {
    if d != [] {
      TextMetaGet(d[1..], k);
    }
  }

  /** A dict of strings as a dict of Python values. */
  function StrValues(d: Dict<string>): (r: Dict<PyVal>)
    ensures |r| == |d| && forall i :: 0 <= i < |d| ==> r[i] == (d[i].0, PyStr(d[i].1))
  {
    seq(|d|, i requires 0 <= i < |d| => (d[i].0, PyStr(d[i].1)))
  }

  lemma {:induction false} StrValuesGet(d: Dict<string>, k: string)
    ensures Get(StrValues(d), k) == match Get(d, k) case None => None case Some(s) => Some(PyStr(s))
    decreases |d|
  {
    if d != [] {
      assert StrValues(d)[1..] == StrValues(d[1..]);
      StrValuesGet(d[1..], k);
    }
  }

  lemma StrValuesKeys(d: Dict<string>)
    ensures Keys(StrValues(d)) == Keys(d)
  {
  }

  /** `re.sub(r"\s+", " ", k).strip().lower()` */
  function NormKey(k: string): string {
    Lower(Strip(ReplaceRuns(k, IsSpace, " ")))
  }

  /** `{NormKey(k): v for k, v in d.items()}` */
  function NormKeys<V>(d: Dict<V>): Dict<V> {
    Rekey(d, NormKey)
  }

  /** Every white-space character is a plain space and no two of them are adjacent. */
  predicate SingleSpaced(s: string) {
    forall i :: 0 <= i < |s| && IsSpace(s[i]) ==> s[i] == ' ' && (i + 1 < |s| ==> !IsSpace(s[i + 1]))
  }

  predicate NoUpper(s: string) {
    forall i :: 0 <= i < |s| ==> !IsAsciiUpper(s[i])
  }

  /** The shape of a normalised key: single spaces between words, none at the ends, no ASCII
      capitals. */
  predicate NormalKey(s: string) {
    SingleSpaced(s) && Trimmed(s) && NoUpper(s)
  }

  /** A normalised key is in normal form. */
  lemma NormKeyNormal(k: string)
    ensures NormalKey(NormKey(k))
  {
    var r := ReplaceRuns(k, IsSpace, " ");
    ReplaceRunsSingle(k);
    StripSingle(r);
    LowerKeeps(Strip(r));
  }

  /** Stripping keeps single spacing and trims both ends. */
  lemma StripSingle(r: string)
    requires SingleSpaced(r)
    ensures SingleSpaced(Strip(r)) && Trimmed(Strip(r))
  {
    var l := LStrip(r);
    SliceSingle(r, |r| - |l|, |r|);
    assert r[|r| - |l|..|r|] == l;
    var t := RStrip(l);
    SliceSingle(l, 0, |t|);
    assert l[0..|t|] == t;
    StripEnds(r);
  }

  lemma StripEnds(r: string)
    ensures Trimmed(Strip(r))
  {
    var l := LStrip(r);
    var t := RStrip(l);
    if t != [] {
      assert t[0] == l[0];
    }
  }

  /** A key in normal form is its own normalisation, so normalising twice is normalising once. */
  lemma NormKeyFixed(s: string)
    requires NormalKey(s)
    ensures NormKey(s) == s
  {
    ReplaceRunsFixed(s);
    StripTrimmed(s);
    assert Lower(s) == s;
  }

  lemma NormKeyIdempotent(k: string)
    ensures NormKey(NormKey(k)) == NormKey(k)
  {
    NormKeyNormal(k);
    NormKeyFixed(NormKey(k));
  }

  lemma {:induction false} ReplaceRunsSingle(s: string)
    ensures SingleSpaced(ReplaceRuns(s, IsSpace, " "))
    ensures s != [] && !IsSpace(s[0]) ==> ReplaceRuns(s, IsSpace, " ")[0] == s[0]
    decreases |s|
  {
    if s != [] {
      if IsSpace(s[0]) {
        var t := DropWhile(s, IsSpace);
        ReplaceRunsSingle(t);
        ConsSingle(' ', ReplaceRuns(t, IsSpace, " "));
      } else {
        ReplaceRunsSingle(s[1..]);
        ConsSingle(s[0], ReplaceRuns(s[1..], IsSpace, " "));
      }
    }
  }

  lemma ConsSingle(c: char, x: string)
    requires SingleSpaced(x)
    requires !IsSpace(c) || (c == ' ' && (x == [] || !IsSpace(x[0])))
    ensures SingleSpaced([c] + x)
  {
    var s := [c] + x;
    forall i | 0 <= i < |s| && IsSpace(s[i]) ensures s[i] == ' ' && (i + 1 < |s| ==> !IsSpace(s[i + 1])) {
      if i > 0 {
        assert s[i] == x[i - 1];
        if i + 1 < |s| {
          assert s[i + 1] == x[i];
        }
      }
    }
  }

  lemma SliceSingle(s: string, a: nat, b: nat)
    requires a <= b <= |s| && SingleSpaced(s)
    ensures SingleSpaced(s[a..b])
  {
    var t := s[a..b];
    forall i | 0 <= i < |t| && IsSpace(t[i]) ensures t[i] == ' ' && (i + 1 < |t| ==> !IsSpace(t[i + 1])) {
      assert t[i] == s[a + i];
      if i + 1 < |t| {
        assert t[i + 1] == s[a + i + 1];
      }
    }
  }

  /** ASCII lower-casing neither creates nor removes white space. */
  lemma LowerKeeps(t: string)
    requires SingleSpaced(t) && Trimmed(t)
    ensures NormalKey(Lower(t))
  {
    var u := Lower(t);
    forall i | 0 <= i < |u| ensures IsSpace(u[i]) <==> IsSpace(t[i]) {
      if IsAsciiUpper(t[i]) {
        assert 'a' <= u[i] <= 'z';
      }
    }
    forall i | 0 <= i < |u| && IsSpace(u[i]) ensures u[i] == ' ' && (i + 1 < |u| ==> !IsSpace(u[i + 1])) {
      assert IsSpace(t[i]);
      if i + 1 < |u| {
        assert IsSpace(u[i + 1]) <==> IsSpace(t[i + 1]);
      }
    }
  }

  lemma {:induction false} ReplaceRunsFixed(s: string)
    requires SingleSpaced(s)
    ensures ReplaceRuns(s, IsSpace, " ") == s
    decreases |s|
  {
    if s != [] {
      var t := s[1..];
      SliceSingle(s, 1, |s|);
      assert s[1..|s|] == t;
      ReplaceRunsFixed(t);
      if IsSpace(s[0]) {
        assert t == [] || !IsSpace(t[0]) by {
          assert |t| > 0 ==> t[0] == s[1];
        }
        assert s == " " + t;
        DropWhileRun(" ", t, IsSpace);
      } else {
        assert s == [s[0]] + t;
      }
    }
  }

  /** The value of the last entry whose key `f` sends to `k`. */
  function FindLast<V>(d: Dict<V>, f: string -> string, k: string): Option<V>
    decreases |d|
  {
    if d == [] then None
    else
      var t := FindLast(d[1..], f, k);
      if t.Some? then t else if f(d[0].0) == k then Some(d[0].1) else None
  }

  /** After re-keying, a new key holds the value of the last old entry that maps to it. */
  lemma {:induction false} RekeyIntoGet<V>(acc: Dict<V>, d: Dict<V>, f: string -> string, k: string)
    ensures Get(RekeyInto(acc, d, f), k) == if FindLast(d, f, k).Some? then FindLast(d, f, k) else Get(acc, k)
    decreases |d|
  {
    if d != [] {
      RekeyIntoGet(Put(acc, f(d[0].0), d[0].1), d[1..], f, k);
    }
  }

  /** `_norm_keys`: a normalised key holds the value of the last original key with that
      normalisation, and every key of the result is in normal form. */
  lemma NormKeysGet<V>(d: Dict<V>, k: string)
    ensures Get(NormKeys(d), k) == FindLast(d, NormKey, k)
    ensures k in Keys(NormKeys(d)) ==> NormalKey(k)
  {
    RekeyIntoGet([], d, NormKey, k);
    RekeyIntoKeys([], d, NormKey, k);
    if k in Keys(NormKeys(d)) {
      var i :| 0 <= i < |d| && NormKey(d[i].0) == k;
      NormKeyNormal(d[i].0);
    }
  }

  /** The identity on keys: `dict.update` is a rekeying by it. */
  function Same(k: string): string { k }

  lemma {:induction false} UpdateIsRekey<V>(d: Dict<V>, e: Dict<V>)
    ensures Update(d, e) == RekeyInto(d, e, Same)
    decreases |e|
  {
    if e != [] {
      UpdateIsRekey(Put(d, e[0].0, e[0].1), e[1..]);
    }
  }

  /** After `d.update(e)` a key holds its last value in `e`, or its old value when `e` lacks it. */
  lemma UpdateGet<V>(d: Dict<V>, e: Dict<V>, k: string)
    ensures Get(Update(d, e), k) == if FindLast(e, Same, k).Some? then FindLast(e, Same, k) else Get(d, k)
  {
    UpdateIsRekey(d, e);
    RekeyIntoGet(d, e, Same, k);
  }

  /** Without repeated keys the last value of a key is its only one. */
  lemma {:induction false} FindLastSame<V>(e: Dict<V>, k: string)
    requires Wf(e)
    ensures FindLast(e, Same, k) == Get(e, k)
    decreases |e|
  {
    if e != [] {
      var t := e[1..];
      assert Wf(t) by {
        forall i, j | 0 <= i < j < |t| ensures t[i].0 != t[j].0 {
          assert t[i] == e[i + 1] && t[j] == e[j + 1];
        }
      }
      FindLastSame(t, k);
      if e[0].0 == k {
        GetKeys(t, k);
        forall j | 0 <= j < |t| ensures Keys(t)[j] != k {
          assert t[j] == e[j + 1];
        }
      }
    }
  }

  lemma StrValuesWf(d: Dict<string>)
    requires Wf(d)
    ensures Wf(StrValues(d))
  {
  }
}
