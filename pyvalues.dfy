/** The Python values that flow through the header dictionaries, and Python's insertion-ordered
    `dict` as an association list with at most one entry per key. */
module PyValues {
  import opened Wrappers

  /** A Python value as the parsers produce it: `None`, `int`, `float` (exact), `str`, `list`
      and `dict` with string keys. */
  datatype PyVal =
    | PyNone
    | PyInt(i: int)
    | PyFloat(x: real)
    | PyStr(s: string)
    | PyList(items: seq<PyVal>)
    | PyDict(entries: seq<(string, PyVal)>)

  /** Python's truth value: `None`, zero, the empty string and empty containers are false. */
  predicate Truthy(v: PyVal) {
    match v
    case PyNone => false
    case PyInt(i) => i != 0
    case PyFloat(x) => x != 0.0
    case PyStr(s) => s != []
    case PyList(items) => items != []
    case PyDict(entries) => entries != []
  }

  /** A dict in insertion order. */
  type Dict<V> = seq<(string, V)>

  function Keys<V>(d: Dict<V>): (r: seq<string>)
    ensures |r| == |d| && forall i :: 0 <= i < |d| ==> r[i] == d[i].0
  {
    seq(|d|, i requires 0 <= i < |d| => d[i].0)
  }

  /** No key occurs twice. */
  predicate Wf<V>(d: Dict<V>) {
    forall i, j :: 0 <= i < j < |d| ==> d[i].0 != d[j].0
  }

  /** `d.get(k)` */
  function Get<V>(d: Dict<V>, k: string): Option<V> {
    if d == [] then None
    else if d[0].0 == k then Some(d[0].1)
    else Get(d[1..], k)
  }

  /** A key is found exactly when it is one of the dict's keys. */
  lemma {:induction false} GetKeys<V>(d: Dict<V>, k: string)
    ensures Get(d, k).None? <==> k !in Keys(d)
    decreases |d|
  {
    if d != [] {
      GetKeys(d[1..], k);
      assert Keys(d) == [d[0].0] + Keys(d[1..]);
    }
  }

  /** `d.get(k)` defaulting to `None` for a dict of Python values. */
  function GetVal(d: Dict<PyVal>, k: string): PyVal {
    Get(d, k).GetOr(PyNone)
  }

  /** `d[k] = v`: an existing key keeps its position and gets the new value; a new key goes
      at the end. */
  function Put<V>(d: Dict<V>, k: string, v: V): (r: Dict<V>)
    ensures Get(r, k) == Some(v)
    ensures forall k' :: k' != k ==> Get(r, k') == Get(d, k')
    ensures k in Keys(d) ==> Keys(r) == Keys(d)
    ensures k !in Keys(d) ==> Keys(r) == Keys(d) + [k]
  {
    if d == [] then [(k, v)]
    else if d[0].0 == k then
      var r := [(k, v)] + d[1..];
      assert r[0] == (k, v) && r[1..] == d[1..];
      r
    else
      var t := Put(d[1..], k, v);
      var r := [d[0]] + t;
      assert r[0] == d[0] && r[1..] == t;
      assert Get(r, k) == Get(t, k);
      r
  }

  lemma PutWf<V>(d: Dict<V>, k: string, v: V)
    requires Wf(d)
    ensures Wf(Put(d, k, v))
  {
    var r := Put(d, k, v);
    forall i, j | 0 <= i < j < |r| ensures r[i].0 != r[j].0 {
      assert Keys(r)[i] == r[i].0 && Keys(r)[j] == r[j].0;
      if k !in Keys(d) {
        assert Keys(r) == Keys(d) + [k];
        if j == |d| {
          assert Keys(d)[i] == d[i].0;
        } else {
          assert Keys(d)[i] == d[i].0 && Keys(d)[j] == d[j].0;
        }
      } else {
        assert Keys(d)[i] == d[i].0 && Keys(d)[j] == d[j].0;
      }
    }
  }

  /** A key of `d + e` is looked up in `d` first. */
  lemma {:induction false} GetAppend<V>(d: Dict<V>, e: Dict<V>, k: string)
    ensures Get(d + e, k) == if Get(d, k).Some? then Get(d, k) else Get(e, k)
    decreases |d|
  {
    if d != [] {
      assert (d + e)[0] == d[0] && (d + e)[1..] == d[1..] + e;
      GetAppend(d[1..], e, k);
    } else {
      assert d + e == e;
    }
  }

  /** `d.update(e)`: the entries of `e` put into `d` in order. */
  function Update<V>(d: Dict<V>, e: Dict<V>): Dict<V>
    decreases |e|
  {
    if e == [] then d else Update(Put(d, e[0].0, e[0].1), e[1..])
  }

  /** After `d.update(e)` a key of `e` maps to its value in `e`; any other key keeps its old value. */
  lemma {:induction false} GetUpdate<V>(d: Dict<V>, e: Dict<V>, k: string)
    requires Wf(e)
    ensures Get(Update(d, e), k) == if k in Keys(e) then Get(e, k) else Get(d, k)
    decreases |e|
  {
    if e != [] {
      assert Keys(e) == [e[0].0] + Keys(e[1..]);
      assert Wf(e[1..]);
      GetUpdate(Put(d, e[0].0, e[0].1), e[1..], k);
      if k == e[0].0 {
        assert k !in Keys(e[1..]);
      }
    }
  }

  lemma {:induction false} UpdateWf<V>(d: Dict<V>, e: Dict<V>)
    requires Wf(d)
    ensures Wf(Update(d, e))
    decreases |e|
  {
    if e != [] {
      PutWf(d, e[0].0, e[0].1);
      UpdateWf(Put(d, e[0].0, e[0].1), e[1..]);
    }
  }

  /** `{f(k): v for k, v in d.items()}`: when two keys map to the same new key the later value
      wins, at the position of the first. */
  function Rekey<V>(d: Dict<V>, f: string -> string): Dict<V>
    decreases |d|
  {
    RekeyInto([], d, f)
  }

  function RekeyInto<V>(acc: Dict<V>, d: Dict<V>, f: string -> string): Dict<V>
    decreases |d|
  {
    if d == [] then acc else RekeyInto(Put(acc, f(d[0].0), d[0].1), d[1..], f)
  }

  lemma {:induction false} RekeyIntoWf<V>(acc: Dict<V>, d: Dict<V>, f: string -> string)
    requires Wf(acc)
    ensures Wf(RekeyInto(acc, d, f))
    decreases |d|
  {
    if d != [] {
      PutWf(acc, f(d[0].0), d[0].1);
      RekeyIntoWf(Put(acc, f(d[0].0), d[0].1), d[1..], f);
    }
  }

  /** The keys of a rekeyed dict are exactly the images of the old keys. */
  lemma {:induction false} RekeyIntoKeys<V>(acc: Dict<V>, d: Dict<V>, f: string -> string, k: string)
    ensures k in Keys(RekeyInto(acc, d, f)) <==>
            (k in Keys(acc) || exists i :: 0 <= i < |d| && f(d[i].0) == k)
    decreases |d|
  {
    if d != [] {
      var acc' := Put(acc, f(d[0].0), d[0].1);
      RekeyIntoKeys(acc', d[1..], f, k);
      assert k in Keys(acc') <==> (k in Keys(acc) || k == f(d[0].0));
      if exists i :: 0 <= i < |d[1..]| && f(d[1..][i].0) == k {
        var i :| 0 <= i < |d[1..]| && f(d[1..][i].0) == k;
        assert f(d[i + 1].0) == k;
      }
      if exists i :: 0 <= i < |d| && f(d[i].0) == k {
        var i :| 0 <= i < |d| && f(d[i].0) == k;
        if i > 0 {
          assert f(d[1..][i - 1].0) == k;
        }
      }
    }
  }

  /** The dict built by putting the present entries in order (`d[k] = v` in a loop that skips
      some iterations). */
  function Collect<V>(es: seq<Option<(string, V)>>): Dict<V>
    decreases |es|
  {
    if es == [] then []
    else
      var d := Collect(es[..|es| - 1]);
      match es[|es| - 1]
      case None => d
      case Some(e) => Put(d, e.0, e.1)
  }

  predicate HasKey<V>(e: Option<(string, V)>, k: string) {
    e.Some? && e.value.0 == k
  }

  lemma CollectStep<V>(es: seq<Option<(string, V)>>, n: nat)
    requires n < |es|
    ensures Collect(es[..n + 1]) == match es[n]
                                      case None => Collect(es[..n])
                                      case Some(e) => Put(Collect(es[..n]), e.0, e.1)
  {
    assert es[..n + 1][..n] == es[..n];
  }

  lemma {:induction false} CollectWf<V>(es: seq<Option<(string, V)>>)
    ensures Wf(Collect(es))
    decreases |es|
  {
    if es != [] {
      CollectWf(es[..|es| - 1]);
      if es[|es| - 1].Some? {
        var e := es[|es| - 1].value;
        PutWf(Collect(es[..|es| - 1]), e.0, e.1);
      }
    }
  }

  /** The keys of a collected dict are exactly the keys of its entries. */
  lemma {:induction false} CollectKeys<V>(es: seq<Option<(string, V)>>, k: string)
    ensures k in Keys(Collect(es)) <==> exists i :: 0 <= i < |es| && HasKey(es[i], k)
    decreases |es|
  {
    if es != [] {
      var init := es[..|es| - 1];
      CollectKeys(init, k);
      CollectKeysStep(es, k);
      SomeHasKey(es, init, k);
    }
  }

  /** Some entry has the key exactly when one before the last has it or the last has it. */
  lemma SomeHasKey<V>(es: seq<Option<(string, V)>>, init: seq<Option<(string, V)>>, k: string)
    requires es != [] && init == es[..|es| - 1]
    ensures (exists i :: 0 <= i < |es| && HasKey(es[i], k)) <==>
            (exists i :: 0 <= i < |init| && HasKey(init[i], k)) || HasKey(es[|es| - 1], k)
  {
    if exists i :: 0 <= i < |init| && HasKey(init[i], k) {
      var i :| 0 <= i < |init| && HasKey(init[i], k);
      assert es[i] == init[i];
    }
    if exists i :: 0 <= i < |es| && HasKey(es[i], k) {
      var i :| 0 <= i < |es| && HasKey(es[i], k);
      if i < |init| {
        assert init[i] == es[i];
      }
    }
  }

  /** The last entry adds its key, if any, to the keys collected before it. */
  lemma CollectKeysStep<V>(es: seq<Option<(string, V)>>, k: string)
    requires es != []
    ensures k in Keys(Collect(es)) <==> k in Keys(Collect(es[..|es| - 1])) || HasKey(es[|es| - 1], k)
  {
    var d := Collect(es[..|es| - 1]);
    match es[|es| - 1]
    case None =>
    case Some(e) =>
      var r := Put(d, e.0, e.1);
      assert Collect(es) == r;
      if e.0 !in Keys(d) {
        assert Keys(r) == Keys(d) + [e.0];
      }
  }

  /** A key holds the value of the last entry that has it. */
  lemma {:induction false} CollectLastWins<V>(es: seq<Option<(string, V)>>, i: nat)
    requires i < |es| && es[i].Some?
    requires forall j :: i < j < |es| ==> !HasKey(es[j], es[i].value.0)
    ensures Get(Collect(es), es[i].value.0) == Some(es[i].value.1)
    decreases |es|
  {
    var init := es[..|es| - 1];
    if i < |es| - 1 {
      assert init[i] == es[i];
      forall j | i < j < |init| ensures !HasKey(init[j], init[i].value.0) {
        assert init[j] == es[j];
      }
      CollectLastWins(init, i);
      assert !HasKey(es[|es| - 1], es[i].value.0);
    }
  }

  /** Entries that are all present with distinct keys are collected as they are. */
  lemma {:induction false} CollectDistinct<V>(es: seq<Option<(string, V)>>, d: Dict<V>)
    requires |d| == |es|
    requires forall i :: 0 <= i < |es| ==> es[i] == Some(d[i])
    requires Wf(d)
    ensures Collect(es) == d
    decreases |es|
  {
    if es != [] {
      var n := |es| - 1;
      var es', d' := es[..n], d[..n];
      WfLast(d);
      assert forall i :: 0 <= i < n ==> es'[i] == Some(d'[i]);
      CollectDistinct(es', d');
      CollectNew(es, d', d[n].0, d[n].1);
      DropLast(d);
    }
  }

  /** A non-empty dict is the entries before its last one, then its last one. */
  lemma DropLast<V>(d: Dict<V>)
    requires d != []
    ensures d[..|d| - 1] + [(d[|d| - 1].0, d[|d| - 1].1)] == d
  {
  }

  /** A last entry with a new key is appended to what the entries before it collect. */
  lemma CollectNew<V>(es: seq<Option<(string, V)>>, d: Dict<V>, k: string, v: V)
    requires es != [] && Collect(es[..|es| - 1]) == d && es[|es| - 1] == Some((k, v)) && k !in Keys(d)
    ensures Collect(es) == d + [(k, v)]
  {
    PutNew(d, k, v);
  }

  /** In a dict without repeated keys the last key is new to the ones before it. */
  lemma WfLast<V>(d: Dict<V>)
    requires Wf(d) && |d| > 0
    ensures Wf(d[..|d| - 1]) && d[|d| - 1].0 !in Keys(d[..|d| - 1])
  {
    var n := |d| - 1;
    forall j | 0 <= j < n ensures Keys(d[..n])[j] != d[n].0 {
      assert Keys(d[..n])[j] == d[j].0;
    }
  }

  /** Putting a new key appends it. */
  lemma {:induction false} PutNew<V>(d: Dict<V>, k: string, v: V)
    requires k !in Keys(d)
    ensures Put(d, k, v) == d + [(k, v)]
    decreases |d|
  {
    if d != [] {
      assert d[0].0 != k by {
        assert Keys(d)[0] == d[0].0;
      }
      assert k !in Keys(d[1..]) by {
        forall j | 0 <= j < |d| - 1 ensures Keys(d[1..])[j] != k {
          assert Keys(d[1..])[j] == d[j + 1].0 == Keys(d)[j + 1];
        }
      }
      PutNew(d[1..], k, v);
      assert Put(d, k, v) == [d[0]] + Put(d[1..], k, v);
      assert d + [(k, v)] == [d[0]] + (d[1..] + [(k, v)]);
    }
  }

  /** Without repeated keys each entry is what its key looks up. */
  lemma {:induction false} GetAt<V>(d: Dict<V>, i: nat)
    requires Wf(d) && i < |d|
    ensures Get(d, d[i].0) == Some(d[i].1)
    decreases i
  {
    if i > 0 {
      var t := d[1..];
      assert Wf(t) by {
        forall a, b | 0 <= a < b < |t| ensures t[a].0 != t[b].0 {
          assert t[a] == d[a + 1] && t[b] == d[b + 1];
        }
      }
      assert t[i - 1] == d[i];
      GetAt(t, i - 1);
    }
  }
}
