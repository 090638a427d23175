/** Raster cubes in (band, y, x) order, the ENVI element types, the three ENVI interleaves and
    the element-wise operations applied to a cube after it is read. */
module DataCube {
  import opened Wrappers
  import opened Numbers

  /** The element types of the ENVI code table. */
  datatype DType = UInt8 | Int16 | Int32 | Float32 | Float64 | UInt16 | UInt32 | Int64 | UInt64

  /** The ENVI `data type` codes with their element types, in table order. */
  const EnviTable: seq<(int, DType)> :=
    [(1, UInt8), (2, Int16), (3, Int32), (4, Float32), (5, Float64),
     (12, UInt16), (13, UInt32), (14, Int64), (15, UInt64)]

  /** The element type of an ENVI code, if the table has it. */
  function EnviLookup(code: int): Option<DType> {
    match code
    case 1 => Some(UInt8)
    case 2 => Some(Int16)
    case 3 => Some(Int32)
    case 4 => Some(Float32)
    case 5 => Some(Float64)
    case 12 => Some(UInt16)
    case 13 => Some(UInt32)
    case 14 => Some(Int64)
    case 15 => Some(UInt64)
    case _ => None
  }

  /** The lookup agrees with the table: a code has a type exactly when the table lists the code,
      and then the type is the one listed with it. */
  lemma EnviLookupTable(code: int)
    ensures EnviLookup(code).Some? <==> exists i :: 0 <= i < |EnviTable| && EnviTable[i].0 == code
    ensures forall i :: 0 <= i < |EnviTable| && EnviTable[i].0 == code ==>
              EnviLookup(code) == Some(EnviTable[i].1)
  {
    if EnviLookup(code).Some? {
      var i := if code <= 5 then code - 1 else code - 7;
      assert EnviTable[i].0 == code;
    }
  }

  /** Bytes per element. */
  function ItemSize(t: DType): nat {
    match t
    case UInt8 => 1
    case Int16 => 2
    case Int32 => 4
    case Float32 => 4
    case Float64 => 8
    case UInt16 => 2
    case UInt32 => 4
    case Int64 => 8
    case UInt64 => 8
  }

  predicate IsInteger(t: DType) {
    !(t.Float32? || t.Float64?)
  }

  predicate IsSigned(t: DType) {
    t.Int16? || t.Int32? || t.Int64?
  }

  /** `np.iinfo(t).max` */
  function IntMax(t: DType): nat
    requires IsInteger(t)
  {
    match t
    case UInt8 => 255
    case Int16 => 32767
    case Int32 => 2147483647
    case UInt16 => 65535
    case UInt32 => 4294967295
    case Int64 => 9223372036854775807
    case UInt64 => 18446744073709551615
  }

  /** `np.iinfo(t).min` */
  function IntMin(t: DType): int
    requires IsInteger(t)
  {
    match t
    case Int16 => -32768
    case Int32 => -2147483648
    case Int64 => -9223372036854775808
    case _ => 0
  }

  datatype ByteOrder = Little | Big

  function Pow256(n: nat): (r: nat)
    ensures r >= 1
  {
    if n == 0 then 1 else 256 * Pow256(n - 1)
  }

  /** An unsigned integer stored least significant byte first. */
  function UnsignedLE(bs: seq<bv8>): (r: nat)
    ensures r < Pow256(|bs|)
  {
    if bs == [] then 0 else bs[0] as nat + 256 * UnsignedLE(bs[1..])
  }

  /** `a[::-1]`: the element at position i moves to position n - 1 - i. */
  function Reverse<T>(a: seq<T>): (r: seq<T>)
    ensures |r| == |a| && forall i :: 0 <= i < |a| ==> r[i] == a[|a| - 1 - i]
  {
    seq(|a|, i requires 0 <= i < |a| => a[|a| - 1 - i])
  }

  /** The bytes of one element least significant first, whatever the file's byte order. */
  function InLittleOrder(order: ByteOrder, bs: seq<bv8>): seq<bv8> {
    if order == Little then bs else Reverse(bs)
  }

  /** The value of one integer element: two's complement for the signed types, that is, the
      number in the type's range that leaves the bytes' unsigned reading as its remainder
      modulo 256^size (`IntValueUnique` shows there is only one). */
  function IntValue(t: DType, order: ByteOrder, bs: seq<bv8>): (r: int)
    requires IsInteger(t) && |bs| == ItemSize(t)
    ensures IntMin(t) <= r <= IntMax(t)
    ensures r % Pow256(|bs|) == UnsignedLE(InLittleOrder(order, bs))
  {
    Pow256Sizes();
    var u := UnsignedLE(InLittleOrder(order, bs));
    RemainderOf(u, Pow256(|bs|));
    if IsSigned(t) && u > IntMax(t) then u - Pow256(|bs|) else u
  }

  lemma RemainderOf(u: int, p: int)
    requires 0 <= u < p
    ensures u % p == u && (u - p) % p == u
  {
  }

  /** Each integer type's range holds exactly 256^size numbers. */
  lemma RangeWidth(t: DType)
    requires IsInteger(t)
    ensures IntMax(t) - IntMin(t) + 1 == Pow256(ItemSize(t))
  {
    Pow256Sizes();
  }

  /** Two numbers of a range of `p` consecutive numbers with the same remainder modulo `p` are
      equal. */
  lemma CongruentInRange(v: int, w: int, lo: int, p: int)
    requires p > 0 && lo <= v < lo + p && lo <= w < lo + p && v % p == w % p
    ensures v == w
  {
    var k := v / p - w / p;
    assert v - w == p * k;
    if k >= 1 {
      MulAtLeast(p, k);
    } else if k <= -1 {
      MulAtLeast(p, -k);
    }
  }

  lemma MulAtLeast(p: int, k: int)
    requires p > 0 && k >= 1
    ensures p * k >= p
  {
  }

  /** The element's value is the only number in the type's range with the bytes' unsigned
      reading as its remainder modulo 256^size, so the two clauses of `IntValue` determine it. */
  lemma IntValueUnique(t: DType, order: ByteOrder, bs: seq<bv8>, v: int)
    requires IsInteger(t) && |bs| == ItemSize(t)
    requires IntMin(t) <= v <= IntMax(t)
    requires v % Pow256(|bs|) == UnsignedLE(InLittleOrder(order, bs))
    ensures v == IntValue(t, order, bs)
  {
    RangeWidth(t);
    CongruentInRange(v, IntValue(t, order, bs), IntMin(t), Pow256(|bs|));
  }

  lemma Pow256Sizes()
    ensures Pow256(1) == 256 && Pow256(2) == 65536 && Pow256(4) == 4294967296
    ensures Pow256(8) == 18446744073709551616
  {
    assert Pow256(2) == 256 * Pow256(1);
    assert Pow256(3) == 256 * Pow256(2);
    assert Pow256(4) == 256 * Pow256(3);
    assert Pow256(5) == 256 * Pow256(4);
    assert Pow256(6) == 256 * Pow256(5);
    assert Pow256(7) == 256 * Pow256(6);
    assert Pow256(8) == 256 * Pow256(7);
  }

  /** Reading integers in the other byte order is reading the reversed bytes. */
  lemma ByteOrderSwap(t: DType, bs: seq<bv8>)
    requires IsInteger(t) && |bs| == ItemSize(t)
    ensures IntValue(t, Big, bs) == IntValue(t, Little, Reverse(bs))
  {
    assert Reverse(Reverse(bs)) == bs;
  }

  /** The interpretation of one element's bytes (least significant first) as a float of the given
      type is IEEE 754 arithmetic, which this model takes as a parameter. */
  type FloatDecoder = (DType, seq<bv8>) -> real

  /** numpy's value for one element of type `t` stored in byte order `order`. */
  function ElementValue(t: DType, order: ByteOrder, floats: FloatDecoder, bs: seq<bv8>): real
    requires |bs| == ItemSize(t)
  {
    if IsInteger(t) then IntValue(t, order, bs) as real else floats(t, InLittleOrder(order, bs))
  }

  /** `np.fromfile(f, dtype=t, count=n)` when the file holds at least `n` elements: the first `n`
      elements from the start of the file. */
  function Elements(file: seq<bv8>, t: DType, order: ByteOrder, floats: FloatDecoder, n: nat): (r: seq<real>)
    requires n * ItemSize(t) <= |file|
    ensures |r| == n
    ensures forall k :: 0 <= k < n ==>
              k * ItemSize(t) + ItemSize(t) <= |file| &&
              r[k] == ElementValue(t, order, floats, ItemAt(file, t, k))
  {
    var s := ItemSize(t);
    seq(n, k requires 0 <= k < n =>
      MulBound(k, n, s - 1, s);
      ElementValue(t, order, floats, ItemAt(file, t, k)))
  }

  /** The bytes of element `k` of type `t`: the `k`-th run of `ItemSize(t)` bytes of the file. */
  function ItemAt(file: seq<bv8>, t: DType, k: nat): (r: seq<bv8>)
    requires k * ItemSize(t) + ItemSize(t) <= |file|
    ensures |r| == ItemSize(t)
  {
    MulMono(0, k, ItemSize(t));
    file[k * ItemSize(t)..k * ItemSize(t) + ItemSize(t)]
  }

  lemma MulMono(a: nat, b: nat, m: nat)
    requires a <= b
    ensures a * m <= b * m
  {
    assert b * m == a * m + (b - a) * m;
  }

  /** A cube with `B` bands of `H` rows of `W` values. */
  type Cube = seq<seq<seq<real>>>

  predicate Shaped(c: Cube, B: nat, H: nat, W: nat) {
    |c| == B
    && (forall b :: 0 <= b < B ==> |c[b]| == H)
    && (forall b, y :: 0 <= b < B && 0 <= y < H ==> |c[b][y]| == W)
  }

  datatype Interleave = BSQ | BIL | BIP

  /** Position of cell (b, y, x) in the flat element sequence of each interleave:
      band-sequential (B, H, W) puts it at b·H·W + y·W + x, band-interleaved-by-line (H, B, W)
      at y·B·W + b·W + x and band-interleaved-by-pixel (H, W, B) at y·W·B + x·B + b. */
  function FlatIndex(il: Interleave, B: nat, H: nat, W: nat, b: nat, y: nat, x: nat): nat {
    match il
    case BSQ => (b * H + y) * W + x
    case BIL => (y * B + b) * W + x
    case BIP => (y * W + x) * B + b
  }

  /** `i * m + j` is in range for `i < n` and `j < m`. */
  lemma MulBound(i: nat, n: nat, j: int, m: nat)
    requires i < n && j < m
    ensures i * m + j < n * m
  {
    assert (i + 1) * m == i * m + m;
    MulMono(i + 1, n, m);
  }

  lemma FlatIndexBound(il: Interleave, B: nat, H: nat, W: nat, b: nat, y: nat, x: nat)
    requires b < B && y < H && x < W
    ensures FlatIndex(il, B, H, W, b, y, x) < B * H * W
  {
    match il
    case BSQ =>
      MulBound(b, B, y, H);
      MulBound(b * H + y, B * H, x, W);
    case BIL =>
      MulBound(y, H, b, B);
      MulBound(y * B + b, H * B, x, W);
      assert H * B == B * H;
    case BIP =>
      MulBound(y, H, x, W);
      MulBound(y * W + x, H * W, b, B);
      Rotate(B, H, W);
  }

  lemma Rotate(B: nat, H: nat, W: nat)
    ensures (H * W) * B == B * H * W
  {
    calc {
      (H * W) * B;
    ==  B * (H * W);
    ==  (B * H) * W;
    }
  }

  /** The reshape and transpose that turn the flat elements into a (band, y, x) cube. */
  function Reshape(raw: seq<real>, il: Interleave, B: nat, H: nat, W: nat): (r: Cube)
    requires |raw| == B * H * W
    ensures Shaped(r, B, H, W)
    ensures forall b, y, x :: 0 <= b < B && 0 <= y < H && 0 <= x < W ==>
              FlatIndex(il, B, H, W, b, y, x) < |raw| && r[b][y][x] == raw[FlatIndex(il, B, H, W, b, y, x)]
  {
    CubeIndexBound(il, B, H, W);
    seq(B, b requires 0 <= b < B => ReshapeBand(raw, il, B, H, W, b))
  }

  function ReshapeBand(raw: seq<real>, il: Interleave, B: nat, H: nat, W: nat, b: nat): (r: seq<seq<real>>)
    requires |raw| == B * H * W && b < B
    ensures |r| == H && forall y :: 0 <= y < H ==> |r[y]| == W
    ensures forall y, x :: 0 <= y < H && 0 <= x < W ==>
              FlatIndex(il, B, H, W, b, y, x) < |raw| && r[y][x] == raw[FlatIndex(il, B, H, W, b, y, x)]
  {
    BandIndexBound(il, B, H, W, b);
    seq(H, y requires 0 <= y < H => ReshapeRow(raw, il, B, H, W, b, y))
  }

  lemma BandIndexBound(il: Interleave, B: nat, H: nat, W: nat, b: nat)
    requires b < B
    ensures forall y, x :: 0 <= y < H && 0 <= x < W ==> FlatIndex(il, B, H, W, b, y, x) < B * H * W
  {
    forall y, x | 0 <= y < H && 0 <= x < W ensures FlatIndex(il, B, H, W, b, y, x) < B * H * W {
      RowIndexBound(il, B, H, W, b, y);
    }
  }

  lemma CubeIndexBound(il: Interleave, B: nat, H: nat, W: nat)
    ensures forall b, y, x :: 0 <= b < B && 0 <= y < H && 0 <= x < W ==> FlatIndex(il, B, H, W, b, y, x) < B * H * W
  {
    forall b, y, x | 0 <= b < B && 0 <= y < H && 0 <= x < W
      ensures FlatIndex(il, B, H, W, b, y, x) < B * H * W
    {
      BandIndexBound(il, B, H, W, b);
    }
  }

  function ReshapeRow(raw: seq<real>, il: Interleave, B: nat, H: nat, W: nat, b: nat, y: nat): (r: seq<real>)
    requires |raw| == B * H * W && b < B && y < H
    ensures |r| == W
    ensures forall x :: 0 <= x < W ==>
              FlatIndex(il, B, H, W, b, y, x) < |raw| && r[x] == raw[FlatIndex(il, B, H, W, b, y, x)]
  {
    RowIndexBound(il, B, H, W, b, y);
    seq(W, x requires 0 <= x < W => raw[FlatIndex(il, B, H, W, b, y, x)])
  }

  lemma RowIndexBound(il: Interleave, B: nat, H: nat, W: nat, b: nat, y: nat)
    requires b < B && y < H
    ensures forall x :: 0 <= x < W ==> FlatIndex(il, B, H, W, b, y, x) < B * H * W
  {
    forall x | 0 <= x < W ensures FlatIndex(il, B, H, W, b, y, x) < B * H * W {
      FlatIndexBound(il, B, H, W, b, y, x);
    }
  }

  function Concat<T>(ss: seq<seq<T>>): seq<T>
    decreases |ss|
  {
    if ss == [] then [] else ss[0] + Concat(ss[1..])
  }

  lemma {:induction false} ConcatIndex<T>(ss: seq<seq<T>>, n: nat, i: nat, j: nat)
    requires forall k :: 0 <= k < |ss| ==> |ss[k]| == n
    requires i < |ss| && j < n
    ensures |Concat(ss)| == |ss| * n
    ensures i * n + j < |Concat(ss)| && Concat(ss)[i * n + j] == ss[i][j]
    decreases |ss|
  {
    ConcatLength(ss, n);
    if i > 0 {
      ConcatIndex(ss[1..], n, i - 1, j);
      assert i * n + j == n + ((i - 1) * n + j);
    }
  }

  lemma {:induction false} ConcatLength<T>(ss: seq<seq<T>>, n: nat)
    requires forall k :: 0 <= k < |ss| ==> |ss[k]| == n
    ensures |Concat(ss)| == |ss| * n
    decreases |ss|
  {
    if ss != [] {
      ConcatLength(ss[1..], n);
      assert |ss| * n == n + (|ss| - 1) * n;
    }
  }

  /** The cube cut into the runs that a writer emits one after another in each interleave: the
      rows of each band (BSQ), the band rows of each line (BIL) or the band vectors of each
      pixel (BIP). */
  function Runs(il: Interleave, c: Cube, B: nat, H: nat, W: nat): seq<seq<real>>
    requires Shaped(c, B, H, W)
  {
    match il
    case BSQ => Concat(seq(B, b requires 0 <= b < B => c[b]))
    case BIL => Concat(seq(H, y requires 0 <= y < H => seq(B, b requires 0 <= b < B => c[b][y])))
    case BIP => Concat(seq(H, y requires 0 <= y < H => seq(W, x requires 0 <= x < W => seq(B, b requires 0 <= b < B => c[b][y][x]))))
  }

  /** The flat elements of a cube as a writer lays them out in each interleave. */
  function Layout(il: Interleave, c: Cube, B: nat, H: nat, W: nat): seq<real>
    requires Shaped(c, B, H, W)
  {
    Concat(Runs(il, c, B, H, W))
  }

  /** The length of each run. */
  function RunLength(il: Interleave, B: nat, H: nat, W: nat): nat {
    if il == BIP then B else W
  }

  /** Which run holds cell (b, y, x), and where in the run it sits. */
  function RunOf(il: Interleave, B: nat, H: nat, W: nat, b: nat, y: nat, x: nat): (nat, nat) {
    match il
    case BSQ => (b * H + y, x)
    case BIL => (y * B + b, x)
    case BIP => (y * W + x, b)
  }

  lemma ConcatMember<T>(ss: seq<seq<T>>, e: T)
    requires e in Concat(ss)
    ensures exists k :: 0 <= k < |ss| && e in ss[k]
    decreases |ss|
  {
    if e !in ss[0] {
      ConcatMember(ss[1..], e);
      var k :| 0 <= k < |ss[1..]| && e in ss[1..][k];
      assert e in ss[k + 1];
    }
  }

  /** There are B·H·W / run-length runs, each of the run length. */
  lemma RunsShape(il: Interleave, c: Cube, B: nat, H: nat, W: nat)
    requires Shaped(c, B, H, W)
    ensures |Runs(il, c, B, H, W)| * RunLength(il, B, H, W) == B * H * W
    ensures forall k :: 0 <= k < |Runs(il, c, B, H, W)| ==> |Runs(il, c, B, H, W)[k]| == RunLength(il, B, H, W)
  {
    match il
    case BSQ => RunsShapeBsq(c, B, H, W);
    case BIL => RunsShapeBil(c, B, H, W);
    case BIP => RunsShapeBip(c, B, H, W);
  }

  lemma RunsShapeBsq(c: Cube, B: nat, H: nat, W: nat)
    requires Shaped(c, B, H, W)
    ensures |Runs(BSQ, c, B, H, W)| == B * H
    ensures forall k :: 0 <= k < |Runs(BSQ, c, B, H, W)| ==> |Runs(BSQ, c, B, H, W)[k]| == W
  {
    var rs := Runs(BSQ, c, B, H, W);
    var g := seq(B, b requires 0 <= b < B => c[b]);
    ConcatLength(g, H);
    forall k | 0 <= k < |rs| ensures |rs[k]| == W {
      assert rs[k] in Concat(g);
      ConcatMember(g, rs[k]);
    }
  }

  lemma RunsShapeBil(c: Cube, B: nat, H: nat, W: nat)
    requires Shaped(c, B, H, W)
    ensures |Runs(BIL, c, B, H, W)| == H * B
    ensures forall k :: 0 <= k < |Runs(BIL, c, B, H, W)| ==> |Runs(BIL, c, B, H, W)[k]| == W
  {
    var rs := Runs(BIL, c, B, H, W);
    var g := seq(H, y requires 0 <= y < H => seq(B, b requires 0 <= b < B => c[b][y]));
    ConcatLength(g, B);
    forall k | 0 <= k < |rs| ensures |rs[k]| == W {
      assert rs[k] in Concat(g);
      ConcatMember(g, rs[k]);
    }
  }

  lemma RunsShapeBip(c: Cube, B: nat, H: nat, W: nat)
    requires Shaped(c, B, H, W)
    ensures |Runs(BIP, c, B, H, W)| == H * W
    ensures forall k :: 0 <= k < |Runs(BIP, c, B, H, W)| ==> |Runs(BIP, c, B, H, W)[k]| == B
  {
    var rs := Runs(BIP, c, B, H, W);
    var g := seq(H, y requires 0 <= y < H => seq(W, x requires 0 <= x < W => seq(B, b requires 0 <= b < B => c[b][y][x])));
    ConcatLength(g, W);
    forall k | 0 <= k < |rs| ensures |rs[k]| == B {
      assert rs[k] in Concat(g);
      ConcatMember(g, rs[k]);
    }
  }

  /** The run that holds cell (b, y, x) has it at the expected place. */
  lemma RunsIndex(il: Interleave, c: Cube, B: nat, H: nat, W: nat, b: nat, y: nat, x: nat)
    requires Shaped(c, B, H, W) && b < B && y < H && x < W
    ensures RunOf(il, B, H, W, b, y, x).0 < |Runs(il, c, B, H, W)|
    ensures RunOf(il, B, H, W, b, y, x).1 < RunLength(il, B, H, W)
    ensures |Runs(il, c, B, H, W)[RunOf(il, B, H, W, b, y, x).0]| == RunLength(il, B, H, W)
    ensures Runs(il, c, B, H, W)[RunOf(il, B, H, W, b, y, x).0][RunOf(il, B, H, W, b, y, x).1] == c[b][y][x]
  {
    RunsShape(il, c, B, H, W);
    match il
    case BSQ =>
      var g := seq(B, b requires 0 <= b < B => c[b]);
      ConcatIndex(g, H, b, y);
    case BIL =>
      var g := seq(H, y requires 0 <= y < H => seq(B, b requires 0 <= b < B => c[b][y]));
      ConcatIndex(g, B, y, b);
    case BIP =>
      var g := seq(H, y requires 0 <= y < H => seq(W, x requires 0 <= x < W => seq(B, b requires 0 <= b < B => c[b][y][x])));
      ConcatIndex(g, W, y, x);
  }

  lemma LayoutLength(il: Interleave, c: Cube, B: nat, H: nat, W: nat)
    requires Shaped(c, B, H, W)
    ensures |Layout(il, c, B, H, W)| == B * H * W
  {
    RunsShape(il, c, B, H, W);
    ConcatLength(Runs(il, c, B, H, W), RunLength(il, B, H, W));
  }

  /** In the laid-out cube, cell (b, y, x) sits at its flat index. */
  lemma LayoutIndex(il: Interleave, c: Cube, B: nat, H: nat, W: nat, b: nat, y: nat, x: nat)
    requires Shaped(c, B, H, W) && b < B && y < H && x < W
    ensures |Layout(il, c, B, H, W)| == B * H * W
    ensures FlatIndex(il, B, H, W, b, y, x) < B * H * W
    ensures Layout(il, c, B, H, W)[FlatIndex(il, B, H, W, b, y, x)] == c[b][y][x]
  {
    LayoutLength(il, c, B, H, W);
    RunsShape(il, c, B, H, W);
    RunsIndex(il, c, B, H, W, b, y, x);
    var (k, j) := RunOf(il, B, H, W, b, y, x);
    ConcatIndex(Runs(il, c, B, H, W), RunLength(il, B, H, W), k, j);
    FlatIndexBound(il, B, H, W, b, y, x);
  }

  /** Two cubes of the same shape with the same cells are equal. */
  lemma CubeExt(c: Cube, d: Cube, B: nat, H: nat, W: nat)
    requires Shaped(c, B, H, W) && Shaped(d, B, H, W)
    requires forall b, y, x :: 0 <= b < B && 0 <= y < H && 0 <= x < W ==> c[b][y][x] == d[b][y][x]
    ensures c == d
  {
    forall b | 0 <= b < B ensures c[b] == d[b] {
      forall y | 0 <= y < H ensures c[b][y] == d[b][y] {
      }
    }
  }

  /** Reading a cube written in any interleave gives the cube back. */
  lemma LayoutRoundTrip(il: Interleave, c: Cube, B: nat, H: nat, W: nat)
    requires Shaped(c, B, H, W)
    ensures |Layout(il, c, B, H, W)| == B * H * W
    ensures Reshape(Layout(il, c, B, H, W), il, B, H, W) == c
  {
    LayoutLength(il, c, B, H, W);
    var r := Reshape(Layout(il, c, B, H, W), il, B, H, W);
    forall b, y, x | 0 <= b < B && 0 <= y < H && 0 <= x < W ensures r[b][y][x] == c[b][y][x] {
      LayoutIndex(il, c, B, H, W, b, y, x);
    }
    CubeExt(r, c, B, H, W);
  }

  /** Applies `f` to every cell. */
  function MapCube(c: Cube, f: real -> real): (r: Cube)
    ensures forall B, H, W :: Shaped(c, B, H, W) ==> Shaped(r, B, H, W)
    ensures |r| == |c| && forall b :: 0 <= b < |c| ==> |r[b]| == |c[b]|
    ensures forall b, y :: 0 <= b < |c| && 0 <= y < |c[b]| ==> |r[b][y]| == |c[b][y]|
    ensures forall b, y, x :: 0 <= b < |c| && 0 <= y < |c[b]| && 0 <= x < |c[b][y]| ==>
              r[b][y][x] == f(c[b][y][x])
  {
    seq(|c|, b requires 0 <= b < |c| =>
      seq(|c[b]|, y requires 0 <= y < |c[b]| =>
        seq(|c[b][y]|, x requires 0 <= x < |c[b][y]| => f(c[b][y][x]))))
  }

  /** Every cell of a cube, band by band and row by row. */
  function Cells(c: Cube): seq<real> {
    Concat(Concat(c))
  }

  /** Every cell of a shaped cube is among its cells. */
  lemma CellIn(c: Cube, B: nat, H: nat, W: nat, b: nat, y: nat, x: nat)
    requires Shaped(c, B, H, W) && b < B && y < H && x < W
    ensures |Cells(c)| == B * H * W && c[b][y][x] in Cells(c)
  {
    assert c == seq(B, b requires 0 <= b < B => c[b]);
    assert Cells(c) == Layout(BSQ, c, B, H, W);
    LayoutIndex(BSQ, c, B, H, W, b, y, x);
  }

  /** A shaped cube has B·H·W cells. */
  lemma CellsLength(c: Cube, B: nat, H: nat, W: nat)
    requires Shaped(c, B, H, W)
    ensures |Cells(c)| == B * H * W
  {
    assert c == seq(B, b requires 0 <= b < B => c[b]);
    assert Cells(c) == Layout(BSQ, c, B, H, W);
    LayoutLength(BSQ, c, B, H, W);
  }

  function SeqMin(s: seq<real>): (r: real)
    requires |s| > 0
    ensures r in s && forall i :: 0 <= i < |s| ==> r <= s[i]
  {
    if |s| == 1 then s[0]
    else
      var m := SeqMin(s[1..]);
      assert forall i :: 1 <= i < |s| ==> s[i] == s[1..][i - 1];
      if s[0] <= m then s[0] else m
  }

  function SeqMax(s: seq<real>): (r: real)
    requires |s| > 0
    ensures r in s && forall i :: 0 <= i < |s| ==> s[i] <= r
  {
    if |s| == 1 then s[0]
    else
      var m := SeqMax(s[1..]);
      assert forall i :: 1 <= i < |s| ==> s[i] == s[1..][i - 1];
      if s[0] >= m then s[0] else m
  }

  /** `((v - lo) / (hi - lo) * top).astype(int)`: the position of `v` in `[lo, hi]` scaled to
      `[0, top]` and truncated. */
  function Quantise(v: real, lo: real, hi: real, top: nat): int
    requires lo < hi
  {
    Trunc((v - lo) / (hi - lo) * top as real)
  }

  /** Quantisation maps `[lo, hi]` into `[0, top]` and keeps order. */
  lemma QuantiseRange(v: real, w: real, lo: real, hi: real, top: nat)
    requires lo <= v <= w <= hi && lo < hi
    ensures 0 <= Quantise(v, lo, hi, top) <= Quantise(w, lo, hi, top) <= top
  {
    var t, u := (v - lo) / (hi - lo), (w - lo) / (hi - lo);
    RatioRange(v, w, lo, hi);
    TruncScaled(t, u, top);
    assert Quantise(v, lo, hi, top) == Trunc(t * top as real);
    assert Quantise(w, lo, hi, top) == Trunc(u * top as real);
  }

  lemma TruncScaled(t: real, u: real, top: nat)
    requires 0.0 <= t <= u <= 1.0
    ensures 0 <= Trunc(t * top as real) <= Trunc(u * top as real) <= top
  {
    ScaleRange(t, u, top as real);
    TruncBetween(t * top as real, u * top as real, top);
  }

  /** The lowest value maps to 0 and the highest to `top`. */
  lemma QuantiseEnds(lo: real, hi: real, top: nat)
    requires lo < hi
    ensures Quantise(lo, lo, hi, top) == 0 && Quantise(hi, lo, hi, top) == top
  {
    var d := hi - lo;
    assert (hi - lo) / d == 1.0;
    assert (lo - lo) / d == 0.0;
    assert Trunc(top as real) == top;
  }

  lemma RatioRange(v: real, w: real, lo: real, hi: real)
    requires lo <= v <= w <= hi && lo < hi
    ensures 0.0 <= (v - lo) / (hi - lo) <= (w - lo) / (hi - lo) <= 1.0
  {
    var d := hi - lo;
    assert (v - lo) / d * d == v - lo;
    assert (w - lo) / d * d == w - lo;
  }

  lemma ScaleRange(t: real, u: real, m: real)
    requires 0.0 <= t <= u <= 1.0 && 0.0 <= m
    ensures 0.0 <= t * m <= u * m <= m
  {
  }

  lemma TruncBetween(a: real, b: real, top: nat)
    requires 0.0 <= a <= b <= top as real
    ensures 0 <= Trunc(a) <= Trunc(b) <= top
  {
    TruncMono(a, b);
    TruncMono(b, top as real);
  }

  lemma TruncMono(a: real, b: real)
    requires 0.0 <= a <= b
    ensures 0 <= Trunc(a) <= Trunc(b)
  {
  }
}
