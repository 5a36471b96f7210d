/** numpy arrays as the engine uses them: a shape and a flat buffer in C
    order, `reshape_ndim` / `_reshape_ndim`, numpy broadcasting of one array to
    a target shape, and the conversion between a buffer and its rows. */
module NdArrays {
  import opened Arith
  import opened Outcomes

  /** The number of elements of an array of shape `s`. */
  function Product(s: seq<nat>): nat {
    if s == [] then 1 else Product(s[..|s| - 1]) * s[|s| - 1]
  }

  /** An n-dimensional array: its shape, its elements in C order, and the
      name of its numpy dtype. */
  datatype NdArray = NdArray(shape: seq<nat>, data: seq<int>, dtype: string)

  predicate WellFormed(a: NdArray) {
    |a.data| == Product(a.shape)
  }

  /** The arrays numpy can build: as many elements as the shape says. */
  type Array = a: NdArray | WellFormed(a) witness NdArray([], [0], "float64")

  // ---------------------------------------------------------------------
  // reshape_ndim and _reshape_ndim

  /** `RasterMath.reshape_ndim`: a 0-d result becomes `(1, 1)`; then in 3-D
      mode a 2-D array gains a trailing axis of length 1, and in 2-D mode a
      1-D array becomes a column. */
  function ReshapeNdim(a: Array, threeD: bool): (r: Array)
    ensures r.data == a.data && r.dtype == a.dtype
    ensures threeD ==> (|a.shape| == 1 ==> r.shape == a.shape) && (|a.shape| != 1 ==> |r.shape| >= 3)
    ensures !threeD ==> |r.shape| >= 2
    ensures |a.shape| >= 3 ==> r.shape == a.shape
    ensures !threeD && |a.shape| == 2 ==> r.shape == a.shape
  {
    ProductAppendOne([1]);
    ProductAppendOne(a.shape);
    assert [1] + [1] == [1, 1];
    assert Product([1]) == 1 by { assert [1][..0] == []; }
    var x: Array := if |a.shape| == 0 then NdArray([1, 1], a.data, a.dtype) else a;
    ProductAppendOne(x.shape);
    if threeD then
      if |x.shape| == 2 then NdArray(x.shape + [1], x.data, x.dtype) else x
    else
      if |x.shape| == 1 then NdArray(x.shape + [1], x.data, x.dtype) else x
  }

  /** Reshaping twice changes nothing more. */
  lemma ReshapeNdimIdempotent(a: Array, threeD: bool)
    ensures ReshapeNdim(ReshapeNdim(a, threeD), threeD) == ReshapeNdim(a, threeD)
  {
  }

  /** The last axis after `reshape_ndim` in 2-D mode: the band count of a
      2-D result, 1 for a vector or a scalar. */
  lemma ReshapeNdimBands(a: Array)
    ensures var r := ReshapeNdim(a, false);
      && (|a.shape| <= 1 ==> r.shape[|r.shape| - 1] == 1)
      && (|a.shape| >= 2 ==> r.shape == a.shape)
      && (|a.shape| == 1 ==> r.shape == [a.shape[0], 1])
  {
  }

  /** `_reshape_ndim`: a 1-D array becomes a column, anything else is left
      as it is (a 0-d array stays 0-d). */
  function ReshapeAtLeast2(a: Array): (r: Array)
    ensures r.data == a.data
    ensures |a.shape| == 1 ==> r.shape == [a.shape[0], 1]
    ensures |a.shape| != 1 ==> r == a
  {
    ProductAppendOne(a.shape);
    if |a.shape| == 1 then
      assert a.shape + [1] == [a.shape[0], 1];
      NdArray([a.shape[0], 1], a.data, a.dtype)
    else a
  }

  /** The docstring example: 45 elements become a (45, 1) column. */
  lemma ReshapeAtLeast2Example(data: seq<int>)
    requires |data| == 45
    ensures ReshapeAtLeast2(NdArray([45], data, "int64")).shape == [45, 1]
  {
  }

  // ---------------------------------------------------------------------
  // Buffers and rows

  /** The rows of a block, one after the other. */
  function Flatten<T>(rows: seq<seq<T>>): seq<T> {
    if rows == [] then [] else rows[0] + Flatten(rows[1..])
  }

  /** True when every row has `n` elements. */
  predicate AllRowsHave<T>(rows: seq<seq<T>>, n: nat) {
    forall p :: 0 <= p < |rows| ==> |rows[p]| == n
  }

  /** Element `b` of row `p` sits at `p * n + b` in the flattened buffer. */
  lemma {:induction false} FlattenAt<T>(rows: seq<seq<T>>, n: nat, p: nat, b: nat)
    requires AllRowsHave(rows, n) && p < |rows| && b < n
    ensures |Flatten(rows)| == |rows| * n
    ensures p * n + b < |Flatten(rows)| && Flatten(rows)[p * n + b] == rows[p][b]
  {
    FlattenLength(rows, n);
    PairBound(p, b, |rows|, n);
    if p > 0 {
      FlattenAt(rows[1..], n, p - 1, b);
      MulSucc(p - 1, n);
    }
  }

  lemma {:induction false} FlattenLength<T>(rows: seq<seq<T>>, n: nat)
    requires AllRowsHave(rows, n)
    ensures |Flatten(rows)| == |rows| * n
  {
    if rows != [] {
      FlattenLength(rows[1..], n);
      MulSucc(|rows| - 1, n);
    }
  }

  /** A buffer cut into `count` rows of `n` elements. */
  function AsRows<T>(data: seq<T>, n: nat, count: nat): (rows: seq<seq<T>>)
    requires |data| == count * n
    ensures |rows| == count && AllRowsHave(rows, n)
  {
    seq(count, p requires 0 <= p < count => RowAt(data, n, count, p))
  }

  /** Element `b` of row `p` is element `p * n + b` of the buffer. */
  lemma AsRowsAt<T>(data: seq<T>, n: nat, count: nat, p: nat, b: nat)
    requires n > 0 && |data| == count * n && p < count && b < n
    ensures p * n + b < |data| && AsRows(data, n, count)[p][b] == data[p * n + b]
  {
    PairBound(p, b, count, n);
    MulSucc(p, n);
    MulMono(p + 1, count, n);
    var lo := p * n;
    assert lo + n <= |data|;
    assert AsRows(data, n, count)[p] == data[lo .. lo + n];
    assert data[lo .. lo + n][b] == data[lo + b];
  }

  /** Row `p` of a buffer of `count` rows of `n` elements. */
  function RowAt<T>(data: seq<T>, n: nat, count: nat, p: nat): (row: seq<T>)
    requires |data| == count * n && p < count
    ensures |row| == n
  {
    MulSucc(p, n);
    MulMono(p + 1, count, n);
    data[p * n .. p * n + n]
  }

  /** Cutting the flattened rows gives the rows back. */
  lemma AsRowsFlatten<T>(rows: seq<seq<T>>, n: nat)
    requires n > 0 && AllRowsHave(rows, n)
    ensures |Flatten(rows)| == |rows| * n
    ensures AsRows(Flatten(rows), n, |rows|) == rows
  {
    FlattenLength(rows, n);
    var r := AsRows(Flatten(rows), n, |rows|);
    forall p | 0 <= p < |rows| ensures r[p] == rows[p] {
      forall b | 0 <= b < n ensures r[p][b] == rows[p][b] {
        FlattenAt(rows, n, p, b);
        AsRowsAt(Flatten(rows), n, |rows|, p, b);
      }
    }
  }

  // ---------------------------------------------------------------------
  // Broadcasting

  function Last(s: seq<nat>): nat requires |s| > 0 { s[|s| - 1] }
  function Init(s: seq<nat>): seq<nat> requires |s| > 0 { s[..|s| - 1] }

  /** numpy's rule for using an array of shape `src` where shape `dst` is
      expected: align the shapes on the right; each axis of `src` equals the
      target axis or is 1, and axes `src` has beyond `dst` are 1. */
  predicate BroadcastableTo(src: seq<nat>, dst: seq<nat>)
    decreases |src|
  {
    if src == [] then true
    else if dst == [] then Last(src) == 1 && BroadcastableTo(Init(src), [])
    else (Last(src) == Last(dst) || Last(src) == 1) && BroadcastableTo(Init(src), Init(dst))
  }

  /** The element of the `src` buffer that broadcasting puts at position `e`
      of the `dst` buffer. */
  function SourceIndex(src: seq<nat>, dst: seq<nat>, e: nat): (i: nat)
    requires BroadcastableTo(src, dst) && e < Product(dst)
    ensures i < Product(src)
    decreases |dst|
  {
    if src == [] then 0
    else if dst == [] then
      PadProductOne(src);
      0
    else
      var d := Last(dst);
      assert Product(dst) == Product(Init(dst)) * d;
      assert d > 0;
      IndexOfPair(e, Product(Init(dst)), d);
      var j := e % d;
      var outer := SourceIndex(Init(src), Init(dst), e / d);
      var s := Last(src);
      var i := outer * s + (if s == 1 then 0 else j);
      assert Product(src) == Product(Init(src)) * s;
      PairBound(outer, if s == 1 then 0 else j, Product(Init(src)), s);
      i
  }

  /** A shape broadcastable to no axes at all is made of ones. */
  lemma {:induction false} PadProductOne(src: seq<nat>)
    requires BroadcastableTo(src, [])
    ensures Product(src) == 1
    decreases |src|
  {
    if src != [] {
      PadProductOne(Init(src));
    }
  }

  /** `a` used where shape `dst` is expected, or the error numpy raises. */
  function BroadcastTo(a: Array, dst: seq<nat>): (r: Result<Array>)
    ensures r.Ok? <==> BroadcastableTo(a.shape, dst)
    ensures r.Err? ==> r.error == ShapeMismatch
    ensures r.Ok? ==> r.value.shape == dst && r.value.dtype == a.dtype
    ensures r.Ok? ==> forall e :: 0 <= e < Product(dst) ==> r.value.data[e] == a.data[SourceIndex(a.shape, dst, e)]
  {
    if !BroadcastableTo(a.shape, dst) then Err(ShapeMismatch)
    else
      var data := seq(Product(dst), e requires 0 <= e < Product(dst) => a.data[SourceIndex(a.shape, dst, e)]);
      Ok(NdArray(dst, data, a.dtype))
  }

  /** Every shape broadcasts to itself, element for element. */
  lemma {:induction false} SourceIndexSame(s: seq<nat>, e: nat)
    requires e < Product(s)
    ensures BroadcastableTo(s, s) && SourceIndex(s, s, e) == e
    decreases |s|
  {
    if s != [] {
      var d := Last(s);
      assert Init(s) == s[..|s| - 1];
      assert d > 0;
      IndexOfPair(e, Product(Init(s)), d);
      SourceIndexSame(Init(s), e / d);
    }
  }

  /** Using an array where its own shape is expected leaves it unchanged. */
  lemma BroadcastSame(a: Array)
    ensures BroadcastTo(a, a.shape) == Ok(a)
  {
    assert BroadcastableTo(a.shape, a.shape) by {
      if Product(a.shape) > 0 { SourceIndexSame(a.shape, 0); } else { BroadcastableRefl(a.shape); }
    }
    var r := BroadcastTo(a, a.shape).value;
    forall e | 0 <= e < Product(a.shape) ensures r.data[e] == a.data[e] {
      SourceIndexSame(a.shape, e);
    }
    assert r.data == a.data;
  }

  lemma {:induction false} BroadcastableRefl(s: seq<nat>)
    ensures BroadcastableTo(s, s)
    decreases |s|
  {
    if s != [] {
      assert Init(s) == s[..|s| - 1];
      BroadcastableRefl(Init(s));
    }
  }

  /** An array of one element fills the whole target with that element. */
  lemma BroadcastSingle(a: Array, dst: seq<nat>)
    requires Product(a.shape) == 1 && BroadcastableTo(a.shape, dst)
    ensures var r := BroadcastTo(a, dst);
      r.Ok? && forall e :: 0 <= e < Product(dst) ==> r.value.data[e] == a.data[0]
  {
  }

  /** A 2-D target `(rows, n)`: broadcastable exactly when the source is a
      matrix whose axes match or are 1, or a vector/scalar fitting a row. */
  lemma BroadcastRows(src: seq<nat>, rows: nat, n: nat)
    requires |src| == 2
    ensures BroadcastableTo(src, [rows, n]) <==>
      (src[0] == rows || src[0] == 1) && (src[1] == n || src[1] == 1)
  {
    assert Init(src) == [src[0]] && Last(src) == src[1];
    assert Init([rows, n]) == [rows] && Last([rows, n]) == n;
    assert Init([src[0]]) == [] && Init([rows]) == [];
    assert BroadcastableTo([src[0]], [rows]) <==> (src[0] == rows || src[0] == 1);
    assert BroadcastableTo(src, [rows, n]) <==>
      (src[1] == n || src[1] == 1) && BroadcastableTo([src[0]], [rows]);
  }

  lemma ProductSingle(a: nat)
    ensures Product([a]) == a
  {
    assert [a][..0] == [];
  }

  lemma ProductPair(a: nat, b: nat)
    ensures Product([a, b]) == a * b
  {
    assert [a, b][..1] == [a];
    assert [a][..0] == [];
    assert Product([a]) == a;
  }

  /** A trailing axis of length 1 keeps the element count. */
  lemma ProductAppendOne(s: seq<nat>)
    ensures Product(s + [1]) == Product(s)
  {
    assert (s + [1])[..|s|] == s;
  }

  lemma ProductTriple(a: nat, b: nat, c: nat)
    ensures Product([a, b, c]) == (a * b) * c
  {
    assert [a, b, c][..2] == [a, b];
    ProductPair(a, b);
  }

  // ---------------------------------------------------------------------
  // Masked arrays and what a user function receives

  /** `np.ma.masked_array(arr, mask)`: one mask entry per element. */
  datatype Masked = Masked(arr: Array, mask: seq<bool>)

  predicate MaskedValid(m: Masked) {
    |m.mask| == |m.arr.data|
  }

  /** The first argument of a user function: the unmasked pixels as a plain
      array (2-D mode) or a masked block (3-D mode and spatial windows). */
  datatype FunInput = Plain(a: Array) | MaskedIn(m: Masked)
}
