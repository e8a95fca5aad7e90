/**
 * The index space of an n-dimensional image, as the base `Image` class
 * exposes it: an image of shape (M, N, ..., L) has M * N * ... * L pixels,
 * stored in row-major (C) order, and the pixel at flat position k has the
 * multi-index obtained by unravelling k against the shape.
 */
module Shapes {

  /** Number of pixels of an image of the given shape: the product of its extents. */
  function NPixels(shape: seq<nat>): nat
    decreases |shape|
  {
    if |shape| == 0 then 1 else NPixels(shape[..|shape| - 1]) * shape[|shape| - 1]
  }

  /** `idx` is a legal multi-index of an image of this shape. */
  predicate InBounds(shape: seq<nat>, idx: seq<nat>)
  {
    |idx| == |shape| && forall d :: 0 <= d < |shape| ==> idx[d] < shape[d]
  }

  lemma DivBelow(k: nat, p: nat, n: nat)
    requires k < p * n
    ensures n > 0 && k / n < p
  {
  }

  lemma MulAtLeast(a: int, n: int)
    requires n >= 0
    ensures a >= 1 ==> a * n >= n
    ensures a <= -1 ==> a * n <= -n
  {
    assert a * n == (a - 1) * n + n;
    assert a * n == (a + 1) * n - n;
  }

  lemma MulAddBelow(f: nat, i: nat, p: nat, n: nat)
    requires f < p && i < n
    ensures f * n + i < p * n
  {
    MulAtLeast(p - f, n);
    assert (p - f) * n == p * n - f * n;
  }

  /** Division and remainder undo `f * n + i` when `i < n`. */
  lemma DivModOf(f: nat, i: nat, n: nat)
    requires i < n
    ensures (f * n + i) / n == f && (f * n + i) % n == i
  {
    var k := f * n + i;
    var q, r := k / n, k % n;
    assert q * n + r == f * n + i;
    assert (q - f) * n == q * n - f * n;
    MulAtLeast(q - f, n);
  }

  /** The row-major multi-index of flat position `k` (numpy's `unravel_index`). */
  function Unflatten(shape: seq<nat>, k: nat): (idx: seq<nat>)
    requires k < NPixels(shape)
    ensures InBounds(shape, idx)
    decreases |shape|
  {
    if |shape| == 0 then []
    else
      var n := shape[|shape| - 1];
      DivBelow(k, NPixels(shape[..|shape| - 1]), n);
      Unflatten(shape[..|shape| - 1], k / n) + [k % n]
  }

  /** The row-major flat position of a legal multi-index (numpy's `ravel_multi_index`). */
  function Flatten(shape: seq<nat>, idx: seq<nat>): (k: nat)
    requires InBounds(shape, idx)
    ensures k < NPixels(shape)
    decreases |shape|
  {
    if |shape| == 0 then 0
    else
      var n := shape[|shape| - 1];
      var f := Flatten(shape[..|shape| - 1], idx[..|idx| - 1]);
      MulAddBelow(f, idx[|idx| - 1], NPixels(shape[..|shape| - 1]), n);
      f * n + idx[|idx| - 1]
  }

  /** Unflattening a flat position and flattening it again gives it back. */
  lemma {:induction false} FlattenUnflatten(shape: seq<nat>, k: nat)
    requires k < NPixels(shape)
    ensures Flatten(shape, Unflatten(shape, k)) == k
    decreases |shape|
  {
    if |shape| > 0 {
      var init, n := shape[..|shape| - 1], shape[|shape| - 1];
      DivBelow(k, NPixels(init), n);
      var u := Unflatten(init, k / n);
      FlattenUnflatten(init, k / n);
      var idx := u + [k % n];
      assert idx[..|idx| - 1] == u;
    }
  }

  /** Flattening a legal multi-index and unflattening it again gives it back. */
  lemma {:induction false} UnflattenFlatten(shape: seq<nat>, idx: seq<nat>)
    requires InBounds(shape, idx)
    ensures Unflatten(shape, Flatten(shape, idx)) == idx
    decreases |shape|
  {
    if |shape| > 0 {
      var init, n := shape[..|shape| - 1], shape[|shape| - 1];
      var front := idx[..|idx| - 1];
      assert InBounds(init, front);
      var f := Flatten(init, front);
      DivModOf(f, idx[|idx| - 1], n);
      UnflattenFlatten(init, front);
      assert idx == front + [idx[|idx| - 1]];
    }
  }

  /** Distinct flat positions have distinct multi-indices. */
  lemma UnflattenInjective(shape: seq<nat>, j: nat, k: nat)
    requires j < NPixels(shape) && k < NPixels(shape)
    requires Unflatten(shape, j) == Unflatten(shape, k)
    ensures j == k
  {
    FlattenUnflatten(shape, j);
    FlattenUnflatten(shape, k);
  }

  /** The multi-indices of the flat positions `ps`, in the order of `ps`. */
  function IndicesAt(shape: seq<nat>, ps: seq<nat>): (r: seq<seq<nat>>)
    requires forall i :: 0 <= i < |ps| ==> ps[i] < NPixels(shape)
    ensures |r| == |ps|
    ensures forall i :: 0 <= i < |r| ==> InBounds(shape, r[i])
  {
    seq(|ps|, i requires 0 <= i < |ps| => Unflatten(shape, ps[i]))
  }

  /** The flat positions 0, 1, ..., n - 1. */
  function Range(n: nat): (r: seq<nat>)
    ensures |r| == n && forall i :: 0 <= i < n ==> r[i] == i
  {
    seq(n, i requires 0 <= i < n => i)
  }

  /**
   * Every multi-index of the image, in row-major order: the base class's
   * `indices` property.
   */
  function Indices(shape: seq<nat>): (r: seq<seq<nat>>)
    ensures |r| == NPixels(shape) && forall k :: 0 <= k < |r| ==> InBounds(shape, r[k])
  {
    IndicesAt(shape, Range(NPixels(shape)))
  }

  /**
   * `Indices` enumerates the index space exactly once: it holds every legal
   * multi-index, at its flat position, and nothing else.
   */
  lemma IndicesEnumerate(shape: seq<nat>)
    ensures |Indices(shape)| == NPixels(shape)
    ensures forall k :: 0 <= k < NPixels(shape) ==> InBounds(shape, Indices(shape)[k])
    ensures forall idx :: InBounds(shape, idx) ==>
              Flatten(shape, idx) < |Indices(shape)| && Indices(shape)[Flatten(shape, idx)] == idx
  {
    forall idx | InBounds(shape, idx)
      ensures Indices(shape)[Flatten(shape, idx)] == idx
    {
      UnflattenFlatten(shape, idx);
    }
  }
}
