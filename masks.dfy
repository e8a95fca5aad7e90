/**
 * The value of a boolean mask image and everything the mask image computes
 * from it without changing it: counts, the indices of the True and of the
 * False pixels, the bounding box of the True region, the masked assignment
 * `pixels[mask] = values`, the blank mask and the interpolation-order guard
 * of warping.
 */
module Masks {
  import opened Shapes

  /** The ValueErrors raised by the mask image or by numpy underneath it. */
  datatype Error =
    | InvalidRound(round: string)                // blank: `round` is not ceil, round or floor
    | InvalidOrder(order: int)                   // warp_to: an interpolation order other than 0
    | ReshapeMismatch(size: nat, pixels: nat)    // from_vector: the vector does not fit the shape
    | EmptyReduction                             // bounds_true: max/min over no True pixel
    | AssignMismatch(values: nat, cells: nat)    // masked assignment of the wrong number of values

  datatype Result<T> = Success(value: T) | Failure(error: Error)

  datatype Option<T> = None | Some(value: T)

  /**
   * A mask: its shape (M, N, ..., L) and its pixels in row-major order.
   * The single channel axis of the image is implicit.
   */
  datatype Mask = Mask(shape: seq<nat>, pixels: seq<bool>)
  {
    /** The base image class demands at least one spatial axis. */
    predicate Valid()
    {
      |shape| >= 1 && |pixels| == NPixels(shape)
    }
  }

  // ---------------------------------------------------------------- counting

  /** The number of pixels of `s` equal to `v`. */
  function Count(s: seq<bool>, v: bool): (n: nat)
    ensures n <= |s|
  {
    if s == [] then 0 else Count(s[..|s| - 1], v) + (if s[|s| - 1] == v then 1 else 0)
  }

  /** `n_true`: the sum of the mask. */
  function NTrue(m: Mask): (n: nat)
    ensures m.Valid() ==> n <= NPixels(m.shape)
    ensures n == |Positions(m.pixels, true)|
  {
    Count(m.pixels, true)
  }

  /** Every pixel is either True or False. */
  lemma {:induction false} CountPartition(s: seq<bool>)
    ensures Count(s, true) + Count(s, false) == |s|
  {
    if s != [] {
      CountPartition(s[..|s| - 1]);
    }
  }

  /** `n_false`: the pixels that are not True, which are exactly the False pixels. */
  function NFalse(m: Mask): (n: nat)
    requires m.Valid()
    ensures n == Count(m.pixels, false)
    ensures NTrue(m) + n == NPixels(m.shape)
  {
    CountPartition(m.pixels);
    NPixels(m.shape) - NTrue(m)
  }


  /** A count reaches the length exactly when every element has the value counted. */
  lemma {:induction false} CountFull(s: seq<bool>, v: bool)
    ensures Count(s, v) == |s| <==> forall k :: 0 <= k < |s| ==> s[k] == v
  {
    if s != [] {
      var init := s[..|s| - 1];
      CountFull(init, v);
      assert forall k :: 0 <= k < |init| ==> init[k] == s[k];
    }
  }

  /** `all_true`: numpy's `all` over the pixels; it holds exactly when no pixel is False. */
  predicate AllTrue(m: Mask): (b: bool)
    ensures b <==> Count(m.pixels, false) == 0
  {
    CountPartition(m.pixels);
    CountFull(m.pixels, true);
    forall k :: 0 <= k < |m.pixels| ==> m.pixels[k]
  }

  /** `all_true` holds exactly when every pixel is counted by `n_true`. */
  lemma AllTrueIffFull(m: Mask)
    requires m.Valid()
    ensures AllTrue(m) <==> NTrue(m) == NPixels(m.shape)
    ensures AllTrue(m) <==> NFalse(m) == 0
  {
    CountFull(m.pixels, true);
  }

  /** A count over a prefix never exceeds the count over the whole. */
  lemma {:induction false} CountPrefix(s: seq<bool>, j: nat, v: bool)
    requires j <= |s|
    ensures Count(s[..j], v) <= Count(s, v)
  {
    if j < |s| {
      var init := s[..|s| - 1];
      CountPrefix(init, j, v);
      assert init[..j] == s[..j];
    } else {
      assert s[..j] == s;
    }
  }

  /** Counting one more pixel adds that pixel's contribution. */
  lemma CountStep(s: seq<bool>, k: nat, v: bool)
    requires k < |s|
    ensures Count(s[..k + 1], v) == Count(s[..k], v) + (if s[k] == v then 1 else 0)
  {
    assert s[..k + 1][..k] == s[..k];
  }

  /** A True pixel is preceded by fewer True pixels than the mask holds. */
  lemma CountBefore(mask: seq<bool>, k: nat)
    requires k < |mask| && mask[k]
    ensures Count(mask[..k], true) < Count(mask, true)
  {
    CountStep(mask, k, true);
    CountPrefix(mask, k + 1, true);
  }

  // ---------------------------------------------------------------- positions

  /** The flat positions of the pixels equal to `v`, ascending (numpy's `nonzero`). */
  function Positions(s: seq<bool>, v: bool): (ps: seq<nat>)
    ensures |ps| == Count(s, v)
    ensures forall i :: 0 <= i < |ps| ==> ps[i] < |s| && s[ps[i]] == v
  {
    if s == [] then []
    else Positions(s[..|s| - 1], v) + (if s[|s| - 1] == v then [|s| - 1] else [])
  }

  /** Every pixel equal to `v` is listed. */
  lemma {:induction false} PositionsComplete(s: seq<bool>, v: bool, k: nat)
    requires k < |s| && s[k] == v
    ensures k in Positions(s, v)
  {
    if k < |s| - 1 {
      PositionsComplete(s[..|s| - 1], v, k);
    }
  }

  /** The positions are listed in strictly increasing (row-major) order. */
  lemma {:induction false} PositionsIncreasing(s: seq<bool>, v: bool)
    ensures forall i, j :: 0 <= i < j < |Positions(s, v)| ==> Positions(s, v)[i] < Positions(s, v)[j]
  {
    if s != [] {
      PositionsIncreasing(s[..|s| - 1], v);
    }
  }

  /** The i-th listed position is preceded by exactly i pixels equal to `v`. */
  lemma {:induction false} PositionsRank(s: seq<bool>, v: bool, i: nat)
    requires i < |Positions(s, v)|
    ensures Count(s[..Positions(s, v)[i]], v) == i
  {
    var init := s[..|s| - 1];
    var p := Positions(s, v)[i];
    if i < |Positions(init, v)| {
      PositionsRank(init, v, i);
      assert init[..p] == s[..p];
    } else {
      assert s[..p] == init;
    }
  }

  /** Every pixel is listed, and only pixels equal to `v` are. */
  lemma {:induction false} PositionsExact(s: seq<bool>, v: bool)
    ensures forall k :: 0 <= k < |s| ==> (k in Positions(s, v) <==> s[k] == v)
  {
    forall k | 0 <= k < |s| && s[k] == v
      ensures k in Positions(s, v)
    {
      PositionsComplete(s, v, k);
    }
  }

  /** When every pixel equals `v`, every position is listed in order. */
  lemma {:induction false} PositionsOfConstant(s: seq<bool>, v: bool)
    requires forall k :: 0 <= k < |s| ==> s[k] == v
    ensures Positions(s, v) == Range(|s|)
  {
    if s != [] {
      PositionsOfConstant(s[..|s| - 1], v);
    }
  }

  // ---------------------------------------------------------------- negation

  /** Numpy's `~` on a boolean array. */
  function Negate(s: seq<bool>): (r: seq<bool>)
    ensures |r| == |s| && forall k :: 0 <= k < |s| ==> r[k] != s[k]
  {
    seq(|s|, k requires 0 <= k < |s| => !s[k])
  }

  /** The mask with every pixel negated and the same shape. */
  function Invert(m: Mask): (r: Mask)
    ensures r.shape == m.shape && |r.pixels| == |m.pixels|
    ensures forall k :: 0 <= k < |m.pixels| ==> r.pixels[k] != m.pixels[k]
  {
    Mask(m.shape, Negate(m.pixels))
  }

  /** Inverting twice restores the mask. */
  lemma InvertInvolutive(m: Mask)
    ensures Invert(Invert(m)) == m
    ensures Invert(m).Valid() <==> m.Valid()
  {
  }

  /** Negation swaps the counts of the two values. */
  lemma {:induction false} CountNegate(s: seq<bool>, v: bool)
    ensures Count(Negate(s), v) == Count(s, !v)
  {
    if s != [] {
      assert Negate(s)[..|s| - 1] == Negate(s[..|s| - 1]);
      CountNegate(s[..|s| - 1], v);
    }
  }

  /** Negation turns the False positions into the True ones. */
  lemma {:induction false} PositionsNegate(s: seq<bool>)
    ensures Positions(Negate(s), true) == Positions(s, false)
  {
    if s != [] {
      assert Negate(s)[..|s| - 1] == Negate(s[..|s| - 1]);
      PositionsNegate(s[..|s| - 1]);
    }
  }

  /** The inverse's True pixels are the original's False pixels, and vice versa. */
  lemma InvertCounts(m: Mask)
    requires m.Valid()
    ensures NTrue(Invert(m)) == NFalse(m)
    ensures NFalse(Invert(m)) == NTrue(m)
  {
    CountNegate(m.pixels, true);
    CountNegate(m.pixels, false);
  }

  // ---------------------------------------------------------------- indices

  /**
   * `true_indices`: the whole index space when the mask is all True,
   * otherwise the multi-indices of the non-zero pixels.
   */
  function TrueIndices(m: Mask): (r: seq<seq<nat>>)
    requires m.Valid()
    ensures |r| == NTrue(m)
    ensures forall i :: 0 <= i < |r| ==> InBounds(m.shape, r[i])
  {
    if AllTrue(m) then CountFull(m.pixels, true); Indices(m.shape)
    else IndicesAt(m.shape, Positions(m.pixels, true))
  }

  /** `false_indices`: the multi-indices of the zero pixels. */
  function FalseIndices(m: Mask): (r: seq<seq<nat>>)
    requires m.Valid()
    ensures |r| == NFalse(m)
    ensures forall i :: 0 <= i < |r| ==> InBounds(m.shape, r[i])
  {
    IndicesAt(m.shape, Positions(m.pixels, false))
  }

  /**
   * The shortcut taken for an all-True mask gives the same list as the
   * general `nonzero` route.
   */
  lemma TrueIndicesNonzero(m: Mask)
    requires m.Valid()
    ensures TrueIndices(m) == IndicesAt(m.shape, Positions(m.pixels, true))
  {
    if AllTrue(m) {
      PositionsOfConstant(m.pixels, true);
    }
  }

  /**
   * The multi-indices of the pixels equal to `v` are legal, in row-major
   * order, one per such pixel, and include every such pixel.
   */
  lemma IndicesOfValue(shape: seq<nat>, s: seq<bool>, v: bool)
    requires |s| == NPixels(shape)
    ensures var r := IndicesAt(shape, Positions(s, v));
      && |r| == Count(s, v)
      && (forall i :: 0 <= i < |r| ==>
            InBounds(shape, r[i]) && Flatten(shape, r[i]) == Positions(s, v)[i])
      && (forall i, j :: 0 <= i < j < |r| ==> Flatten(shape, r[i]) < Flatten(shape, r[j]))
      && (forall idx :: InBounds(shape, idx) ==> (idx in r <==> s[Flatten(shape, idx)] == v))
  {
    var ps := Positions(s, v);
    var r := IndicesAt(shape, ps);
    forall i | 0 <= i < |r|
      ensures Flatten(shape, r[i]) == ps[i]
    {
      FlattenUnflatten(shape, ps[i]);
    }
    PositionsIncreasing(s, v);
    forall idx | InBounds(shape, idx)
      ensures idx in r <==> s[Flatten(shape, idx)] == v
    {
      var k := Flatten(shape, idx);
      if s[k] == v {
        PositionsComplete(s, v, k);
        var i :| 0 <= i < |ps| && ps[i] == k;
        UnflattenFlatten(shape, idx);
        assert r[i] == idx;
      }
      if idx in r {
        var i :| 0 <= i < |r| && r[i] == idx;
        assert ps[i] == k;
      }
    }
  }

  /**
   * `true_indices` lists exactly the True pixels, once each, in row-major
   * order, and there are `n_true` of them.
   */
  lemma TrueIndicesExact(m: Mask)
    requires m.Valid()
    ensures |TrueIndices(m)| == NTrue(m)
    ensures forall i, j :: 0 <= i < j < |TrueIndices(m)| ==>
              Flatten(m.shape, TrueIndices(m)[i]) < Flatten(m.shape, TrueIndices(m)[j])
    ensures forall idx :: InBounds(m.shape, idx) ==>
              (idx in TrueIndices(m) <==> m.pixels[Flatten(m.shape, idx)])
  {
    TrueIndicesNonzero(m);
    IndicesOfValue(m.shape, m.pixels, true);
  }

  /**
   * `false_indices` lists exactly the False pixels, once each, in row-major
   * order, and there are `n_false` of them.
   */
  lemma FalseIndicesExact(m: Mask)
    requires m.Valid()
    ensures |FalseIndices(m)| == NFalse(m)
    ensures forall i, j :: 0 <= i < j < |FalseIndices(m)| ==>
              Flatten(m.shape, FalseIndices(m)[i]) < Flatten(m.shape, FalseIndices(m)[j])
    ensures forall idx :: InBounds(m.shape, idx) ==>
              (idx in FalseIndices(m) <==> !m.pixels[Flatten(m.shape, idx)])
  {
    IndicesOfValue(m.shape, m.pixels, false);
  }

  /** The True and the False indices partition the image's index space. */
  lemma IndicesPartition(m: Mask)
    requires m.Valid()
    ensures |TrueIndices(m)| + |FalseIndices(m)| == NPixels(m.shape)
    ensures forall idx :: InBounds(m.shape, idx) ==>
              (idx in TrueIndices(m) <==> idx !in FalseIndices(m))
  {
    TrueIndicesExact(m);
    FalseIndicesExact(m);
  }

  /**
   * `all_true` holds exactly when `true_indices` covers the whole index
   * space; it is then the base class's `indices` and no pixel is False.
   */
  lemma AllTrueIndices(m: Mask)
    requires m.Valid()
    ensures AllTrue(m) <==> forall idx :: InBounds(m.shape, idx) ==> idx in TrueIndices(m)
    ensures AllTrue(m) ==> TrueIndices(m) == Indices(m.shape) && FalseIndices(m) == []
  {
    TrueIndicesExact(m);
    FalseIndicesExact(m);
    AllTrueIffFull(m);
    if forall idx :: InBounds(m.shape, idx) ==> idx in TrueIndices(m) {
      forall k | 0 <= k < |m.pixels|
        ensures m.pixels[k]
      {
        var idx := Unflatten(m.shape, k);
        FlattenUnflatten(m.shape, k);
        assert idx in TrueIndices(m);
      }
    }
  }

  /** The True indices of the inverse are the False indices of the mask. */
  lemma TrueIndicesOfInverse(m: Mask)
    requires m.Valid()
    ensures TrueIndices(Invert(m)) == FalseIndices(m)
  {
    TrueIndicesNonzero(Invert(m));
    PositionsNegate(m.pixels);
  }

  // ---------------------------------------------------------------- bounds

  /** The smallest coordinate along axis `d` among `ps`. */
  function MinAt(ps: seq<seq<nat>>, d: nat): (lo: nat)
    requires |ps| > 0 && forall i :: 0 <= i < |ps| ==> d < |ps[i]|
    ensures forall i :: 0 <= i < |ps| ==> lo <= ps[i][d]
    ensures exists i :: 0 <= i < |ps| && ps[i][d] == lo
  {
    if |ps| == 1 then ps[0][d]
    else
      var rest := MinAt(ps[..|ps| - 1], d);
      if ps[|ps| - 1][d] < rest then ps[|ps| - 1][d] else rest
  }

  /** The largest coordinate along axis `d` among `ps`. */
  function MaxAt(ps: seq<seq<nat>>, d: nat): (hi: nat)
    requires |ps| > 0 && forall i :: 0 <= i < |ps| ==> d < |ps[i]|
    ensures forall i :: 0 <= i < |ps| ==> ps[i][d] <= hi
    ensures exists i :: 0 <= i < |ps| && ps[i][d] == hi
  {
    if |ps| == 1 then ps[0][d]
    else
      var rest := MaxAt(ps[..|ps| - 1], d);
      if ps[|ps| - 1][d] > rest then ps[|ps| - 1][d] else rest
  }

  /**
   * `bounds_true`: the per-axis minimum and maximum of the True indices,
   * widened by `boundary`, then passed through `constrain` (the image's
   * `constrain_points_to_bounds`) when `constrainToBounds` is set.
   */
  function BoundsTrue(m: Mask, boundary: int, constrainToBounds: bool,
                      constrain: seq<int> -> seq<int>): (r: Result<(seq<int>, seq<int>)>)
    requires m.Valid()
    ensures r.Failure? ==> r.error == EmptyReduction
    ensures r.Success? && !constrainToBounds ==>
      && |r.value.0| == |m.shape| && |r.value.1| == |m.shape|
      && forall d :: 0 <= d < |m.shape| ==> r.value.0[d] + 2 * boundary <= r.value.1[d]
  {
    var mpi := TrueIndices(m);
    if |mpi| == 0 then Failure(EmptyReduction)
    else
      var maxes := seq(|m.shape|, d requires 0 <= d < |m.shape| => MaxAt(mpi, d) + boundary);
      var mins := seq(|m.shape|, d requires 0 <= d < |m.shape| => MinAt(mpi, d) - boundary);
      if constrainToBounds then Success((constrain(mins), constrain(maxes)))
      else Success((mins, maxes))
  }

  /** A pixel the mask holds True, given by its multi-index. */
  predicate IsTrueAt(m: Mask, idx: seq<nat>)
    requires m.Valid()
  {
    InBounds(m.shape, idx) && m.pixels[Flatten(m.shape, idx)]
  }

  /** Unconstrained or not, `bounds_true` fails exactly on a mask with no True pixel. */
  lemma BoundsTrueFails(m: Mask, boundary: int, constrainToBounds: bool,
                        constrain: seq<int> -> seq<int>)
    requires m.Valid()
    ensures var r := BoundsTrue(m, boundary, constrainToBounds, constrain);
      (r.Failure? <==> NTrue(m) == 0) && (r.Failure? ==> r.error == EmptyReduction)
  {
    TrueIndicesExact(m);
  }

  /** Along axis `d` every True pixel lies between the extremes of `true_indices`. */
  lemma TrueIndicesBetween(m: Mask, d: nat)
    requires m.Valid() && NTrue(m) > 0 && d < |m.shape|
    ensures |TrueIndices(m)| > 0
    ensures forall idx :: IsTrueAt(m, idx) ==>
              MinAt(TrueIndices(m), d) <= idx[d] <= MaxAt(TrueIndices(m), d)
  {
    TrueIndicesExact(m);
    var mpi := TrueIndices(m);
    forall idx | IsTrueAt(m, idx)
      ensures MinAt(mpi, d) <= idx[d] <= MaxAt(mpi, d)
    {
      assert idx in mpi;
      var i :| 0 <= i < |mpi| && mpi[i] == idx;
    }
  }

  /** Both extremes of `true_indices` along axis `d` are coordinates of True pixels. */
  lemma TrueIndicesExtremesAttained(m: Mask, d: nat)
    requires m.Valid() && NTrue(m) > 0 && d < |m.shape|
    ensures |TrueIndices(m)| > 0
    ensures exists idx :: IsTrueAt(m, idx) && idx[d] == MinAt(TrueIndices(m), d)
    ensures exists idx :: IsTrueAt(m, idx) && idx[d] == MaxAt(TrueIndices(m), d)
  {
    var mpi := TrueIndices(m);
    var i :| 0 <= i < |mpi| && mpi[i][d] == MinAt(mpi, d);
    var j :| 0 <= j < |mpi| && mpi[j][d] == MaxAt(mpi, d);
    TrueIndexIsTrue(m, i);
    TrueIndexIsTrue(m, j);
  }

  /** Each entry of `true_indices` is a True pixel. */
  lemma TrueIndexIsTrue(m: Mask, i: nat)
    requires m.Valid() && i < |TrueIndices(m)|
    ensures IsTrueAt(m, TrueIndices(m)[i])
  {
    TrueIndicesExact(m);
    assert TrueIndices(m)[i] in TrueIndices(m);
  }

  /**
   * Unconstrained, along every axis `d` the bounds are the least and the
   * greatest coordinate of a True pixel, moved outwards by `boundary`.
   */
  lemma BoundsTrueTight(m: Mask, boundary: int, constrain: seq<int> -> seq<int>, d: nat)
    requires m.Valid() && NTrue(m) > 0 && d < |m.shape|
    ensures BoundsTrue(m, boundary, false, constrain).Success?
    ensures var (mins, maxes) := BoundsTrue(m, boundary, false, constrain).value;
      && |mins| == |m.shape| && |maxes| == |m.shape|
      && (forall idx :: IsTrueAt(m, idx) ==> mins[d] + boundary <= idx[d] <= maxes[d] - boundary)
      && (exists idx :: IsTrueAt(m, idx) && idx[d] == mins[d] + boundary)
      && (exists idx :: IsTrueAt(m, idx) && idx[d] == maxes[d] - boundary)
  {
    TrueIndicesBetween(m, d);
    TrueIndicesExtremesAttained(m, d);
  }

  /**
   * With a non-negative boundary the unconstrained bounds enclose every
   * True pixel.
   */
  lemma BoundsTrueEnclose(m: Mask, boundary: int, constrain: seq<int> -> seq<int>, idx: seq<nat>)
    requires m.Valid() && boundary >= 0 && IsTrueAt(m, idx)
    ensures BoundsTrue(m, boundary, false, constrain).Success?
    ensures var (mins, maxes) := BoundsTrue(m, boundary, false, constrain).value;
      forall d :: 0 <= d < |m.shape| ==> mins[d] <= idx[d] <= maxes[d]
  {
    TrueIndicesExact(m);
    assert idx in TrueIndices(m);
    var r := BoundsTrue(m, boundary, false, constrain);
    forall d | 0 <= d < |m.shape|
      ensures r.Success? && r.value.0[d] <= idx[d] <= r.value.1[d]
    {
      BoundsTrueTight(m, boundary, constrain, d);
    }
  }

  /** A pixel the mask holds False, given by its multi-index. */
  predicate IsFalseAt(m: Mask, idx: seq<nat>)
    requires m.Valid()
  {
    InBounds(m.shape, idx) && !m.pixels[Flatten(m.shape, idx)]
  }

  /**
   * `bounds_false` is `bounds_true` of the inverse: it fails exactly on a
   * mask with no False pixel, and, unconstrained, along every axis `d` its
   * bounds are the least and the greatest coordinate of a False pixel,
   * moved outwards by `boundary`.
   */
  lemma BoundsFalseTight(m: Mask, boundary: int, constrain: seq<int> -> seq<int>, d: nat)
    requires m.Valid() && d < |m.shape|
    ensures BoundsTrue(Invert(m), boundary, false, constrain).Failure? <==> NFalse(m) == 0
    ensures var r := BoundsTrue(Invert(m), boundary, false, constrain);
      r.Success? ==>
        && (forall idx :: IsFalseAt(m, idx) ==> r.value.0[d] + boundary <= idx[d] <= r.value.1[d] - boundary)
        && (exists idx :: IsFalseAt(m, idx) && idx[d] == r.value.0[d] + boundary)
        && (exists idx :: IsFalseAt(m, idx) && idx[d] == r.value.1[d] - boundary)
  {
    var inv := Invert(m);
    InvertCounts(m);
    BoundsTrueFails(inv, boundary, false, constrain);
    assert forall idx :: IsTrueAt(inv, idx) <==> IsFalseAt(m, idx);
    if NFalse(m) > 0 {
      BoundsTrueTight(inv, boundary, constrain, d);
    }
  }

  // ---------------------------------------------------------------- masked assignment

  /**
   * `target[mask] = values` for a boolean index array: the k-th True cell of
   * `mask` receives `values[k]`; every other cell keeps its value.
   */
  function Scatter(mask: seq<bool>, target: seq<bool>, values: seq<bool>): seq<bool>
    requires |target| == |mask| && |values| == Count(mask, true)
  {
    seq(|mask|, k requires 0 <= k < |mask| =>
      if mask[k] then CountBefore(mask, k); values[Count(mask[..k], true)] else target[k])
  }

  /** `s[mask]` for a boolean index array: the cells of `s` under True, in order. */
  function Gather(mask: seq<bool>, s: seq<bool>): (r: seq<bool>)
    requires |s| == |mask|
    ensures |r| == Count(mask, true)
  {
    var ps := Positions(mask, true);
    seq(|ps|, i requires 0 <= i < |ps| => s[ps[i]])
  }

  /**
   * Reading back the masked cells after a masked assignment gives exactly
   * the values written, and the unmasked cells are untouched.
   */
  lemma ScatterGather(mask: seq<bool>, target: seq<bool>, values: seq<bool>)
    requires |target| == |mask| && |values| == Count(mask, true)
    ensures Gather(mask, Scatter(mask, target, values)) == values
    ensures forall k :: 0 <= k < |mask| && !mask[k] ==> Scatter(mask, target, values)[k] == target[k]
  {
    var ps := Positions(mask, true);
    forall i | 0 <= i < |ps|
      ensures Scatter(mask, target, values)[ps[i]] == values[i]
    {
      PositionsRank(mask, true, i);
    }
  }

  /** Under an all-True mask the assignment overwrites the target with the values, in order. */
  lemma ScatterAllTrue(mask: seq<bool>, target: seq<bool>, values: seq<bool>)
    requires |target| == |mask| && |values| == Count(mask, true)
    requires forall k :: 0 <= k < |mask| ==> mask[k]
    ensures Scatter(mask, target, values) == values
  {
    CountFull(mask, true);
    forall k | 0 <= k < |mask|
      ensures Count(mask[..k], true) == k
    {
      CountFull(mask[..k], true);
    }
  }

  /** Numpy broadcasting of the assigned values to the number of selected cells. */
  function Broadcast(values: seq<bool>, n: nat): (r: seq<bool>)
    requires |values| == n || |values| == 1
    ensures |r| == n
  {
    if |values| == n then values else seq(n, _ => values[0])
  }

  /**
   * `pixels[mask] = values` where the index array is the mask itself:
   * numpy accepts one value per True pixel, or a single value that is
   * broadcast, and raises otherwise.
   */
  function AssignMasked(m: Mask, values: seq<bool>): (r: Result<Mask>)
    requires m.Valid()
    ensures r.Failure? <==> |values| != NTrue(m) && |values| != 1
    ensures r.Failure? ==> r.error == AssignMismatch(|values|, NTrue(m))
    ensures r.Success? ==> r.value.Valid() && r.value.shape == m.shape
    ensures r.Success? ==> forall k :: 0 <= k < |m.pixels| && !m.pixels[k] ==> !r.value.pixels[k]
  {
    var n := NTrue(m);
    if |values| != n && |values| != 1 then Failure(AssignMismatch(|values|, n))
    else Success(Mask(m.shape, Scatter(m.pixels, m.pixels, Broadcast(values, n))))
  }

  // ---------------------------------------------------------------- blank, warping

  /** The rounding modes `blank` accepts. */
  predicate ValidRound(round: string)
  {
    round in ["ceil", "round", "floor"]
  }

  /** `blank`: every pixel set to `fill`, after the rounding mode has been validated. */
  function Blank(shape: seq<nat>, fill: bool, round: string): (r: Result<Mask>)
    ensures r.Failure? <==> !ValidRound(round)
    ensures r.Failure? ==> r.error == InvalidRound(round)
    ensures r.Success? ==> r.value.shape == shape && (r.value.Valid() <==> |shape| >= 1)
  {
    if !ValidRound(round) then Failure(InvalidRound(round))
    else Success(Mask(shape, seq(NPixels(shape), _ => fill)))
  }

  lemma {:induction false} CountConstant(n: nat, v: bool, w: bool)
    ensures Count(seq(n, _ => v), w) == if v == w then n else 0
  {
    if n > 0 {
      assert seq(n, _ => v)[..n - 1] == seq(n - 1, _ => v);
      CountConstant(n - 1, v, w);
    }
  }

  /**
   * `blank` raises unless the rounding mode is ceil, round or floor; a
   * filled blank is all True, an unfilled one has no True pixel.
   */
  lemma BlankSpec(shape: seq<nat>, fill: bool, round: string)
    requires ValidRound(round) ==> |shape| >= 1
    ensures Blank(shape, fill, round).Failure? <==> !(round == "ceil" || round == "round" || round == "floor")
    ensures var r := Blank(shape, fill, round);
      r.Success? ==>
        && r.value.Valid() && r.value.shape == shape
        && (fill ==> AllTrue(r.value) && NTrue(r.value) == NPixels(shape))
        && (!fill ==> NTrue(r.value) == 0 && NFalse(r.value) == NPixels(shape))
  {
    CountConstant(NPixels(shape), fill, true);
  }

  /**
   * The warped mask: a filled blank of the template's shape whose True
   * cells (all of them) receive the sampled values.
   */
  function BuildWarped(shape: seq<nat>, sampled: seq<bool>): (r: Result<Mask>)
    requires |shape| >= 1
    ensures r.Failure? ==> r.error == AssignMismatch(|sampled|, NPixels(shape))
    ensures r.Success? ==> r.value.Valid() && r.value.shape == shape
  {
    var blank := Mask(shape, seq(NPixels(shape), _ => true));
    CountConstant(NPixels(shape), true, true);
    AssignMasked(blank, sampled)
  }

  /**
   * Building the warped mask succeeds exactly when there is one sampled
   * value per pixel of the template, or a single value; the result has the
   * template's shape and holds the sampled values in row-major order (the
   * single value everywhere).
   */
  lemma BuildWarpedSpec(shape: seq<nat>, sampled: seq<bool>)
    requires |shape| >= 1
    ensures var r := BuildWarped(shape, sampled);
      && (r.Success? <==> |sampled| == NPixels(shape) || |sampled| == 1)
      && (r.Success? ==> r.value.Valid() && r.value.shape == shape)
      && (r.Success? && |sampled| == NPixels(shape) ==> r.value.pixels == sampled)
      && (r.Success? && |sampled| == 1 ==>
            forall k :: 0 <= k < NPixels(shape) ==> r.value.pixels[k] == sampled[0])
  {
    var n := NPixels(shape);
    var full := seq(n, _ => true);
    CountConstant(n, true, true);
    if |sampled| == n || |sampled| == 1 {
      ScatterAllTrue(full, full, Broadcast(sampled, n));
    }
  }

  /**
   * The warped mask built from the template itself: its True cells receive
   * the sampled values, one per True cell of the template, and its False
   * cells stay False.
   */
  function WarpedFromTemplate(template: Mask, sampled: seq<bool>): (r: Result<Mask>)
    requires template.Valid()
    ensures r.Failure? ==> r.error == AssignMismatch(|sampled|, NTrue(template))
    ensures r.Success? ==> r.value.Valid() && r.value.shape == template.shape
  {
    AssignMasked(template, sampled)
  }

  /**
   * Building from the template accepts exactly one sampled value per True
   * pixel of the template (or a single value); the result has the
   * template's shape, reading its True cells back gives the sampled values,
   * and the template's False cells stay False. On an all-True template it
   * agrees with `BuildWarped`.
   */
  lemma WarpedFromTemplateSpec(template: Mask, sampled: seq<bool>)
    requires template.Valid()
    ensures var r := WarpedFromTemplate(template, sampled);
      && (r.Success? <==> |sampled| == NTrue(template) || |sampled| == 1)
      && (r.Success? ==> r.value.Valid() && r.value.shape == template.shape)
      && (r.Success? && |sampled| == NTrue(template) ==>
            Gather(template.pixels, r.value.pixels) == sampled)
      && (r.Success? && |sampled| == 1 ==>
            forall k :: 0 <= k < |template.pixels| && template.pixels[k] ==> r.value.pixels[k] == sampled[0])
      && (r.Success? ==> forall k :: 0 <= k < |template.pixels| && !template.pixels[k] ==> !r.value.pixels[k])
    ensures AllTrue(template) ==> WarpedFromTemplate(template, sampled) == BuildWarped(template.shape, sampled)
  {
    var n := NTrue(template);
    if |sampled| == n || |sampled| == 1 {
      ScatterGather(template.pixels, template.pixels, Broadcast(sampled, n));
      forall k | 0 <= k < |template.pixels| && template.pixels[k]
        ensures Count(template.pixels[..k], true) < n
      {
        CountBefore(template.pixels, k);
      }
    }
    if AllTrue(template) {
      assert template.pixels == seq(NPixels(template.shape), _ => true);
    }
  }

  /**
   * As written, the warped mask starts from an all-True blank, so a template
   * with more than one but not every pixel True, sampled once per True
   * pixel, is refused, although building from the template accepts it.
   */
  lemma BuildWarpedRejectsPartialTemplate(template: Mask, sampled: seq<bool>)
    requires template.Valid()
    requires |sampled| == NTrue(template) && 1 < NTrue(template) < NPixels(template.shape)
    ensures BuildWarped(template.shape, sampled).Failure?
    ensures WarpedFromTemplate(template, sampled).Success?
  {
    BuildWarpedSpec(template.shape, sampled);
  }

  /**
   * The two sides of that discrepancy on concrete masks: a template of
   * shape (1, 3) with two True pixels yields two samples, which the
   * all-True blank refuses; a template of shape (1, 2) with one True pixel
   * yields one sample, which the blank broadcasts over the template's False
   * pixel too.
   */
  lemma BuildWarpedCounterexamples()
    ensures BuildWarped([1, 3], [true, false]).Failure?
    ensures WarpedFromTemplate(Mask([1, 3], [true, true, false]), [true, false])
              == Success(Mask([1, 3], [true, false, false]))
    ensures BuildWarped([1, 2], [true]) == Success(Mask([1, 2], [true, true]))
    ensures WarpedFromTemplate(Mask([1, 2], [true, false]), [true]) == Success(Mask([1, 2], [true, false]))
  {
    assert [1, 3][..1] == [1] && [1, 2][..1] == [1] && [1][..0] == [];
    assert NPixels([1]) == 1;
    assert NPixels([1, 3]) == 3 && NPixels([1, 2]) == 2;
    BuildWarpedSpec([1, 3], [true, false]);
    BuildWarpedSpec([1, 2], [true]);
    var b2 := BuildWarped([1, 2], [true]).value;
    assert b2.pixels[0] && b2.pixels[1];
    assert b2.pixels == [true, true];

    var t3 := [true, true, false];
    assert t3[..0] == [] && t3[..1] == [true] && t3[..2] == [true, true];
    assert Count([true], true) == 1;
    assert Count([true, true], true) == 2;
    assert Count(t3, true) == 2;
    var w3 := Scatter(t3, t3, Broadcast([true, false], 2));
    assert w3 == [true, false, false];

    var t2 := [true, false];
    assert t2[..0] == [] && t2[..1] == [true];
    assert Count(t2, true) == 1;
    var w2 := Scatter(t2, t2, Broadcast([true], 1));
    assert w2 == [true, false];
  }

  /**
   * The order guard of `warp_to`: an absent order defaults to 0, any other
   * order raises, and the order actually used is always 0.
   */
  function WarpOrder(order: Option<int>): (r: Result<int>)
    ensures r.Success? <==> (order.None? || order.value == 0)
    ensures r.Success? ==> r.value == 0
    ensures r.Failure? ==> r.error == InvalidOrder(order.value)
  {
    var requested := if order.Some? then order.value else 0;
    if requested != 0 then Failure(InvalidOrder(requested)) else Success(0)
  }
}
