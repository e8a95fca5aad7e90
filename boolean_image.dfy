/**
 * The boolean mask image: a grid of booleans whose True pixels form the
 * "masked region". The pixels live in an array, flattened in row-major
 * order; the shape is fixed for the life of the image.
 */
module BooleanImages {
  import opened Shapes
  import opened Masks

  class BooleanImage {
    const shape: seq<nat>
    var pixels: array<bool>

    /** The pixel array covers the shape, which has at least one axis. */
    ghost predicate Valid()
      reads this
    {
      |shape| >= 1 && pixels.Length == NPixels(shape)
    }

    /** The mask this image currently holds. */
    function Value(): (m: Mask)
      reads this, pixels
      ensures Valid() ==> m.Valid()
    {
      Mask(shape, pixels[..])
    }

    /** Numeric mask data, coerced to boolean: every non-zero value becomes True. */
    constructor FromData(shape: seq<nat>, data: seq<int>)
      requires |shape| >= 1 && |data| == NPixels(shape)
      ensures Valid() && fresh(pixels) && this.shape == shape
      ensures forall k :: 0 <= k < |data| ==> pixels[k] == (data[k] != 0)
    {
      this.shape := shape;
      pixels := new bool[|data|](k requires 0 <= k < |data| => data[k] != 0);
    }

    /** Boolean mask data, copied as it is. */
    constructor FromBools(shape: seq<nat>, mask: seq<bool>)
      requires |shape| >= 1 && |mask| == NPixels(shape)
      ensures Valid() && fresh(pixels) && Value() == Mask(shape, mask)
    {
      this.shape := shape;
      pixels := new bool[|mask|](k requires 0 <= k < |mask| => mask[k]);
    }

    /**
     * `blank`: a new mask of the given shape with every pixel `fill`; fails
     * unless the rounding mode is ceil, round or floor.
     */
    static method Blank(shape: seq<nat>, fill: bool, round: string) returns (r: Result<BooleanImage>)
      requires ValidRound(round) ==> |shape| >= 1
      ensures r.Failure? <==> Masks.Blank(shape, fill, round).Failure?
      ensures r.Failure? ==> r.error == Masks.Blank(shape, fill, round).error
      ensures r.Success? ==> fresh(r.value) && fresh(r.value.pixels) && r.value.Valid()
      ensures r.Success? ==> r.value.Value() == Masks.Blank(shape, fill, round).value
    {
      if !ValidRound(round) {
        return Failure(InvalidRound(round));
      }
      var image := new BooleanImage.FromBools(shape, seq(NPixels(shape), _ => fill));
      return Success(image);
    }

    /** `copy`: a new image with the same shape and a copy of the pixels. */
    method Copy() returns (c: BooleanImage)
      requires Valid()
      ensures fresh(c) && fresh(c.pixels) && c.Valid()
      ensures c.Value() == Value()
    {
      c := new BooleanImage.FromBools(shape, pixels[..]);
    }

    /**
     * `from_vector`: a new image of this image's shape whose pixels are the
     * vector, reshaped; numpy's reshape fails when the sizes differ.
     */
    method FromVector(vector: seq<bool>) returns (r: Result<BooleanImage>)
      requires Valid()
      ensures r.Failure? <==> |vector| != NPixels(shape)
      ensures r.Failure? ==> r.error == ReshapeMismatch(|vector|, NPixels(shape))
      ensures r.Success? ==> fresh(r.value) && fresh(r.value.pixels) && r.value.Valid()
      ensures r.Success? ==> r.value.Value() == Mask(shape, vector)
    {
      if |vector| != NPixels(shape) {
        return Failure(ReshapeMismatch(|vector|, NPixels(shape)));
      }
      var image := new BooleanImage.FromBools(shape, vector);
      return Success(image);
    }

    /**
     * `invert_inplace`: rebinds the pixels to a new array holding their
     * negation; the shape does not change.
     */
    method InvertInplace()
      requires Valid()
      modifies this
      ensures Valid() && fresh(pixels)
      ensures Value() == Masks.Invert(old(Value()))
    {
      var current := pixels[..];
      pixels := new bool[|current|](k requires 0 <= k < |current| => !current[k]);
    }

    /** `invert`: a copy of this image, inverted; this image is left as it was. */
    method Invert() returns (inverse: BooleanImage)
      requires Valid()
      ensures fresh(inverse) && fresh(inverse.pixels) && inverse.Valid()
      ensures inverse.Value() == Masks.Invert(Value())
    {
      inverse := Copy();
      inverse.InvertInplace();
    }

    /**
     * `bounds_false`: the bounds of the True region of the inverted copy,
     * with the same boundary and constraint.
     */
    method BoundsFalse(boundary: int, constrainToBounds: bool, constrain: seq<int> -> seq<int>)
      returns (r: Result<(seq<int>, seq<int>)>)
      requires Valid()
      ensures r == BoundsTrue(Masks.Invert(Value()), boundary, constrainToBounds, constrain)
    {
      var inverse := Invert();
      r := BoundsTrue(inverse.Value(), boundary, constrainToBounds, constrain);
    }

    /**
     * `pixels[mask] = values`, the mask being this image's own pixels: the
     * True pixels receive the values in row-major order (a single value is
     * broadcast to all of them); any other number of values is refused and
     * nothing changes.
     */
    method AssignMasked(values: seq<bool>) returns (ok: bool)
      requires Valid()
      modifies pixels
      ensures ok <==> Masks.AssignMasked(old(Value()), values).Success?
      ensures ok ==> Value() == Masks.AssignMasked(old(Value()), values).value
      ensures !ok ==> Value() == old(Value())
    {
      var mask := pixels[..];
      var n := Count(mask, true);
      if |values| != n && |values| != 1 {
        return false;
      }
      var vals := Broadcast(values, n);
      forall k | 0 <= k < |mask| && mask[k]
        ensures Count(mask[..k], true) < |vals|
      {
        CountBefore(mask, k);
      }
      forall k | 0 <= k < pixels.Length && mask[k] {
        pixels[k] := vals[Count(mask[..k], true)];
      }
      assert pixels[..] == Scatter(mask, mask, vals);
      return true;
    }

    /**
     * `_build_warped_image`, as its docstring intends: a copy of the
     * template whose True pixels receive the sampled values and whose False
     * pixels stay False (the code as written starts from an all-True blank
     * instead; see `Masks.BuildWarped`).
     */
    static method BuildWarpedImage(template: BooleanImage, sampled: seq<bool>)
      returns (r: Result<BooleanImage>)
      requires template.Valid()
      ensures r.Failure? <==> WarpedFromTemplate(template.Value(), sampled).Failure?
      ensures r.Failure? ==> r.error == WarpedFromTemplate(template.Value(), sampled).error
      ensures r.Success? ==> fresh(r.value) && r.value.Valid()
      ensures r.Success? ==> r.value.Value() == WarpedFromTemplate(template.Value(), sampled).value
    {
      var warped := template.Copy();
      var ok := warped.AssignMasked(sampled);
      if !ok {
        return Failure(AssignMismatch(|sampled|, NTrue(template.Value())));
      }
      return Success(warped);
    }
  }
}
