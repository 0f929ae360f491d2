/** Single-channel 8-bit images and the per-pixel stages of the inspection
    pipeline: fixed thresholding, masking, bitwise XOR, OR and NOT.
    A pixel is an unsigned 8-bit value, so the bitwise operations are the
    exact bit operations on `bv8`. */
module Images {

  type Pixel = bv8

  /** An image as a sequence of rows. The element-wise stages only need the
      two images to have the same shape, row by row. */
  type Image = seq<seq<Pixel>>

  /** The fixed global threshold of the inner-diameter comparison. */
  const ThresholdLevel: Pixel := 90

  /** The value written for "on" in a binary image. */
  const MaxValue: Pixel := 255

  predicate SameShape(a: Image, b: Image)
  {
    |a| == |b| && forall i :: 0 <= i < |a| ==> |a[i]| == |b[i]|
  }

  predicate InBounds(a: Image, i: int, j: int)
  {
    0 <= i < |a| && 0 <= j < |a[i]|
  }

  /** A two-level image: every pixel is 0 or 255. */
  ghost predicate IsBinary(a: Image)
  {
    forall i, j :: InBounds(a, i, j) ==> a[i][j] == 0 || a[i][j] == MaxValue
  }

  ghost predicate AllZero(a: Image)
  {
    forall i, j :: InBounds(a, i, j) ==> a[i][j] == 0
  }

  /** Applies `f` to every pixel. */
  function PointMap(a: Image, f: Pixel -> Pixel): (r: Image)
    ensures SameShape(r, a)
    ensures forall i, j :: InBounds(a, i, j) ==> r[i][j] == f(a[i][j])
  {
    seq(|a|, i requires 0 <= i < |a| => seq(|a[i]|, j requires 0 <= j < |a[i]| => f(a[i][j])))
  }

  /** Combines two images of the same shape pixel by pixel with `f`. */
  function PointZip(a: Image, b: Image, f: (Pixel, Pixel) -> Pixel): (r: Image)
    requires SameShape(a, b)
    ensures SameShape(r, a)
    ensures forall i, j :: InBounds(a, i, j) ==> r[i][j] == f(a[i][j], b[i][j])
  {
    seq(|a|, i requires 0 <= i < |a| =>
      seq(|a[i]|, j requires 0 <= j < |a[i]| => f(a[i][j], b[i][j])))
  }

  /** `cv.threshold(src, 90, 255, THRESH_BINARY)`: a pixel strictly above the
      level becomes 255, every other pixel 0. */
  function Threshold(a: Image): (r: Image)
    ensures SameShape(r, a)
    ensures IsBinary(r)
    ensures forall i, j :: InBounds(a, i, j) ==> (r[i][j] == MaxValue <==> a[i][j] > ThresholdLevel)
    ensures forall i, j :: InBounds(a, i, j) ==> r[i][j] == (if a[i][j] > ThresholdLevel then MaxValue else 0)
  {
    PointMap(a, p => if p > ThresholdLevel then MaxValue else 0)
  }

  /** `cv.bitwise_xor`. */
  function Xor(a: Image, b: Image): (r: Image)
    requires SameShape(a, b)
    ensures SameShape(r, a)
    ensures forall i, j :: InBounds(a, i, j) ==> r[i][j] == a[i][j] ^ b[i][j]
  {
    PointZip(a, b, (x: Pixel, y: Pixel) => x ^ y)
  }

  /** `cv.bitwise_or`. */
  function Or(a: Image, b: Image): (r: Image)
    requires SameShape(a, b)
    ensures SameShape(r, a)
    ensures forall i, j :: InBounds(a, i, j) ==> r[i][j] == a[i][j] | b[i][j]
  {
    PointZip(a, b, (x: Pixel, y: Pixel) => x | y)
  }

  /** `cv.bitwise_not`. */
  function Not(a: Image): (r: Image)
    ensures SameShape(r, a)
    ensures forall i, j :: InBounds(a, i, j) ==> r[i][j] == !a[i][j]
  {
    PointMap(a, p => !p)
  }

  /** `cv.bitwise_and(src, src, mask=m)`: `src & src` (that is, `src`) where the
      mask is non-zero, and 0 in the freshly allocated output elsewhere. */
  function Masked(src: Image, m: Image): (r: Image)
    requires SameShape(src, m)
    ensures SameShape(r, src)
    ensures forall i, j :: InBounds(src, i, j) ==>
      r[i][j] == (if m[i][j] != 0 then src[i][j] & src[i][j] else 0)
  {
    PointZip(src, m, (s: Pixel, k: Pixel) => if k != 0 then s & s else 0)
  }

  lemma XorSymmetric(a: Image, b: Image)
    requires SameShape(a, b)
    ensures Xor(a, b) == Xor(b, a)
  {
    var l, r := Xor(a, b), Xor(b, a);
    assert |l| == |r|;
    forall i | 0 <= i < |l| ensures l[i] == r[i] {
      assert |l[i]| == |r[i]|;
      forall j | 0 <= j < |l[i]| ensures l[i][j] == r[i][j] {
        assert InBounds(a, i, j) && InBounds(b, i, j);
      }
    }
  }

  /** An image compared with itself shows no difference anywhere. */
  lemma XorSelfIsZero(a: Image)
    ensures AllZero(Xor(a, a))
  {
  }

  /** On binary images the XOR is binary and is 255 exactly where the two
      inputs disagree: the difference map of the pipeline. */
  lemma XorMarksDisagreement(a: Image, b: Image)
    requires SameShape(a, b) && IsBinary(a) && IsBinary(b)
    ensures IsBinary(Xor(a, b))
    ensures forall i, j :: InBounds(a, i, j) ==> (Xor(a, b)[i][j] == MaxValue <==> a[i][j] != b[i][j])
  {
    var r := Xor(a, b);
    forall i, j | InBounds(a, i, j)
      ensures (r[i][j] == 0 || r[i][j] == MaxValue) && (r[i][j] == MaxValue <==> a[i][j] != b[i][j])
    {
      assert InBounds(b, i, j);
    }
  }

  /** The fixed-threshold difference of two grey images is on exactly where
      one of them is above 90 and the other is not. */
  lemma ThresholdXorMarksCrossing(a: Image, b: Image, i: int, j: int)
    requires SameShape(a, b) && InBounds(a, i, j)
    ensures Xor(Threshold(a), Threshold(b))[i][j] == MaxValue
            <==> ((a[i][j] > ThresholdLevel) != (b[i][j] > ThresholdLevel))
  {
    XorMarksDisagreement(Threshold(a), Threshold(b));
    assert InBounds(b, i, j);
  }

  /** On binary images the OR is binary and is 255 exactly where at least one
      input is 255. */
  lemma OrMarksEither(a: Image, b: Image)
    requires SameShape(a, b) && IsBinary(a) && IsBinary(b)
    ensures IsBinary(Or(a, b))
    ensures forall i, j :: InBounds(a, i, j) ==>
      (Or(a, b)[i][j] == MaxValue <==> a[i][j] == MaxValue || b[i][j] == MaxValue)
  {
    var r := Or(a, b);
    forall i, j | InBounds(a, i, j)
      ensures (r[i][j] == 0 || r[i][j] == MaxValue)
              && (r[i][j] == MaxValue <==> a[i][j] == MaxValue || b[i][j] == MaxValue)
    {
      assert InBounds(b, i, j);
    }
  }

  /** Masking with a binary mask and with its complement splits the source:
      every non-zero source pixel survives in exactly one of the two images,
      and the two images together give back the source. */
  lemma MaskPartition(src: Image, m: Image)
    requires SameShape(src, m) && IsBinary(m)
    ensures SameShape(Masked(src, Not(m)), src)
    ensures forall i, j :: InBounds(src, i, j) && src[i][j] != 0 ==>
      (Masked(src, m)[i][j] != 0) != (Masked(src, Not(m))[i][j] != 0)
    ensures Or(Masked(src, m), Masked(src, Not(m))) == src
  {
    var inner, outer := Masked(src, m), Masked(src, Not(m));
    forall i, j | InBounds(src, i, j)
      ensures (inner[i][j] == src[i][j] && outer[i][j] == 0) || (inner[i][j] == 0 && outer[i][j] == src[i][j])
    {
      assert InBounds(m, i, j);
    }
    var u := Or(inner, outer);
    assert |u| == |src|;
    forall i | 0 <= i < |u| ensures u[i] == src[i] {
      forall j | 0 <= j < |u[i]| ensures u[i][j] == src[i][j] {
        assert InBounds(src, i, j) && InBounds(inner, i, j);
      }
    }
  }

  /** A mask pixel that is neither 0 nor 255 leaks into both regions: the
      partition needs the mask to be binary. */
  lemma NonBinaryMaskOverlaps()
    ensures Masked([[7]], [[100]])[0][0] == 7 && Masked([[7]], Not([[100]]))[0][0] == 7
  {
    assert InBounds([[7 as Pixel]], 0, 0);
  }
}
