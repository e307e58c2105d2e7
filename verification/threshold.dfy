/**
 The per-pixel threshold pipeline of `process_and_display_image`: the HSV
 mask (`cv2.inRange`), the masked colour image (`cv2.bitwise_and` with a
 mask) and the binary image (`cv2.threshold` with `THRESH_BINARY` at 0 on the
 grey of the masked image). Images are flattened row by row into sequences;
 every step is pointwise, so equal length means equal height and width.
 */
module Threshold {
  import opened Base

  /** A decoded pixel in OpenCV's blue-green-red order. */
  datatype Bgr = Bgr(b: Byte, g: Byte, r: Byte)

  /** A pixel after `cv2.COLOR_BGR2HSV`. */
  datatype Hsv = Hsv(h: Byte, s: Byte, v: Byte)

  /** A lower or upper bound: one number per channel, read from the sliders. */
  datatype Triple = Triple(h: int, s: int, v: int)

  const Black := Bgr(0, 0, 0)

  /** The non-zero mask byte that `inRange` writes, and `threshold`'s maxval. */
  const Full: Byte := 255

  /** The inclusive per-channel test of `inRange`. */
  predicate Within(p: Hsv, lower: Triple, upper: Triple) {
    && lower.h <= p.h <= upper.h
    && lower.s <= p.s <= upper.s
    && lower.v <= p.v <= upper.v
  }

  predicate EmptyRange(lower: Triple, upper: Triple) {
    lower.h > upper.h || lower.s > upper.s || lower.v > upper.v
  }

  /** `cv2.inRange(hsv, lower, upper)`: 255 where every channel lies inside its
      bounds, 0 elsewhere. */
  function InRange(hsv: seq<Hsv>, lower: Triple, upper: Triple): (mask: seq<Byte>)
    ensures |mask| == |hsv|
    ensures forall i :: 0 <= i < |mask| ==> (mask[i] == Full <==> Within(hsv[i], lower, upper))
    ensures forall i :: 0 <= i < |mask| ==> mask[i] == 0 || mask[i] == Full
  {
    if |hsv| == 0 then []
    else
      var p := hsv[|hsv| - 1];
      InRange(hsv[..|hsv| - 1], lower, upper) + [if Within(p, lower, upper) then Full else 0]
  }

  /** A bound that is inverted on some channel selects no pixel. */
  lemma InvertedRangeMasksNothing(hsv: seq<Hsv>, lower: Triple, upper: Triple)
    requires EmptyRange(lower, upper)
    ensures forall i :: 0 <= i < |hsv| ==> InRange(hsv, lower, upper)[i] == 0
  {
  }

  /** Bitwise AND of two channel bytes. */
  function ByteAnd(x: Byte, y: Byte): Byte {
    ((x as bv8) & (y as bv8)) as int
  }

  lemma ByteAndSelf(x: Byte)
    ensures ByteAnd(x, x) == x
  {
    assert (x as bv8) & (x as bv8) == x as bv8;
  }

  function PixelAnd(p: Bgr, q: Bgr): Bgr {
    Bgr(ByteAnd(p.b, q.b), ByteAnd(p.g, q.g), ByteAnd(p.r, q.r))
  }

  /** `cv2.bitwise_and(a, b, mask=mask)` into a fresh destination: the AND of
      the two sources where the mask is non-zero, black elsewhere. */
  function MaskedAnd(a: seq<Bgr>, b: seq<Bgr>, mask: seq<Byte>): (r: seq<Bgr>)
    requires |a| == |b| == |mask|
    ensures |r| == |a|
    ensures forall i :: 0 <= i < |r| && mask[i] != 0 ==> r[i] == PixelAnd(a[i], b[i])
    ensures forall i :: 0 <= i < |r| && mask[i] == 0 ==> r[i] == Black
  {
    if |a| == 0 then []
    else
      var n := |a| - 1;
      MaskedAnd(a[..n], b[..n], mask[..n]) + [if mask[n] != 0 then PixelAnd(a[n], b[n]) else Black]
  }

  /** ANDing an image with itself under a mask keeps exactly the masked pixels. */
  lemma SelfAndKeepsMasked(image: seq<Bgr>, mask: seq<Byte>)
    requires |image| == |mask|
    ensures forall i :: 0 <= i < |image| ==>
              MaskedAnd(image, image, mask)[i] == if mask[i] != 0 then image[i] else Black
  {
    forall i | 0 <= i < |image| && mask[i] != 0
      ensures PixelAnd(image[i], image[i]) == image[i]
    {
      ByteAndSelf(image[i].b);
      ByteAndSelf(image[i].g);
      ByteAndSelf(image[i].r);
    }
  }

  /** A per-pixel colour conversion (`cv2.cvtColor`) applied to a whole
      image, given the library's conversion `f` of one pixel. */
  function Convert<P, Q>(img: seq<P>, f: P -> Q): (out: seq<Q>)
    ensures |out| == |img|
    ensures forall i :: 0 <= i < |out| ==> out[i] == f(img[i])
  {
    seq(|img|, i requires 0 <= i < |img| => f(img[i]))
  }

  /** `cv2.threshold(gray, 0, 255, cv2.THRESH_BINARY)`: every level above 0
      becomes 255, level 0 stays 0. */
  function Binarize(gray: seq<Byte>): (r: seq<Byte>)
    ensures |r| == |gray|
    ensures forall i :: 0 <= i < |r| ==> (r[i] == Full <==> gray[i] > 0)
    ensures forall i :: 0 <= i < |r| ==> r[i] == 0 || r[i] == Full
  {
    if |gray| == 0 then []
    else
      var n := |gray| - 1;
      Binarize(gray[..n]) + [if gray[n] > 0 then Full else 0]
  }

  /** What one processing pass derives from an image. */
  datatype Outputs = Outputs(mask: seq<Byte>, filtered: seq<Bgr>, binary: seq<Byte>)

  /** The mask, filter and binarise steps in the order `process_and_display_image` runs them,
      given the HSV pixels of `image` and the library's grey conversion. */
  function Run(image: seq<Bgr>, hsv: seq<Hsv>, lower: Triple, upper: Triple,
               toGray: Bgr -> Byte): (out: Outputs)
    requires |hsv| == |image|
    ensures |out.mask| == |out.filtered| == |out.binary| == |image|
    ensures forall i :: 0 <= i < |image| ==> (out.mask[i] == Full <==> Within(hsv[i], lower, upper))
    ensures forall i :: 0 <= i < |image| ==>
              out.filtered[i] == if Within(hsv[i], lower, upper) then image[i] else Black
    ensures forall i :: 0 <= i < |image| && Within(hsv[i], lower, upper) ==>
              (out.binary[i] == Full <==> toGray(image[i]) > 0)
    ensures forall i :: 0 <= i < |image| && !Within(hsv[i], lower, upper) ==>
              (out.binary[i] == Full <==> toGray(Black) > 0)
    ensures forall i :: 0 <= i < |image| ==> out.binary[i] == 0 || out.binary[i] == Full
  {
    var mask := InRange(hsv, lower, upper);
    SelfAndKeepsMasked(image, mask);
    var filtered := MaskedAnd(image, image, mask);
    var binary := Binarize(Convert(filtered, toGray));
    Outputs(mask, filtered, binary)
  }

  /** With a grey conversion that maps black to 0 (as OpenCV's weighted sum
      does), a pixel outside the mask is 0 in the binary image, so the binary
      image is a sub-mask of the HSV mask. */
  lemma BinaryInsideMask(image: seq<Bgr>, hsv: seq<Hsv>, lower: Triple, upper: Triple,
                         toGray: Bgr -> Byte)
    requires |hsv| == |image|
    requires toGray(Black) == 0
    ensures var out := Run(image, hsv, lower, upper, toGray);
            forall i :: 0 <= i < |image| ==>
              (out.binary[i] == Full <==> out.mask[i] == Full && toGray(image[i]) > 0)
  {
    var out := Run(image, hsv, lower, upper, toGray);
    forall i | 0 <= i < |image|
      ensures out.binary[i] == Full <==> out.mask[i] == Full && toGray(image[i]) > 0
    {
      assert out.mask == InRange(hsv, lower, upper);
      assert out.binary == Binarize(Convert(out.filtered, toGray));
    }
  }

  /** An inverted bound yields an all-black filtered image and an all-zero
      binary image. */
  lemma InvertedRangeBlanks(image: seq<Bgr>, hsv: seq<Hsv>, lower: Triple, upper: Triple,
                            toGray: Bgr -> Byte)
    requires |hsv| == |image|
    requires EmptyRange(lower, upper)
    requires toGray(Black) == 0
    ensures var out := Run(image, hsv, lower, upper, toGray);
            && (forall i :: 0 <= i < |image| ==> out.mask[i] == 0)
            && (forall i :: 0 <= i < |image| ==> out.filtered[i] == Black)
            && (forall i :: 0 <= i < |image| ==> out.binary[i] == 0)
  {
    BinaryInsideMask(image, hsv, lower, upper, toGray);
    InvertedRangeMasksNothing(hsv, lower, upper);
  }
}
