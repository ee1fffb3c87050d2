/** The per-page ink binarizer of new4.py (lines 40-42): an inRange mask
    over the closed colour box [0,0,0]..[t,t,t], an all-black raster of the
    same shape, and a white fill at every masked position. */
module Binarizer {
  import opened Pixels

  /** The reference rule: a pixel is ink when every channel lies in the
      closed range 0..t (the cube [0,t]^3, an AND across channels). */
  predicate IsInk(p: Pixel, t: Channel) {
    0 <= p.c0 <= t && 0 <= p.c1 <= t && 0 <= p.c2 <= t
  }

  /** cv2.inRange's per-pixel test: lo <= p <= hi on each channel, both ends
      inclusive, all three channels required. */
  predicate InRangePixel(p: Pixel, lo: Pixel, hi: Pixel) {
    lo.c0 <= p.c0 <= hi.c0 && lo.c1 <= p.c1 <= hi.c1 && lo.c2 <= p.c2 <= hi.c2
  }

  /** The value cv2.inRange stores in its single-channel mask: 255 inside the
      range, 0 outside. */
  function MaskValue(p: Pixel, lo: Pixel, hi: Pixel): Channel {
    if InRangePixel(p, lo, hi) then 255 else 0
  }

  /** The mask cv2.inRange returns for a whole raster. */
  function InRangeMask(g: Grid, lo: Pixel, hi: Pixel): (m: Plane)
    ensures SameShape(m, g)
  {
    seq(|g|, i requires 0 <= i < |g| =>
      seq(|g[i]|, j requires 0 <= j < |g[i]| => MaskValue(g[i][j], lo, hi)))
  }

  /** np.zeros_like: a raster of the same shape with every pixel black. */
  function ZerosLike(g: Grid): (z: Grid)
    ensures SameShape(z, g)
    ensures forall i, j :: 0 <= i < |z| && 0 <= j < |z[i]| ==> z[i][j] == Black
  {
    seq(|g|, i requires 0 <= i < |g| => seq(|g[i]|, j requires 0 <= j < |g[i]| => Black))
  }

  /** The numpy assignment out[mask > 0] = v: positions whose mask value is
      positive take v, the others keep their pixel. */
  function MaskedFill(g: Grid, m: Plane, v: Pixel): (r: Grid)
    requires SameShape(g, m)
    ensures SameShape(r, g)
  {
    seq(|g|, i requires 0 <= i < |g| =>
      seq(|g[i]|, j requires 0 <= j < |g[i]| => if m[i][j] > 0 then v else g[i][j]))
  }

  /** The output the binarizer computes for raster g and threshold t,
      composed exactly as new4.py lines 40-42 compose it. */
  function BinarizeGrid(g: Grid, t: Channel): (r: Grid)
    ensures SameShape(r, g)
    ensures forall i, j :: 0 <= i < |r| && 0 <= j < |r[i]| ==>
              (r[i][j] == White <==> IsInk(g[i][j], t))
    ensures forall i, j :: 0 <= i < |r| && 0 <= j < |r[i]| ==>
              (r[i][j] == Black <==> !IsInk(g[i][j], t))
  {
    MaskedFill(ZerosLike(g), InRangeMask(g, Gray(0), Gray(t)), White)
  }

  /** The output pixel at one position, by the reference rule. */
  function BinarizePixel(p: Pixel, t: Channel): Pixel {
    if IsInk(p, t) then White else Black
  }

  /** Every output pixel is pure black or pure white, and which one it is
      depends only on the input pixel at the same position. */
  lemma BinarizeAt(g: Grid, t: Channel, i: nat, j: nat)
    requires i < |g| && j < |g[i]|
    ensures |BinarizeGrid(g, t)| == |g| && |BinarizeGrid(g, t)[i]| == |g[i]|
    ensures BinarizeGrid(g, t)[i][j] == BinarizePixel(g[i][j], t)
    ensures BinarizeGrid(g, t)[i][j] in {Black, White}
  {
  }

  /** At the slider's maximum t = 255 every pixel is ink. */
  lemma FullThresholdAllWhite(g: Grid)
    ensures forall i, j :: 0 <= i < |g| && 0 <= j < |g[i]| ==> BinarizeGrid(g, 255)[i][j] == White
  {
  }

  /** At t = 0 only the pure-black input pixels become white. */
  lemma ZeroThresholdOnlyBlack(g: Grid)
    ensures forall i, j :: 0 <= i < |g| && 0 <= j < |g[i]| ==>
              (BinarizeGrid(g, 0)[i][j] == White <==> g[i][j] == Black)
  {
  }

  /** A raising of the threshold never turns a white output pixel black. */
  lemma ThresholdMonotone(g: Grid, t: Channel, t': Channel, i: nat, j: nat)
    requires t <= t'
    requires i < |g| && j < |g[i]|
    requires BinarizeGrid(g, t)[i][j] == White
    ensures BinarizeGrid(g, t')[i][j] == White
  {
  }

  /** A page with no pixel inside [0,t]^3, such as an all-white page at any
      t below 255, binarizes to an all-black page. */
  lemma NoInkAllBlack(g: Grid, t: Channel)
    requires forall i, j :: 0 <= i < |g| && 0 <= j < |g[i]| ==> !IsInk(g[i][j], t)
    ensures BinarizeGrid(g, t) == ZerosLike(g)
  {
    GridExtensional(BinarizeGrid(g, t), ZerosLike(g));
  }

  /** Changing one input pixel changes at most the output pixel at the same
      position, and that one to the binarization of the new pixel. */
  lemma {:induction false} BinarizeLocal(g: Grid, t: Channel, i: nat, j: nat, p: Pixel)
    requires i < |g| && j < |g[i]|
    ensures var r := BinarizeGrid(g, t);
            BinarizeGrid(g[i := g[i][j := p]], t) == r[i := r[i][j := BinarizePixel(p, t)]]
  {
    var r := BinarizeGrid(g, t);
    GridExtensional(BinarizeGrid(g[i := g[i][j := p]], t), r[i := r[i][j := BinarizePixel(p, t)]]);
  }

  /** Because the bound is the same on every channel and the only outputs
      are black and white, binarizing the BGR raster and converting back to
      RGB gives the binarization of the RGB raster (new4.py lines 37-45). */
  lemma {:induction false} BinarizeCommutesWithSwap(g: Grid, t: Channel)
    ensures SwapGrid(BinarizeGrid(SwapGrid(g), t)) == BinarizeGrid(g, t)
  {
    GridExtensional(SwapGrid(BinarizeGrid(SwapGrid(g), t)), BinarizeGrid(g, t));
  }

  /** cv2.inRange: a new single-channel mask, 255 where every channel of the
      pixel lies between lo and hi inclusive, 0 elsewhere. */
  method InRange(img: array2<Pixel>, lo: Pixel, hi: Pixel) returns (mask: array2<Channel>)
    ensures fresh(mask)
    ensures mask.Length0 == img.Length0 && mask.Length1 == img.Length1
    ensures Contents(mask) == InRangeMask(Contents(img), lo, hi)
  {
    mask := new Channel[img.Length0, img.Length1]((i, j) => 0);
    for i := 0 to img.Length0
      invariant forall r, c :: 0 <= r < i && 0 <= c < img.Length1 ==> mask[r, c] == MaskValue(img[r, c], lo, hi)
    {
      for j := 0 to img.Length1
        invariant forall r, c :: 0 <= r < i && 0 <= c < img.Length1 ==> mask[r, c] == MaskValue(img[r, c], lo, hi)
        invariant forall c :: 0 <= c < j ==> mask[i, c] == MaskValue(img[i, c], lo, hi)
      {
        if InRangePixel(img[i, j], lo, hi) {
          mask[i, j] := 255;
        } else {
          mask[i, j] := 0;
        }
      }
    }
    GridExtensional(Contents(mask), InRangeMask(Contents(img), lo, hi));
  }

  /** The binarizer of new4.py lines 40-42: the inRange mask with bounds
      [0,0,0] and [t,t,t], an all-black output of the input's shape, then
      white written at every position where the mask is positive. */
  method Binarize(img: array2<Pixel>, t: Channel) returns (out: array2<Pixel>)
    ensures fresh(out)
    ensures out.Length0 == img.Length0 && out.Length1 == img.Length1
    ensures Contents(out) == BinarizeGrid(Contents(img), t)
  {
    var mask := InRange(img, Gray(0), Gray(t));
    out := new Pixel[img.Length0, img.Length1]((i, j) => Black);
    ghost var g := Contents(img);
    ghost var m := Contents(mask);
    for i := 0 to img.Length0
      invariant Contents(mask) == m
      invariant forall r, c :: 0 <= r < i && 0 <= c < img.Length1 ==>
                  out[r, c] == (if m[r][c] > 0 then White else Black)
      invariant forall r, c :: i <= r < img.Length0 && 0 <= c < img.Length1 ==> out[r, c] == Black
    {
      for j := 0 to img.Length1
        invariant Contents(mask) == m
        invariant forall r, c :: 0 <= r < i && 0 <= c < img.Length1 ==>
                    out[r, c] == (if m[r][c] > 0 then White else Black)
        invariant forall c :: 0 <= c < j ==> out[i, c] == (if m[i][c] > 0 then White else Black)
        invariant forall r, c :: (i < r < img.Length0 || (r == i && j <= c)) && 0 <= c < img.Length1 ==>
                    out[r, c] == Black
      {
        if mask[i, j] > 0 {
          out[i, j] := White;
        }
      }
    }
    GridExtensional(Contents(out), BinarizeGrid(g, t));
  }
}
