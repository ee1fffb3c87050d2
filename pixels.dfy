/** Pixels and rasters as the page loop of new4.py sees them: a raster is a
    height-by-width grid of 3-channel, 8-bit pixels (a numpy array of shape
    (h, w, 3) and dtype uint8). The channel count is fixed at three by the
    Pixel datatype. */
module Pixels {

  /** One 8-bit channel intensity. */
  type Channel = v: int | 0 <= v <= 255

  /** A pixel: three channels in the raster's current channel order
      (BGR inside OpenCV calls, RGB in PIL images). */
  datatype Pixel = Pixel(c0: Channel, c1: Channel, c2: Channel)

  /** (0, 0, 0), the value np.zeros_like fills a raster with. */
  const Black := Pixel(0, 0, 0)

  /** (255, 255, 255), the value written at every ink position. */
  const White := Pixel(255, 255, 255)

  /** The colour bound np.array([v, v, v]): the same value on every channel. */
  function Gray(v: Channel): Pixel {
    Pixel(v, v, v)
  }

  /** The value of a raster: row i, column j is g[i][j]. */
  type Grid = seq<seq<Pixel>>

  /** The value of a single-channel raster such as the inRange mask. */
  type Plane = seq<seq<Channel>>

  /** a and b have the same number of rows and equally long rows. */
  predicate SameShape<A, B>(a: seq<seq<A>>, b: seq<seq<B>>) {
    |a| == |b| && forall i :: 0 <= i < |a| ==> |a[i]| == |b[i]|
  }

  /** The value held by a two-dimensional array, row by row. */
  ghost function Contents<T>(a: array2<T>): (g: seq<seq<T>>)
    reads a
    ensures |g| == a.Length0
    ensures forall i :: 0 <= i < |g| ==> |g[i]| == a.Length1
    ensures forall i, j :: 0 <= i < a.Length0 && 0 <= j < a.Length1 ==> g[i][j] == a[i, j]
  {
    seq(a.Length0, i requires 0 <= i < a.Length0 reads a =>
      seq(a.Length1, j requires 0 <= j < a.Length1 reads a => a[i, j]))
  }

  /** Two grids of the same shape that agree at every position are equal. */
  lemma {:induction false} GridExtensional<T>(a: seq<seq<T>>, b: seq<seq<T>>)
    requires SameShape(a, b)
    requires forall i, j :: 0 <= i < |a| && 0 <= j < |a[i]| ==> a[i][j] == b[i][j]
    ensures a == b
  {
    forall i | 0 <= i < |a|
      ensures a[i] == b[i]
    {
      assert |a[i]| == |b[i]|;
      assert forall j :: 0 <= j < |a[i]| ==> a[i][j] == b[i][j];
    }
  }

  /** The channel permutation of cv2.COLOR_RGB2BGR and cv2.COLOR_BGR2RGB:
      channels 0 and 2 trade places, channel 1 stays. */
  function SwapRedBlue(p: Pixel): Pixel {
    Pixel(p.c2, p.c1, p.c0)
  }

  /** SwapRedBlue applied to every pixel of a raster. */
  function SwapGrid(g: Grid): (r: Grid)
    ensures SameShape(r, g)
  {
    seq(|g|, i requires 0 <= i < |g| =>
      seq(|g[i]|, j requires 0 <= j < |g[i]| => SwapRedBlue(g[i][j])))
  }

  /** Converting RGB to BGR and back again restores the raster, so the
      conversions at new4.py lines 28 and 37 cancel. */
  lemma {:induction false} SwapGridInvolutive(g: Grid)
    ensures SwapGrid(SwapGrid(g)) == g
  {
    GridExtensional(SwapGrid(SwapGrid(g)), g);
  }

  /** cv2.cvtColor with an RGB/BGR code: a new raster with channels 0 and 2
      swapped at every pixel; the input is left as it was. */
  method ConvertColor(img: array2<Pixel>) returns (out: array2<Pixel>)
    ensures fresh(out)
    ensures out.Length0 == img.Length0 && out.Length1 == img.Length1
    ensures Contents(out) == SwapGrid(Contents(img))
  {
    out := new Pixel[img.Length0, img.Length1]((i, j) => Black);
    for i := 0 to img.Length0
      invariant forall r, c :: 0 <= r < i && 0 <= c < img.Length1 ==> out[r, c] == SwapRedBlue(img[r, c])
    {
      for j := 0 to img.Length1
        invariant forall r, c :: 0 <= r < i && 0 <= c < img.Length1 ==> out[r, c] == SwapRedBlue(img[r, c])
        invariant forall c :: 0 <= c < j ==> out[i, c] == SwapRedBlue(img[i, c])
      {
        out[i, j] := SwapRedBlue(img[i, j]);
      }
    }
    GridExtensional(Contents(out), SwapGrid(Contents(img)));
  }
}
