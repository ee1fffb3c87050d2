# Black-pixel extractor: binarizer and page loop

A model of the processing core of `new4.py`, a small Streamlit app that
turns scanned pages into an ink mask. The user uploads an image or a PDF,
and each page is rasterized to 3-channel 8-bit pixels. A pixel whose three
channels are all at most the "Black Threshold" `t` (an integer in 0..255,
default 70) counts as ink and becomes white. Every other pixel becomes
black. The processed pages are shown and offered one by one. When there is
at least one page, they are also combined into a single multi-page PDF.

The model has three modules:

- `Pixels` (`pixels.dfy`): the 8-bit `Channel` and the 3-channel `Pixel`. A
  raster is an `array2<Pixel>` whose value is read row by row through
  `Contents` as a `Grid` (`seq<seq<Pixel>>`). The module also holds the
  RGB/BGR channel swap done by `cv2.cvtColor`, as a pixel function and as
  a method that fills a new array.
- `Binarizer` (`binarizer.dfy`): the value specification of the three
  numpy/OpenCV steps: `cv2.inRange` gives `InRangeMask`, `np.zeros_like`
  gives `ZerosLike`, and `out[mask > 0] = white` gives `MaskedFill`.
  Composed, they give `BinarizeGrid`. The module also holds the imperative
  methods `InRange` and `Binarize`. Each allocates its output and fills it
  with nested loops, and each is proved equal to its specification.
  Lemmas relate `BinarizeGrid` to the independent per-pixel rule `IsInk`
  (every channel in the closed range 0..t).
- `Pages` (`pages.dfy`): the `for i, img in enumerate(images)` loop that
  appends each processed page to `processed_pages`, and the combined export
  `processed_pages[0]` + `processed_pages[1:]`.

`new4.py` only binarizes each page. It does no cropping, no rectangle
detection and no per-page error reporting, and an exception in the page
loop ends the run.

## Model

| member | source | states |
|---|---|---|
| `Pixels.ConvertColor` | new4.py:37 | the output is a newly allocated raster with the input's height and width, and every pixel has channels 0 and 2 swapped (the same swap serves `COLOR_RGB2BGR` at line 37 and `COLOR_BGR2RGB` at line 45) |
| `Pixels.SwapGrid` | new4.py:37-45 | the value of `cv2.cvtColor` with an RGB/BGR code on a whole raster keeps its shape; its definition swaps channels 0 and 2 at every pixel, and `SwapGridInvolutive` proves the swap undoes itself |
| `Pixels.SwapGridInvolutive` | new4.py:28 | the RGB/BGR swap applied twice restores the raster, so the BGR-to-RGB conversion of a decoded image and the RGB-to-BGR conversion in the page loop cancel |
| `Binarizer.InRangeMask` | new4.py:40 | the inRange mask has exactly the shape of the input raster |
| `Binarizer.ZerosLike` | new4.py:41 | `zeros_like` keeps the input's shape and makes every pixel (0,0,0) |
| `Binarizer.MaskedFill` | new4.py:42 | the masked assignment keeps the raster's shape |
| `Binarizer.BinarizeGrid` | new4.py:40-42 | same height and row widths as the input; an output pixel is white if and only if all three input channels lie in 0..t, and black if and only if they do not, so no other value occurs |
| `Binarizer.BinarizeAt` | new4.py:40-42 | the output pixel at (i, j) is the per-pixel rule applied to the input pixel at (i, j) alone, and it is one of (0,0,0) and (255,255,255) |
| `Binarizer.FullThresholdAllWhite` | new4.py:40 | with t = 255, the slider's maximum, every output pixel is white |
| `Binarizer.ZeroThresholdOnlyBlack` | new4.py:40 | with t = 0 an output pixel is white exactly when the input pixel is (0,0,0) |
| `Binarizer.ThresholdMonotone` | new4.py:40 | a pixel that is white at threshold t is white at every t' >= t |
| `Binarizer.NoInkAllBlack` | new4.py:40-42 | a raster with no pixel in [0,t]^3 (an all-white page at t < 255, say) binarizes to the all-black raster |
| `Binarizer.BinarizeLocal` | new4.py:40-42 | replacing one input pixel changes the output at that position only, and there to the binarization of the new pixel |
| `Binarizer.BinarizeCommutesWithSwap` | new4.py:37-45 | converting to BGR, binarizing and converting back to RGB gives the same raster as binarizing the RGB raster directly |
| `Binarizer.InRange` | new4.py:40 | the mask is a newly allocated array with the input's height and width and holds 255 exactly where every channel lies between the bounds, inclusive at both ends, and 0 elsewhere |
| `Binarizer.Binarize` | new4.py:40-42 | the output is a newly allocated raster with the input's height and width, and its value is `BinarizeGrid` of the input's value |
| `Pages.ProcessPages` | new4.py:34-46 | the processed list has one entry per input page; entry k is a newly allocated raster, has page k's dimensions and is the binarization of page k, in the original order |
| `Pages.CombinedDocument` | new4.py:62-64 | a combined document exists if and only if the processed list is non-empty, and then its pages are `processed_pages[0]` followed by `processed_pages[1:]`, which is the processed list itself |
| `Pages.ExportDocument` | new4.py:34-64 | page k of the combined document is the binarization of input page k; there is no combined document for an empty page list (for example, a PDF that failed to rasterize) |

## Left out

- The Streamlit interface is not modelled: the title, the uploader, the slider widget, `st.image`, `st.error` and the download buttons (new4.py:8-11, 32, 49-59, 65-70). Only the fact that `t` is an integer in 0..255 is kept, as the `Channel` type of the threshold.
- PDF rasterization through `pdf2image`/poppler and its exception handler (new4.py:17-23) belong to a foreign library and to I/O. A failed conversion leaves the page list empty, which the model covers as an empty `pages` sequence.
- Image decoding with `cv2.imdecode` and the PIL/numpy conversions (new4.py:26-29, 37, 45) are foreign calls. Only their channel permutation is kept, as `SwapRedBlue`. An undecodable upload (where `imdecode` returns `None`) is not modelled.
- PNG and PDF encoding through `Image.save` into `BytesIO` (new4.py:52-53, 63-64) is serialisation by a library that is not part of this model. The combined export is modelled as the ordered page list it would encode.
- The 1-based page numbers in captions and file names (new4.py:49, 55-57) serve only the interface.
- Content cropping and rectangle detection and inversion are not modelled. `new4.py` contains no such code, and it would rest on OpenCV contour routines that are not part of this model.
- Every method returns a newly allocated array (`ensures fresh`) and changes no existing array, so the model's methods carry no `modifies` clause; `ProcessPages` promises a fresh array for every page.
- `ConvertColor` and `Binarize` accept a raster with no rows or no columns and return an empty raster, where `cv2.cvtColor` (new4.py:37, 45) would raise on an empty input. Neither the PDF rasterizer nor `cv2.imdecode` produces such a page, so the difference does not arise at the source's call sites.
