/** The page loop of new4.py (lines 34-46) and the combined multi-page
    export (lines 62-64): every page is binarized in document order and
    appended to processed_pages; the combined document is formed only when
    that list is non-empty. */
module Pages {
  import opened Pixels
  import opened Binarizer

  datatype Option<T> = None | Some(value: T)

  /** The loop over enumerate(images): each RGB page is converted to BGR,
      binarized with the one threshold t, converted back to RGB and appended
      to processed_pages. Entry k of the result is the binarization of page
      k, in the original order, and no page is skipped. */
  method ProcessPages(pages: seq<array2<Pixel>>, t: Channel) returns (processed: seq<array2<Pixel>>)
    ensures |processed| == |pages|
    ensures forall k :: 0 <= k < |pages| ==> fresh(processed[k])
    ensures forall k :: 0 <= k < |pages| ==>
              processed[k].Length0 == pages[k].Length0 && processed[k].Length1 == pages[k].Length1
    ensures forall k :: 0 <= k < |pages| ==> Contents(processed[k]) == BinarizeGrid(Contents(pages[k]), t)
  {
    processed := [];
    for i := 0 to |pages|
      invariant |processed| == i
      invariant forall k :: 0 <= k < i ==> fresh(processed[k])
      invariant forall k :: 0 <= k < i ==>
                  processed[k].Length0 == pages[k].Length0 && processed[k].Length1 == pages[k].Length1
      invariant forall k :: 0 <= k < i ==> Contents(processed[k]) == BinarizeGrid(Contents(pages[k]), t)
    {
      var imgCv := ConvertColor(pages[i]);
      var output := Binarize(imgCv, t);
      var outputPil := ConvertColor(output);
      BinarizeCommutesWithSwap(Contents(pages[i]), t);
      processed := processed + [outputPil];
    }
  }

  /** The combined export: processed_pages[0] saved with processed_pages[1:]
      appended, attempted only when processed_pages is non-empty. The pages
      of the combined document are the processed pages, in order. */
  function CombinedDocument<T>(processed: seq<T>): (r: Option<seq<T>>)
    ensures r.Some? <==> |processed| > 0
    ensures r.Some? ==> r.value == processed
  {
    if |processed| > 0 then Some([processed[0]] + processed[1..]) else None
  }

  /** The whole document flow: page k of the combined document is the
      binarization of input page k, and there is a combined document exactly
      when there is at least one page. */
  method ExportDocument(pages: seq<array2<Pixel>>, t: Channel)
    returns (processed: seq<array2<Pixel>>, combined: Option<seq<array2<Pixel>>>)
    ensures |processed| == |pages|
    ensures forall k :: 0 <= k < |pages| ==> fresh(processed[k])
    ensures forall k :: 0 <= k < |pages| ==> Contents(processed[k]) == BinarizeGrid(Contents(pages[k]), t)
    ensures combined.Some? <==> |pages| > 0
    ensures combined.Some? ==> |combined.value| == |pages|
    ensures combined.Some? ==>
              forall k :: 0 <= k < |pages| ==> Contents(combined.value[k]) == BinarizeGrid(Contents(pages[k]), t)
  {
    processed := ProcessPages(pages, t);
    combined := CombinedDocument(processed);
  }
}
