/** The renderer: `extract_images_from_pdf` turns the pages of a PDF into
    numbered raster images. The rasteriser itself (`convert_from_path`) is an
    oracle `convert(path, dpi)` that yields the page images in document order
    or fails. */
module Renderer {
  import opened Wrappers

  /** The fixed rendering resolution, in dots per inch. */
  const Dpi: nat := 300

  /** One rendered page: its 1-based page number and its image. */
  datatype Page<Image> = Page(num: nat, image: Image)

  /** `enumerate(images, start)`: the images in order, numbered consecutively
      from `start`. */
  function Enumerate<Image>(images: seq<Image>, start: nat): (pages: seq<Page<Image>>)
    ensures |pages| == |images|
    ensures forall i :: 0 <= i < |pages| ==> pages[i].num == start + i && pages[i].image == images[i]
    decreases |images|
  {
    if images == [] then [] else [Page(start, images[0])] + Enumerate(images[1..], start + 1)
  }

  /** The pages are numbered 1, 2, ..., n in order. */
  predicate NumberedFromOne<Image>(pages: seq<Page<Image>>) {
    forall i :: 0 <= i < |pages| ==> pages[i].num == i + 1
  }

  /** `extract_images_from_pdf(pdf_path)`: one page per rendered image, numbered
      from 1 in document order; a rendering failure yields no pages. */
  function ExtractImages<Image>(pdfPath: string, convert: (string, nat) -> Result<seq<Image>>): (pages: seq<Page<Image>>)
    ensures convert(pdfPath, Dpi).Err? ==> pages == []
    ensures convert(pdfPath, Dpi).Ok? ==>
      var images := convert(pdfPath, Dpi).value;
      |pages| == |images| && forall i :: 0 <= i < |pages| ==> pages[i].image == images[i]
    ensures NumberedFromOne(pages)
  {
    match convert(pdfPath, Dpi)
    case Ok(images) => Enumerate(images, 1)
    case Err(_) => []
  }
}
