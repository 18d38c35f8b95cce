/**
 * The collaborators the backend calls but does not implement: the PDF library
 * (document listing and `extract_image`), the image library (decoding and WebP
 * encoding) and base64. Each is a total function supplied by the caller; for
 * extraction, decoding and encoding a raised exception is `None`, and base64
 * is assumed never to raise.
 */
module Pdf {
  import opened Wrappers
  import opened ColourMode

  newtype byte = b: int | 0 <= b < 256

  /** A PDF cross-reference number identifying an image object. */
  type Xref = nat

  /**
   * What listing the document yields: per page, in page order, the xrefs that
   * page's image list holds, in list order; or the message of the exception
   * raised while opening the file or listing a page.
   */
  type Listing = Result<seq<seq<Xref>>, string>

  /** The dictionary `extract_image` returns; width and height may be absent. */
  datatype BaseImage = BaseImage(data: seq<byte>, ext: string, width: Option<nat>, height: Option<nat>)

  /** What the image library reports after decoding an image's bytes. */
  datatype Picture = Picture(width: nat, height: nat, mode: string)

  datatype Collaborators = Collaborators(
    extract: Xref -> Option<BaseImage>,
    open: seq<byte> -> Option<Picture>,
    encode: (seq<byte>, Conversion) -> Option<seq<byte>>,
    base64: seq<byte> -> string)
}
