/**
 * The `/api/extract-images` endpoint (backend/main.py:124-158): the upload's
 * content type is checked, the selection loop is run, and its outcome becomes
 * either the JSON body or an HTTP error whose status depends on the message.
 */
module Endpoint {
  import opened Wrappers
  import opened Pdf
  import opened Extraction

  const PdfContentType := "application/pdf"
  const NotPdfDetail := "File must be a PDF"
  const NoImagesPhrase := "No embedded images found"

  datatype Response =
    | Extracted(success: bool, images: seq<Entry>, totalImages: nat)
    | HttpError(status: nat, detail: string)

  /** The upload passes the check of line 131: a content type is present, non-empty and exactly the PDF type. */
  function IsPdfUpload(contentType: Option<string>): (accepted: bool)
    ensures accepted <==> contentType == Some(PdfContentType)
  {
    match contentType
    case None => false
    case Some(t) => t != "" && t == PdfContentType
  }

  /** Python's substring test `t in s`. */
  function Contains(s: string, t: string): bool
    decreases |s|
  {
    if t <= s then true
    else if s == [] then false
    else Contains(s[1..], t)
  }

  /** `t` occurs in `s` at offset `i`. */
  ghost predicate OccursAt(s: string, t: string, i: int)
  {
    0 <= i <= |s| - |t| && s[i..i + |t|] == t
  }

  /** `Contains` finds exactly the occurrences of `t` at some offset of `s`. */
  lemma {:induction false} ContainsIsSubstring(s: string, t: string)
    ensures Contains(s, t) <==> exists i :: OccursAt(s, t, i)
    decreases |s|
  {
    if t <= s {
      assert s[0..|t|] == t;
      assert OccursAt(s, t, 0);
    } else if s != [] {
      ContainsIsSubstring(s[1..], t);
      if Contains(s[1..], t) {
        var i :| OccursAt(s[1..], t, i);
        assert s[i + 1..i + 1 + |t|] == s[1..][i..i + |t|];
        assert OccursAt(s, t, i + 1);
      }
      if i :| OccursAt(s, t, i) {
        if i == 0 {
          assert false;
        }
        assert s[1..][i - 1..i - 1 + |t|] == s[i..i + |t|];
        assert OccursAt(s[1..], t, i - 1);
      }
    }
  }

  /** A prefix none of whose characters starts `t` adds no occurrence of `t`. */
  lemma {:induction false} ContainsAfterPrefix(p: string, m: string, t: string)
    requires t != []
    requires forall k :: 0 <= k < |p| ==> p[k] != t[0]
    ensures Contains(p + m, t) == Contains(m, t)
    decreases |p|
  {
    if p != [] {
      assert (p + m)[0] == p[0] != t[0];
      assert (p + m)[1..] == p[1..] + m;
      ContainsAfterPrefix(p[1..], m, t);
    } else {
      assert p + m == m;
    }
  }

  /** The status of line 153: 400 exactly when the message carries the no-images phrase, otherwise 500. */
  function StatusFor(message: string): (code: nat)
    ensures code == 400 || code == 500
    ensures code == 400 <==> Contains(message, NoImagesPhrase)
  {
    if Contains(message, NoImagesPhrase) then 400 else 500
  }

  /** The error raised when nothing survives is answered with 400. */
  lemma NoImagesIsClientError()
    ensures StatusFor(NoImagesMessage) == 400
  {
    assert "No embedded images found in this PDF."[..|NoImagesPhrase|] == NoImagesPhrase;
  }

  /**
   * An error wrapped as "Error processing PDF: m" is answered with 500, unless
   * the library's own message `m` itself carries the no-images phrase.
   */
  lemma ProcessingErrorStatus(m: string)
    ensures StatusFor(ProcessingPrefix + m) == 500 <==> !Contains(m, NoImagesPhrase)
  {
    ContainsAfterPrefix(ProcessingPrefix, m, NoImagesPhrase);
  }

  method ExtractImages(contentType: Option<string>, listing: Listing, lib: Collaborators)
    returns (resp: Response)
    ensures !IsPdfUpload(contentType) ==> resp == HttpError(400, NotPdfDetail)
    ensures IsPdfUpload(contentType) ==>
      match ExtractedImages(listing, lib)
      case Success(images) => resp == Extracted(true, images, |images|)
      case Failure(message) => resp == HttpError(StatusFor(message), message)
    ensures resp.Extracted? ==> resp.success && resp.totalImages == |resp.images| > 0
    ensures resp.HttpError? ==> resp.status == 400 || resp.status == 500
    ensures resp.HttpError? && IsPdfUpload(contentType) && listing.Success? ==> resp.status == 400
  {
    if !IsPdfUpload(contentType) {
      return HttpError(400, NotPdfDetail);
    }
    var r := ExtractImagesFromPdf(listing, lib);
    match r
    case Success(images) =>
      resp := Extracted(true, images, |images|);
    case Failure(message) =>
      if listing.Success? {
        NoImagesIsClientError();
      }
      resp := HttpError(StatusFor(message), message);
  }
}
