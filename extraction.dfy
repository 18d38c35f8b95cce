/**
 * The selection loop of `extract_images_from_pdf` (backend/main.py:30-121):
 * walk the pages, then each page's images, skip xrefs already seen, drop tiny
 * payloads and tiny pictures, normalise the colour mode, encode as WebP and
 * number the survivors with one document-wide counter.
 */
module Extraction {
  import opened Wrappers
  import opened ColourMode
  import opened Pdf

  const MinPayloadBytes := 100
  const MinSide := 10
  const DataUrlPrefix := "data:image/webp;base64,"
  const ProcessingPrefix := "Error processing PDF: "
  const NoImagesMessage :=
    "No embedded images found in this PDF." + " The PDF may only contain text or vector graphics."

  /** One element of the returned list. */
  datatype Entry = Entry(pageNumber: nat, imageIndex: nat, url: string)

  /** An image reference as the loop meets it: the 0-based page and the xref. */
  datatype Occurrence = Occurrence(page: nat, xref: Xref)

  /**
   * The loop's variables after some prefix of the occurrences: `seen_xrefs`,
   * `image_index`, `images`, and (for the proofs) the occurrence each entry
   * was produced from.
   */
  datatype State = State(seen: set<Xref>, count: nat, images: seq<Entry>, origins: seq<Occurrence>)

  /** The size filters of lines 72 and 79, stated directly on the collaborators. */
  ghost predicate PassesFilters(lib: Collaborators, x: Xref)
  {
    lib.extract(x).Some? &&
    |lib.extract(x).value.data| >= MinPayloadBytes &&
    lib.open(lib.extract(x).value.data).Some? &&
    lib.open(lib.extract(x).value.data).value.width >= MinSide &&
    lib.open(lib.extract(x).value.data).value.height >= MinSide
  }

  /**
   * The WebP bytes produced for a not yet seen xref, or None when it is
   * dropped: extraction or decoding raised, the payload or the picture is too
   * small, or encoding raised.
   */
  function WebpFor(lib: Collaborators, x: Xref): Option<seq<byte>>
  {
    match lib.extract(x)
    case None => None
    case Some(base) =>
      if |base.data| < MinPayloadBytes then None
      else match lib.open(base.data)
        case None => None
        case Some(pic) =>
          if pic.width < MinSide || pic.height < MinSide then None
          else lib.encode(base.data, ConversionFor(pic.mode))
  }

  /** One iteration of the inner loop. */
  function Step(st: State, o: Occurrence, lib: Collaborators): State
  {
    if o.xref in st.seen then st
    else
      var seen := st.seen + {o.xref};
      match WebpFor(lib, o.xref)
      case None => st.(seen := seen)
      case Some(webp) =>
        var index := st.count + 1;
        State(seen, index, st.images + [Entry(o.page + 1, index, DataUrlPrefix + lib.base64(webp))],
              st.origins + [o])
  }

  const Start := State({}, 0, [], [])

  /** The loop's variables after meeting the occurrences `occ` in order. */
  function Scan(occ: seq<Occurrence>, lib: Collaborators): State
    decreases |occ|
  {
    if occ == [] then Start
    else Step(Scan(occ[..|occ| - 1], lib), occ[|occ| - 1], lib)
  }

  /** The occurrences of one page, 0-based page `p`, in image-list order. */
  function PageOccurrences(p: nat, xs: seq<Xref>): seq<Occurrence>
  {
    seq(|xs|, k requires 0 <= k < |xs| => Occurrence(p, xs[k]))
  }

  /** All occurrences of the document, pages in order, each page's list in order. */
  function Occurrences(pages: seq<seq<Xref>>): seq<Occurrence>
    decreases |pages|
  {
    if pages == [] then []
    else Occurrences(pages[..|pages| - 1]) + PageOccurrences(|pages| - 1, pages[|pages| - 1])
  }

  /** What `extract_images_from_pdf` returns, or the message of what it raises. */
  function ExtractedImages(listing: Listing, lib: Collaborators): Result<seq<Entry>, string>
  {
    match listing
    case Failure(m) => Failure(ProcessingPrefix + m)
    case Success(pages) =>
      var images := Scan(Occurrences(pages), lib).images;
      if images == [] then Failure(NoImagesMessage) else Success(images)
  }

  /** The occurrence each returned entry was produced from. */
  ghost function Sources(pages: seq<seq<Xref>>, lib: Collaborators): seq<Occurrence>
  {
    Scan(Occurrences(pages), lib).origins
  }

  /** The numbering of the entries a scan has collected is 1..n in order. */
  lemma {:induction false} ScanNumbering(occ: seq<Occurrence>, lib: Collaborators)
    ensures var st := Scan(occ, lib);
      st.count == |st.images| == |st.origins| &&
      forall k :: 0 <= k < |st.images| ==> st.images[k].imageIndex == k + 1
    decreases |occ|
  {
    if occ != [] {
      ScanNumbering(occ[..|occ| - 1], lib);
    }
  }

  lemma ScanAppend(occ: seq<Occurrence>, o: Occurrence, lib: Collaborators)
    ensures Scan(occ + [o], lib) == Step(Scan(occ, lib), o, lib)
  {
    assert (occ + [o])[..|occ|] == occ;
  }

  lemma OccurrencesAppend(pages: seq<seq<Xref>>, p: nat)
    requires p < |pages|
    ensures Occurrences(pages[..p + 1]) == Occurrences(pages[..p]) + PageOccurrences(p, pages[p])
  {
    assert pages[..p + 1][..p] == pages[..p];
  }

  /**
   * The body of the inner `try` for one image reference: the new `seen_xrefs`,
   * `image_index` and `images`, and whether an entry was appended.
   */
  method ProcessImage(seen: set<Xref>, count: nat, images: seq<Entry>, ghost origins: seq<Occurrence>,
                      pageNum: nat, xref: Xref, lib: Collaborators)
    returns (seen': set<Xref>, count': nat, images': seq<Entry>, appended: bool)
    ensures State(seen', count', images', if appended then origins + [Occurrence(pageNum, xref)] else origins)
         == Step(State(seen, count, images, origins), Occurrence(pageNum, xref), lib)
  {
    seen', count', images', appended := seen, count, images, false;
    if xref in seen {
      return;
    }
    seen' := seen + {xref};
    var base := lib.extract(xref);
    if base.None? {
      return;
    }
    if |base.value.data| < MinPayloadBytes {
      return;
    }
    var pic := lib.open(base.value.data);
    if pic.None? {
      return;
    }
    if pic.value.width < MinSide || pic.value.height < MinSide {
      return;
    }
    var webp := lib.encode(base.value.data, ConversionFor(pic.value.mode));
    if webp.None? {
      return;
    }
    var dataUrl := DataUrlPrefix + lib.base64(webp.value);
    count' := count + 1;
    images' := images + [Entry(pageNum + 1, count', dataUrl)];
    appended := true;
  }

  method ExtractImagesFromPdf(listing: Listing, lib: Collaborators) returns (r: Result<seq<Entry>, string>)
    ensures r == ExtractedImages(listing, lib)
    ensures r.Success? ==> |r.value| > 0 && forall k :: 0 <= k < |r.value| ==> r.value[k].imageIndex == k + 1
    ensures r.Failure? ==> r.error == (if listing.Failure? then ProcessingPrefix + listing.error else NoImagesMessage)
  {
    if listing.Failure? {
      return Failure(ProcessingPrefix + listing.error);
    }
    var pages := listing.value;
    var images: seq<Entry> := [];
    var imageIndex: nat := 0;
    var seenXrefs: set<Xref> := {};
    ghost var origins: seq<Occurrence> := [];
    ghost var occ: seq<Occurrence> := [];

    var pageNum := 0;
    while pageNum < |pages|
      invariant 0 <= pageNum <= |pages|
      invariant occ == Occurrences(pages[..pageNum])
      invariant Scan(occ, lib) == State(seenXrefs, imageIndex, images, origins)
    {
      var imageList := pages[pageNum];
      var i := 0;
      while i < |imageList|
        invariant 0 <= i <= |imageList|
        invariant occ == Occurrences(pages[..pageNum]) + PageOccurrences(pageNum, imageList[..i])
        invariant Scan(occ, lib) == State(seenXrefs, imageIndex, images, origins)
      {
        var xref := imageList[i];
        ghost var o := Occurrence(pageNum, xref);
        assert PageOccurrences(pageNum, imageList[..i + 1]) == PageOccurrences(pageNum, imageList[..i]) + [o];
        ScanAppend(occ, o, lib);
        occ := occ + [o];
        var appended;
        seenXrefs, imageIndex, images, appended := ProcessImage(seenXrefs, imageIndex, images, origins, pageNum, xref, lib);
        if appended {
          origins := origins + [o];
        }
        i := i + 1;
      }
      assert imageList[..|imageList|] == imageList;
      OccurrencesAppend(pages, pageNum);
      pageNum := pageNum + 1;
    }
    assert pages[..|pages|] == pages;
    ScanNumbering(occ, lib);

    if images == [] {
      return Failure(NoImagesMessage);
    }
    return Success(images);
  }
}
