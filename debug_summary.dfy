/**
 * The `/api/debug-pdf` endpoint (backend/main.py:167-219): one summary per
 * page, in page order, giving the length of the page's image list and one
 * record per image whose `extract_image` call returns. Unlike the selection
 * loop it keeps repeated xrefs and applies no size filter.
 */
module DebugSummary {
  import opened Wrappers
  import opened Pdf
  import Endpoint

  /** One record of a page's `images` list; an absent width or height reads "unknown". */
  datatype ImageInfo = ImageInfo(xref: Xref, ext: string, size: nat, width: Option<nat>, height: Option<nat>)

  datatype PageInfo = PageInfo(pageNumber: nat, imageCount: nat, images: seq<ImageInfo>)

  datatype DebugResponse =
    | Summary(totalPages: nat, pages: seq<PageInfo>)
    | DebugError(status: nat, detail: string)

  function InfoFor(x: Xref, base: BaseImage): ImageInfo
  {
    ImageInfo(x, base.ext, |base.data|, base.width, base.height)
  }

  /** The records of one image list: those xrefs whose extraction returns, in list order. */
  function Listed(xs: seq<Xref>, lib: Collaborators): seq<ImageInfo>
    decreases |xs|
  {
    if xs == [] then []
    else
      var x := xs[|xs| - 1];
      Listed(xs[..|xs| - 1], lib) + match lib.extract(x) { case None => [] case Some(b) => [InfoFor(x, b)] }
  }

  /** Listing two lists one after the other lists each in turn: the order of the image list is kept. */
  lemma {:induction false} ListedConcatenates(a: seq<Xref>, b: seq<Xref>, lib: Collaborators)
    ensures Listed(a + b, lib) == Listed(a, lib) + Listed(b, lib)
    decreases |b|
  {
    if b == [] {
      assert a + b == a;
    } else {
      var n := |b| - 1;
      ListedConcatenates(a, b[..n], lib);
      assert (a + b)[..|a + b| - 1] == a + b[..n];
    }
  }

  /**
   * The page's `images` list is never longer than its `imageCount`, and is
   * as long exactly when every extraction on the page returns.
   */
  lemma {:induction false} ListedCount(xs: seq<Xref>, lib: Collaborators)
    ensures |Listed(xs, lib)| <= |xs|
    ensures |Listed(xs, lib)| == |xs| <==> forall j :: 0 <= j < |xs| ==> lib.extract(xs[j]).Some?
    decreases |xs|
  {
    if xs != [] {
      var n := |xs| - 1;
      var prev := xs[..n];
      ListedCount(prev, lib);
      assert forall j :: 0 <= j < n ==> prev[j] == xs[j];
    }
  }

  /** Every record describes a listed xref whose extraction returned, with that extraction's fields. */
  lemma {:induction false} ListedAreExtracted(xs: seq<Xref>, lib: Collaborators)
    ensures forall j :: 0 <= j < |Listed(xs, lib)| ==>
      var info := Listed(xs, lib)[j];
      info.xref in xs && lib.extract(info.xref).Some? && info == InfoFor(info.xref, lib.extract(info.xref).value)
    decreases |xs|
  {
    if xs != [] {
      var n := |xs| - 1;
      ListedAreExtracted(xs[..n], lib);
      assert forall x :: x in xs[..n] ==> x in xs;
    }
  }

  /** An xref whose extraction returns has one record per position of the list that holds it. */
  lemma {:induction false} ListedRepeats(xs: seq<Xref>, lib: Collaborators, x: Xref)
    requires lib.extract(x).Some?
    ensures multiset(Listed(xs, lib))[InfoFor(x, lib.extract(x).value)] == multiset(xs)[x]
    decreases |xs|
  {
    if xs != [] {
      var n := |xs| - 1;
      var prev := xs[..n];
      ListedRepeats(prev, lib, x);
      assert xs == prev + [xs[n]];
      var info := InfoFor(x, lib.extract(x).value);
      var last := match lib.extract(xs[n]) { case None => [] case Some(b) => [InfoFor(xs[n], b)] };
      assert Listed(xs, lib) == Listed(prev, lib) + last;
      assert multiset(Listed(xs, lib)) == multiset(Listed(prev, lib)) + multiset(last);
      assert multiset(xs) == multiset(prev) + multiset{xs[n]};
      if xs[n] == x {
        assert last == [info];
      } else {
        assert info !in last;
      }
    }
  }

  /**
   * Every xref of the list whose extraction returns has its record, and a
   * repeated xref has one record per position that lists it.
   */
  lemma {:induction false} ListedIsComplete(xs: seq<Xref>, lib: Collaborators)
    ensures forall j :: 0 <= j < |xs| && lib.extract(xs[j]).Some? ==>
      InfoFor(xs[j], lib.extract(xs[j]).value) in Listed(xs, lib)
    ensures forall x :: lib.extract(x).Some? ==>
      multiset(Listed(xs, lib))[InfoFor(x, lib.extract(x).value)] == multiset(xs)[x]
  {
    forall x | lib.extract(x).Some?
      ensures multiset(Listed(xs, lib))[InfoFor(x, lib.extract(x).value)] == multiset(xs)[x]
    {
      ListedRepeats(xs, lib, x);
    }
    forall j | 0 <= j < |xs| && lib.extract(xs[j]).Some?
      ensures InfoFor(xs[j], lib.extract(xs[j]).value) in Listed(xs, lib)
    {
      ListedRepeats(xs, lib, xs[j]);
      assert xs[j] in multiset(xs);
    }
  }

  method DebugPdf(contentType: Option<string>, listing: Listing, lib: Collaborators)
    returns (resp: DebugResponse)
    ensures !Endpoint.IsPdfUpload(contentType) ==> resp == DebugError(400, Endpoint.NotPdfDetail)
    ensures Endpoint.IsPdfUpload(contentType) && listing.Failure? ==> resp == DebugError(500, listing.error)
    ensures Endpoint.IsPdfUpload(contentType) && listing.Success? ==>
      var pages := listing.value;
      resp.Summary? && resp.totalPages == |pages| == |resp.pages| &&
      forall k :: 0 <= k < |pages| ==> resp.pages[k] == PageInfo(k + 1, |pages[k]|, Listed(pages[k], lib))
  {
    if !Endpoint.IsPdfUpload(contentType) {
      return DebugError(400, Endpoint.NotPdfDetail);
    }
    if listing.Failure? {
      return DebugError(500, listing.error);
    }
    var pages := listing.value;
    var summaries: seq<PageInfo> := [];
    var pageNum := 0;
    while pageNum < |pages|
      invariant 0 <= pageNum <= |pages| && |summaries| == pageNum
      invariant forall k :: 0 <= k < pageNum ==> summaries[k] == PageInfo(k + 1, |pages[k]|, Listed(pages[k], lib))
    {
      var imageList := pages[pageNum];
      var infos: seq<ImageInfo> := [];
      var i := 0;
      while i < |imageList|
        invariant 0 <= i <= |imageList|
        invariant infos == Listed(imageList[..i], lib)
      {
        var xref := imageList[i];
        assert imageList[..i + 1][..i] == imageList[..i];
        var base := lib.extract(xref);
        if base.Some? {
          infos := infos + [InfoFor(xref, base.value)];
        }
        i := i + 1;
      }
      assert imageList[..|imageList|] == imageList;
      summaries := summaries + [PageInfo(pageNum + 1, |imageList|, infos)];
      pageNum := pageNum + 1;
    }
    return Summary(|pages|, summaries);
  }
}
