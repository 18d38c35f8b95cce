/**
 * What the selection loop guarantees about the list it returns: which
 * image references end up in it, in which order, with which page numbers,
 * and that no reference appears twice.
 */
module ExtractionProperties {
  import opened Wrappers
  import opened Pdf
  import opened Extraction

  /** Position `i` of `occ` is the first occurrence of its xref. */
  ghost predicate FirstAt(occ: seq<Occurrence>, i: nat)
    requires i < |occ|
  {
    forall j :: 0 <= j < i ==> occ[j].xref != occ[i].xref
  }

  /** The xrefs met in `occ`. */
  ghost function XrefsOf(occ: seq<Occurrence>): set<Xref>
  {
    set j | 0 <= j < |occ| :: occ[j].xref
  }

  /**
   * Reference selection, without the `seen_xrefs` bookkeeping: the positions
   * of `occ`, in increasing order, that are the first occurrence of their xref
   * and whose image survives extraction, filtering and encoding.
   */
  ghost function Positions(occ: seq<Occurrence>, lib: Collaborators): seq<nat>
    decreases |occ|
  {
    if occ == [] then []
    else
      var n := |occ| - 1;
      Positions(occ[..n], lib) + (if FirstAt(occ, n) && WebpFor(lib, occ[n].xref).Some? then [n] else [])
  }

  /** Every selected position is in range, a first occurrence, and survives. */
  ghost predicate Selected(occ: seq<Occurrence>, lib: Collaborators, ps: seq<nat>)
  {
    forall k :: 0 <= k < |ps| ==>
      ps[k] < |occ| && FirstAt(occ, ps[k]) && WebpFor(lib, occ[ps[k]].xref).Some?
  }

  ghost predicate Increasing(ps: seq<nat>)
  {
    forall k, l :: 0 <= k < l < |ps| ==> ps[k] < ps[l]
  }

  /** Every surviving first occurrence is selected. */
  ghost predicate Complete(occ: seq<Occurrence>, lib: Collaborators, ps: seq<nat>)
  {
    forall i :: 0 <= i < |occ| && FirstAt(occ, i) && WebpFor(lib, occ[i].xref).Some? ==> i in ps
  }

  lemma FirstAtPrefix(occ: seq<Occurrence>, n: nat, i: nat)
    requires i < n <= |occ|
    ensures FirstAt(occ[..n], i) == FirstAt(occ, i)
  {
    assert forall j :: 0 <= j <= i ==> occ[..n][j] == occ[j];
  }

  lemma {:induction false} PositionsSelected(occ: seq<Occurrence>, lib: Collaborators)
    ensures Selected(occ, lib, Positions(occ, lib))
    decreases |occ|
  {
    if occ != [] {
      var n := |occ| - 1;
      var prev := occ[..n];
      PositionsSelected(prev, lib);
      var ps := Positions(prev, lib);
      forall k | 0 <= k < |ps| ensures FirstAt(occ, ps[k]) && occ[ps[k]] == prev[ps[k]] {
        FirstAtPrefix(occ, n, ps[k]);
      }
    }
  }

  lemma {:induction false} PositionsIncreasing(occ: seq<Occurrence>, lib: Collaborators)
    ensures Increasing(Positions(occ, lib))
    decreases |occ|
  {
    if occ != [] {
      var n := |occ| - 1;
      PositionsIncreasing(occ[..n], lib);
      PositionsSelected(occ[..n], lib);
    }
  }

  lemma {:induction false} PositionsComplete(occ: seq<Occurrence>, lib: Collaborators)
    ensures Complete(occ, lib, Positions(occ, lib))
    decreases |occ|
  {
    if occ != [] {
      var n := |occ| - 1;
      var prev := occ[..n];
      PositionsComplete(prev, lib);
      assert Positions(occ, lib)[..|Positions(prev, lib)|] == Positions(prev, lib);
      forall i | 0 <= i < n && FirstAt(occ, i) && WebpFor(lib, occ[i].xref).Some?
        ensures i in Positions(prev, lib)
      {
        FirstAtPrefix(occ, n, i);
        assert prev[i] == occ[i];
      }
    }
  }

  lemma XrefsOfAppend(occ: seq<Occurrence>)
    requires occ != []
    ensures XrefsOf(occ) == XrefsOf(occ[..|occ| - 1]) + {occ[|occ| - 1].xref}
  {
    var prev := occ[..|occ| - 1];
    forall x | x in XrefsOf(occ) ensures x in XrefsOf(prev) + {occ[|occ| - 1].xref} {
      var j :| 0 <= j < |occ| && occ[j].xref == x;
      if j < |prev| { assert prev[j].xref == x; }
    }
    forall x | x in XrefsOf(prev) ensures x in XrefsOf(occ) {
      var j :| 0 <= j < |prev| && prev[j].xref == x;
      assert occ[j].xref == x;
    }
  }

  /** The last position is a first occurrence exactly when its xref was not met before. */
  lemma FirstAtLast(occ: seq<Occurrence>)
    requires occ != []
    ensures FirstAt(occ, |occ| - 1) <==> occ[|occ| - 1].xref !in XrefsOf(occ[..|occ| - 1])
  {
    var n := |occ| - 1;
    var prev := occ[..n];
    if occ[n].xref in XrefsOf(prev) {
      var j :| 0 <= j < |prev| && prev[j].xref == occ[n].xref;
      assert occ[j].xref == occ[n].xref;
    }
  }

  /** The loop's `seen_xrefs` is exactly the set of xrefs met so far. */
  lemma {:induction false} ScanSeen(occ: seq<Occurrence>, lib: Collaborators)
    ensures Scan(occ, lib).seen == XrefsOf(occ)
    decreases |occ|
  {
    if occ != [] {
      ScanSeen(occ[..|occ| - 1], lib);
      XrefsOfAppend(occ);
    }
  }

  /** Entry k of a state is the one produced from its k-th origin, numbered k + 1. */
  ghost predicate EntriesFromOrigins(st: State, lib: Collaborators)
  {
    st.count == |st.images| == |st.origins| &&
    forall k :: 0 <= k < |st.images| ==>
      WebpFor(lib, st.origins[k].xref).Some? &&
      st.images[k] == Entry(st.origins[k].page + 1, k + 1,
                            DataUrlPrefix + lib.base64(WebpFor(lib, st.origins[k].xref).value))
  }

  lemma {:induction false} ScanEntries(occ: seq<Occurrence>, lib: Collaborators)
    ensures EntriesFromOrigins(Scan(occ, lib), lib)
    decreases |occ|
  {
    if occ != [] {
      ScanEntries(occ[..|occ| - 1], lib);
    }
  }

  /** The k-th origin of a state is the occurrence at the k-th selected position. */
  ghost predicate OriginsAt(st: State, occ: seq<Occurrence>, ps: seq<nat>)
  {
    |st.origins| == |ps| &&
    forall k :: 0 <= k < |ps| ==> ps[k] < |occ| && st.origins[k] == occ[ps[k]]
  }

  lemma {:induction false} ScanOrigins(occ: seq<Occurrence>, lib: Collaborators)
    ensures OriginsAt(Scan(occ, lib), occ, Positions(occ, lib))
    decreases |occ|
  {
    if occ != [] {
      var n := |occ| - 1;
      var prev := occ[..n];
      ScanOrigins(prev, lib);
      ScanSeen(prev, lib);
      FirstAtLast(occ);
      var ps := Positions(prev, lib);
      var st := Scan(prev, lib);
      forall k | 0 <= k < |ps| ensures ps[k] < |occ| && st.origins[k] == occ[ps[k]] {
        assert prev[ps[k]] == occ[ps[k]];
      }
    }
  }

  /** Every occurrence names a page of the document that lists its xref. */
  ghost predicate WithinPages(occ: seq<Occurrence>, pages: seq<seq<Xref>>)
  {
    forall i :: 0 <= i < |occ| ==> occ[i].page < |pages| && occ[i].xref in pages[occ[i].page]
  }

  ghost predicate PageSorted(occ: seq<Occurrence>)
  {
    forall i, j :: 0 <= i <= j < |occ| ==> occ[i].page <= occ[j].page
  }

  /** Every image reference of every page is met. */
  ghost predicate CoversPages(occ: seq<Occurrence>, pages: seq<seq<Xref>>)
  {
    forall q, j :: 0 <= q < |pages| && 0 <= j < |pages[q]| ==> Occurrence(q, pages[q][j]) in occ
  }

  /** How the occurrence list lays out the pages. */
  lemma {:induction false} OccurrencesLayout(pages: seq<seq<Xref>>)
    ensures WithinPages(Occurrences(pages), pages)
    ensures PageSorted(Occurrences(pages))
    ensures CoversPages(Occurrences(pages), pages)
    decreases |pages|
  {
    if pages != [] {
      var n := |pages| - 1;
      var prev := pages[..n];
      OccurrencesLayout(prev);
      var before := Occurrences(prev);
      var here := PageOccurrences(n, pages[n]);
      var occ := Occurrences(pages);
      assert occ == before + here;
      forall i | 0 <= i < |occ|
        ensures occ[i].page < |pages| && occ[i].xref in pages[occ[i].page]
      {
        if i < |before| {
          assert occ[i] == before[i];
          assert before[i].page < |prev| && before[i].xref in prev[before[i].page];
          assert prev[before[i].page] == pages[before[i].page];
        } else {
          assert occ[i] == here[i - |before|];
        }
      }
      forall i, j | 0 <= i <= j < |occ| ensures occ[i].page <= occ[j].page {
        if j < |before| {
          assert occ[i] == before[i] && occ[j] == before[j];
        } else if i < |before| {
          assert occ[i] == before[i] && before[i].page < n;
        }
      }
      forall q, j | 0 <= q < |pages| && 0 <= j < |pages[q]|
        ensures Occurrence(q, pages[q][j]) in occ
      {
        if q < n {
          assert prev[q] == pages[q];
          assert Occurrence(q, prev[q][j]) in before;
        } else {
          assert occ[|before| + j] == Occurrence(q, pages[q][j]);
        }
      }
    }
  }

  /** Every xref met at position `i` has a first occurrence at or before `i`. */
  lemma {:induction false} FirstOccurrenceExists(occ: seq<Occurrence>, i: nat)
    requires i < |occ|
    ensures exists f :: 0 <= f <= i && occ[f].xref == occ[i].xref && FirstAt(occ, f)
    decreases i
  {
    if !FirstAt(occ, i) {
      var j :| 0 <= j < i && occ[j].xref == occ[i].xref;
      FirstOccurrenceExists(occ, j);
    }
  }

  /**
   * Every returned entry comes from an image whose raw bytes number at least
   * 100 and whose decoded sides are both at least 10, and its url is the WebP
   * data-URL prefix followed by the base64 text of that image's WebP bytes.
   */
  lemma EntriesPassFilters(pages: seq<seq<Xref>>, lib: Collaborators, es: seq<Entry>)
    requires ExtractedImages(Success(pages), lib) == Success(es)
    ensures var src := Sources(pages, lib);
      |src| == |es| &&
      forall k :: 0 <= k < |es| ==>
        PassesFilters(lib, src[k].xref) &&
        WebpFor(lib, src[k].xref).Some? &&
        es[k].url == DataUrlPrefix + lib.base64(WebpFor(lib, src[k].xref).value) &&
        DataUrlPrefix <= es[k].url
  {
    ScanEntries(Occurrences(pages), lib);
  }

  /** No two returned entries come from the same xref. */
  lemma EntriesHaveDistinctSources(pages: seq<seq<Xref>>, lib: Collaborators, es: seq<Entry>)
    requires ExtractedImages(Success(pages), lib) == Success(es)
    ensures var src := Sources(pages, lib);
      |src| == |es| &&
      forall k, l :: 0 <= k < l < |src| ==> src[k].xref != src[l].xref
  {
    ScanOrigins(Occurrences(pages), lib);
    ScanEntries(Occurrences(pages), lib);
    PositionsSelected(Occurrences(pages), lib);
    PositionsIncreasing(Occurrences(pages), lib);
    var occ := Occurrences(pages);
    var ps := Positions(occ, lib);
    var src := Sources(pages, lib);
    forall k, l | 0 <= k < l < |src| ensures src[k].xref != src[l].xref {
      assert ps[k] < ps[l] && FirstAt(occ, ps[l]);
    }
  }

  /**
   * Each entry's page number is one more than the 0-based index of the first
   * page whose image list holds its xref: it lies in 1..|pages|, and an xref
   * met again on a later page, whatever became of it the first time, is not
   * reconsidered there.
   */
  lemma EntryPageIsFirstPage(pages: seq<seq<Xref>>, lib: Collaborators, es: seq<Entry>)
    requires ExtractedImages(Success(pages), lib) == Success(es)
    ensures var src := Sources(pages, lib);
      |src| == |es| &&
      forall k :: 0 <= k < |es| ==>
        es[k].pageNumber == src[k].page + 1 &&
        1 <= es[k].pageNumber <= |pages| &&
        src[k].xref in pages[src[k].page] &&
        forall q :: 0 <= q < src[k].page ==> src[k].xref !in pages[q]
  {
    ScanOrigins(Occurrences(pages), lib);
    ScanEntries(Occurrences(pages), lib);
    PositionsSelected(Occurrences(pages), lib);
    OccurrencesLayout(pages);
    var occ := Occurrences(pages);
    var ps := Positions(occ, lib);
    var src := Sources(pages, lib);
    forall k, q | 0 <= k < |es| && 0 <= q < src[k].page
      ensures src[k].xref !in pages[q]
    {
    }
  }

  /** Page numbers never decrease along the returned list. */
  lemma EntriesAreInPageOrder(pages: seq<seq<Xref>>, lib: Collaborators, es: seq<Entry>)
    requires ExtractedImages(Success(pages), lib) == Success(es)
    ensures forall k, l :: 0 <= k <= l < |es| ==> es[k].pageNumber <= es[l].pageNumber
  {
    ScanOrigins(Occurrences(pages), lib);
    ScanEntries(Occurrences(pages), lib);
    PositionsIncreasing(Occurrences(pages), lib);
    OccurrencesLayout(pages);
    var occ := Occurrences(pages);
    var ps := Positions(occ, lib);
    forall k, l | 0 <= k <= l < |es| ensures es[k].pageNumber <= es[l].pageNumber {
      assert k < l ==> ps[k] < ps[l];
    }
  }

  /**
   * An xref yields an entry exactly when some page lists it and its image
   * survives: a failure or a filtered image elsewhere never keeps it out.
   */
  lemma {:induction false} SourcesAreExactlySurvivors(pages: seq<seq<Xref>>, lib: Collaborators, x: Xref)
    ensures var src := Sources(pages, lib);
      (exists k :: 0 <= k < |src| && src[k].xref == x) <==>
      (exists q :: 0 <= q < |pages| && x in pages[q]) && WebpFor(lib, x).Some?
  {
    var src := Sources(pages, lib);
    if k :| 0 <= k < |src| && src[k].xref == x {
      SourceIsListedSurvivor(pages, lib, k);
    }
    if q :| 0 <= q < |pages| && x in pages[q] {
      if WebpFor(lib, x).Some? {
        ListedSurvivorIsSource(pages, lib, q, x);
      }
    }
  }

  /**
   * The run ends in the no-images error exactly when no image listed on any
   * page survives extraction, filtering and encoding.
   */
  lemma NoImagesExactlyWhenNoneSurvive(pages: seq<seq<Xref>>, lib: Collaborators)
    ensures ExtractedImages(Success(pages), lib) == Failure(NoImagesMessage) <==>
      forall q, x :: 0 <= q < |pages| && x in pages[q] ==> WebpFor(lib, x).None?
  {
    var src := Sources(pages, lib);
    ScanNumbering(Occurrences(pages), lib);
    if src != [] {
      SourcesAreExactlySurvivors(pages, lib, src[0].xref);
      assert exists k :: 0 <= k < |src| && src[k].xref == src[0].xref;
    }
    forall q, x | 0 <= q < |pages| && x in pages[q] && WebpFor(lib, x).Some?
      ensures src != []
    {
      SourcesAreExactlySurvivors(pages, lib, x);
    }
  }

  lemma SourceIsListedSurvivor(pages: seq<seq<Xref>>, lib: Collaborators, k: nat)
    requires k < |Sources(pages, lib)|
    ensures var o := Sources(pages, lib)[k];
      o.page < |pages| && o.xref in pages[o.page] && WebpFor(lib, o.xref).Some?
  {
    ScanOrigins(Occurrences(pages), lib);
    PositionsSelected(Occurrences(pages), lib);
    OccurrencesLayout(pages);
    var occ := Occurrences(pages);
  }

  /** Some selected position carries the xref of any occurrence whose image survives. */
  lemma SurvivorIsSelected(occ: seq<Occurrence>, lib: Collaborators, i: nat)
    requires i < |occ| && WebpFor(lib, occ[i].xref).Some?
    ensures exists k ::
              0 <= k < |Positions(occ, lib)| && Positions(occ, lib)[k] < |occ| &&
              occ[Positions(occ, lib)[k]].xref == occ[i].xref
  {
    var ps := Positions(occ, lib);
    PositionsComplete(occ, lib);
    FirstOccurrenceExists(occ, i);
    var f :| 0 <= f <= i && occ[f].xref == occ[i].xref && FirstAt(occ, f);
    assert f in ps;
    var k :| 0 <= k < |ps| && ps[k] == f;
  }

  lemma ListedSurvivorIsSource(pages: seq<seq<Xref>>, lib: Collaborators, q: nat, x: Xref)
    requires q < |pages| && x in pages[q] && WebpFor(lib, x).Some?
    ensures exists k :: 0 <= k < |Sources(pages, lib)| && Sources(pages, lib)[k].xref == x
  {
    var occ := Occurrences(pages);
    OccurrencesLayout(pages);
    var j :| 0 <= j < |pages[q]| && pages[q][j] == x;
    assert Occurrence(q, pages[q][j]) in occ;
    var i :| 0 <= i < |occ| && occ[i] == Occurrence(q, x);
    SurvivorIsSelected(occ, lib, i);
    ScanOrigins(occ, lib);
    var ps := Positions(occ, lib);
    var k :| 0 <= k < |ps| && ps[k] < |occ| && occ[ps[k]].xref == x;
    assert Sources(pages, lib)[k].xref == x;
  }
}
