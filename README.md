# PDF image extractor backend, modelled in Dafny

The backend of this repository takes an uploaded PDF, walks the images
embedded in its pages, and returns each usable one re-encoded as a WebP data
URL. This project models the logic it owns:

- **Selection loop** (`extract_images_from_pdf`). Pages are walked in order,
  then each page's image list. An xref already seen is skipped, and it is
  marked seen before extraction is attempted. Payloads under 100 bytes and
  pictures under 10 px on either side are dropped. The colour mode is
  normalised, and survivors are numbered by one document-wide counter.
  A failure on one image is swallowed. The run fails if nothing survives.
- **Colour-mode normalisation**. RGBA is flattened onto white. P and any
  other mode are converted to RGB. RGB and L are kept.
- **`/api/extract-images` outcome**. A content type that is missing or is not
  exactly `application/pdf` gets 400. Otherwise the status is 400 when the
  error message contains "No embedded images found" and 500 for any other
  error. On success, `totalImages` is the length of `images`.
- **`/api/debug-pdf` summary**. There is one record per page. It gives the
  length of the page's image list and one entry per image whose extraction
  returns.

The libraries the backend calls are fields of `Pdf.Collaborators`, each a
total function. For extraction, decoding and encoding, `None` stands for a raised exception; base64 is assumed never to raise. These are
PyMuPDF's `extract_image`, PIL's decoding, the WebP encoder and base64.
Opening the document and listing every page's images together form one
`Pdf.Listing`. That is either the per-page xref lists or the message of
whatever was raised while producing them. Any such exception escapes the
inner `try` and ends the whole run. So where it happens does not change the
outcome.

Files: `wrappers.dfy` (Option, Result), `colour_mode.dfy`, `pdf.dfy`
(collaborators), `extraction.dfy` (the loop, its recursive specification
`Scan` and the method), `extraction_properties.dfy` (what the returned list
satisfies), `endpoint.dfy`, `debug_summary.dfy`.

The method `Extraction.ExtractImagesFromPdf` keeps the source's nested loops,
the `seen` set, the counter and the growing list. It is proved equal to the
left fold `Scan` over the document's occurrence list. `Scan` is in turn proved
to agree with an independent reference selection, `Positions`: the positions
that are the first occurrence of their xref and whose image survives, in
order. The properties of the returned list follow from that agreement.

## Model

| member | source | states |
|---|---|---|
| `ColourMode.ConversionFor` | backend/main.py:83-91 | RGBA, and only RGBA, is flattened onto white; RGB and L, and only those, are kept; P, like every other mode, is converted to RGB |
| `ColourMode.NormalisedMode` | backend/main.py:83-91 | the mode a picture is encoded in is always RGB or L, equals the input mode exactly when that was RGB or L, and needs no further conversion |
| `Extraction.ScanNumbering` | backend/main.py:102-107 | after any prefix of the walk the counter equals the number of collected entries, and entry k carries imageIndex k+1 |
| `Extraction.ProcessImage` | backend/main.py:56-111 | one image reference, as the inner `try` handles it: a seen xref changes nothing; otherwise it is marked seen first, and an entry numbered one past the counter, with its page number and data URL, is appended only if extraction, both size filters and encoding succeed |
| `Extraction.ExtractImagesFromPdf` | backend/main.py:30-121 | the nested loop returns exactly the specified outcome; a normal return is non-empty and numbered 1..n with no gap; a listing failure is re-raised as "Error processing PDF: " + its message, otherwise the only error is the no-images message |
| `ExtractionProperties.PositionsSelected` | backend/main.py:55-80 | every position the reference selection picks is in range, is the first occurrence of its xref, and its image survives extraction, both size filters and encoding |
| `ExtractionProperties.PositionsIncreasing` | backend/main.py:43-55 | the reference selection keeps walk order |
| `ExtractionProperties.PositionsComplete` | backend/main.py:55-111 | every first occurrence whose image survives is picked: a failure elsewhere never drops it |
| `ExtractionProperties.FirstAtPrefix` | backend/main.py:61-64 | whether a position is the first occurrence of its xref does not depend on what is met after it |
| `ExtractionProperties.ScanSeen` | backend/main.py:37-64 | after any prefix of the walk, `seen_xrefs` holds exactly the xrefs met so far, whether or not their images survived |
| `ExtractionProperties.ScanEntries` | backend/main.py:99-107 | entry k is numbered k+1, carries its origin's 0-based page + 1, and its url is the prefix followed by the base64 text of that origin's WebP bytes |
| `ExtractionProperties.ScanOrigins` | backend/main.py:55-111 | the k-th entry's origin is the occurrence at the k-th position of the reference selection |
| `ExtractionProperties.FirstAtLast` | backend/main.py:61-64 | the newest occurrence is the first of its xref exactly when that xref is not yet in the seen set |
| `ExtractionProperties.OccurrencesLayout` | backend/main.py:43-58 | the walk meets every listed image reference, each one names a page that lists it, and pages are met in non-decreasing order |
| `ExtractionProperties.FirstOccurrenceExists` | backend/main.py:61-64 | every xref met has a first occurrence at or before any later one |
| `ExtractionProperties.EntriesPassFilters` | backend/main.py:67-100 | every returned entry comes from an xref with at least 100 raw bytes that decodes to a picture at least 10 by 10, and its url is `data:image/webp;base64,` followed by the base64 text of that picture's WebP bytes |
| `ExtractionProperties.EntriesHaveDistinctSources` | backend/main.py:37-64 | no two returned entries come from the same xref |
| `ExtractionProperties.EntryPageIsFirstPage` | backend/main.py:43-104 | each entry's pageNumber lies in 1..pageCount and is one more than the first page listing its xref, so an xref met again later is never reconsidered |
| `ExtractionProperties.EntriesAreInPageOrder` | backend/main.py:43-104 | pageNumber never decreases along the returned list |
| `ExtractionProperties.SourcesAreExactlySurvivors` | backend/main.py:55-111 | an xref yields an entry if and only if some page lists it and its image survives extraction, filtering and encoding |
| `ExtractionProperties.NoImagesExactlyWhenNoneSurvive` | backend/main.py:55-121 | a listed document ends in the no-images error if and only if no image listed on any page survives extraction, both size filters and encoding |
| `ExtractionProperties.SourceIsListedSurvivor` | backend/main.py:55-111 | an entry's source xref is listed on its page and survives |
| `ExtractionProperties.SurvivorIsSelected` | backend/main.py:55-111 | for any occurrence whose image survives, the reference selection picks an occurrence with the same xref |
| `ExtractionProperties.ListedSurvivorIsSource` | backend/main.py:55-111 | a listed xref that survives is the source of some entry |
| `Endpoint.IsPdfUpload` | backend/main.py:131-132 | the upload is accepted exactly when its content type is present and equal to `application/pdf` |
| `Endpoint.ContainsIsSubstring` | backend/main.py:153 | the substring test holds exactly when the phrase occurs at some offset of the message |
| `Endpoint.ContainsAfterPrefix` | backend/main.py:116-153 | a prefix none of whose characters starts the phrase adds no occurrence of it |
| `Endpoint.StatusFor` | backend/main.py:151-154 | the status is 400 when the message contains "No embedded images found" and 500 otherwise |
| `Endpoint.NoImagesIsClientError` | backend/main.py:118-153 | the error raised when nothing survives maps to 400 |
| `Endpoint.ProcessingErrorStatus` | backend/main.py:115-153 | an error wrapped as "Error processing PDF: m" maps to 500 unless m itself contains the phrase |
| `Endpoint.ExtractImages` | backend/main.py:124-154 | a non-PDF content type gets 400 "File must be a PDF" before any processing; success answers `success: true` with totalImages = number of images > 0; every error keeps its message and gets 400 or 500; once the document is listed, the only possible error is a 400 |
| `DebugSummary.ListedConcatenates` | backend/main.py:196-208 | the image records keep the order of the page's image list |
| `DebugSummary.ListedCount` | backend/main.py:192-208 | a page has no more records than its imageCount, and exactly as many if and only if every extraction on it returns |
| `DebugSummary.ListedAreExtracted` | backend/main.py:196-206 | every record is for a listed xref whose extraction returned, with that extraction's ext, byte size, width and height |
| `DebugSummary.ListedRepeats` | backend/main.py:196-208 | an xref whose extraction returns has exactly as many records as positions of the image list holding it |
| `DebugSummary.ListedIsComplete` | backend/main.py:196-208 | every listed xref whose extraction returns has its record, and an xref listed several times has exactly as many records as positions listing it |
| `DebugSummary.DebugPdf` | backend/main.py:167-216 | a non-PDF content type gets 400; a listing failure gets 500 with its message; otherwise totalPages = page count and page k's summary is pageNumber k+1, imageCount = length of its list, and its records |

## Left out

- PDF parsing and extraction by PyMuPDF (`fitz.open`, `get_images`, `extract_image`) are foreign calls. They are modelled as the `Pdf.Listing` input and the `extract` collaborator.
- PIL decoding, WebP encoding (`quality=85, method=6`) and base64 are library codecs. They are the `open`, `encode` and `base64` collaborators. Encoding receives the raw bytes and the chosen `ColourMode.Conversion`. The white-background compositing is only named, never computed.
- In the selection loop, an exception from `extract_image`, from decoding or from encoding is a `None` from the matching collaborator. Every such exception leads to the same skip. A missing `"ext"` key (line 69) is not modelled, because PyMuPDF always supplies it.
- The early `continue` for a page with an empty image list (line 52) is not modelled separately. It has the same effect as an inner loop that runs zero times.
- FastAPI routing, CORS, `uvicorn.run`, the `/health` endpoint, `await file.read()`, the temporary file and its removal, and the `print` warning are server plumbing and I/O.
- Resource lifetime is not modelled. This covers the skipped `pdf_document.close()` on the error path and `tmp_file_path` possibly being unbound in `finally`.
- A failure of `extract_image` in the debug endpoint is swallowed, as in the source. Any other exception there is the `Listing` failure.
- The browser-side code is not modelled. The backend numbers `imageIndex` with one counter across the whole document (backend/main.py:36, 102).
