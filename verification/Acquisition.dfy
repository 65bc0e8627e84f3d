/**
 * The acquisition decision (`get_content`): check the path, take the native text of the
 * pages, normalise it, keep it when it has more than 1000 non-whitespace characters, and
 * otherwise fall back to the image path of module Scratch.
 *
 * The PDF reader is given as its outcome: the page texts it extracts, or the exception
 * raised while opening the file.
 */
module Acquisition {
  import opened Base
  import opened Text
  import opened Scratch

  /** Native text with at most this many non-whitespace characters counts as a flat PDF. */
  const FLAT_THRESHOLD := 1000

  /** Outcome of `PdfReader(path)`: the text of each page, or the exception it raised:
      `ImportError`, `FileNotFoundError`, or any other (a file that is empty, truncated or not
      a PDF, or a directory named like one), which `get_content` does not catch. */
  datatype Reader = Opened(pages: seq<string>) | LibraryMissing | FileVanished | OpenRaised

  /** A document as the outside world presents it: whether the path exists, what the PDF
      reader gives, what the rasteriser gives, and the OCR oracle's reply per page. */
  datatype Document = Document(found: bool, reader: Reader, raster: Raster, ocr: nat -> Option<string>)

  /** Outcome of `get_content`: the text, `False`, `ValueError`, `ImportError`, an exception of
      the reader that propagates, or an exception raised on the image path. */
  datatype Content =
    | Extracted(text: string) | Failed | InvalidFile | MissingLibrary | ReaderRaised | ImagePathRaised

  /** `path.lower().endswith(".pdf")` */
  predicate HasPdfExtension(path: string)
  {
    EndsWith(Lower(path), ".pdf")
  }

  /** The native text is kept when it has more than `FLAT_THRESHOLD` non-whitespace characters. */
  predicate HasTextLayer(text: string)
  {
    |NonSpace(text)| > FLAT_THRESHOLD
  }

  /** The native text of a document's pages, normalised. */
  function NativeContent(pages: seq<string>): string
  {
    Normalize(PagesText(pages))
  }

  /** The document is opened and its native text is too thin, so the image path is taken. */
  predicate TakesImagePath(path: string, doc: Document)
  {
    && doc.found && HasPdfExtension(path) && doc.reader.Opened?
    && !HasTextLayer(NativeContent(doc.reader.pages))
  }

  /** What `get_content` yields for a workspace whose entries are `m`. */
  function Acquire(m: map<string, Kind>, path: string, doc: Document): (c: Content)
    ensures c.Extracted? ==> c.text != []
    ensures doc.found && HasPdfExtension(path) && doc.reader.Opened? ==>
      c.Extracted? || c.Failed? || c.ImagePathRaised?
  {
    if !doc.found || !HasPdfExtension(path) then InvalidFile
    else match doc.reader
      case LibraryMissing => MissingLibrary
      case FileVanished => InvalidFile
      case OpenRaised => ReaderRaised
      case Opened(pages) =>
        var native := NativeContent(pages);
        if HasTextLayer(native) then Extracted(native)
        else FromImages(FlatSpec(m, doc.raster, doc.ocr))
  }

  /** How `get_content` reports the image path's outcome: no rasteriser or an empty
      transcription gives `False`, an exception propagates, other text is the result. */
  function FromImages(f: FlatResult): (c: Content)
    ensures c.Extracted? ==> c.text != []
    ensures c.Extracted? || c.Failed? || c.ImagePathRaised?
  {
    match f
    case NoRenderer => Failed
    case Raised => ImagePathRaised
    case Transcribed(t) => if t == [] then Failed else Extracted(t)
  }

  /** The page loop of `get_content`: each page's text followed by a newline. */
  method NativeText(pages: seq<string>) returns (text: string)
    ensures text == PagesText(pages)
  {
    text := "";
    for i := 0 to |pages|
      invariant text == PagesText(pages[..i])
    {
      assert pages[..i + 1][..i] == pages[..i];
      text := text + pages[i] + "\n";
    }
    assert pages[..|pages|] == pages;
  }

  /** `get_content(path)` with the scratch workspace `ws`. */
  method GetContent(ws: Workspace, path: string, doc: Document) returns (r: Content)
    requires ws.Valid()
    modifies ws
    ensures ws.Valid()
    ensures r == Acquire(old(ws.entries), path, doc)
    ensures !TakesImagePath(path, doc) ==> unchanged(ws)
    ensures TakesImagePath(path, doc) ==> ws.present
    ensures TakesImagePath(path, doc) && doc.raster.RenderFailed? ==>
      ws.entries == Subdirectories(old(ws.entries))
    ensures TakesImagePath(path, doc) && doc.raster.Rendered? ==>
      var d := Subdirectories(old(ws.entries));
      ws.entries == d + PageFiles(SavablePages(d, doc.raster.pages))
  {
    if !doc.found || !HasPdfExtension(path) {
      return InvalidFile;
    }
    match doc.reader
    case LibraryMissing =>
      return MissingLibrary;
    case FileVanished =>
      return InvalidFile;
    case OpenRaised =>
      return ReaderRaised;
    case Opened(pages) =>
      var text := NativeText(pages);
      var native := Normalize(text);
      if |NonSpace(native)| > FLAT_THRESHOLD {
        return Extracted(native);
      }
      var flat := ws.FlatPdfToText(doc.raster, doc.ocr);
      match flat
      case NoRenderer =>
        return Failed;
      case Raised =>
        return ImagePathRaised;
      case Transcribed(t) =>
        if t == [] {
          return Failed;
        }
        return Extracted(t);
  }

  /** The checks before any text is read: a missing path or one not ending in ".pdf" (in any
      case) is invalid, a missing library is reported as such, a file that vanished before
      opening is invalid, and any other exception of the reader propagates. */
  lemma AcquireErrors(m: map<string, Kind>, path: string, doc: Document)
    ensures !doc.found || !HasPdfExtension(path) ==> Acquire(m, path, doc) == InvalidFile
    ensures doc.found && HasPdfExtension(path) ==>
      && (doc.reader.LibraryMissing? <==> Acquire(m, path, doc) == MissingLibrary)
      && (doc.reader.OpenRaised? <==> Acquire(m, path, doc) == ReaderRaised)
      && (doc.reader.FileVanished? ==> Acquire(m, path, doc) == InvalidFile)
  {
  }

  /** The image path is taken exactly when the pages hold at most 1000 non-whitespace
      characters in all, however their whitespace is laid out; otherwise the normalised
      native text is the result. */
  lemma ImagePathIffThin(m: map<string, Kind>, path: string, doc: Document)
    requires doc.found && HasPdfExtension(path) && doc.reader.Opened?
    ensures TakesImagePath(path, doc) <==> TotalNonSpace(doc.reader.pages) <= FLAT_THRESHOLD
    ensures !TakesImagePath(path, doc) ==> Acquire(m, path, doc) == Extracted(NativeContent(doc.reader.pages))
  {
    NormalizeNonSpace(PagesText(doc.reader.pages));
    PagesTextNonSpace(doc.reader.pages);
  }

  lemma AcquireImagePath(m: map<string, Kind>, path: string, doc: Document)
    requires TakesImagePath(path, doc)
    ensures Acquire(m, path, doc) == FromImages(FlatSpec(m, doc.raster, doc.ocr))
  {
  }

  /** The image path's result in `get_content`'s terms, once no `.png` directory is left. */
  lemma FromImagesOutcome(m: map<string, Kind>, raster: Raster, ocr: nat -> Option<string>)
    requires PngNames(Subdirectories(m).Keys) == {}
    ensures raster.RenderFailed? ==> FromImages(FlatSpec(m, raster, ocr)) == Failed
    ensures raster.Rendered? ==>
      var n := raster.pages;
      FromImages(FlatSpec(m, raster, ocr)) ==
        if Replies(ocr, n).None? then ImagePathRaised
        else if n == 0 then Failed
        else Extracted(PagesText(Replies(ocr, n).value))
  {
    if raster.Rendered? {
      var rs := Replies(ocr, raster.pages);
      if rs.Some? && raster.pages > 0 {
        assert PagesText(rs.value) != [];
      }
    }
  }

  /** On the image path with no `.png` directory left in the workspace: a rasteriser failure
      or a zero-page rendering gives `False`, a failed OCR call raises, and otherwise the
      result is the OCR text of pages 1..N in order, each followed by a newline and not
      normalised again. */
  lemma ImagePathOutcome(m: map<string, Kind>, path: string, doc: Document)
    requires TakesImagePath(path, doc)
    requires PngNames(Subdirectories(m).Keys) == {}
    ensures doc.raster.RenderFailed? ==> Acquire(m, path, doc) == Failed
    ensures doc.raster.Rendered? ==>
      var n := doc.raster.pages;
      Acquire(m, path, doc) ==
        if Replies(doc.ocr, n).None? then ImagePathRaised
        else if n == 0 then Failed
        else Extracted(PagesText(Replies(doc.ocr, n).value))
  {
    AcquireImagePath(m, path, doc);
    FromImagesOutcome(m, doc.raster, doc.ocr);
  }
}
