# Resume PDF text acquisition, modelled in Dafny

This project models the deterministic core of `main.py`, a batch tool that reads resume
PDFs from `./INPUT/`, extracts their text, asks a chat model for a JSON summary, spot-checks
two fields of that summary and writes `./OUTPUT/<name>.json`.

The modelled core has five parts:

- **Text normaliser** (`normalize_text`), module `Text`. It splits on newlines, collapses every
  whitespace run of a line to one space, strips the line, joins the lines again, and rewrites
  three or more newlines as two. "Whitespace" is one predicate, Python's `str.isspace()` set,
  used for both `\s` and `strip()`. The proofs cover:
  - the output's shape: lines are clean and never contain three newlines in a row;
  - the rewrites themselves: a whitespace run inside a line becomes one space, a run of three
    or more newlines becomes two, a shorter run is kept, and stripping cuts only edge whitespace;
  - which texts are fixed points;
  - idempotence;
  - preservation of the non-whitespace characters in order;
  - when the output is empty.
- **Acquisition decision** (`get_content`), module `Acquisition`:
  - the path check;
  - the page loop that joins each page's text with a trailing newline;
  - the flatness threshold;
  - the fallback to the image path.

  The PDF reader is given as its outcome: the pages' texts, or the exception it raised.
  `ImportError` and `FileNotFoundError` are reported by `get_content`. Any other exception
  propagates out of it; examples are an empty, truncated or non-PDF file, or a directory
  named like a PDF.
- **Image fallback** (`flat_pdf_to_text`, `pdf_to_image`), module `Scratch`. The scratch
  directory `./workdir/images` is a class `Workspace` whose entries (name ↦ regular file or
  directory) its methods update:
  - clearing the regular files;
  - saving `1.png`..`N.png`;
  - counting the `.png` entries;
  - transcribing pages `1..count` in order.

  The method `FlatPdfToText` is proved equal to a specification function `FlatSpec`.
  - The rasteriser is given as its outcome: a failure, or a page count.
  - The OCR service is an oracle from page number to an optional reply.
- **Field spot checks** (`check_email`, `check_gender`, and the update of the record's
  "Gender" and "Email" fields), module `Fields`. The e-mail pattern is defined as an
  existential over split points. A scanner is proved to accept exactly the strings the pattern
  matches. It tries the dots left to right, whereas the regex engine backtracks from the last
  dot; the two can pick different dots, but only whether a match exists is used. The chat model's reply is an optional map, given as a
  parameter.
- **Batch naming** (input selection, base name, output name), module `Batch`.

Where the code's behaviour can be misread, the model follows the code:

- Exactly 1000 non-whitespace characters counts as flat, because the test at main.py:192 is
  a strict `>`.
- An exception on the image path is not turned into `False`: it propagates out of
  `get_content`. Examples are a failed OCR call, or a page name held by a `.png` directory,
  since such a directory survives the clear step and is counted.
- The `|` in `[A-Z|a-z]` is a literal member of the class, so `john@example.|com` passes the
  e-mail check unchanged (`Fields.BarAcceptedInTld`).

## Model

| member | source | states |
|---|---|---|
| `Base.EndsWith` | main.py:170 | defines `str.endswith`, also used at main.py:140 and main.py:374; `Acquisition.HasPdfExtension` and `Batch.PdfInputsArePdf` state what it decides |
| `Base.Lower` | main.py:170 | lower-casing keeps the length and maps each character independently |
| `Base.Decimal` | main.py:79 | a page number's decimal text is non-empty and all digits |
| `Base.DecimalInjective` | main.py:79 | different page numbers have different decimal texts |
| `Text.IsSpace` | main.py:51 | defines the whitespace set, Python's `str.isspace()`, shared by `\s` and `strip()` (used again at main.py:192) |
| `Text.NonSpace` | main.py:192 | deleting the whitespace keeps only non-whitespace characters of the input |
| `Text.NonSpaceAppend` | main.py:192 | deleting the whitespace distributes over concatenation |
| `Text.PagesText` | main.py:184-187 | the concatenated page text is empty exactly when there is no page; otherwise it starts with the first page's text and ends in a newline |
| `Text.PagesTextNonSpace` | main.py:184-192 | the native text has as many non-whitespace characters as the pages together |
| `Text.JoinLines` | main.py:52 | defines `"\n".join`; what it states is proved by `SplitJoin`, `JoinHasNewline` and `JoinTidy` |
| `Text.SplitLines` | main.py:51 | splitting on newlines gives at least one line, none holding a newline, and joining them gives the text back |
| `Text.SplitJoin` | main.py:51-52 | splitting the join of newline-free lines gives the lines back |
| `Text.SplitNoNewline` | main.py:51 | a text without a newline splits into itself alone |
| `Text.SplitAfterLine` | main.py:51 | a newline-free line followed by a newline splits off as the first line, the rest splitting as before |
| `Text.JoinHasNewline` | main.py:52 | the joined text holds a newline exactly when there are two or more lines |
| `Text.CollapseRuns` | main.py:51 | after collapsing, every whitespace is a space, no space touches whitespace, the result is empty exactly when the line is, and it starts with whitespace exactly when the line does; `CollapseRunsSeparates` states the rewrite itself |
| `Text.CollapseRunsSeparates` | main.py:51 | a whitespace run between two non-whitespace characters becomes one space, and the text on either side is collapsed on its own |
| `Text.CollapseRunsNonSpace` | main.py:51 | collapsing keeps the line's non-whitespace characters, in order |
| `Text.TrimStart` | main.py:51 | the stripped line is a suffix, starts with non-whitespace, and only whitespace was removed |
| `Text.TrimEnd` | main.py:51 | the stripped line is a prefix, ends with non-whitespace, and only whitespace was removed |
| `Text.Strip` | main.py:51 | the stripped line is a contiguous slice of the line, starting where `lstrip` stops, with only whitespace before and after it; it neither starts nor ends with whitespace, and it keeps every non-whitespace character |
| `Text.TrimBoth` | main.py:51 | stripping the front and then the back cuts only whitespace, leaving a slice of the line |
| `Text.TrimBothNonSpace` | main.py:51 | stripping the front and then the back keeps every non-whitespace character |
| `Text.StripFixed` | main.py:51 | stripping changes nothing in a line that neither starts nor ends with whitespace |
| `Text.TidyLine` | main.py:51 | defines one line of the comprehension, collapse then strip; what it states is proved by `TidyLineClean`, `TidyLineFixed` and `TidyLineWordGap` |
| `Text.TidyLineWordGap` | main.py:51 | two words separated by any run of whitespace become the two words separated by one space |
| `Text.TrimStartNonSpace` | main.py:51 | stripping the front keeps the non-whitespace characters |
| `Text.TrimEndNonSpace` | main.py:51 | stripping the back keeps the non-whitespace characters |
| `Text.StripCollapsed` | main.py:51 | stripping a collapsed line leaves a clean line |
| `Text.TrimEndClean` | main.py:51 | stripping the end of a collapsed line that starts with non-whitespace leaves a clean line |
| `Text.TidyLineClean` | main.py:51 | every tidied line is clean (no edge whitespace, no adjacent whitespace, every whitespace a space) and keeps the line's non-whitespace characters |
| `Text.CollapseRunsFixed` | main.py:51 | collapsing changes nothing in a line whose whitespace is single spaces |
| `Text.TidyLineFixed` | main.py:51 | tidying leaves a line unchanged exactly when it is clean |
| `Text.TidyLines` | main.py:51 | the comprehension tidies every line and keeps their number |
| `Text.TidyLinesClean` | main.py:51 | every line the comprehension produces is clean |
| `Text.TidyLinesFixed` | main.py:51 | the comprehension changes nothing when every line is clean |
| `Text.TidyGlue` | main.py:52 | joining two pieces with a newline is tidy exactly when both pieces are |
| `Text.TidyUnglue` | main.py:52 | both pieces of a tidy text joined with a newline are tidy |
| `Text.SpacesApartGlue` | main.py:52 | joining two pieces with no space at the joined ends keeps every space apart from other whitespace |
| `Text.JoinTidy` | main.py:51-52 | joining clean lines gives tidy text |
| `Text.SplitTidy` | main.py:51-52 | every line of tidy text is clean |
| `Text.JoinTidyLinesNonSpace` | main.py:51-52 | tidying and joining the lines keeps the text's non-whitespace characters |
| `Text.SqueezeBlankLines` | main.py:55 | squeezing blank lines keeps the first and last character and adds no character; `SqueezeRun` states the rewrite itself |
| `Text.Newlines` | main.py:55 | `k` newlines: a text of length `k` holding only newlines |
| `Text.SqueezeRun` | main.py:55 | a maximal run of `k` newlines becomes two newlines when `k` is 3 or more and is kept as it is otherwise; the text on either side is squeezed on its own |
| `Text.SqueezeLeadingRun` | main.py:55 | the same for a run at the start of the text |
| `Text.SqueezeShortRun` | main.py:55 | a leading run of fewer than three newlines is kept |
| `Text.SqueezeNoNewline` | main.py:55 | squeezing changes nothing in a text without a newline |
| `Text.SqueezeNewlines` | main.py:55 | squeezed text never holds three newlines in a row, holds a newline exactly when the input does, and starts with two newlines exactly when the input does |
| `Text.SqueezeKeep` | main.py:55 | a character that does not start three newlines is kept and the rest is squeezed |
| `Text.SqueezeNoTriple` | main.py:55 | squeezed text never holds three newlines in a row |
| `Text.SqueezeHasNewline` | main.py:55 | squeezed text holds a newline exactly when the input does |
| `Text.SqueezeStart` | main.py:55 | squeezed text starts with two newlines exactly when the input does |
| `Text.SqueezeSpacesApart` | main.py:55 | squeezing keeps every space apart from other whitespace |
| `Text.SqueezeNonSpace` | main.py:55 | squeezing keeps the non-whitespace characters |
| `Text.SqueezeTidy` | main.py:55 | squeezing tidy text keeps it tidy |
| `Text.SqueezeFixed` | main.py:55 | squeezing changes the text exactly when it holds three newlines in a row |
| `Text.Normalize` | main.py:48-57 | defines `normalize_text` as split, tidy each line, join, squeeze; what it states is proved by the `Normalize…` lemmas below |
| `Text.NormalizeShape` | main.py:48-57 | normalised text is tidy, never holds three newlines in a row, and all its lines are clean |
| `Text.NormalizeFixedPoint` | main.py:48-57 | normalising leaves a text unchanged exactly when it is tidy and has no three newlines in a row |
| `Text.NormalizeIdempotent` | main.py:48-57 | normalising twice equals normalising once |
| `Text.NormalizeNonSpace` | main.py:48-57 | normalising keeps the non-whitespace characters, in order |
| `Text.WordUnchanged` | main.py:48-57 | a word (non-empty, without whitespace) is a clean line that collapsing, stripping and squeezing leave unchanged |
| `Text.NormalizeTidy` | main.py:48-57 | on tidy text, normalising is only the squeeze of blank lines |
| `Text.NormalizeOneLine` | main.py:48-57 | on text without a newline, normalising is tidying the one line |
| `Text.NormalizeWordGap` | main.py:48-57 | two words separated by a run of non-newline whitespace normalise to the two words separated by one space |
| `Text.NormalizeLineBreaks` | main.py:48-57 | two words separated by `k` newlines normalise to the words separated by two newlines when `k` is 3 or more, and by the `k` newlines otherwise |
| `Text.NormalizeEmpty` | main.py:48-57 | the result is empty exactly when the input has no newline and no non-whitespace character; in particular the empty text stays empty |
| `Scratch.PageName` | main.py:79 | defines the image name of page `i` as its decimal number followed by `.png`; `PageNameIsPng` and `PageNameInjective` state what it promises |
| `Scratch.PageNameIsPng` | main.py:79 | every page image name ends in `.png` |
| `Scratch.PageNameInjective` | main.py:79 | different pages are saved under different names |
| `Scratch.PageNamesNext` | main.py:78-79 | the next page's name is new |
| `Scratch.PageNamesCount` | main.py:78-79 | saving N pages uses N distinct names |
| `Scratch.Subdirectories` | main.py:122-127 | the cleared workspace holds exactly the directories of the old one |
| `Scratch.SavablePages` | main.py:78-79 | saving stops at the first page whose name is a directory, and all pages before it are saved |
| `Scratch.Replies` | main.py:145-149 | the OCR replies for pages 1..N, in page order, exist exactly when every call succeeds |
| `Scratch.FlatSpec` | main.py:112-151 | defines what flattening yields for the workspace before the run: `False` when rasterising fails, an exception when a `.png` directory is left or an OCR call fails, else the OCR texts of pages 1..N each followed by a newline; `Workspace.FlatPdfToText` is proved equal to it |
| `Scratch.SavedKeepsDirectories` | main.py:117-143 | clearing and saving pages leaves the subdirectories exactly as they were after clearing |
| `Scratch.RunsIndependent` | main.py:117-151 | whatever one run leaves in the workspace, the next run gives the result it would give in the workspace the first run started from |
| `Scratch.FiveThenTwo` | main.py:117-143 | flattening 5 pages and then 2 leaves exactly `1.png` and `2.png` |
| `Scratch.PageOrderExample` | main.py:144-151 | OCR replies "A", "B", "C" give "A\nB\nC\n" |
| `Scratch.FreshPageImages` | main.py:117-143 | after clearing and saving N pages with no `.png` directory, the `.png` entries are exactly `1.png`..`N.png`, so the count is N |
| `Scratch.PagesMissDirectories` | main.py:78-79 | when no page name up to N is a directory, the saved names and the directories are disjoint |
| `Scratch.CountAfterSave` | main.py:138-143 | the count is the old `.png` directories plus the N pages |
| `Scratch.PageNamesArePng` | main.py:139-141 | every page name passes the `.png` filter |
| `Scratch.PngNamesUnion` | main.py:139-141 | the `.png` filter distributes over disjoint unions |
| `Scratch.PageFilesNext` | main.py:78-79 | saving the next page adds one new regular file and nothing else |
| `Scratch.SavableAt` | main.py:78-79 | while saving, the loop stops at a page exactly when its name is a directory |
| `Scratch.SaveStep` | main.py:78-79 | one save step either writes the next page or stops at a directory |
| `Scratch.BlockedByPngDirectory` | main.py:78-79 | saving fails only when a `.png` directory holds a page's name |
| `Scratch.ReadableAfterSave` | main.py:144-147 | after saving N pages, pages 1..N are regular files and page N+1 is not |
| `Scratch.Workspace.Clear` | main.py:117-131 | the directory exists afterwards and holds exactly its old subdirectories |
| `Scratch.Workspace.SavePageImages` | main.py:60-80 | rasteriser failure changes nothing and gives `False`; otherwise pages are saved up to the first blocked name, with `True` exactly when all are saved |
| `Scratch.Workspace.ListImages` | main.py:138-143 | the listed names are exactly the `.png` entries, one each |
| `Scratch.Workspace.Transcribe` | main.py:144-151 | the result is the OCR text of pages 1..count, each followed by a newline, when every page is a regular file and every call succeeds; otherwise the loop raises |
| `Scratch.Workspace.FlatPdfToText` | main.py:112-151 | the result equals `FlatSpec` of the old workspace, and the new workspace is its directories plus the saved pages |
| `Acquisition.HasPdfExtension` | main.py:170 | defines the extension test, `.pdf` at the end of the lower-cased path |
| `Acquisition.HasTextLayer` | main.py:192 | defines the flatness test: more than 1000 non-whitespace characters keeps the native text |
| `Acquisition.NativeContent` | main.py:184-189 | defines the native text, the normalised concatenation of the page texts; `ImagePathIffThin` states what it decides |
| `Acquisition.TakesImagePath` | main.py:192-196 | defines when the image path is taken; `ImagePathIffThin` proves it is taken exactly when the pages hold at most 1000 non-whitespace characters |
| `Acquisition.Acquire` | main.py:154-201 | an extracted text is never empty; once the reader has opened the file the outcome is a text, `False`, or an image-path exception |
| `Acquisition.AcquireErrors` | main.py:169-181 | a missing or non-`.pdf` path gives `ValueError`; a missing library gives `ImportError`, and only it does; a vanished file gives `ValueError`; any other reader exception propagates, and only it does |
| `Acquisition.FromImages` | main.py:196-198 | an empty image-path result becomes `False`, never an extracted text; the outcome is a text, `False`, or an exception |
| `Acquisition.NativeText` | main.py:184-187 | the loop builds each page's text followed by a newline, in page order |
| `Acquisition.GetContent` | main.py:154-201 | the result equals `Acquire` of the old workspace; the workspace changes only when the image path is taken; then the directory exists and holds its old subdirectories, plus the saved pages when rasterising succeeded |
| `Acquisition.ImagePathIffThin` | main.py:184-198 | the image path is taken exactly when the pages hold at most 1000 non-whitespace characters (1000 itself counts as flat); otherwise the normalised native text is returned |
| `Acquisition.AcquireImagePath` | main.py:194-198 | on the image path the result is the image path's outcome as `get_content` reports it |
| `Acquisition.FromImagesOutcome` | main.py:196-198 | with no `.png` directory: rasteriser failure or zero pages give `False`, a failed OCR call raises, otherwise the OCR text of pages 1..N |
| `Acquisition.ImagePathOutcome` | main.py:194-198 | for a thin document with no `.png` directory: `False` when rasterisation fails or yields no page, an exception when an OCR call fails, else the OCR texts of pages 1..N in order, not normalised |
| `Fields.EmailPattern` | main.py:334-335 | defines what `re.match` of the e-mail pattern accepts, as an existential over the positions of `@`, the dot and the end: local part, `@`, domain, dot, 2 to 7 top-level-domain characters, word boundaries at both ends |
| `Fields.MatchEmail` | main.py:334-335 | a scanner that tries the dots left to right (the regex engine tries the last one first, but only whether a match exists is used); `MatchEmailExact` proves it accepts exactly `EmailPattern` |
| `Fields.RunEnd` | main.py:334 | a character-class run ends at the first character outside the class |
| `Fields.RunEndAt` | main.py:334 | a run that stops at an outside character ends there |
| `Fields.TldBacktrackWitness` | main.py:334 | trying the top-level domain's lengths longest first finds a boundary exactly when one exists |
| `Fields.TldAfterMeaning` | main.py:334 | the scanner's top-level domain test is 2 to 7 class characters followed by a boundary |
| `Fields.DotFromWitness` | main.py:334 | scanning for the dot finds one exactly when some dot is followed by a valid top-level domain |
| `Fields.MatchEmailSound` | main.py:334-335 | every string the scanner accepts matches the pattern |
| `Fields.RunCovers` | main.py:334 | a character-class run reaches past every position whose characters all belong to the class |
| `Fields.MatchEmailComplete` | main.py:334-335 | every string matching the pattern is accepted by the scanner |
| `Fields.MatchEmailExact` | main.py:334-335 | the scanner accepts exactly the strings the pattern matches |
| `Fields.Answer` | main.py:327-328 | the oracle's answer is used only when the call succeeded and has the key |
| `Fields.CheckEmail` | main.py:333-348 | a matching address is kept without a question; "" and "N/A" become "N/A" without a question; anything else is asked about, and replaced by the answer when there is one |
| `Fields.CheckGender` | main.py:320-330 | "Male"/"Female", or an empty/"N/A" name, keep the value without a question; otherwise the answer replaces it when there is one |
| `Fields.NoAddressInPlaceholders` | main.py:336-338 | neither "" nor "N/A" matches the pattern |
| `Fields.PlainAddressKept` | main.py:333-336 | `john@example.com` passes unchanged without a question |
| `Fields.BarAcceptedInTld` | main.py:334-336 | a `|` inside the top-level domain is accepted |
| `Fields.DotlessAddressAsked` | main.py:339-345 | `john@example` is sent to the chat model |
| `Fields.CheckEmailSettles` | main.py:333-348 | a value settled without a question is settled again without a question |
| `Fields.GenderAnswerUnchecked` | main.py:327-330 | an answer outside the allowed set is taken as it is |
| `Fields.CheckGenderSettles` | main.py:320-330 | a gender settled without a question, or answered "Male"/"Female", is settled on a second check |
| `Fields.SpotCheck` | main.py:395-399 | the record keeps its keys; "Gender" and "Email" are replaced by their checks and nothing else changes; "Gender" without "Name" raises |
| `Batch.JoinPath` | main.py:373 | joining the input directory with a slash-free name appends the name |
| `Batch.IsPdfInput` | main.py:374 | defines the selection test, a regular file whose joined path ends in `.pdf`; `PdfInputsMembers` and `PdfInputsArePdf` state what it selects |
| `Batch.PdfInputs` | main.py:369-375 | there are no more inputs than entries |
| `Batch.SelectInputs` | main.py:368-375 | the loop keeps the joined paths of the PDF regular files, in listing order |
| `Batch.PdfInputsMembers` | main.py:371-375 | a path is an input exactly when a listed PDF regular file joins to it |
| `Batch.PdfInputsArePdf` | main.py:374 | every input passes the extension check of `get_content` |
| `Batch.LastSlash` | main.py:381 | `rfind` gives the last slash, or -1 when there is none |
| `Batch.Basename` | main.py:381 | the base name is the longest slash-free suffix, and the whole path when it has no slash |
| `Batch.OutputName` | main.py:403 | the result file lies directly in `./OUTPUT/` (no slash after the directory) and ends in `.json` |
| `Batch.BasenameOfJoin` | main.py:373-381 | the base name of an input path is the listed name |
| `Batch.OutputNameOfInput` | main.py:403 | a listed file `name` is saved as `./OUTPUT/name.json`, and different names are saved under different output names |

## Left out

- The chat and vision model calls (`image_to_text`, `chat`, `get_result`) are network calls. Their replies are oracle parameters: an optional text per page, and an optional JSON object per question.
- The `chat` retry loop is not modelled. It repeats until the reply parses to a truthy value (an empty object, list, string or zero repeats too), which depends on the network and need not terminate.
- PDF parsing by pypdf is given as its outcome. An exception raised by `extract_text` on a single page is not modelled.
- Rendering by pdf2image/poppler is given as its outcome, together with the remediation message it prints.
- Base64 encoding of page images is library glue.
- `unicodeToAscii` depends on Unicode decomposition tables and is never called.
- The filesystem is reduced to the scratch directory's entries (regular file or directory) and the input listing. Left out:
  - `os.makedirs` for the output directory;
  - the existence test on the input directory;
  - opening and writing files;
  - symbolic links and other entry kinds.
- Printing, the 600-second client timeout, JSON serialisation of the result, and the prompt templates are output and constant text.
- The batch loop itself is not modelled: calling `get_content`, `get_result` and the save in turn, `continue` on a falsy content, `break` after the first saved file, and the outer `try` that ends the run on any exception. Its steps are I/O and oracle calls; its decisions (input selection, the spot checks, the output name) are modelled.
- `Base.Lower`: lower-cases ASCII letters only. Python's `str.lower()` also maps non-ASCII letters, which changes nothing for the `.pdf` test except on non-ASCII look-alikes.
- `Fields.EmailPattern`: `\w` and `\b` are ASCII only. Python's `str` patterns treat non-ASCII letters and digits as word characters.
- `Fields.CheckEmail`: record values are strings. A JSON number, list or null in the record or in a reply is not modelled; the regex call would raise on it.
- `Scratch.Workspace.ListImages`: states the set of listed names and their number, not their order. `os.listdir` order is unspecified and only the count is used.
