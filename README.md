# Document ingestion backend: text pipeline and image manifest

This project is a Dafny model of the document-processing logic in a FastAPI backend. The backend
takes an uploaded PDF and does the following:

- extracts its page text and embedded images;
- splits the text into chunks;
- builds a `parsed_json` record;
- records an image manifest while it moves and uploads the extracted images.

A second endpoint crops figure regions out of the PDF, using the block list of Marker's JSON
output, and uploads the crops. Only the sequential string and list logic is modelled. The PDF
libraries, the storage service, the filesystem, the database and the HTTP layer are replaced by
input values.

Modules, in dependency order:

- `Wrappers`: `Option` (a missing key, Python's `None`) and `Result` (a return value or a raised
  exception).
- `Seqs`: concatenation, joining with a separator, counting `true` flags, selecting the flagged
  elements, and removing the elements a predicate drops, each with its algebra. The last gives
  the statement that an operation "loses only whitespace": with whitespace removed, input and
  output agree.
- `Decimal`: the decimal rendering of integers in f-strings. It proves that a numeral is read back
  uniquely when a non-digit follows it.
- `Chunking`: `chunk_text`; the page-text fold of `extract_text`; the 10000-character preview; the
  `parsed_json` record.
- `Dehyphenation`: `dehyphenate_text`, its two `re.sub` rewrites as explicit scanners. A
  declarative predicate describes the leftmost, non-overlapping matching, and the scanner is
  proved to be its only solution.
- `PyStr`: the Python string operations `reflow_paragraphs` relies on. These are `str.strip` (over
  the `str.isspace` set), `str.splitlines` (over Python's line-boundary set, where `\r\n` counts as
  one boundary), `str.split("\n\n")` and `str.replace("\r\n", "\n")`.
- `Reflow`: `reflow_paragraphs`. A method with the source's loop is proved against a function of
  the text, and the function's properties are proved as lemmas. The `\n{2,}` collapse is defined
  and proved for any repeated element and used with `\n`.
- `ImageManifest`: how images are named and numbered in `extract_images_with_metadata`; the filter
  that keeps the images whose temporary file exists and moves them; the upload loop that builds
  `uploaded_images_meta`.
- `MarkerFigures`: `extract_and_save_figures` (block-list fallback, figure selection, page
  defaulting and page lookup) and `upload_extracted_images`.

The model follows the code exactly in these places:

- **`chunk_text`.** A chunk size of 0 makes Python's `range` raise `ValueError`, which is modelled
  as a `Failure`. A negative size gives an empty `range`, so no chunks.
- **Page lookup in `extract_and_save_figures`.** The page index is `page_num - 1`, and the lookup
  uses PyMuPDF's indexing:
  - an index past the end raises `IndexError`, which aborts the whole call;
  - a negative index counts back from the end.

  So a block that says page 0 is cropped from the last page, and `MarkerFigures.PageDefaults`
  proves this. The model does not restrict callers to `1 <= page <= pageCount`: the code accepts
  other page numbers, and the model shows what it does with them.
- **`upload_extracted_images`.** The file is read with `read_bytes()` outside the `try`, so a read
  failure raises out of the whole call and loses the results gathered so far. Only a failed upload
  is recorded inline.
- **`re` is never imported.** `upload.py` does not import `re`, so `dehyphenate_text` and
  `reflow_paragraphs` would raise `NameError` if called. Neither is called by the endpoint. The
  model gives both the meaning their regular expressions have once `re` is imported.

Where the code falls short of what an ingestion pipeline of this kind would be expected to do, the
model follows the code:

- **No idempotent normaliser.** No function in the code chains dehyphenation and reflow.
  `reflow_paragraphs` is not idempotent: a whitespace-only part between two paragraphs becomes an
  empty paragraph, which leaves four newlines in a row (`Reflow.ReflowBlankPartKept`), and a
  second pass collapses them.
- **No preceding word character for the hyphen rewrite.** The code requires none: it rewrites
  `-\n[a-z0-9]`, digits included.
- **No overlap-aware recursive chunker.** The only chunker in the code is the fixed-width
  `chunk_text`.
- **No `bbox` from extracted images.** They never carry one.
- **Figure names are not stable.** They contain a fresh uuid.
- **A read failure in `upload_extracted_images` aborts instead of degrading.** In
  backend/api/routers/parse_marker.py:81 a file that cannot be read ends the whole call rather
  than producing a degraded entry. The upload loop of backend/api/routers/upload.py:179-199 does
  not have this gap: it records each failed upload inline and goes on.

## Model

Source paths are relative to the repository root.

| member | source | states |
|---|---|---|
| Chunking.ChunkText | backend/api/routers/upload.py:80-81 | A zero chunk size fails, as Python's `range` does. A negative size gives no chunks. A positive size gives chunks whose concatenation is exactly the text. |
| Chunking.WindowsLossless | backend/api/routers/upload.py:81 | Concatenating the chunks, in order, gives back the input text. |
| Chunking.WindowsSizes | backend/api/routers/upload.py:81 | Every chunk but the last is exactly `chunk_size` long. The last is non-empty and at most `chunk_size` long. |
| Chunking.WindowsCount | backend/api/routers/upload.py:81 | The number of chunks `c` is the ceiling of the length over the size: `(c-1)*size < len <= c*size`. There are no chunks exactly when the text is empty. |
| Chunking.WindowAt | backend/api/routers/upload.py:81 | Chunk `k` is the slice `text[k*size : k*size+size]`, clamped at the end, and it starts inside the text. |
| Chunking.ExtractText | backend/api/routers/upload.py:34-41 | The loop over the pages produces the page fold `DocumentText` of the pages' extracted texts. |
| Chunking.DocumentTextAppend | backend/api/routers/upload.py:37-40 | The fold of two page lists placed end to end is the fold of the first followed by the fold of the second. |
| Chunking.PageTextKept | backend/api/routers/upload.py:38-40 | A page with non-empty text contributes that text and one newline, between the text of the earlier pages and the text of the later ones. |
| Chunking.DocumentTextShape | backend/api/routers/upload.py:35-41 | The text is empty exactly when no page has text (`None` and `""` both count as none); otherwise it ends with a newline. |
| Chunking.Preview | backend/api/routers/upload.py:136 | The preview has length `min(len, 10000)`, is a prefix of the text, and is the whole text when the text is short enough. |
| Chunking.BuildParsedJson | backend/api/routers/upload.py:115-138 | The chunks are `chunk_text`'s 1000-character windows: chunk `k` is the slice `text[k*1000 : k*1000+1000]`, clamped at the end, and there are `ceil(len/1000)` of them. They concatenate to the full text, every one but the last is exactly 1000 long, and the last is 1 to 1000 long. The preview is a prefix of the reassembled chunks with the bounded length. The file fields are copied. |
| Dehyphenation.ScanIsLeftmost | backend/api/routers/upload.py:239-241 | The scanner's segmentation of the text is leftmost and non-overlapping. Every match it takes is a real match, and no copied character is the start of a match. |
| Dehyphenation.LeftmostUnique | backend/api/routers/upload.py:239-241 | A text has at most one leftmost, non-overlapping segmentation. |
| Dehyphenation.ScanCharacterized | backend/api/routers/upload.py:239-241 | A segmentation is leftmost and non-overlapping if and only if it is the scanner's output, so `Sub` is the `re.sub` of the pattern. |
| Dehyphenation.OutputLength | backend/api/routers/upload.py:239-241 | Per segmentation, each hyphen-break match shortens the text by 2, and soft-break matches keep the length. |
| Dehyphenation.SubLength | backend/api/routers/upload.py:239-241 | The first rewrite shortens the text by exactly 2 for each match. The second rewrite preserves the length. |
| Dehyphenation.SubWithoutNewline | backend/api/routers/upload.py:239-241 | Both patterns need a newline, so text without one is left unchanged. |
| Dehyphenation.DehyphenateShape | backend/api/routers/upload.py:233-242 | `dehyphenate_text` never lengthens its input, and it leaves text without a newline unchanged. |
| Dehyphenation.SoftBreakPointwise | backend/api/routers/upload.py:241 | The second rewrite changes only newlines lying between `[a-z0-9]` and `[a-z]`, each into a space. Such a newline is left only when the match just before it took its left neighbour. |
| Dehyphenation.HyphenJoinCopiesPlain | backend/api/routers/upload.py:239 | A stretch without a hyphen passes through the first rewrite unchanged. |
| Dehyphenation.JoinsLoneHyphenBreak | backend/api/routers/upload.py:235-239 | This generalises the doc-comment example `"multi-\nple"` to `"multiple"`. For any hyphen-free words around a `-\n` followed by `[a-z0-9]`, the hyphen and the newline are deleted. |
| Dehyphenation.SoftBreakOverlapExample | backend/api/routers/upload.py:241 | Matches do not overlap: `"a\nb\nc"` becomes `"a b\nc"`. |
| PyStr.LineBreakIsWhitespace | backend/api/routers/upload.py:257 | Every `splitlines` boundary character is also whitespace for `strip`. |
| PyStr.Strip | backend/api/routers/upload.py:257-258 | The result is a slice `s[lo..hi]` of the input with only whitespace before `lo` and from `hi` on, and it has no whitespace at either end. It is empty exactly when the input is all whitespace. |
| PyStr.StripKeepsText | backend/api/routers/upload.py:258 | Stripping removes only whitespace: with whitespace removed from both, input and output agree. |
| PyStr.StripStripped | backend/api/routers/upload.py:258 | Stripping a text that already has no whitespace at either end changes nothing. |
| PyStr.SplitLines | backend/api/routers/upload.py:257 | No line contains a line-boundary character. The lines run together are exactly the input with its boundary characters removed, so no other character is lost, added or moved. |
| PyStr.SplitLinesOneLine | backend/api/routers/upload.py:257 | A non-empty text without a boundary is exactly one line, itself. |
| PyStr.SplitLinesAtBreak | backend/api/routers/upload.py:257 | The first boundary character ends the first line; the lines of the rest follow. A `\r` directly followed by `\n` is the one exception. |
| PyStr.SplitLinesAtCrlf | backend/api/routers/upload.py:257 | A `\r\n` pair is one boundary: it ends the line before it, and no empty line appears between `\r` and `\n`. |
| PyStr.SplitOnBlankLine | backend/api/routers/upload.py:255 | `split("\n\n")` always yields at least one part. The first part is a prefix of the text, and no part contains `\n\n`. |
| PyStr.SplitOnBlankLineJoin | backend/api/routers/upload.py:255 | Joining the parts with `"\n\n"` gives back the text: the split loses nothing. |
| PyStr.ReplaceCrlf | backend/api/routers/upload.py:250 | The CRLF replacement never lengthens the text, and it leaves text without `\r` unchanged. |
| PyStr.ReplaceCrlfDropsOnlyCr | backend/api/routers/upload.py:250 | The replacement deletes only carriage returns: once any set of characters that includes `\r` is removed from both, input and output agree. |
| PyStr.ReplaceCrlfAtCrlf | backend/api/routers/upload.py:250 | A `\r\n` pair becomes one `\n`, and the text on either side is replaced on its own. |
| PyStr.ReplaceCrlfLoneCr | backend/api/routers/upload.py:250 | A `\r` not followed by `\n` is kept, and the text on either side is replaced on its own. |
| PyStr.ReplaceCrlfAppend | backend/api/routers/upload.py:250 | The replacement works piece by piece: a text cut at a point that does not split a `\r\n` pair is replaced by replacing the two pieces. |
| Reflow.CollapseShape | backend/api/routers/upload.py:252 | The `\n{2,}` collapse leaves no three newlines in a row. It keeps the first character, and it maps the empty text, and only it, to the empty text. |
| Reflow.CollapseRun | backend/api/routers/upload.py:252 | A run of `n` newlines between other characters stays as it is when `n` is 0 or 1 and becomes exactly `\n\n` when `n >= 2`. The text on either side collapses on its own. |
| Reflow.CollapseAppend | backend/api/routers/upload.py:252 | A text cut at a point that is not inside a run of newlines collapses as its two pieces do. |
| Reflow.CollapseKeepsText | backend/api/routers/upload.py:252 | The collapse deletes only newlines: once any set of characters that includes `\n` (whitespace, say) is removed from both, input and output agree. |
| Reflow.KeptLines | backend/api/routers/upload.py:257 | The kept lines are non-empty and stripped, and there are no more of them than there were lines. |
| Reflow.KeptLinesSelect | backend/api/routers/upload.py:257 | The kept lines are exactly the stripped lines whose strip is non-empty, in their order. |
| Reflow.KeptLinesAt | backend/api/routers/upload.py:257 | There is one kept line per non-blank line. Non-blank line `k`, stripped, is kept line number `CountTrue(NonBlank(lines)[..k])`. |
| Reflow.KeptLinesFrom | backend/api/routers/upload.py:257 | Every kept line is a non-blank line, stripped, found at that line's rank. |
| Reflow.KeptLinesKeepText | backend/api/routers/upload.py:257 | Keeping lines loses only whitespace: the kept lines run together agree with the lines run together once whitespace is removed. |
| Reflow.KeptLinesNoLineBreak | backend/api/routers/upload.py:257 | Kept lines contain no line-boundary character. |
| Reflow.JoinStripped | backend/api/routers/upload.py:257 | Non-empty stripped lines joined by single spaces form a stripped text. It starts with the first line's first character and ends with the last line's last character. |
| Reflow.BlankLinesDropped | backend/api/routers/upload.py:257 | Lines taken from a whitespace-only part are all dropped. |
| Reflow.FlattenParagraphShape | backend/api/routers/upload.py:257-258 | A flattened paragraph is a single line with no whitespace at either end, so the final `.strip()` is a no-op. |
| Reflow.BlankParagraphKept | backend/api/routers/upload.py:257-258 | A whitespace-only part becomes the empty paragraph instead of being dropped. |
| Reflow.FlattenParagraphKeepsText | backend/api/routers/upload.py:257-258 | Flattening a part into one line loses only whitespace: every other character survives, in order. |
| Reflow.FlattenJoinsLines | backend/api/routers/upload.py:257-258 | Two stripped, non-empty lines separated by one boundary character flatten to the two lines joined by a single space. |
| Reflow.Parts | backend/api/routers/upload.py:250-255 | After the CRLF replacement and the collapse there is at least one part. |
| Reflow.Paragraphs | backend/api/routers/upload.py:254-258 | There is exactly one paragraph per part. |
| Reflow.ReflowParagraphs | backend/api/routers/upload.py:244-259 | The loop produces the paragraphs of the parts, in order, joined with `"\n\n"`, and the output agrees with the input once whitespace is removed. The `maxlen` argument has no effect. |
| Reflow.ReflowKeepsText | backend/api/routers/upload.py:250-259 | Reflowing loses only whitespace: every other character of the text survives, in order. |
| Reflow.ReflowShape | backend/api/routers/upload.py:250-259 | There are as many paragraphs as parts after the collapse, and every paragraph is one stripped line. |
| Reflow.ReflowLineBreaks | backend/api/routers/upload.py:250-259 | The only line boundary left in the output is the `\n` of the separators, so no `\r`, alone or in `\r\n`, survives. |
| Reflow.ReflowBlankPartKept | backend/api/routers/upload.py:255-259 | A whitespace-only part between two others becomes an empty paragraph, which leaves two separators (four newlines) in a row. |
| Reflow.ReflowPartsCover | backend/api/routers/upload.py:250-255 | Joining the parts gives back the collapsed text. |
| Decimal.NatToDecimal | backend/api/routers/upload.py:65 | The rendering of a non-negative integer is a non-empty string of digits with no leading zero: it starts with `0` only for 0 itself, which renders as `"0"`. |
| Decimal.IntToDecimal | backend/api/routers/parse_marker.py:64 | A non-negative integer renders as the numeral of its value. A negative one renders as `-` followed by the numeral of its magnitude. |
| Decimal.DecimalRoundTrip | backend/api/routers/upload.py:65 | Reading the rendered digits back gives the number. |
| Decimal.NatToDecimalInjective | backend/api/routers/upload.py:65 | Different numbers render differently. |
| Decimal.NumeralPrefixUnique | backend/api/routers/upload.py:65 | A numeral followed by a non-digit is read back uniquely, together with what follows it. |
| ImageManifest.ImageFileNameInjective | backend/api/routers/upload.py:65 | For one PDF stem, the name `stem_p{page}_img{index}.{ext}` determines the page, the index and the extension. |
| ImageManifest.ExtractImagesWithMetadata | backend/api/routers/upload.py:43-78 | The nested loop produces `Manifest` of the pages' images. |
| ImageManifest.ManifestShape | backend/api/routers/upload.py:59-76 | There is one entry per image. Each entry is the one built for its own page and index: the page is 1-based and in range, the index is 0-based and in range, and it has its name, a temporary path under that name, and `bbox = None`. The entries are in strictly increasing page-major order. |
| ImageManifest.ManifestNamesDistinct | backend/api/routers/upload.py:65-66 | No two extracted images share a file name. |
| ImageManifest.KeepExisting | backend/api/routers/upload.py:145-159 | `images_meta` has one entry per image whose temporary file exists. |
| ImageManifest.FilterExisting | backend/api/routers/upload.py:145-159 | The loop produces `KeepExisting`: the existing entries, moved into the document folder, in order. |
| ImageManifest.KeepExistingAt | backend/api/routers/upload.py:146-159 | Existing image `k` is entry number `CountTrue(present[..k])`. It keeps its page, index, file name and bbox, and its local path becomes the document folder with the same file name. |
| ImageManifest.KeepExistingFrom | backend/api/routers/upload.py:146-159 | Every `images_meta` entry is such a moved existing image, found at that image's rank. |
| Seqs.CountTrueRank | backend/api/routers/upload.py:146-159 | Ranks grow strictly with position, so the kept images keep their relative order. |
| ImageManifest.KeptNamesDistinct | backend/api/routers/upload.py:150-156 | Every moved file sits in the document folder under its own file name, and no two share a file. |
| ImageManifest.UploadResults | backend/api/routers/upload.py:175-199 | There is exactly one upload entry per `images_meta` entry. |
| ImageManifest.UploadImages | backend/api/routers/upload.py:175-199 | The loop produces one entry per image, in order, carrying the image's page, index, file name and local path. A stored image gets `images/{uid}/{name}` and keeps its bbox. A failed one has no remote path and records the error message, and the loop goes on. |
| ImageManifest.UploadRemoteDistinct | backend/api/routers/upload.py:177-178 | Distinct local names give distinct remote paths. |
| ImageManifest.PipelineRemoteDistinct | backend/api/routers/upload.py:65-178 | End to end, no two of a document's stored images share a remote path. |
| MarkerFigures.BlockList | backend/api/routers/parse_marker.py:52 | The block list is the first of `blocks`, `content` and `elements` that holds a non-empty list; an empty list falls through to the next key. It is empty exactly when none of them holds one. |
| MarkerFigures.FitzPageIndex | backend/api/routers/parse_marker.py:61 | `doc[page_num - 1]` finds a page exactly when the index is below the page count in a non-empty document, and the page found is in range. Page `p` with `1 <= p <= n` is index `p-1`. An index in `-n..-1` counts back from the end. |
| MarkerFigures.PageDefaults | backend/api/routers/parse_marker.py:56-61 | A block without `page` is cropped from the first page, and one that says page 0 is silently cropped from the last page. |
| MarkerFigures.ExtractAndSaveFigures | backend/api/routers/parse_marker.py:44-74 | The loop over the blocks produces `Figures` of the selected block list. |
| MarkerFigures.FiguresFailureKept | backend/api/routers/parse_marker.py:53-61 | Once a wanted block names a missing page, the whole call fails with that error. |
| MarkerFigures.FiguresFailWhen | backend/api/routers/parse_marker.py:53-61 | The call fails if and only if some block typed `figure` with a non-empty bbox names a page the document lacks. |
| MarkerFigures.FiguresCount | backend/api/routers/parse_marker.py:53-72 | On success there is exactly one saved figure per wanted block. |
| MarkerFigures.FiguresFromBlocks | backend/api/routers/parse_marker.py:53-72 | On success, wanted block `k` becomes figure number `CountTrue(wanted[..k])`, so block order is kept. The figure has the block's page (1 when absent) and its bbox unchanged. It is cropped from the page `doc[page-1]` loads, named `figure_p{page}_{id}.png` with the id drawn for its position, and saved in the temporary directory. |
| MarkerFigures.UploadExtractedImages | backend/api/routers/parse_marker.py:76-90 | The loop produces `UploadRecords`: the per-item results, or the read error that ends the call. |
| MarkerFigures.UploadRecordsFailureKept | backend/api/routers/parse_marker.py:78-81 | A read failure on an earlier item fails the whole call with that error. |
| MarkerFigures.UploadRecordsShape | backend/api/routers/parse_marker.py:76-90 | The call succeeds if and only if every file can be read. It then gives one result per item, in order, with that item's local path. A returned upload records the file's base name as remote and the response. A failed upload records its error, and the loop continues. |
| MarkerFigures.UploadRecordsFirstFailure | backend/api/routers/parse_marker.py:78-81 | A failed call reports the error of the first file that could not be read. |

## Left out

- **PDF libraries.** pdfplumber's page text and PyMuPDF's `get_images`, `extract_image`,
  `get_pixmap` and `save` are foreign libraries. Their results are inputs: a page's text as an
  `Option<string>`, and a page's images as a sequence of optional extensions. The image bytes and
  the rendered pixmaps are not modelled.
- **PyMuPDF's page indexing.** The library is not part of this model. `MarkerFigures.FitzPageIndex`
  follows its documented behaviour: `IndexError` past the end, counting back from the end for
  negative indices. A negative index into an empty document is modelled as "no page".
- **`fitz.Rect(*bbox)`.** It raises for a bbox that is not a list of four numbers. The model takes
  every non-empty bbox list as a valid rectangle.
- **The filesystem.** Temporary files, `mkdir`, `write_bytes`, `write_text`, the JSON dumps of
  `parsed.json` and `images.json`, and `unlink` are left out. The move `src.replace(dst)` appears
  only as the change of the entry's local path. Whether a temporary file exists is an input flag per
  entry. Paths are records of directory and file name, not rendered strings.
- **Nondeterministic and environment values.** The `uuid4` values are parameters: the document's
  `uid`, and `ids(n)` for the figure ids. So are the PDF's `Path.stem` and the temporary directory.
- **Storage calls.** The download and upload calls of `backend/services/supabase_storage.py` are
  not part of this model. Each upload's outcome is an input. The content types given to the upload
  (`image/png`, `application/json`) are not modelled.
- **The rest of the endpoint.** The `parsed/{uid}.json` upload and its fallback to `None`
  (backend/api/routers/upload.py:165-172), the database record and its `db_error` fallback
  (lines 202-222), the HTTP status handling and the temp-PDF cleanup are request plumbing the model
  does not cover.
- **The Marker subprocess.** `run_marker_and_get_json` and the `parse_and_extract` handler in
  backend/api/routers/parse_marker.py are process and HTTP plumbing.
- **Marker JSON shapes.** The model does not cover values the code handles only by accident:
  - a `blocks`, `content` or `elements` value that is truthy but not a list;
  - a `page` key that is present but null or not an integer (a `TypeError` in `page_num - 1`);
  - a `type` or `bbox` of some other JSON type.
- **`backend/api/routers/documents.py`.** It calls functions that are not defined, so it has no
  self-contained logic to model.
- **`backend/tests/test.py`.** The recursive chunker it imports is not part of this model.
- **Concurrency.** `asyncio.to_thread`, background tasks and the traceback printing are left out.
- **Python's character classes.** `str.isspace` and the `splitlines` boundaries are written out as
  explicit code-point tables; no Unicode database is consulted.
- **Dehyphenation scope.** The scanners cover exactly the two fixed-width, three-character
  patterns of `dehyphenate_text`, not regular expressions in general.
- MarkerFigures.FitzPageIndex: for an index below `-pageCount`, the contract states only that some
  page in range is found, not which one. Its body computes the repeated wrap-around as the index
  modulo the page count.
