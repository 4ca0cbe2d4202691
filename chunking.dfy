/** The text side of the upload endpoint in backend/api/routers/upload.py: the page-text fold of
    `extract_text`, the fixed-width `chunk_text`, the bounded preview and the parsed document
    record built from them. */
module Chunking {
  import opened Wrappers
  import opened Seqs

  /** `chunk_text`'s default window width, the one the endpoint uses. */
  const DefaultChunkSize: nat := 1000
  /** The length bound of `full_text_preview`. */
  const PreviewLength: nat := 10000

  /** Python's `range(0, n, 0)` raises `ValueError`. */
  datatype ChunkError = ZeroStep

  // ---------------------------------------------------------------- chunk_text

  /** The windows `text[i:i+size]` for `i` in `range(0, len(text), size)`. */
  function Windows(text: string, size: nat): (chunks: seq<string>)
    requires size > 0
    decreases |text|
  {
    if |text| == 0 then []
    else if |text| <= size then [text]
    else [text[..size]] + Windows(text[size..], size)
  }

  /** `chunk_text(text, chunk_size)`: a zero step raises, a negative step gives an empty range. */
  function ChunkText(text: string, chunkSize: int): (r: Result<seq<string>, ChunkError>)
    ensures r.Failure? <==> chunkSize == 0
    ensures chunkSize < 0 ==> r == Success([])
    ensures chunkSize > 0 ==> r.Success? && Concat(r.value) == text
  {
    if chunkSize == 0 then Failure(ZeroStep)
    else if chunkSize < 0 then Success([])
    else
      WindowsLossless(text, chunkSize);
      Success(Windows(text, chunkSize))
  }

  /** Concatenating the chunks gives back the text, in order. */
  lemma {:induction false} WindowsLossless(text: string, size: nat)
    requires size > 0
    ensures Concat(Windows(text, size)) == text
    decreases |text|
  {
    if |text| == 0 {
    } else if |text| <= size {
      ConcatCons(text, []);
    } else {
      WindowsLossless(text[size..], size);
      ConcatCons(text[..size], Windows(text[size..], size));
      assert text[..size] + text[size..] == text;
    }
  }

  /** Every chunk but the last is exactly `size` long; the last is non-empty and at most `size`. */
  lemma {:induction false} WindowsSizes(text: string, size: nat)
    requires size > 0
    ensures var cs := Windows(text, size);
      && (forall k :: 0 <= k < |cs| - 1 ==> |cs[k]| == size)
      && (|cs| > 0 ==> 0 < |cs[|cs| - 1]| <= size)
    decreases |text|
  {
    if |text| > size {
      WindowsSizes(text[size..], size);
      var cs, rest := Windows(text, size), Windows(text[size..], size);
      assert cs == [text[..size]] + rest;
      assert forall k :: 1 <= k < |cs| ==> cs[k] == rest[k - 1];
    }
  }

  /** There are `ceil(|text| / size)` chunks: the least count whose windows cover the text.
      The empty text gives none. */
  lemma {:induction false} WindowsCount(text: string, size: nat)
    requires size > 0
    ensures var c := |Windows(text, size)|; (c - 1) * size < |text| <= c * size
    ensures |Windows(text, size)| == 0 <==> text == ""
    decreases |text|
  {
    if |text| > size {
      WindowsCount(text[size..], size);
      var c := |Windows(text[size..], size)|;
      assert (c + 1) * size == c * size + size;
      assert c * size == (c - 1) * size + size;
    }
  }

  /** The k-th chunk is the slice `text[k*size : k*size + size]`, clamped at the end of the text:
      the comprehension of the source, element by element. */
  lemma {:induction false} WindowAt(text: string, size: nat, k: nat)
    requires size > 0 && k < |Windows(text, size)|
    ensures k * size < |text|
    ensures Windows(text, size)[k] == text[k * size .. Min(k * size + size, |text|)]
    decreases k
  {
    if k > 0 {
      WindowAt(text[size..], size, k - 1);
      assert (k - 1) * size + size == k * size;
      assert text[size..][(k - 1) * size .. Min((k - 1) * size + size, |text| - size)]
          == text[k * size .. Min(k * size + size, |text|)];
    }
  }

  function Min(a: int, b: int): int { if a <= b then a else b }

  // ---------------------------------------------------------------- extract_text

  /** What one page adds to the text: its text and a newline, when the page has any text
      (`if txt:` skips both `None` and the empty string). */
  function PageContribution(txt: Option<string>): string
  {
    if txt.Some? && txt.value != "" then txt.value + "\n" else ""
  }
  function Contributions(pages: seq<Option<string>>): (cs: seq<string>)
    ensures |cs| == |pages|
  {
    seq(|pages|, i requires 0 <= i < |pages| => PageContribution(pages[i]))
  }
  /** The text of all pages, in page order. */
  function DocumentText(pages: seq<Option<string>>): string
  {
    Concat(Contributions(pages))
  }
  /** The fold distributes over a split of the page list. */
  lemma DocumentTextAppend(a: seq<Option<string>>, b: seq<Option<string>>)
    ensures DocumentText(a + b) == DocumentText(a) + DocumentText(b)
  {
    assert Contributions(a + b) == Contributions(a) + Contributions(b);
    ConcatAppend(Contributions(a), Contributions(b));
  }
  /** `extract_text`'s loop over `pdf.pages`; each page's `extract_text()` result is an input. */
  method ExtractText(pageTexts: seq<Option<string>>) returns (textContent: string)
    ensures textContent == DocumentText(pageTexts)
  {
    textContent := "";
    var i := 0;
    while i < |pageTexts|
      invariant 0 <= i <= |pageTexts|
      invariant textContent == DocumentText(pageTexts[..i])
    {
      var txt := pageTexts[i];
      if txt.Some? && txt.value != "" {
        textContent := textContent + txt.value + "\n";
      }
      assert Contributions(pageTexts[..i + 1]) == Contributions(pageTexts[..i]) + [PageContribution(txt)];
      i := i + 1;
    }
    assert pageTexts[..i] == pageTexts;
  }
  /** A page with text contributes that text and a newline, between the text of the pages
      before it and the text of the pages after it. */
  lemma PageTextKept(pages: seq<Option<string>>, i: nat)
    requires i < |pages| && pages[i].Some? && pages[i].value != ""
    ensures DocumentText(pages)
         == DocumentText(pages[..i]) + pages[i].value + "\n" + DocumentText(pages[i + 1..])
  {
    assert pages == pages[..i] + ([pages[i]] + pages[i + 1..]);
    DocumentTextAppend(pages[..i], [pages[i]] + pages[i + 1..]);
    DocumentTextAppend([pages[i]], pages[i + 1..]);
    assert Contributions([pages[i]]) == [pages[i].value + "\n"];
    assert Concat([pages[i].value + "\n"]) == Concat<char>([]) + (pages[i].value + "\n");
  }
  /** The text is empty exactly when no page has text, and otherwise ends with a newline. */
  lemma {:induction false} DocumentTextShape(pages: seq<Option<string>>)
    ensures DocumentText(pages) == "" <==> forall i :: 0 <= i < |pages| ==> PageContribution(pages[i]) == ""
    ensures DocumentText(pages) != "" ==> DocumentText(pages)[|DocumentText(pages)| - 1] == '\n'
    decreases |pages|
  {
    if |pages| > 0 {
      var init := pages[..|pages| - 1];
      var last := PageContribution(pages[|pages| - 1]);
      DocumentTextShape(init);
      assert Contributions(pages)[..|pages| - 1] == Contributions(init);
      assert DocumentText(pages) == DocumentText(init) + last;
      assert forall i :: 0 <= i < |init| ==> init[i] == pages[i];
      if last != "" {
        assert last[|last| - 1] == '\n';
      }
    }
  }

  // ---------------------------------------------------------------- parsed.json

  /** `text_content[:10000]`: a prefix of the text, cut at the bound when the text is longer. */
  function Preview(text: string): (p: string)
    ensures |p| == Min(|text|, PreviewLength)
    ensures p == text[..|p|]
    ensures |text| <= PreviewLength ==> p == text
  {
    if |text| <= PreviewLength then text else text[..PreviewLength]
  }

  /** Every chunk is its clamped slice of the text. */
  lemma WindowsAll(text: string, size: nat)
    requires size > 0
    ensures forall k :: 0 <= k < |Windows(text, size)| ==>
      k * size < |text| && Windows(text, size)[k] == text[k * size .. Min(k * size + size, |text|)]
  {
    forall k | 0 <= k < |Windows(text, size)|
      ensures k * size < |text| && Windows(text, size)[k] == text[k * size .. Min(k * size + size, |text|)]
    {
      WindowAt(text, size, k);
    }
  }

  /** The `parsed_json` record of the endpoint. */
  datatype ParsedJson = ParsedJson(filePath: string, filename: string, mimeType: string,
                                   chunks: seq<string>, fullTextPreview: string)

  /** The record the endpoint builds from the extracted text: the default-width chunks and the
      preview. Both are views of the same text. */
  function BuildParsedJson(filePath: string, filename: string, mimeType: string, textContent: string)
    : (j: ParsedJson)
    ensures Concat(j.chunks) == textContent
    ensures forall k :: 0 <= k < |j.chunks| ==> 0 < |j.chunks[k]| <= DefaultChunkSize
    ensures forall k :: 0 <= k < |j.chunks| - 1 ==> |j.chunks[k]| == DefaultChunkSize
    ensures (|j.chunks| - 1) * DefaultChunkSize < |textContent| <= |j.chunks| * DefaultChunkSize
    ensures forall k :: 0 <= k < |j.chunks| ==>
      k * DefaultChunkSize < |textContent| &&
      j.chunks[k] == textContent[k * DefaultChunkSize .. Min(k * DefaultChunkSize + DefaultChunkSize, |textContent|)]
    ensures |j.fullTextPreview| == Min(|textContent|, PreviewLength)
    ensures j.fullTextPreview == Concat(j.chunks)[..|j.fullTextPreview|]
    ensures j.filePath == filePath && j.filename == filename && j.mimeType == mimeType
  {
    var chunks := ChunkText(textContent, DefaultChunkSize).value;
    WindowsSizes(textContent, DefaultChunkSize);
    WindowsCount(textContent, DefaultChunkSize);
    WindowsAll(textContent, DefaultChunkSize);
    ParsedJson(filePath, filename, mimeType, chunks, Preview(textContent))
  }
}
