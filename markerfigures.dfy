/** Figure extraction driven by Marker's JSON: which blocks are taken as figures, which document
    page each is cropped from, the entries recorded for the saved crops, and what the upload of
    those crops reports. */
module MarkerFigures {
  import opened Wrappers
  import opened Seqs
  import opened Decimal
  import ImageManifest

  /** One Marker block. Each field is `None` when its key is absent. */
  datatype Block = Block(typ: Option<string>, blockType: Option<string>, page: Option<int>,
                         bbox: Option<ImageManifest.Bbox>)

  /** The three keys of the Marker JSON that may hold the block list. */
  datatype MarkerJson = MarkerJson(blocks: Option<seq<Block>>, content: Option<seq<Block>>,
                                   elements: Option<seq<Block>>)

  /** Python truthiness of an optional list: present and non-empty. */
  predicate Truthy<T>(v: Option<seq<T>>)
  {
    v.Some? && |v.value| > 0
  }

  /** The block list: the first of `blocks`, `content` and `elements` that holds a non-empty
      list, and the empty list when none does. */
  function BlockList(j: MarkerJson): (bs: seq<Block>)
    ensures bs == [] <==> !Truthy(j.blocks) && !Truthy(j.content) && !Truthy(j.elements)
    ensures Truthy(j.blocks) ==> Some(bs) == j.blocks
    ensures !Truthy(j.blocks) && Truthy(j.content) ==> Some(bs) == j.content
    ensures !Truthy(j.blocks) && !Truthy(j.content) && Truthy(j.elements) ==> Some(bs) == j.elements
  {
    if Truthy(j.blocks) then j.blocks.value
    else if Truthy(j.content) then j.content.value
    else j.elements.GetOr([])
  }

  /** A block is cropped when its `type` or its `block_type` is `figure` and its bbox is a
      non-empty list. */
  predicate IsWanted(b: Block)
  {
    (b.typ == Some("figure") || b.blockType == Some("figure")) && Truthy(b.bbox)
  }

  /** The block's page number: 1 when the key is absent. */
  function PageOf(b: Block): int
  {
    b.page.GetOr(1)
  }

  /** The page PyMuPDF's `doc[pageNum - 1]` loads from a document of `pageCount` pages. An index
      past the end raises `IndexError` (`None`). A negative index counts back from the end,
      wrapping around as often as needed; in an empty document no page is found. */
  function FitzPageIndex(pageNum: int, pageCount: nat): (r: Option<nat>)
    ensures r.Some? <==> pageNum - 1 < pageCount && pageCount > 0
    ensures r.Some? ==> r.value < pageCount
    ensures pageNum - 1 < 0 <= pageNum - 1 + pageCount ==> r.Some? && r.value == pageNum - 1 + pageCount
    ensures 1 <= pageNum <= pageCount ==> r == Some(pageNum - 1)
  {
    var i := pageNum - 1;
    if i >= pageCount || pageCount == 0 then None
    else if i >= 0 then Some(i)
    else Some(i % pageCount)
  }

  /** The page a block without a `page` key is cropped from is the first one, and a block
      that says page 0 is silently cropped from the last page. */
  lemma PageDefaults(b: Block, pageCount: nat)
    requires pageCount > 0
    ensures b.page.None? ==> FitzPageIndex(PageOf(b), pageCount) == Some(0)
    ensures b.page == Some(0) ==> FitzPageIndex(PageOf(b), pageCount) == Some(pageCount - 1)
  {
  }

  /** A saved crop. `sourcePage` is the 0-based document page it was rendered from; the other
      fields are those of the recorded dictionary. */
  datatype Figure = Figure(page: int, bbox: ImageManifest.Bbox, filename: string,
                           localPath: ImageManifest.FilePath, sourcePage: nat)

  /** Why the whole extraction fails: a wanted block names a page the document lacks. */
  datatype FigureError = PageNotFound(pageNum: int)

  /** The name of a crop: its page number as given, then a fresh id. */
  function FigureFileName(pageNum: int, id: string): string
  {
    "figure_p" + IntToDecimal(pageNum) + "_" + id + ".png"
  }

  /** The figures saved from `blocks`, in order, or the failure of the first wanted block whose
      page is missing. `ids(n)` is the hexadecimal id drawn for the `n`-th saved crop. */
  function Figures(blocks: seq<Block>, pageCount: nat, tempDir: string, ids: nat -> string)
    : Result<seq<Figure>, FigureError>
    decreases |blocks|
  {
    if |blocks| == 0 then Success([])
    else
      var n := |blocks| - 1;
      match Figures(blocks[..n], pageCount, tempDir, ids)
      case Failure(e) => Failure(e)
      case Success(saved) =>
        var b := blocks[n];
        if !IsWanted(b) then Success(saved)
        else
          match FitzPageIndex(PageOf(b), pageCount)
          case None => Failure(PageNotFound(PageOf(b)))
          case Some(idx) =>
            var fname := FigureFileName(PageOf(b), ids(|saved|));
            Success(saved + [Figure(PageOf(b), b.bbox.value, fname, ImageManifest.FilePath(tempDir, fname), idx)])
  }

  /** `extract_and_save_figures` for a document of `pageCount` pages; the crops go to `tempDir`. */
  method ExtractAndSaveFigures(markerJson: MarkerJson, pageCount: nat, tempDir: string, ids: nat -> string)
    returns (r: Result<seq<Figure>, FigureError>)
    ensures r == Figures(BlockList(markerJson), pageCount, tempDir, ids)
  {
    var blocks := BlockList(markerJson);
    var saved: seq<Figure> := [];
    var i := 0;
    while i < |blocks|
      invariant 0 <= i <= |blocks|
      invariant Figures(blocks[..i], pageCount, tempDir, ids) == Success(saved)
    {
      var block := blocks[i];
      assert blocks[..i + 1][..i] == blocks[..i];
      if block.typ == Some("figure") || block.blockType == Some("figure") {
        var pageNum := block.page.GetOr(1);
        var bbox := block.bbox;
        if bbox.Some? && |bbox.value| > 0 {
          var page := FitzPageIndex(pageNum, pageCount);
          if page.None? {
            FiguresFailureKept(blocks, i + 1, pageCount, tempDir, ids);
            assert blocks[..|blocks|] == blocks;
            return Failure(PageNotFound(pageNum));
          }
          var fname := FigureFileName(pageNum, ids(|saved|));
          var outPath := ImageManifest.FilePath(tempDir, fname);
          saved := saved + [Figure(pageNum, bbox.value, fname, outPath, page.value)];
        }
      }
      i := i + 1;
    }
    assert blocks[..i] == blocks;
    r := Success(saved);
  }

  /** Once a prefix of the blocks fails, the whole list fails with the same error. */
  lemma {:induction false} FiguresFailureKept(blocks: seq<Block>, k: nat, pageCount: nat, tempDir: string,
                                              ids: nat -> string)
    requires k <= |blocks| && Figures(blocks[..k], pageCount, tempDir, ids).Failure?
    ensures Figures(blocks, pageCount, tempDir, ids) == Figures(blocks[..k], pageCount, tempDir, ids)
    decreases |blocks| - k
  {
    if k < |blocks| {
      assert blocks[..k + 1][..k] == blocks[..k];
      FiguresFailureKept(blocks, k + 1, pageCount, tempDir, ids);
    } else {
      assert blocks[..k] == blocks;
    }
  }

  /** Which blocks are cropped, block by block. */
  function WantedFlags(blocks: seq<Block>): (flags: seq<bool>)
    ensures |flags| == |blocks|
  {
    seq(|blocks|, k requires 0 <= k < |blocks| => IsWanted(blocks[k]))
  }

  /** The extraction fails exactly when some wanted block names a page the document lacks. */
  lemma {:induction false} FiguresFailWhen(blocks: seq<Block>, pageCount: nat, tempDir: string, ids: nat -> string)
    ensures Figures(blocks, pageCount, tempDir, ids).Failure?
      <==> exists k :: 0 <= k < |blocks| && IsWanted(blocks[k]) && FitzPageIndex(PageOf(blocks[k]), pageCount).None?
    decreases |blocks|
  {
    if |blocks| > 0 {
      var n := |blocks| - 1;
      FiguresFailWhen(blocks[..n], pageCount, tempDir, ids);
      if exists k :: 0 <= k < n && IsWanted(blocks[..n][k]) && FitzPageIndex(PageOf(blocks[..n][k]), pageCount).None? {
        var k :| 0 <= k < n && IsWanted(blocks[..n][k]) && FitzPageIndex(PageOf(blocks[..n][k]), pageCount).None?;
        assert blocks[k] == blocks[..n][k];
      } else {
        forall k | 0 <= k < n && IsWanted(blocks[k])
          ensures FitzPageIndex(PageOf(blocks[k]), pageCount).Some?
        {
          assert blocks[k] == blocks[..n][k];
        }
      }
    }
  }

  /** On success, one figure per wanted block, in block order: the wanted block `k` becomes
      figure number `CountTrue(WantedFlags(blocks)[..k])`, with the block's page (1 when absent)
      and bbox unchanged, cropped from the page PyMuPDF loads for that number, and named with
      the id drawn for its position. */
  lemma {:induction false} FiguresFromBlocks(blocks: seq<Block>, pageCount: nat, tempDir: string,
                                             ids: nat -> string, k: nat)
    requires Figures(blocks, pageCount, tempDir, ids).Success?
    requires k < |blocks| && IsWanted(blocks[k])
    ensures var saved := Figures(blocks, pageCount, tempDir, ids).value;
      var m := CountTrue(WantedFlags(blocks)[..k]);
      m < |saved|
      && saved[m].page == PageOf(blocks[k]) && saved[m].bbox == blocks[k].bbox.value
      && FitzPageIndex(PageOf(blocks[k]), pageCount) == Some(saved[m].sourcePage)
      && saved[m].filename == FigureFileName(PageOf(blocks[k]), ids(m))
      && saved[m].localPath == ImageManifest.FilePath(tempDir, saved[m].filename)
    decreases |blocks|
  {
    var n := |blocks| - 1;
    var front := blocks[..n];
    assert WantedFlags(blocks)[..n] == WantedFlags(front);
    FiguresCount(front, pageCount, tempDir, ids);
    if k < n {
      FiguresFromBlocks(front, pageCount, tempDir, ids, k);
      assert WantedFlags(blocks)[..k] == WantedFlags(front)[..k];
    } else {
      assert WantedFlags(blocks)[..k] == WantedFlags(front);
    }
  }

  /** On success there are exactly as many figures as wanted blocks. */
  lemma {:induction false} FiguresCount(blocks: seq<Block>, pageCount: nat, tempDir: string, ids: nat -> string)
    ensures Figures(blocks, pageCount, tempDir, ids).Success? ==>
      |Figures(blocks, pageCount, tempDir, ids).value| == CountTrue(WantedFlags(blocks))
    decreases |blocks|
  {
    if |blocks| > 0 {
      var n := |blocks| - 1;
      assert WantedFlags(blocks)[..n] == WantedFlags(blocks[..n]);
      FiguresCount(blocks[..n], pageCount, tempDir, ids);
    }
  }

  // ------------------------------------------------------------ uploading the crops

  /** What happened to one saved crop: reading its file raised, or the storage call returned a
      response, or the storage call raised. */
  datatype ItemOutcome = ReadFailed(message: string) | UploadOk(response: string) | UploadErr(message: string)

  /** One upload result: the local path with the remote name and the response, or with the error. */
  datatype UploadRecord =
    | Sent(local: ImageManifest.FilePath, remote: string, uploadRes: string)
    | NotSent(local: ImageManifest.FilePath, error: string)

  /** Why the whole upload call fails: reading a crop's file raised, outside the `try`. */
  datatype UploadError = ReadError(message: string)

  /** The results for `saved`, or the exception of the first file that could not be read: the
      read happens outside the `try`, so it ends the whole call. */
  function UploadRecords(saved: seq<Figure>, outcomes: seq<ItemOutcome>): Result<seq<UploadRecord>, UploadError>
    requires |outcomes| == |saved|
    decreases |saved|
  {
    if |saved| == 0 then Success([])
    else
      var n := |saved| - 1;
      match UploadRecords(saved[..n], outcomes[..n])
      case Failure(e) => Failure(e)
      case Success(rs) =>
        var local := saved[n].localPath;
        match outcomes[n]
        case ReadFailed(msg) => Failure(ReadError(msg))
        case UploadOk(res) => Success(rs + [Sent(local, local.name, res)])
        case UploadErr(msg) => Success(rs + [NotSent(local, msg)])
  }

  /** `upload_extracted_images`, with the outcome of reading and uploading each crop as input. */
  method UploadExtractedImages(saved: seq<Figure>, outcomes: seq<ItemOutcome>)
    returns (reply: Result<seq<UploadRecord>, UploadError>)
    requires |outcomes| == |saved|
    ensures reply == UploadRecords(saved, outcomes)
    ensures reply.Success? <==> forall k :: 0 <= k < |outcomes| ==> !outcomes[k].ReadFailed?
    ensures reply.Success? ==> |reply.value| == |saved|
  {
    UploadRecordsShape(saved, outcomes);
    var results: seq<UploadRecord> := [];
    var i := 0;
    while i < |saved|
      invariant 0 <= i <= |saved|
      invariant UploadRecords(saved[..i], outcomes[..i]) == Success(results)
    {
      assert saved[..i + 1][..i] == saved[..i] && outcomes[..i + 1][..i] == outcomes[..i];
      var localPath := saved[i].localPath;
      var remoteName := localPath.name;
      var outcome := outcomes[i];
      if outcome.ReadFailed? {
        UploadRecordsFailureKept(saved, outcomes, i + 1);
        assert saved[..|saved|] == saved && outcomes[..|saved|] == outcomes;
        return Failure(ReadError(outcome.message));
      }
      if outcome.UploadOk? {
        results := results + [Sent(localPath, remoteName, outcome.response)];
      } else {
        results := results + [NotSent(localPath, outcome.message)];
      }
      i := i + 1;
    }
    assert saved[..i] == saved && outcomes[..i] == outcomes;
    reply := Success(results);
  }

  /** Once a prefix of the crops fails to read, the whole call fails with that error. */
  lemma {:induction false} UploadRecordsFailureKept(saved: seq<Figure>, outcomes: seq<ItemOutcome>, k: nat)
    requires |outcomes| == |saved| && k <= |saved|
    requires UploadRecords(saved[..k], outcomes[..k]).Failure?
    ensures UploadRecords(saved, outcomes) == UploadRecords(saved[..k], outcomes[..k])
    decreases |saved| - k
  {
    if k < |saved| {
      assert saved[..k + 1][..k] == saved[..k] && outcomes[..k + 1][..k] == outcomes[..k];
      UploadRecordsFailureKept(saved, outcomes, k + 1);
    } else {
      assert saved[..k] == saved && outcomes[..k] == outcomes;
    }
  }

  /** The call succeeds exactly when every file can be read. It then gives one result per crop,
      in order, for that crop's local path; an upload that returned is recorded with the file's
      base name as remote name and the response, and a failed upload with its error, the loop
      going on to the next crop. */
  lemma {:induction false} UploadRecordsShape(saved: seq<Figure>, outcomes: seq<ItemOutcome>)
    requires |outcomes| == |saved|
    ensures UploadRecords(saved, outcomes).Success? <==> forall k :: 0 <= k < |outcomes| ==> !outcomes[k].ReadFailed?
    ensures UploadRecords(saved, outcomes).Success? ==>
      var rs := UploadRecords(saved, outcomes).value;
      |rs| == |saved|
      && forall k :: 0 <= k < |rs| ==>
           rs[k].local == saved[k].localPath
           && (rs[k].Sent? <==> outcomes[k].UploadOk?)
           && (rs[k].Sent? ==> rs[k].remote == saved[k].localPath.name && rs[k].uploadRes == outcomes[k].response)
           && (rs[k].NotSent? ==> rs[k].error == outcomes[k].message)
    decreases |saved|
  {
    if |saved| > 0 {
      var n := |saved| - 1;
      UploadRecordsShape(saved[..n], outcomes[..n]);
      if !(forall k :: 0 <= k < n ==> !outcomes[..n][k].ReadFailed?) {
        var k :| 0 <= k < n && outcomes[..n][k].ReadFailed?;
        assert outcomes[k].ReadFailed?;
      }
    }
  }

  /** A failed call reports the exception of the first crop whose file could not be read. */
  lemma {:induction false} UploadRecordsFirstFailure(saved: seq<Figure>, outcomes: seq<ItemOutcome>, k: nat)
    requires |outcomes| == |saved| && k < |outcomes| && outcomes[k].ReadFailed?
    requires forall j :: 0 <= j < k ==> !outcomes[j].ReadFailed?
    ensures UploadRecords(saved, outcomes) == Failure(ReadError(outcomes[k].message))
  {
    UploadRecordsShape(saved[..k], outcomes[..k]);
    assert saved[..k + 1][..k] == saved[..k] && outcomes[..k + 1][..k] == outcomes[..k];
    UploadRecordsFailureKept(saved, outcomes, k + 1);
  }
}
