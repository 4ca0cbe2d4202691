/** The image manifest of the upload callback: how embedded images are named and numbered when
    they are extracted, which of them survive the move into the document folder, and what the
    upload step records for each one. */
module ImageManifest {
  import opened Wrappers
  import opened Seqs
  import opened Decimal

  /** A bounding box as the Marker JSON gives it; the extractor here never has one. */
  type Bbox = seq<real>

  /** What PyMuPDF reports about one embedded image: its file extension, when it names one.
      The image bytes are written to disk and play no part in the bookkeeping. */
  datatype EmbeddedImage = EmbeddedImage(ext: Option<string>)

  /** A file path split into its directory and its final component (`Path.name`). */
  datatype FilePath = FilePath(dir: string, name: string)

  /** One entry of the extracted-image list, and after the move one entry of `images.json`. */
  datatype ImageEntry = ImageEntry(page: nat, imageIndex: nat, filename: string,
                                   localPath: FilePath, bbox: Option<Bbox>)

  /** The extension an image is saved under: the one reported, `png` when none is. */
  function ExtOf(img: EmbeddedImage): string
  {
    img.ext.GetOr("png")
  }

  /** The saved name of image `index` (0-based) of page `pageNum` (0-based): the page appears
      1-based in the name. */
  function ImageFileName(stem: string, pageNum: nat, index: nat, ext: string): string
  {
    (stem + "_p") + (NatToDecimal(pageNum + 1) + ("_img" + (NatToDecimal(index) + ("." + ext))))
  }

  /** For one stem, the saved name determines the page, the index and the extension. */
  lemma ImageFileNameInjective(stem: string, p1: nat, i1: nat, e1: string, p2: nat, i2: nat, e2: string)
    requires ImageFileName(stem, p1, i1, e1) == ImageFileName(stem, p2, i2, e2)
    ensures p1 == p2 && i1 == i2 && e1 == e2
  {
    var r1, r2 := NatToDecimal(i1) + ("." + e1), NatToDecimal(i2) + ("." + e2);
    var t1, t2 := NatToDecimal(p1 + 1) + ("_img" + r1), NatToDecimal(p2 + 1) + ("_img" + r2);
    CancelPrefix(stem + "_p", t1, t2);
    NumeralPrefixUnique(p1 + 1, "_img" + r1, p2 + 1, "_img" + r2);
    CancelPrefix("_img", r1, r2);
    NumeralPrefixUnique(i1, "." + e1, i2, "." + e2);
    CancelPrefix(".", e1, e2);
  }

  // ------------------------------------------------------------ extraction

  /** The entry written for image `index` of page `pageNum` (0-based), saved into `tempDir`. */
  function Entry(stem: string, tempDir: string, pageNum: nat, index: nat, img: EmbeddedImage): ImageEntry
  {
    var fname := ImageFileName(stem, pageNum, index, ExtOf(img));
    ImageEntry(pageNum + 1, index, fname, FilePath(tempDir, fname), None)
  }

  /** The entries of one page, in the order PyMuPDF lists its images. */
  function PageEntries(stem: string, tempDir: string, pageNum: nat, images: seq<EmbeddedImage>): (es: seq<ImageEntry>)
    ensures |es| == |images|
  {
    seq(|images|, j requires 0 <= j < |images| => Entry(stem, tempDir, pageNum, j, images[j]))
  }

  /** The extracted-image list of a document whose pages hold `pages`: page after page. */
  function Manifest(stem: string, tempDir: string, pages: seq<seq<EmbeddedImage>>): seq<ImageEntry>
    decreases |pages|
  {
    if |pages| == 0 then []
    else
      var n := |pages| - 1;
      Manifest(stem, tempDir, pages[..n]) + PageEntries(stem, tempDir, n, pages[n])
  }

  /** `extract_images_with_metadata`, with the document's PDF stem, the temporary directory and
      the images PyMuPDF finds on each page as inputs. */
  method ExtractImagesWithMetadata(stem: string, tempDir: string, pages: seq<seq<EmbeddedImage>>)
    returns (saved: seq<ImageEntry>)
    ensures saved == Manifest(stem, tempDir, pages)
  {
    saved := [];
    var pageNum := 0;
    while pageNum < |pages|
      invariant 0 <= pageNum <= |pages|
      invariant saved == Manifest(stem, tempDir, pages[..pageNum])
    {
      var images := pages[pageNum];
      ghost var before := saved;
      var imgIndex := 0;
      while imgIndex < |images|
        invariant 0 <= imgIndex <= |images|
        invariant saved == before + PageEntries(stem, tempDir, pageNum, images[..imgIndex])
      {
        var ext := images[imgIndex].ext.GetOr("png");
        var fname := ImageFileName(stem, pageNum, imgIndex, ext);
        saved := saved + [ImageEntry(pageNum + 1, imgIndex, fname, FilePath(tempDir, fname), None)];
        assert PageEntries(stem, tempDir, pageNum, images[..imgIndex + 1])
            == PageEntries(stem, tempDir, pageNum, images[..imgIndex])
               + [Entry(stem, tempDir, pageNum, imgIndex, images[imgIndex])];
        imgIndex := imgIndex + 1;
      }
      assert images[..imgIndex] == images;
      assert pages[..pageNum + 1][..pageNum] == pages[..pageNum];
      pageNum := pageNum + 1;
    }
    assert pages[..pageNum] == pages;
  }

  /** `e` is the entry built for its own page and index: the page is 1-based and in range, the
      index is 0-based and in range, and the name, path and absent bbox are those of `Entry`. */
  ghost predicate EntryOf(stem: string, tempDir: string, pages: seq<seq<EmbeddedImage>>, e: ImageEntry)
  {
    1 <= e.page <= |pages| && e.imageIndex < |pages[e.page - 1]|
    && e == Entry(stem, tempDir, e.page - 1, e.imageIndex, pages[e.page - 1][e.imageIndex])
  }

  /** Page-major order: by page, then by index within the page. */
  predicate Before(a: ImageEntry, b: ImageEntry)
  {
    a.page < b.page || (a.page == b.page && a.imageIndex < b.imageIndex)
  }

  /** The number of images in the document. */
  function ImageCount(pages: seq<seq<EmbeddedImage>>): nat
    decreases |pages|
  {
    if |pages| == 0 then 0 else ImageCount(pages[..|pages| - 1]) + |pages[|pages| - 1]|
  }

  /** Every image of the document has exactly one entry, each entry is the one built for
      its own page and index, and the entries are in strictly increasing page-major order. */
  lemma {:induction false} ManifestShape(stem: string, tempDir: string, pages: seq<seq<EmbeddedImage>>)
    ensures var m := Manifest(stem, tempDir, pages);
      |m| == ImageCount(pages)
      && (forall i :: 0 <= i < |m| ==> EntryOf(stem, tempDir, pages, m[i]))
      && (forall i, j :: 0 <= i < j < |m| ==> Before(m[i], m[j]))
    decreases |pages|
  {
    if |pages| > 0 {
      var n := |pages| - 1;
      var front := pages[..n];
      var m0 := Manifest(stem, tempDir, front);
      var es := PageEntries(stem, tempDir, n, pages[n]);
      var m := m0 + es;
      ManifestShape(stem, tempDir, front);
      forall i | 0 <= i < |m| ensures EntryOf(stem, tempDir, pages, m[i]) && m[i].page <= (if i < |m0| then n else n + 1) {
        if i < |m0| {
          assert EntryOf(stem, tempDir, front, m0[i]);
          assert front[m0[i].page - 1] == pages[m0[i].page - 1];
        }
      }
      forall i, j | 0 <= i < j < |m| ensures Before(m[i], m[j]) {
        if j < |m0| {
          assert Before(m0[i], m0[j]);
        } else if i < |m0| {
          assert m[i].page <= n;
        } else {
          assert m[i] == es[i - |m0|] && m[j] == es[j - |m0|];
        }
      }
    }
  }

  /** No two entries share a file name, so no extracted image overwrites another. */
  lemma ManifestNamesDistinct(stem: string, tempDir: string, pages: seq<seq<EmbeddedImage>>)
    ensures var m := Manifest(stem, tempDir, pages);
      forall i, j :: 0 <= i < j < |m| ==> m[i].filename != m[j].filename
  {
    var m := Manifest(stem, tempDir, pages);
    ManifestShape(stem, tempDir, pages);
    forall i, j | 0 <= i < j < |m| ensures m[i].filename != m[j].filename {
      assert EntryOf(stem, tempDir, pages, m[i]) && EntryOf(stem, tempDir, pages, m[j]);
      assert Before(m[i], m[j]);
      if m[i].filename == m[j].filename {
        ImageFileNameInjective(stem, m[i].page - 1, m[i].imageIndex, ExtOf(pages[m[i].page - 1][m[i].imageIndex]),
                                     m[j].page - 1, m[j].imageIndex, ExtOf(pages[m[j].page - 1][m[j].imageIndex]));
      }
    }
  }

  // ------------------------------------------------------------ the move into the document folder

  /** The entry after its file is moved from the temporary directory into `docDir`; only the
      local path changes, and the file keeps its name. */
  function Moved(e: ImageEntry, docDir: string): ImageEntry
  {
    e.(localPath := FilePath(docDir, e.localPath.name))
  }

  /** `images_meta`: the entries whose temporary file exists (`present[k]` for entry `k`),
      moved, in their original order. */
  function KeepExisting(extracted: seq<ImageEntry>, present: seq<bool>, docDir: string): (kept: seq<ImageEntry>)
    requires |present| == |extracted|
    ensures |kept| == CountTrue(present)
    decreases |extracted|
  {
    if |extracted| == 0 then []
    else
      var n := |extracted| - 1;
      KeepExisting(extracted[..n], present[..n], docDir) + (if present[n] then [Moved(extracted[n], docDir)] else [])
  }

  /** The loop that builds `images_meta`, with the existence of each temporary file as input. */
  method FilterExisting(extracted: seq<ImageEntry>, present: seq<bool>, docDir: string)
    returns (imagesMeta: seq<ImageEntry>)
    requires |present| == |extracted|
    ensures imagesMeta == KeepExisting(extracted, present, docDir)
  {
    imagesMeta := [];
    var k := 0;
    while k < |extracted|
      invariant 0 <= k <= |extracted|
      invariant imagesMeta == KeepExisting(extracted[..k], present[..k], docDir)
    {
      assert extracted[..k + 1][..k] == extracted[..k];
      assert present[..k + 1][..k] == present[..k];
      if present[k] {
        var src := extracted[k].localPath;
        var dst := FilePath(docDir, src.name);
        var img := extracted[k];
        imagesMeta := imagesMeta + [ImageEntry(img.page, img.imageIndex, img.filename, dst, img.bbox)];
      }
      k := k + 1;
    }
    assert extracted[..k] == extracted && present[..k] == present;
  }

  /** A kept entry sits at its rank among the kept ones: entry `k` whose file exists becomes
      entry number `CountTrue(present[..k])` of `images_meta`, moved and otherwise unchanged. */
  lemma {:induction false} KeepExistingAt(extracted: seq<ImageEntry>, present: seq<bool>, docDir: string, k: nat)
    requires |present| == |extracted| && k < |extracted| && present[k]
    ensures CountTrue(present[..k]) < |KeepExisting(extracted, present, docDir)|
    ensures KeepExisting(extracted, present, docDir)[CountTrue(present[..k])] == Moved(extracted[k], docDir)
    decreases |extracted|
  {
    var n := |extracted| - 1;
    if k < n {
      KeepExistingAt(extracted[..n], present[..n], docDir, k);
      assert present[..n][..k] == present[..k];
    } else {
      assert present[..k] == present[..n];
    }
  }

  /** Every entry of `images_meta` is a moved extracted entry whose file exists, found at that
      entry's rank. With `KeepExistingAt` and `Seqs.CountTrueRank` (ranks grow strictly with
      position) this makes `images_meta` exactly the order-preserving subsequence of kept entries. */
  lemma {:induction false} KeepExistingFrom(extracted: seq<ImageEntry>, present: seq<bool>, docDir: string, m: nat)
    requires |present| == |extracted|
    requires m < |KeepExisting(extracted, present, docDir)|
    ensures exists k :: 0 <= k < |extracted| && present[k] && CountTrue(present[..k]) == m
                        && KeepExisting(extracted, present, docDir)[m] == Moved(extracted[k], docDir)
    decreases |extracted|
  {
    var n := |extracted| - 1;
    var front := KeepExisting(extracted[..n], present[..n], docDir);
    if m < |front| {
      KeepExistingFrom(extracted[..n], present[..n], docDir, m);
      var k :| 0 <= k < n && present[..n][k] && CountTrue(present[..n][..k]) == m
               && front[m] == Moved(extracted[..n][k], docDir);
      assert present[..n][..k] == present[..k];
    } else {
      assert present[n] && CountTrue(present[..n]) == m;
    }
  }

  /** After the move every kept file sits in `docDir` under its own file name, and no two kept
      entries share a file. */
  lemma KeptNamesDistinct(stem: string, tempDir: string, pages: seq<seq<EmbeddedImage>>,
                          present: seq<bool>, docDir: string)
    requires |present| == |Manifest(stem, tempDir, pages)|
    ensures var meta := KeepExisting(Manifest(stem, tempDir, pages), present, docDir);
      (forall i :: 0 <= i < |meta| ==> meta[i].localPath == FilePath(docDir, meta[i].filename))
      && (forall i, j :: 0 <= i < j < |meta| ==> meta[i].localPath.name != meta[j].localPath.name)
  {
    var m := Manifest(stem, tempDir, pages);
    var meta := KeepExisting(m, present, docDir);
    ManifestShape(stem, tempDir, pages);
    ManifestNamesDistinct(stem, tempDir, pages);
    forall i | 0 <= i < |meta| ensures meta[i].localPath == FilePath(docDir, meta[i].filename) {
      KeepExistingFrom(m, present, docDir, i);
      var k :| 0 <= k < |m| && present[k] && CountTrue(present[..k]) == i && meta[i] == Moved(m[k], docDir);
      assert EntryOf(stem, tempDir, pages, m[k]);
    }
    forall i, j | 0 <= i < j < |meta| ensures meta[i].localPath.name != meta[j].localPath.name {
      KeepExistingFrom(m, present, docDir, i);
      var ki :| 0 <= ki < |m| && present[ki] && CountTrue(present[..ki]) == i && meta[i] == Moved(m[ki], docDir);
      KeepExistingFrom(m, present, docDir, j);
      var kj :| 0 <= kj < |m| && present[kj] && CountTrue(present[..kj]) == j && meta[j] == Moved(m[kj], docDir);
      assert EntryOf(stem, tempDir, pages, m[ki]) && EntryOf(stem, tempDir, pages, m[kj]);
      if ki < kj {
        assert m[ki].filename != m[kj].filename;
      } else if kj < ki {
        assert m[kj].filename != m[ki].filename;
      }
    }
  }

  // ------------------------------------------------------------ the upload to the image bucket

  /** How uploading one image went: stored, or an exception with its message, raised by reading
      the local file or by the storage call. */
  datatype UploadOutcome = Stored | Raised(message: string)

  /** One entry of `uploaded_images_meta`. A stored image records its remote path and its bbox;
      a failed one records no remote path and the error message instead of the bbox. */
  datatype UploadedImage =
    | Uploaded(page: nat, imageIndex: nat, filename: string, localPath: FilePath,
               remotePath: string, bbox: Option<Bbox>)
    | UploadFailed(page: nat, imageIndex: nat, filename: string, localPath: FilePath, error: string)
  {
    /** The `remote_path` field: `None` for a failed upload. */
    function RemotePath(): Option<string>
    {
      if Uploaded? then Some(remotePath) else None
    }
  }

  /** The object name an image is stored under: the document's id, then the file's own name. */
  function ImageRemoteName(uid: string, name: string): string
  {
    ("images/" + uid + "/") + name
  }

  /** The entry recorded for one image. */
  function UploadResult(img: ImageEntry, uid: string, outcome: UploadOutcome): UploadedImage
  {
    match outcome
    case Stored =>
      Uploaded(img.page, img.imageIndex, img.filename, img.localPath,
               ImageRemoteName(uid, img.localPath.name), img.bbox)
    case Raised(msg) =>
      UploadFailed(img.page, img.imageIndex, img.filename, img.localPath, msg)
  }

  /** `uploaded_images_meta` for `images_meta`, one outcome per image. */
  function UploadResults(imagesMeta: seq<ImageEntry>, uid: string, outcomes: seq<UploadOutcome>): (up: seq<UploadedImage>)
    requires |outcomes| == |imagesMeta|
    ensures |up| == |imagesMeta|
  {
    seq(|imagesMeta|, k requires 0 <= k < |imagesMeta| => UploadResult(imagesMeta[k], uid, outcomes[k]))
  }

  /** The upload loop: exactly one entry per image, in order, each carrying that image's page,
      index, file name and local path; a stored image gets `images/{uid}/{name}` and keeps its
      bbox, a failed one gets no remote path and the error, and the loop goes on. */
  method UploadImages(imagesMeta: seq<ImageEntry>, uid: string, outcomes: seq<UploadOutcome>)
    returns (uploaded: seq<UploadedImage>)
    requires |outcomes| == |imagesMeta|
    ensures uploaded == UploadResults(imagesMeta, uid, outcomes)
    ensures |uploaded| == |imagesMeta|
    ensures forall k :: 0 <= k < |uploaded| ==>
      var u, img := uploaded[k], imagesMeta[k];
      u.page == img.page && u.imageIndex == img.imageIndex && u.filename == img.filename
      && u.localPath == img.localPath
      && (u.RemotePath().Some? <==> outcomes[k] == Stored)
      && (outcomes[k] == Stored ==> u.remotePath == ImageRemoteName(uid, img.localPath.name) && u.bbox == img.bbox)
      && (outcomes[k].Raised? ==> u.UploadFailed? && u.error == outcomes[k].message)
  {
    uploaded := [];
    var k := 0;
    while k < |imagesMeta|
      invariant 0 <= k <= |imagesMeta|
      invariant |uploaded| == k
      invariant forall j :: 0 <= j < k ==> uploaded[j] == UploadResult(imagesMeta[j], uid, outcomes[j])
    {
      var img := imagesMeta[k];
      var remoteName := ImageRemoteName(uid, img.localPath.name);
      match outcomes[k] {
        case Stored =>
          uploaded := uploaded + [Uploaded(img.page, img.imageIndex, img.filename, img.localPath, remoteName, img.bbox)];
        case Raised(e) =>
          uploaded := uploaded + [UploadFailed(img.page, img.imageIndex, img.filename, img.localPath, e)];
      }
      k := k + 1;
    }
  }

  /** Distinct local names give distinct remote paths: no stored image overwrites another. */
  lemma UploadRemoteDistinct(imagesMeta: seq<ImageEntry>, uid: string, outcomes: seq<UploadOutcome>)
    requires |outcomes| == |imagesMeta|
    requires forall i, j :: 0 <= i < j < |imagesMeta| ==> imagesMeta[i].localPath.name != imagesMeta[j].localPath.name
    ensures var up := UploadResults(imagesMeta, uid, outcomes);
      forall i, j :: 0 <= i < j < |up| && up[i].Uploaded? && up[j].Uploaded? ==> up[i].remotePath != up[j].remotePath
  {
    var up := UploadResults(imagesMeta, uid, outcomes);
    forall i, j | 0 <= i < j < |up| && up[i].Uploaded? && up[j].Uploaded?
      ensures up[i].remotePath != up[j].remotePath
    {
      if up[i].remotePath == up[j].remotePath {
        CancelPrefix("images/" + uid + "/", imagesMeta[i].localPath.name, imagesMeta[j].localPath.name);
      }
    }
  }

  /** End to end: among the images of one document that reach the bucket, no two are stored
      under the same remote path. */
  lemma PipelineRemoteDistinct(stem: string, tempDir: string, pages: seq<seq<EmbeddedImage>>,
                               present: seq<bool>, docDir: string, uid: string, outcomes: seq<UploadOutcome>)
    requires |present| == |Manifest(stem, tempDir, pages)|
    requires |outcomes| == |KeepExisting(Manifest(stem, tempDir, pages), present, docDir)|
    ensures var up := UploadResults(KeepExisting(Manifest(stem, tempDir, pages), present, docDir), uid, outcomes);
      forall i, j :: 0 <= i < j < |up| && up[i].Uploaded? && up[j].Uploaded? ==> up[i].remotePath != up[j].remotePath
  {
    KeptNamesDistinct(stem, tempDir, pages, present, docDir);
    UploadRemoteDistinct(KeepExisting(Manifest(stem, tempDir, pages), present, docDir), uid, outcomes);
  }
}
