/**
 * The `Document` path fields (`filename`, `folder`, `extension`, `name`),
 * its page count, and the zero padding `split_pdf_in_pages` gives page-file
 * names so that a sorted directory listing is in page order.
 */
module OcrDocument {
  import opened PyStrings

  /**
   * The attributes `Document.__init__` derives from the path; the ones it
   * sets to None are left out. `pdfPages` stands for what PdfFileReader
   * would report for the file.
   */
  datatype Document = Document(filePath: string, filename: string, folder: string, extension: string,
                               name: string, numPages: nat)

  /** `file_path.split("/")[-1]`: the file name holds no "/". */
  function Filename(path: string): (r: string)
    ensures '/' !in r
  {
    var parts := Split(path, '/');
    parts[|parts| - 1]
  }

  /** `"/".join(file_path.split("/")[:-1]) + "/"`: the folder always ends in "/". */
  function Folder(path: string): (r: string)
    ensures |r| > 0 && r[|r| - 1] == '/'
  {
    var parts := Split(path, '/');
    Join(parts[..|parts| - 1], '/') + "/"
  }

  /**
   * `file_path.split(".")[-1]`: taken from the whole path, not from the file
   * name, so the extension never holds a ".".
   */
  function Extension(path: string): (r: string)
    ensures '.' !in r
  {
    var parts := Split(path, '.');
    parts[|parts| - 1]
  }

  /** `filename.replace(f'.{extension}', '')` */
  function Name(filename: string, extension: string): string {
    Replace(filename, "." + extension, "")
  }

  /** `_get_num_pages` as written: the extension is compared with ".pdf". */
  function NumPagesAsWritten(extension: string, pdfPages: nat): nat {
    if extension == ".pdf" then pdfPages else 1
  }

  /** `_get_num_pages` with the comparison the extension can actually satisfy, "pdf". */
  function NumPages(extension: string, pdfPages: nat): nat {
    if extension == "pdf" then pdfPages else 1
  }

  /**
   * `Document(file_path)` as written, with the page count of
   * `_get_num_pages` as written.
   */
  function NewDocument(path: string, pdfPages: nat): (d: Document)
    ensures d.filePath == path
    ensures '/' !in d.filename && '.' !in d.extension
    ensures |d.folder| > 0 && d.folder[|d.folder| - 1] == '/'
  {
    var filename := Filename(path);
    var extension := Extension(path);
    Document(path, filename, Folder(path), extension, Name(filename, extension),
             NumPagesAsWritten(extension, pdfPages))
  }

  /** `Document(file_path)` with the corrected page count; every other field as written. */
  function CorrectedDocument(path: string, pdfPages: nat): Document {
    NewDocument(path, pdfPages).(numPages := NumPages(Extension(path), pdfPages))
  }

  /** The longest suffix of `s` without `c`: everything after the last `c`. */
  predicate IsLastPiece(s: string, c: char, piece: string) {
    && |piece| <= |s| && s[|s| - |piece|..] == piece && c !in piece
    && (|piece| < |s| ==> s[|s| - |piece| - 1] == c)
  }

  lemma LastPieceSpec(s: string, c: char)
    ensures IsLastPiece(s, c, Split(s, c)[|Split(s, c)| - 1])
  {
    LastPiece(s, c);
    if c !in s {
      assert s[0..] == s;
    }
  }

  /** The file name is what follows the last "/", and holds no "/". */
  lemma FilenameSpec(path: string)
    ensures IsLastPiece(path, '/', Filename(path))
  {
    LastPieceSpec(path, '/');
  }

  /**
   * The folder always ends in "/"; with a "/" in the path, folder and file
   * name put back together give the path; a bare file name gets folder "/".
   */
  lemma FolderSpec(path: string)
    ensures |Folder(path)| > 0 && Folder(path)[|Folder(path)| - 1] == '/'
    ensures '/' in path ==> Folder(path) + Filename(path) == path
    ensures '/' !in path ==> Folder(path) == "/" && Filename(path) == path
  {
    FrontPieces(path, '/');
    LastPiece(path, '/');
    if '/' in path {
      var i := LastIndex(path, '/');
      assert path == path[..i] + "/" + path[i + 1..];
    }
  }

  /** The extension is what follows the last "." of the whole path, and holds no ".". */
  lemma ExtensionSpec(path: string)
    ensures IsLastPiece(path, '.', Extension(path))
  {
    LastPieceSpec(path, '.');
  }

  /** A path built as folder + "/" + file gives that file name and folder back. */
  lemma PathRoundTrip(dir: string, file: string)
    requires '/' !in file
    ensures Filename(dir + "/" + file) == file
    ensures Folder(dir + "/" + file) == dir + "/"
  {
    var path := dir + "/" + file;
    assert path[|dir|] == '/';
    var i := LastIndex(path, '/');
    assert i == |dir|;
    assert path[..i] == dir && path[i + 1..] == file;
    LastPiece(path, '/');
    FrontPieces(path, '/');
  }

  /** A path ending in "." + ext with no "." in ext has extension ext. */
  lemma ExtensionOfSuffix(stem: string, ext: string)
    requires '.' !in ext
    ensures Extension(stem + "." + ext) == ext
  {
    var path := stem + "." + ext;
    assert path[|stem|] == '.';
    var i := LastIndex(path, '.');
    assert i == |stem|;
    assert path[i + 1..] == ext;
    LastPiece(path, '.');
  }

  /** A file name with a single dot loses exactly "." + extension. */
  lemma NameOfPlainFile(stem: string, ext: string)
    requires '.' !in stem
    ensures Name(stem + "." + ext, ext) == stem
  {
    var pat := "." + ext;
    ReplaceSkips(stem, pat, pat, "");
    assert pat[..|pat|] == pat;
    assert Replace(pat, pat, "") == "" + Replace([], pat, "");
    assert stem + "." + ext == stem + pat;
    assert stem + "" == stem;
  }

  /**
   * A path dir/stem.ext (no "/" or "." in stem and ext) gives back each
   * of its parts: file name stem.ext, folder dir/, extension ext, name stem;
   * as written, one page whatever the extension.
   */
  lemma PlainPath(dir: string, stem: string, ext: string, pdfPages: nat)
    requires '/' !in stem && '/' !in ext && '.' !in stem && '.' !in ext
    ensures var path := dir + "/" + stem + "." + ext;
      NewDocument(path, pdfPages) == Document(path, stem + "." + ext, dir + "/", ext, stem, 1)
  {
    var file := stem + "." + ext;
    assert '/' !in file;
    PathRoundTrip(dir, file);
    assert dir + "/" + stem + "." + ext == (dir + "/" + stem) + "." + ext;
    ExtensionOfSuffix(dir + "/" + stem, ext);
    NameOfPlainFile(stem, ext);
    assert dir + "/" + stem + "." + ext == dir + "/" + file;
  }

  /** Without a "." the extension is the whole path and the name is the file name. */
  lemma NoDotQuirk(path: string, pdfPages: nat)
    requires '.' !in path
    ensures NewDocument(path, pdfPages).extension == path
    ensures NewDocument(path, pdfPages).name == Filename(path)
  {
    LastPiece(path, '.');
    FilenameSpec(path);
    var filename := Filename(path);
    assert forall k :: 0 <= k < |filename| ==> filename[k] == path[|path| - |filename| + k];
    ReplaceNothing(filename, "." + path, "");
  }

  /**
   * As written, every document has one page, even a PDF of many pages:
   * the extension never holds a ".", so it never equals ".pdf".
   */
  lemma NumPagesAlwaysOne(path: string, pdfPages: nat)
    ensures NewDocument(path, pdfPages).numPages == 1
  {
    assert ".pdf"[0] == '.';
  }

  /** Corrected, a path ending in ".pdf" gets the page count the PDF reports. */
  lemma PdfPagesCounted(stem: string, pdfPages: nat)
    ensures CorrectedDocument(stem + ".pdf", pdfPages).numPages == pdfPages
  {
    ExtensionOfSuffix(stem, "pdf");
    assert stem + "." + "pdf" == stem + ".pdf";
  }

  /** Corrected, a file that is not a PDF still has a single page. */
  lemma OtherFilesOnePage(path: string, pdfPages: nat)
    requires Extension(path) != "pdf"
    ensures CorrectedDocument(path, pdfPages).numPages == 1
  {
  }

  /**
   * `add_ceros(num, total)`: `num` left-padded with '0' to the length of
   * `total`. The padding is all zeros, `num` is kept whole at the end, and
   * the length is the larger of the two.
   */
  function AddCeros(num: string, total: string): (r: string)
    ensures |r| == if |total| > |num| then |total| else |num|
    ensures r[|r| - |num|..] == num
    ensures forall k :: 0 <= k < |r| - |num| ==> r[k] == '0'
  {
    Repeat('0', |total| - |num|) + num
  }

  /** The padded page number names the same page and has the width of the page count. */
  lemma PaddedPage(page: nat, numPages: nat)
    requires page < numPages
    ensures |AddCeros(NatToString(page), NatToString(numPages))| == |NatToString(numPages)|
    ensures IsDigits(AddCeros(NatToString(page), NatToString(numPages)))
    ensures Value(AddCeros(NatToString(page), NatToString(numPages))) == page
  {
    DigitsMonotone(page, numPages);
    var s, t := NatToString(page), NatToString(numPages);
    var padded := AddCeros(s, t);
    assert padded == Repeat('0', |t| - |s|) + s;
    LeadingZeros(|t| - |s|, s);
    ValueOfString(page);
  }

  /**
   * For pages 0 .. n-1 the padded names compare as strings exactly as the
   * page numbers compare: sorting them gives page order.
   */
  lemma PaddedOrder(p: nat, q: nat, n: nat)
    requires p < n && q < n
    ensures Less(AddCeros(NatToString(p), NatToString(n)), AddCeros(NatToString(q), NatToString(n))) <==> p < q
  {
    PaddedPage(p, n);
    PaddedPage(q, n);
    LessIsNumeric(AddCeros(NatToString(p), NatToString(n)), AddCeros(NatToString(q), NatToString(n)));
  }

  /** The page file written for page `page` of `numPages`. */
  function PageFileName(page: nat, numPages: nat): string {
    AddCeros(NatToString(page), NatToString(numPages)) + ".pdf"
  }

  /** A common suffix does not change the order of strings of equal length. */
  lemma {:induction false} LessSuffix(a: string, b: string, suffix: string)
    requires |a| == |b|
    ensures Less(a + suffix, b + suffix) <==> Less(a, b)
  {
    if a == [] {
      LessIrreflexive(suffix);
      assert a + suffix == suffix && b + suffix == suffix;
    } else {
      assert (a + suffix)[1..] == a[1..] + suffix;
      assert (b + suffix)[1..] == b[1..] + suffix;
      LessSuffix(a[1..], b[1..], suffix);
    }
  }

  lemma {:induction false} LessIrreflexive(s: string)
    ensures !Less(s, s)
  {
    if s != [] {
      LessIrreflexive(s[1..]);
    }
  }

  /** The page files of one split sort in page order. */
  lemma PageFileOrder(p: nat, q: nat, n: nat)
    requires p < n && q < n
    ensures Less(PageFileName(p, n), PageFileName(q, n)) <==> p < q
  {
    PaddedPage(p, n);
    PaddedPage(q, n);
    PaddedOrder(p, q, n);
    LessSuffix(AddCeros(NatToString(p), NatToString(n)), AddCeros(NatToString(q), NatToString(n)), ".pdf");
  }
}
