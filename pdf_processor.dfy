/**
 * `PdfArchiveConverter` (arc_conv_pdf_proc.py): PDF to CBZ by rasterising
 * every page into a numbered PNG file, CBZ to PDF by collecting the image
 * entries in sorted order into one PDF.
 */
module PdfProcessor {
  import opened Wrappers
  import opened Text
  import opened Sorting
  import opened Paths
  import opened Formats
  import opened Progress
  import opened Helpers
  import opened Jobs

  // ---------------------------------------------------------------------
  // Page file names.

  /** `f"page_{k:03d}.png"` for page number `k` (one-based). */
  function PageName(k: nat): string {
    "page_" + Pad3(NatStr(k)) + ".png"
  }

  lemma DigitCode(d: nat)
    requires d < 10
    ensures DigitChar(d) as int == '0' as int + d
  {
    var s := "0123456789";
    if d == 0 { assert s[0] == '0'; } else if d == 1 { assert s[1] == '1'; }
    else if d == 2 { assert s[2] == '2'; } else if d == 3 { assert s[3] == '3'; }
    else if d == 4 { assert s[4] == '4'; } else if d == 5 { assert s[5] == '5'; }
    else if d == 6 { assert s[6] == '6'; } else if d == 7 { assert s[7] == '7'; }
    else if d == 8 { assert s[8] == '8'; } else { assert s[9] == '9'; }
  }

  /** Comparing behind a common prefix compares what follows it. */
  lemma {:induction false} LexCommonPrefix(p: string, x: string, y: string)
    ensures LexLess(p + x, p + y) <==> LexLess(x, y)
  {
    if p != [] {
      assert (p + x)[1..] == p[1..] + x && (p + y)[1..] == p[1..] + y;
      LexCommonPrefix(p[1..], x, y);
    } else {
      assert p + x == x && p + y == y;
    }
  }

  /** Three characters followed by the same tail compare as the three characters. */
  lemma Lex3(x: string, y: string, s: string)
    requires |x| == 3 && |y| == 3
    ensures LexLess(x + s, y + s) <==>
      x[0] < y[0] || (x[0] == y[0] && (x[1] < y[1] || (x[1] == y[1] && x[2] < y[2])))
  {
    var a, b := x + s, y + s;
    assert a[0] == x[0] && b[0] == y[0];
    if x[0] == y[0] {
      assert LexLess(a, b) == LexLess(a[1..], b[1..]);
      assert a[1..][0] == x[1] && b[1..][0] == y[1];
      if x[1] == y[1] {
        assert LexLess(a[1..], b[1..]) == LexLess(a[2..], b[2..]) by {
          assert a[1..][1..] == a[2..] && b[1..][1..] == b[2..];
        }
        assert a[2..][0] == x[2] && b[2..][0] == y[2];
        if x[2] == y[2] {
          assert a[2..][1..] == s && b[2..][1..] == s;
          LexIrreflexive(s);
        }
      }
    }
  }

  lemma DecimalDigits(a: nat)
    requires a < 1000
    ensures a / 100 < 10 && a / 10 % 10 < 10
    ensures a == 100 * (a / 100) + 10 * (a / 10 % 10) + a % 10
  {
    DivTenTwice(a);
  }

  /** Three decimal digits compare in order exactly as the numbers they write. */
  lemma DigitTriplesOrder(a2: int, a1: int, a0: int, b2: int, b1: int, b0: int)
    requires 0 <= a2 < 10 && 0 <= a1 < 10 && 0 <= a0 < 10
    requires 0 <= b2 < 10 && 0 <= b1 < 10 && 0 <= b0 < 10
    ensures (a2 < b2 || (a2 == b2 && (a1 < b1 || (a1 == b1 && a0 < b0)))) <==>
            100 * a2 + 10 * a1 + a0 < 100 * b2 + 10 * b1 + b0
  {
  }

  /** The zero-padded numbers below 1000, followed by the same tail, sort as the numbers. */
  lemma PaddedOrder(a: nat, b: nat, tail: string)
    requires a < 1000 && b < 1000
    ensures LexLess(Pad3(NatStr(a)) + tail, Pad3(NatStr(b)) + tail) <==> a < b
  {
    ThreeDigits(a);
    ThreeDigits(b);
    Lex3(Pad3(NatStr(a)), Pad3(NatStr(b)), tail);
    DecimalDigits(a);
    DecimalDigits(b);
    DigitCode(a / 100);
    DigitCode(a / 10 % 10);
    DigitCode(a % 10);
    DigitCode(b / 100);
    DigitCode(b / 10 % 10);
    DigitCode(b % 10);
    DigitTriplesOrder(a / 100, a / 10 % 10, a % 10, b / 100, b / 10 % 10, b % 10);
  }

  /** For pages 1 to 999, the names sort exactly as the page numbers. */
  lemma PageNameOrder(a: nat, b: nat)
    requires 1 <= a <= 999 && 1 <= b <= 999
    ensures LexLess(PageName(a), PageName(b)) <==> a < b
  {
    var x, y := Pad3(NatStr(a)), Pad3(NatStr(b));
    assert PageName(a) == "page_" + (x + ".png") && PageName(b) == "page_" + (y + ".png");
    LexCommonPrefix("page_", x + ".png", y + ".png");
    PaddedOrder(a, b, ".png");
  }

  /** Different pages up to 999 get different names. */
  lemma PageNamesDiffer(a: nat, b: nat)
    requires 1 <= a <= 999 && 1 <= b <= 999 && a != b
    ensures PageName(a) != PageName(b)
  {
    if a < b {
      PageNameOrder(a, b);
    } else {
      PageNameOrder(b, a);
    }
    LexIrreflexive(PageName(a));
  }

  /** From page 1000 on, the three-digit padding no longer orders: page 1000 sorts before page 999. */
  lemma PageThousandSortsEarly()
    ensures LexLess(PageName(1000), PageName(999))
  {
    assert NatStr(1) == "1" && NatStr(10) == "10" && NatStr(100) == "100" && NatStr(1000) == "1000";
    ThreeDigits(999);
    DigitCode(9);
    DigitCode(1);
    var x := Pad3(NatStr(1000));
    assert x == "1000";
    assert PageName(1000) == "page_" + ("1000" + ".png");
    assert PageName(999) == "page_" + ("999" + ".png");
    LexCommonPrefix("page_", "1000" + ".png", "999" + ".png");
  }

  // ---------------------------------------------------------------------
  // PDF to CBZ (`convert_pdf_to_cbz`).

  /**
   * The per-item progress of both page loops, out of 100: after item `i`
   * of `n`, `10 + (i * 70) / n`, for the first `k` items.
   */
  function StepCalls(k: nat, n: nat): (r: seq<Call>)
    requires k <= n
    ensures |r| == k
  {
    if k == 0 then [] else StepCalls(k - 1, n) + [ReportProgress(StepProgress(10, 80, k, n), 100)]
  }

  /** The report after item `i + 1` of `n`. */
  lemma {:induction false} StepCallsAt(k: nat, n: nat, i: nat)
    requires i < k <= n
    ensures StepCalls(k, n)[i] == ReportProgress(StepProgress(10, 80, i + 1, n), 100)
  {
    if i < k - 1 {
      StepCallsAt(k - 1, n, i);
    }
  }

  /** The scratch directory after rasterising `pages` in order, page `k` saved as `PageName(k)`. */
  function PageFiles(pages: seq<Blob>): seq<ScratchFile> {
    if pages == [] then []
    else Put(PageFiles(pages[..|pages| - 1]), ScratchFile([PageName(|pages|)], pages[|pages| - 1]))
  }

  /** The reference definition of the page loop: the pages done, the calls made, PyMuPDF's error. */
  function Rasterisation(pages: seq<Blob>, fault: Option<Fault>): Extraction {
    var k := Completed(fault, |pages|);
    Extraction(PageFiles(pages[..k]), StepCalls(k, |pages|), if Fails(fault, |pages|) then Some(fault.value.cause) else None)
  }

  /** The page loop: save page `i` as `page_{i+1:03d}.png` and report its progress. */
  method RasterisePages(pages: seq<Blob>, fault: Option<Fault>) returns (x: Extraction)
    ensures x == Rasterisation(pages, fault)
  {
    var n := |pages|;
    var files: seq<ScratchFile> := [];
    var calls: seq<Call> := [];
    for i := 0 to n
      invariant fault.Some? ==> fault.value.at >= i
      invariant files == PageFiles(pages[..i])
      invariant calls == StepCalls(i, n)
    {
      if fault.Some? && fault.value.at == i {
        return Extraction(files, calls, Some(fault.value.cause));
      }
      assert pages[..i + 1][..i] == pages[..i];
      files := Put(files, ScratchFile([PageName(i + 1)], pages[i]));
      calls := calls + [ReportProgress(StepProgress(10, 80, i + 1, n), 100)];
    }
    assert pages[..n] == pages;
    x := Extraction(files, calls, None);
  }

  function ToCbzError(message: string): string {
    "Failed to convert PDF to CBZ: " + message
  }

  /**
   * The reference definition of `convert_pdf_to_cbz` with its default
   * ranges (pages 10 to 80, packing 90 to 100).
   */
  function PdfToCbzConversion(fs: FileSystem, lib: Library, pdf: Path, output: Option<Path>): Step {
    if pdf !in fs then
      Step(fs, [], Some("Source PDF file not found: " + Str(pdf)))
    else if DetectFormat(fs, pdf) != Some(PDF) then
      Step(fs, [], Some("File is not a valid PDF: " + Str(pdf)))
    else
      match (if output.Some? then Ok(output.value) else WithSuffix(pdf, ".cbz"))
      case Err(m) => Step(fs, [], Some(m))
      case Ok(out) =>
        var opening := [ReportStatus("Processing " + Name(pdf) + "..."), ReportProgress(10, 100), ReportStatus("Extracting PDF pages...")];
        if !fs[pdf].PdfDoc? then
          Step(fs, opening, Some(ToCbzError(lib.openError)))
        else
          var r := Rasterisation(fs[pdf].pages, lib.render);
          var calls := opening + [ReportProgress(30, 100)] + r.calls;
          if r.error.Some? then
            Step(fs, calls, Some(ToCbzError(r.error.value)))
          else
            var packing := calls + [ReportProgress(90, 100), ReportStatus("Packing into CBZ archive...")];
            var pk := PackZip(lib.tempDir, true, r.files, lib.packOpen, lib.pack, 90, 100);
            var fs' := Store(fs, out, pk.written);
            if pk.error.Some? then
              Step(fs', packing + pk.calls, Some(ToCbzError(pk.error.value)))
            else
              Step(fs', packing + pk.calls + [ReportProgress(100, 100), ReportStatus("Cleaning up temporary files...")], None)
  }

  /**
   * `convert_pdf_to_cbz`: check the source before the `try`, then
   * rasterise every page into the scratch directory and pack it into the
   * output ZIP; an error inside is re-raised as "Failed to convert PDF to
   * CBZ: ...".
   */
  method ConvertPdfToCbz(fs: FileSystem, lib: Library, pdf: Path, output: Option<Path>) returns (st: Step)
    ensures st == PdfToCbzConversion(fs, lib, pdf, output)
  {
    if pdf !in fs {
      return Step(fs, [], Some("Source PDF file not found: " + Str(pdf)));
    }
    if DetectFormat(fs, pdf) != Some(PDF) {
      return Step(fs, [], Some("File is not a valid PDF: " + Str(pdf)));
    }
    var out: Path;
    if output.Some? {
      out := output.value;
    } else {
      var r := WithSuffix(pdf, ".cbz");
      if r.Err? {
        return Step(fs, [], Some(r.message));
      }
      out := r.value;
    }
    var calls := [ReportStatus("Processing " + Name(pdf) + "..."), ReportProgress(10, 100), ReportStatus("Extracting PDF pages...")];
    if !fs[pdf].PdfDoc? {
      return Step(fs, calls, Some(ToCbzError(lib.openError)));
    }
    calls := calls + [ReportProgress(30, 100)];
    var x := RasterisePages(fs[pdf].pages, lib.render);
    calls := calls + x.calls;
    if x.error.Some? {
      return Step(fs, calls, Some(ToCbzError(x.error.value)));
    }
    calls := calls + [ReportProgress(90, 100), ReportStatus("Packing into CBZ archive...")];
    var pk := CreateZipArchive(lib.tempDir, true, x.files, lib.packOpen, lib.pack, 90, 100);
    var fs' := fs;
    if pk.written.Some? {
      fs' := fs'[out := pk.written.value];
    }
    calls := calls + pk.calls;
    if pk.error.Some? {
      return Step(fs', calls, Some(ToCbzError(pk.error.value)));
    }
    calls := calls + [ReportProgress(100, 100), ReportStatus("Cleaning up temporary files...")];
    st := Step(fs', calls, None);
  }

  // ---------------------------------------------------------------------
  // CBZ to PDF (`convert_cbz_to_pdf`).

  /** `Path(name).name`: where an image entry lands in the scratch directory. */
  function BaseName(name: string): string {
    Name(Parse(name))
  }

  /** The bytes `zip_file.open(name)` reads; the names copied all come from the archive. */
  function EntryData(es: seq<Entry>, name: string): Blob {
    Lookup(es, name).GetOr(Blob(0, 0))
  }

  /** The scratch directory after copying `images` in order, each under its base name. */
  function CopiedFiles(es: seq<Entry>, images: seq<string>): seq<ScratchFile> {
    if images == [] then []
    else
      var name := images[|images| - 1];
      Put(CopiedFiles(es, images[..|images| - 1]), ScratchFile([BaseName(name)], EntryData(es, name)))
  }

  /** The paths `extracted_images` holds after copying `images`: one per image, its base name. */
  function Extracted(images: seq<string>): (r: seq<seq<string>>)
    ensures |r| == |images|
  {
    if images == [] then []
    else Extracted(images[..|images| - 1]) + [[BaseName(images[|images| - 1])]]
  }

  /** Entry `i` of `extracted_images` is the base name of image `i`: one path per image, in sorted order. */
  lemma {:induction false} ExtractedAt(images: seq<string>, i: nat)
    requires i < |images|
    ensures Extracted(images)[i] == [BaseName(images[i])]
  {
    if i < |images| - 1 {
      ExtractedAt(images[..|images| - 1], i);
    }
  }

  /** What the copy loop leaves: the scratch files, the list `extracted_images`, the calls made, the error raised. */
  datatype Copy = Copy(files: seq<ScratchFile>, extracted: seq<seq<string>>, calls: seq<Call>, error: Option<string>)

  /** The reference definition of the copy loop over the sorted image names. */
  function Copying(es: seq<Entry>, images: seq<string>, fault: Option<Fault>): Copy {
    var k := Completed(fault, |images|);
    Copy(CopiedFiles(es, images[..k]), Extracted(images[..k]), StepCalls(k, |images|),
      if Fails(fault, |images|) then Some(fault.value.cause) else None)
  }

  /**
   * The copy loop: write image `i` under its base name, remember that
   * path, and report its progress.
   */
  method CopyImages(es: seq<Entry>, images: seq<string>, fault: Option<Fault>) returns (c: Copy)
    ensures c == Copying(es, images, fault)
  {
    var n := |images|;
    var files: seq<ScratchFile> := [];
    var extracted: seq<seq<string>> := [];
    var calls: seq<Call> := [];
    for i := 0 to n
      invariant fault.Some? ==> fault.value.at >= i
      invariant files == CopiedFiles(es, images[..i])
      invariant extracted == Extracted(images[..i])
      invariant calls == StepCalls(i, n)
    {
      if fault.Some? && fault.value.at == i {
        return Copy(files, extracted, calls, Some(fault.value.cause));
      }
      var name := images[i];
      assert images[..i + 1][..i] == images[..i] && images[..i + 1][i] == name;
      var f := ScratchFile([BaseName(name)], EntryData(es, name));
      assert CopiedFiles(es, images[..i + 1]) == Put(CopiedFiles(es, images[..i]), f);
      files := Put(files, f);
      extracted := extracted + [[BaseName(name)]];
      calls := calls + [ReportProgress(StepProgress(10, 80, i + 1, n), 100)];
    }
    assert images[..n] == images;
    c := Copy(files, extracted, calls, None);
  }

  /** The image a scratch path holds when PIL opens it; every path opened was written by the copy loop. */
  function FileData(files: seq<ScratchFile>, rel: seq<string>): Blob {
    var i := Find(files, rel);
    if i >= 0 then files[i].data else Blob(0, 0)
  }

  /** The reference definition of the PIL loop: one page per extracted path, or PIL's error. */
  function Decoding(files: seq<ScratchFile>, extracted: seq<seq<string>>, fault: Option<Fault>): Result<seq<Blob>> {
    if Fails(fault, |extracted|) then Err(fault.value.cause)
    else Ok(seq(|extracted|, i requires 0 <= i < |extracted| => FileData(files, extracted[i])))
  }

  /** The PIL loop: open every extracted path in order and append its image to `pil_images`. */
  method DecodeImages(files: seq<ScratchFile>, extracted: seq<seq<string>>, fault: Option<Fault>) returns (r: Result<seq<Blob>>)
    ensures r == Decoding(files, extracted, fault)
  {
    var pages: seq<Blob> := [];
    for i := 0 to |extracted|
      invariant fault.Some? ==> fault.value.at >= i
      invariant pages == seq(i, j requires 0 <= j < i => FileData(files, extracted[j]))
    {
      if fault.Some? && fault.value.at == i {
        return Err(fault.value.cause);
      }
      pages := pages + [FileData(files, extracted[i])];
    }
    r := Ok(pages);
  }

  function ToPdfError(message: string): string {
    "Failed to convert CBZ to PDF: " + message
  }

  /**
   * The reference definition of the work inside the temporary directory:
   * open the CBZ, keep the image entries and sort them, copy them out,
   * open them with PIL and save them as one PDF, each error re-raised with
   * the "Failed to convert CBZ to PDF: " prefix; the PDF is written only
   * when saving succeeds.
   */
  function ImagesToPdf(es: seq<Entry>, lib: Library): Packing {
    var images := Sort(ImageNames(es));
    if lib.openArchive.Some? then
      Packing(None, [], Some(ToPdfError(lib.openArchive.value)))
    else if images == [] then
      Packing(None, [], Some(ToPdfError("No images found in CBZ archive.")))
    else
      var c := Copying(es, images, lib.read);
      var calls := [ReportStatus("Extracting images from CBZ...")] + c.calls;
      if c.error.Some? then
        Packing(None, calls, Some(ToPdfError(c.error.value)))
      else
        match Decoding(c.files, c.extracted, lib.decode)
        case Err(m) => Packing(None, calls, Some(ToPdfError(m)))
        case Ok(pages) =>
          var saving := calls + [ReportStatus("Converting images to PDF...")];
          if lib.save.Some? then
            Packing(None, saving, Some(ToPdfError(lib.save.value)))
          else
            Packing(Some(PdfDoc(pages, lib.savedSize)),
              saving + [ReportProgress(90, 100), ReportStatus("Creating PDF file..."),
                        ReportProgress(100, 100), ReportStatus("Cleaning up temporary files...")], None)
  }

  /** The reference definition of `convert_cbz_to_pdf` with its default ranges (images 10 to 80, then 90 and 100). */
  function CbzToPdfConversion(fs: FileSystem, lib: Library, cbz: Path, output: Option<Path>): Step {
    if cbz !in fs then
      Step(fs, [], Some("Source CBZ file not found: " + Str(cbz)))
    else if DetectFormat(fs, cbz) != Some(CBZ) then
      Step(fs, [], Some("File is not a valid CBZ archive: " + Str(cbz)))
    else
      match (if output.Some? then Ok(output.value) else WithSuffix(cbz, ".pdf"))
      case Err(m) => Step(fs, [], Some(m))
      case Ok(out) =>
        var pk := ImagesToPdf(fs[cbz].entries, lib);
        Step(Store(fs, out, pk.written), [ReportStatus("Processing " + Name(cbz) + "...")] + pk.calls, pk.error)
  }

  /** The steps inside the temporary directory, one after the other. */
  method WriteImagesAsPdf(es: seq<Entry>, lib: Library) returns (pk: Packing)
    ensures pk == ImagesToPdf(es, lib)
  {
    if lib.openArchive.Some? {
      return Packing(None, [], Some(ToPdfError(lib.openArchive.value)));
    }
    var images := ImageNames(es);
    images := Sort(images);
    if |images| == 0 {
      return Packing(None, [], Some(ToPdfError("No images found in CBZ archive.")));
    }
    var calls := [ReportStatus("Extracting images from CBZ...")];
    var c := CopyImages(es, images, lib.read);
    calls := calls + c.calls;
    if c.error.Some? {
      return Packing(None, calls, Some(ToPdfError(c.error.value)));
    }
    var decoded := DecodeImages(c.files, c.extracted, lib.decode);
    if decoded.Err? {
      return Packing(None, calls, Some(ToPdfError(decoded.message)));
    }
    calls := calls + [ReportStatus("Converting images to PDF...")];
    if lib.save.Some? {
      return Packing(None, calls, Some(ToPdfError(lib.save.value)));
    }
    calls := calls + [ReportProgress(90, 100), ReportStatus("Creating PDF file..."),
                      ReportProgress(100, 100), ReportStatus("Cleaning up temporary files...")];
    pk := Packing(Some(PdfDoc(decoded.value, lib.savedSize)), calls, None);
  }

  /**
   * `convert_cbz_to_pdf`: check the source before the `try`, report the
   * file being processed, then do the work inside the archive.
   */
  method ConvertCbzToPdf(fs: FileSystem, lib: Library, cbz: Path, output: Option<Path>) returns (st: Step)
    ensures st == CbzToPdfConversion(fs, lib, cbz, output)
  {
    if cbz !in fs {
      return Step(fs, [], Some("Source CBZ file not found: " + Str(cbz)));
    }
    if DetectFormat(fs, cbz) != Some(CBZ) {
      return Step(fs, [], Some("File is not a valid CBZ archive: " + Str(cbz)));
    }
    var out: Path;
    if output.Some? {
      out := output.value;
    } else {
      var r := WithSuffix(cbz, ".pdf");
      if r.Err? {
        return Step(fs, [], Some(r.message));
      }
      out := r.value;
    }
    var pk := WriteImagesAsPdf(fs[cbz].entries, lib);
    var fs' := fs;
    if pk.written.Some? {
      fs' := fs'[out := pk.written.value];
    }
    st := Step(fs', [ReportStatus("Processing " + Name(cbz) + "...")] + pk.calls, pk.error);
  }

  // ---------------------------------------------------------------------
  // `convert_file`.

  /** Where `convert_file` sends a (target, detected source) pair. */
  datatype Route = ToCbz | ToPdf | NoSource | Unsupported

  /**
   * The condition of `convert_file`, evaluated left to right: the target is
   * lowercased, and the detected format is uppercased only when the target
   * matched, which raises `AttributeError` when nothing was detected.
   */
  function RouteOf(target: string, source: Option<Format>): Route {
    if LowerEquals(target, "cbz") then
      if source.None? then NoSource else if source == Some(PDF) then ToCbz else Unsupported
    else if LowerEquals(target, "pdf") then
      if source.None? then NoSource else if source == Some(CBZ) then ToPdf else Unsupported
    else Unsupported
  }

  const NoSourceError := "'NoneType' object has no attribute 'upper'"
  const UnsupportedError := "Unsupported conversion type or file extension."

  /** The `try` block of `convert_file` up to the success check. */
  function Attempt(fs: FileSystem, lib: Library, original: Path, converted: Path, target: string): Step {
    match RouteOf(target, DetectFormat(fs, original))
    case NoSource => Step(fs, [], Some(NoSourceError))
    case Unsupported => Step(fs, [], Some(UnsupportedError))
    case ToCbz =>
      var st := PdfToCbzConversion(fs, lib, original, Some(converted));
      Step(st.fs, [ReportStatus("Initializing PDF converter...")] + st.calls, st.error)
    case ToPdf =>
      var st := CbzToPdfConversion(fs, lib, original, Some(converted));
      Step(st.fs, [ReportStatus("Initializing PDF converter...")] + st.calls, st.error)
  }

  /** The reference definition of `convert_file`: the converted path carries the lowercased target. */
  function FileConversion(fs: FileSystem, lib: Library, original: Path, target: string, deleteOriginal: bool): FileOutcome {
    match WithSuffix(original, "." + LowerStr(target))
    case Err(m) => Raised(m)
    case Ok(converted) =>
      var st := Attempt(fs, lib, original, converted, target);
      var (fs', r) := Finish(st.fs, lib, original, converted, deleteOriginal, st.error);
      Converted(fs', st.calls, r)
  }

  /**
   * `convert_file`: compute the converted path before the `try` (its
   * `ValueError` escapes), run the direction the pair selects, decide
   * success by the converted file's existence and delete the original on
   * success when asked; any error inside becomes the result's message.
   */
  method ConvertFile(fs: FileSystem, lib: Library, original: Path, target: string, deleteOriginal: bool)
    returns (o: FileOutcome)
    ensures o == FileConversion(fs, lib, original, target, deleteOriginal)
  {
    var path := WithSuffix(original, "." + LowerStr(target));
    if path.Err? {
      return Raised(path.message);
    }
    var converted := path.value;
    var success := false;
    var errorMessage := "";
    var fs' := fs;
    var calls: seq<Call> := [];
    var error: Option<string> := None;
    var route := RouteOf(target, DetectFormat(fs, original));
    if route == NoSource {
      error := Some(NoSourceError);
    } else if route == Unsupported {
      error := Some(UnsupportedError);
    } else {
      calls := [ReportStatus("Initializing PDF converter...")];
      var st: Step;
      if route == ToCbz {
        st := ConvertPdfToCbz(fs, lib, original, Some(converted));
      } else {
        st := ConvertCbzToPdf(fs, lib, original, Some(converted));
      }
      fs', calls, error := st.fs, calls + st.calls, st.error;
    }
    if error.None? {
      success := converted in fs';
      if success {
        if deleteOriginal {
          if lib.unlink.Some? {
            errorMessage := lib.unlink.value;
          } else {
            fs' := fs' - {original};
          }
        }
      } else {
        errorMessage := "Conversion failed: " + Str(converted) + " was not created.";
      }
    } else {
      errorMessage := error.value;
    }
    o := Converted(fs', calls, ConversionResult(Str(original), Str(converted), success, errorMessage));
  }

  // ---------------------------------------------------------------------
  // What `convert_file` promises.

  /**
   * Only (`cbz`, PDF) and (`pdf`, CBZ) proceed, the target compared
   * lowercased; an undetected file with one of those targets fails on
   * `None.upper()`; everything else, `cbr` included, is unsupported.
   */
  lemma RouteSpec(target: string, source: Option<Format>)
    ensures RouteOf(target, source) == ToCbz <==> LowerStr(target) == "cbz" && source == Some(PDF)
    ensures RouteOf(target, source) == ToPdf <==> LowerStr(target) == "pdf" && source == Some(CBZ)
    ensures RouteOf(target, source) == NoSource <==> LowerStr(target) in ["cbz", "pdf"] && source.None?
  {
    LowerEqualsMeans(target, "cbz");
    LowerEqualsMeans(target, "pdf");
  }

  lemma LowerKeepsSeparators(s: string)
    ensures LowerStr(s) == "" <==> s == ""
    ensures '/' in LowerStr(s) <==> '/' in s
  {
    if '/' in s {
      var i :| 0 <= i < |s| && s[i] == '/';
      assert LowerStr(s)[i] == '/';
    }
  }

  /**
   * `convert_file` raises only when `with_suffix` does, and otherwise
   * names the original and the original with its suffix replaced by `.`
   * and the lowercased target.
   */
  lemma FileConversionPaths(fs: FileSystem, lib: Library, original: Path, target: string, deleteOriginal: bool)
    ensures var o := FileConversion(fs, lib, original, target, deleteOriginal);
      (o.Raised? <==> target == "" || '/' in target || Name(original) == "") &&
      (o.Converted? ==> o.result.original == Str(original) &&
                        o.result.converted == Str(WithSuffix(original, "." + LowerStr(target)).value))
  {
    var t := LowerStr(target);
    WithSuffixFails(original, t);
    LowerKeepsSeparators(target);
    var conv := WithSuffix(original, "." + t);
    if conv.Ok? {
      var st := Attempt(fs, lib, original, conv.value, target);
      FinishSpec(st.fs, lib, original, conv.value, deleteOriginal, st.error);
      var (fs', r) := Finish(st.fs, lib, original, conv.value, deleteOriginal, st.error);
      assert FileConversion(fs, lib, original, target, deleteOriginal) == Converted(fs', st.calls, r);
    }
  }

  lemma TargetSuffixes()
    ensures LowerEquals(".pdf", ".pdf") && !LowerEquals(".cbz", ".pdf")
  {
    assert ".pdf"[1..] == "pdf" && "pdf"[1..] == "df" && "df"[1..] == "f" && "f"[1..] == "";
  }

  /** Giving a `.pdf` file the suffix `.cbz` changes its name. */
  lemma CbzNameDiffers(original: Path)
    requires Name(original) != "" && HasPdfSuffix(original)
    ensures WithSuffix(original, ".cbz").Ok? && WithSuffix(original, ".cbz").value != original
  {
    assert "." + "cbz" == ".cbz";
    WithSuffixFails(original, "cbz");
    assert WithSuffix(original, ".cbz").value != original by {
      if WithSuffix(original, ".cbz").value == original {
        WithSuffixFixed(original, "cbz");
        TargetSuffixes();
        assert false;
      }
    }
  }

  /** Giving a file without a `.pdf` suffix the suffix `.pdf` changes its name. */
  lemma PdfNameDiffers(original: Path)
    requires Name(original) != "" && !HasPdfSuffix(original)
    ensures WithSuffix(original, ".pdf").Ok? && WithSuffix(original, ".pdf").value != original
  {
    assert "." + "pdf" == ".pdf";
    WithSuffixFails(original, "pdf");
    assert WithSuffix(original, ".pdf").value != original by {
      if WithSuffix(original, ".pdf").value == original {
        WithSuffixFixed(original, "pdf");
        TargetSuffixes();
        assert false;
      }
    }
  }

  /**
   * Whenever a conversion runs, the converted path differs from the
   * original: the PDF converter never writes over its source, so deleting
   * the original never deletes the output (`Finish` and `FinishCorrected`
   * agree here, by `FinishAgrees`).
   */
  lemma NeverInPlace(fs: FileSystem, original: Path, target: string)
    requires Name(original) != ""
    requires RouteOf(target, DetectFormat(fs, original)) in {ToCbz, ToPdf}
    ensures WithSuffix(original, "." + LowerStr(target)).Ok?
    ensures WithSuffix(original, "." + LowerStr(target)).value != original
  {
    var t := LowerStr(target);
    if RouteOf(target, DetectFormat(fs, original)) == ToCbz {
      LowerEqualsMeans(target, "cbz");
      assert "." + t == ".cbz";
      CbzNameDiffers(original);
    } else {
      LowerEqualsMeans(target, "pdf");
      assert "." + t == ".pdf";
      PdfNameDiffers(original);
    }
  }

  /**
   * A pair that does not proceed fails with its error (the `None.upper()`
   * one or "Unsupported conversion type or file extension.") without
   * touching anything or reporting anything.
   */
  lemma RejectedPairFails(fs: FileSystem, lib: Library, original: Path, target: string, deleteOriginal: bool)
    requires RouteOf(target, DetectFormat(fs, original)) !in {ToCbz, ToPdf}
    ensures var o := FileConversion(fs, lib, original, target, deleteOriginal);
      o.Converted? ==>
        o.fs == fs && o.calls == [] && !o.result.success &&
        o.result.errorMessage == (if RouteOf(target, DetectFormat(fs, original)) == NoSource then NoSourceError else UnsupportedError)
  {
  }

  /**
   * The result reports success exactly when the conversion raised nothing
   * and the converted file exists; the converted file then still exists,
   * as it is never the original (`NeverInPlace`); a failure changes
   * nothing but what the conversion itself wrote.
   */
  lemma FileConversionSuccess(fs: FileSystem, lib: Library, original: Path, target: string, deleteOriginal: bool)
    requires WithSuffix(original, "." + LowerStr(target)).Ok?
    ensures var converted := WithSuffix(original, "." + LowerStr(target)).value;
      var st := Attempt(fs, lib, original, converted, target);
      var o := FileConversion(fs, lib, original, target, deleteOriginal);
      o.Converted? &&
      (o.result.success <==> st.error.None? && converted in st.fs) &&
      (o.result.success ==> converted in o.fs) &&
      (!o.result.success ==> o.fs == st.fs) &&
      o.calls == st.calls
  {
    var converted := WithSuffix(original, "." + LowerStr(target)).value;
    var st := Attempt(fs, lib, original, converted, target);
    FinishSpec(st.fs, lib, original, converted, deleteOriginal, st.error);
    if RouteOf(target, DetectFormat(fs, original)) in {ToCbz, ToPdf} {
      WithSuffixFails(original, LowerStr(target));
      NeverInPlace(fs, original, target);
    }
  }

  // ---------------------------------------------------------------------
  // Progress of the page and image loops.

  /**
   * Every loop report is out of 100, lies within [10, 80], never goes down
   * from one item to the next, and the last item of a finished loop
   * reports 80.
   */
  lemma StepCallsBounds(k: nat, n: nat)
    requires k <= n
    ensures forall i :: 0 <= i < k ==> StepCalls(k, n)[i].ReportProgress? && StepCalls(k, n)[i].total == 100 &&
                                       10 <= StepCalls(k, n)[i].current <= 80
    ensures forall i, j :: 0 <= i <= j < k ==> StepCalls(k, n)[i].current <= StepCalls(k, n)[j].current
    ensures k == n > 0 ==> StepCalls(k, n)[k - 1] == ReportProgress(80, 100)
  {
    forall i | 0 <= i < k
      ensures StepCalls(k, n)[i] == ReportProgress(StepProgress(10, 80, i + 1, n), 100)
    {
      StepCallsAt(k, n, i);
    }
    forall i | 0 <= i < k
      ensures 10 <= StepCalls(k, n)[i].current <= 80
    {
      StepProgressBounds(10, 80, i + 1, n);
    }
    forall i, j | 0 <= i <= j < k
      ensures StepCalls(k, n)[i].current <= StepCalls(k, n)[j].current
    {
      StepProgressMonotone(10, 80, i + 1, j + 1, n);
    }
    if k == n > 0 {
      StepProgressBounds(10, 80, n, n);
    }
  }

  // ---------------------------------------------------------------------
  // What the two directions promise.

  /** A log that ends with `(100, 100)` and then the clean-up status. */
  predicate EndsWithCleanUp(calls: seq<Call>) {
    |calls| >= 2 && calls[|calls| - 2] == ReportProgress(100, 100) &&
    calls[|calls| - 1] == ReportStatus("Cleaning up temporary files...")
  }

  lemma CleanUpLast(calls: seq<Call>)
    ensures EndsWithCleanUp(calls + [ReportProgress(100, 100), ReportStatus("Cleaning up temporary files...")])
  {
  }

  lemma CleanUpAfter(calls: seq<Call>, two: seq<Call>)
    requires |two| == 2
    ensures |calls + [two[0], two[1], ReportProgress(100, 100), ReportStatus("Cleaning up temporary files...")]| >= 4
    ensures EndsWithCleanUp(calls + [two[0], two[1], ReportProgress(100, 100), ReportStatus("Cleaning up temporary files...")])
  {
  }

  lemma CleanUpKept(front: seq<Call>, calls: seq<Call>)
    requires EndsWithCleanUp(calls)
    ensures EndsWithCleanUp(front + calls)
  {
    assert (front + calls)[|front + calls| - 2] == calls[|calls| - 2];
    assert (front + calls)[|front + calls| - 1] == calls[|calls| - 1];
  }

  /**
   * PDF to CBZ, when it fails: a missing or non-PDF source raises its own
   * message before anything is done or reported, and every later error carries the
   * "Failed to convert PDF to CBZ: " prefix.
   */
  lemma PdfToCbzFails(fs: FileSystem, lib: Library, pdf: Path, out: Path)
    ensures var st := PdfToCbzConversion(fs, lib, pdf, Some(out));
      (pdf !in fs || DetectFormat(fs, pdf) != Some(PDF) ==> st.fs == fs && st.calls == [] && st.error.Some?) &&
      (pdf !in fs ==> st.error == Some("Source PDF file not found: " + Str(pdf))) &&
      (pdf in fs && DetectFormat(fs, pdf) != Some(PDF) ==> st.error == Some("File is not a valid PDF: " + Str(pdf))) &&
      (st.calls != [] && st.error.Some? ==> "Failed to convert PDF to CBZ: " <= st.error.value)
  {
  }

  /**
   * `convert_file` of a missing `.pdf` file to `cbz` announces the PDF
   * converter, then fails with "Source PDF file not found: …", changing
   * nothing.
   */
  lemma MissingPdfNotFound(fs: FileSystem, lib: Library, pdf: Path, deleteOriginal: bool)
    requires pdf !in fs && HasPdfSuffix(pdf)
    ensures var o := FileConversion(fs, lib, pdf, "cbz", deleteOriginal);
      o.Converted? && o.fs == fs && o.calls == [ReportStatus("Initializing PDF converter...")] &&
      !o.result.success && o.result.errorMessage == "Source PDF file not found: " + Str(pdf)
  {
    RouteSpec("cbz", Some(PDF));
    LowerEqualsMeans("cbz", "cbz");
    assert LowerStr("cbz") == "cbz";
    assert "." + "cbz" == ".cbz";
    CbzNameDiffers(pdf);
  }

  /**
   * PDF to CBZ, when it succeeds: the source is a PDF document, the calls
   * open with "Processing ..." and `(10, 100)` and end with `(100, 100)`
   * and the clean-up status, and the only change is the output, now a ZIP
   * of the rasterised pages.
   */
  lemma PdfToCbzWrites(fs: FileSystem, lib: Library, pdf: Path, out: Path)
    requires PdfToCbzConversion(fs, lib, pdf, Some(out)).error.None?
    ensures pdf in fs && fs[pdf].PdfDoc?
    ensures var st := PdfToCbzConversion(fs, lib, pdf, Some(out));
      |st.calls| >= 5 &&
      st.calls[0] == ReportStatus("Processing " + Name(pdf) + "...") && st.calls[1] == ReportProgress(10, 100) &&
      EndsWithCleanUp(st.calls) &&
      st.fs == fs[out := ZipArchive(ArchiveEntries(PageFiles(fs[pdf].pages)))]
  {
    assert pdf in fs && DetectFormat(fs, pdf) == Some(PDF) && fs[pdf].PdfDoc?;
    var pages := fs[pdf].pages;
    var r := Rasterisation(pages, lib.render);
    assert r.error.None? && r.files == PageFiles(pages) by {
      assert pages[..|pages|] == pages;
    }
    var pk := PackZip(lib.tempDir, true, r.files, lib.packOpen, lib.pack, 90, 100);
    assert pk.error.None? && pk.written == Some(ZipArchive(ArchiveEntries(r.files))) by {
      assert r.files[..|r.files|] == r.files;
    }
    var opening := [ReportStatus("Processing " + Name(pdf) + "..."), ReportProgress(10, 100), ReportStatus("Extracting PDF pages...")];
    var front := opening + [ReportProgress(30, 100)] + r.calls +
                 [ReportProgress(90, 100), ReportStatus("Packing into CBZ archive...")] + pk.calls;
    CleanUpLast(front);
    assert PdfToCbzConversion(fs, lib, pdf, Some(out)).calls ==
           front + [ReportProgress(100, 100), ReportStatus("Cleaning up temporary files...")];
  }

  lemma SortedImagesCount(es: seq<Entry>)
    ensures |Sort(ImageNames(es))| == |ImageNames(es)|
  {
    SortSpec(ImageNames(es));
    assert |Sort(ImageNames(es))| == |multiset(Sort(ImageNames(es)))|;
  }

  /**
   * The work inside the archive, when it fails: the error carries the
   * "Failed to convert CBZ to PDF: " prefix and nothing is written; an
   * archive `zipfile` cannot open fails before any call, and an archive
   * without image entries fails with "No images found in CBZ
   * archive.".
   */
  lemma ImagesToPdfFails(es: seq<Entry>, lib: Library)
    ensures var pk := ImagesToPdf(es, lib);
      (pk.error.Some? ==> pk.written.None? && "Failed to convert CBZ to PDF: " <= pk.error.value) &&
      (lib.openArchive.Some? ==> pk.calls == [] && pk.error == Some(ToPdfError(lib.openArchive.value))) &&
      (lib.openArchive.None? && ImageNames(es) == [] ==> pk.error == Some(ToPdfError("No images found in CBZ archive.")))
  {
    var pk := ImagesToPdf(es, lib);
    var images := Sort(ImageNames(es));
    SortedImagesCount(es);
    if lib.openArchive.Some? {
    } else if images != [] {
      var c := Copying(es, images, lib.read);
      var calls := [ReportStatus("Extracting images from CBZ...")] + c.calls;
      if c.error.Some? {
        assert pk == Packing(None, calls, Some(ToPdfError(c.error.value)));
      } else {
        var d := Decoding(c.files, c.extracted, lib.decode);
        if d.Err? {
          assert pk == Packing(None, calls, Some(ToPdfError(d.message)));
        }
      }
    } else {
      assert pk.error == Some(ToPdfError("No images found in CBZ archive."));
    }
  }

  /**
   * The work inside the archive, when it succeeds: the PDF has the size
   * PIL wrote and one page per image entry, and the calls end with
   * `(100, 100)` and the clean-up status.
   */
  lemma ImagesToPdfWrites(es: seq<Entry>, lib: Library)
    requires ImagesToPdf(es, lib).error.None?
    ensures var pk := ImagesToPdf(es, lib);
      pk.written.Some? && pk.written.value == PdfDoc(pk.written.value.pages, lib.savedSize) &&
      |pk.written.value.pages| == |ImageNames(es)| > 0 && |pk.calls| >= 4 && EndsWithCleanUp(pk.calls)
  {
    var images := Sort(ImageNames(es));
    SortedImagesCount(es);
    ImagesToPdfDecodes(es, lib);
    var d := Decoding(CopiedFiles(es, images), Extracted(images), lib.decode);
    assert |d.value| == |images|;
    ImagesToPdfLog(es, lib);
  }

  lemma ImagesToPdfLog(es: seq<Entry>, lib: Library)
    requires ImagesToPdf(es, lib).error.None?
    ensures |ImagesToPdf(es, lib).calls| >= 4 && EndsWithCleanUp(ImagesToPdf(es, lib).calls)
  {
    var c := Copying(es, Sort(ImageNames(es)), lib.read);
    var saving := [ReportStatus("Extracting images from CBZ...")] + c.calls + [ReportStatus("Converting images to PDF...")];
    var creating := [ReportProgress(90, 100), ReportStatus("Creating PDF file...")];
    CleanUpAfter(saving, creating);
    assert ImagesToPdf(es, lib).calls ==
           saving + [creating[0], creating[1], ReportProgress(100, 100), ReportStatus("Cleaning up temporary files...")];
  }

  /** When the work inside the archive succeeds, the PDF holds what PIL decoded from the copied files. */
  lemma ImagesToPdfDecodes(es: seq<Entry>, lib: Library)
    requires ImagesToPdf(es, lib).error.None?
    ensures var images := Sort(ImageNames(es));
      var d := Decoding(CopiedFiles(es, images), Extracted(images), lib.decode);
      images != [] && d.Ok? && ImagesToPdf(es, lib).written == Some(PdfDoc(d.value, lib.savedSize))
  {
    var images := Sort(ImageNames(es));
    assert images[..|images|] == images;
  }

  /** A decoded page is the file at the matching extracted path. */
  lemma DecodingAt(files: seq<ScratchFile>, extracted: seq<seq<string>>, fault: Option<Fault>, j: nat)
    requires Decoding(files, extracted, fault).Ok? && j < |extracted|
    ensures |Decoding(files, extracted, fault).value| == |extracted|
    ensures Decoding(files, extracted, fault).value[j] == FileData(files, extracted[j])
  {
  }

  /** A source that is there and is a CBZ: report it, then do the work inside the archive. */
  lemma CbzToPdfRuns(fs: FileSystem, lib: Library, cbz: Path, out: Path)
    requires cbz in fs && DetectFormat(fs, cbz) == Some(CBZ)
    ensures var pk := ImagesToPdf(fs[cbz].entries, lib);
      CbzToPdfConversion(fs, lib, cbz, Some(out)) ==
      Step(Store(fs, out, pk.written), [ReportStatus("Processing " + Name(cbz) + "...")] + pk.calls, pk.error)
  {
  }

  /**
   * CBZ to PDF, when it fails: a missing or non-CBZ source raises its own
   * message before anything is done or reported; every later error carries the "Failed to
   * convert CBZ to PDF: " prefix; either way the file system is left as it
   * was.
   */
  lemma CbzToPdfFails(fs: FileSystem, lib: Library, cbz: Path, out: Path)
    ensures var st := CbzToPdfConversion(fs, lib, cbz, Some(out));
      (cbz !in fs || DetectFormat(fs, cbz) != Some(CBZ) ==> st.calls == [] && st.error.Some?) &&
      (cbz !in fs ==> st.error == Some("Source CBZ file not found: " + Str(cbz))) &&
      (cbz in fs && DetectFormat(fs, cbz) != Some(CBZ) ==> st.error == Some("File is not a valid CBZ archive: " + Str(cbz))) &&
      (st.error.Some? ==> st.fs == fs) &&
      (st.calls != [] && st.error.Some? ==> "Failed to convert CBZ to PDF: " <= st.error.value)
  {
    if cbz in fs && DetectFormat(fs, cbz) == Some(CBZ) {
      CbzToPdfRuns(fs, lib, cbz, out);
      ImagesToPdfFails(fs[cbz].entries, lib);
    }
  }

  /**
   * CBZ to PDF, when it succeeds: the source is a ZIP, the only change is
   * the output, a PDF with one page per image entry, and the calls open
   * with "Processing ..." and end with `(100, 100)` and the clean-up
   * status.
   */
  lemma CbzToPdfWrites(fs: FileSystem, lib: Library, cbz: Path, out: Path)
    requires CbzToPdfConversion(fs, lib, cbz, Some(out)).error.None?
    ensures cbz in fs && fs[cbz].ZipArchive?
    ensures var st := CbzToPdfConversion(fs, lib, cbz, Some(out));
      |st.calls| >= 5 &&
      st.calls[0] == ReportStatus("Processing " + Name(cbz) + "...") && EndsWithCleanUp(st.calls) &&
      out in st.fs && st.fs == fs[out := st.fs[out]] &&
      st.fs[out] == PdfDoc(st.fs[out].pages, lib.savedSize) &&
      |st.fs[out].pages| == |ImageNames(fs[cbz].entries)| > 0
  {
    assert cbz in fs && DetectFormat(fs, cbz) == Some(CBZ);
    DetectArchive(fs, cbz);
    CbzToPdfRuns(fs, lib, cbz, out);
    ImagesToPdfWrites(fs[cbz].entries, lib);
    CleanUpKept([ReportStatus("Processing " + Name(cbz) + "...")], ImagesToPdf(fs[cbz].entries, lib).calls);
  }

  // ---------------------------------------------------------------------
  // Writing into the scratch directory by name.

  /** After a write, reading its path gives what was written. */
  lemma FileDataPut(files: seq<ScratchFile>, f: ScratchFile)
    ensures FileData(Put(files, f), f.rel) == f.data
  {
    var i := Find(files, f.rel);
    var r := Put(files, f);
    FindIsLast(files, f.rel);
    FindIsLast(r, f.rel);
    if i >= 0 {
      assert r[i] == f;
      assert forall j :: i < j < |r| ==> r[j] == files[j];
      assert Find(r, f.rel) >= i;
    } else {
      assert r[|files|] == f;
    }
  }

  /** A write leaves every other path reading as before. */
  lemma FileDataPutOther(files: seq<ScratchFile>, f: ScratchFile, rel: seq<string>)
    requires rel != f.rel
    ensures FileData(Put(files, f), rel) == FileData(files, rel)
  {
    var i := Find(files, f.rel);
    var r := Put(files, f);
    var a, b := Find(files, rel), Find(r, rel);
    FindIsLast(files, rel);
    FindIsLast(r, rel);
    if i >= 0 {
      assert forall j :: 0 <= j < |r| ==> (r[j].rel == rel <==> files[j].rel == rel);
      assert forall j :: 0 <= j < |r| && j != i ==> r[j] == files[j];
    } else {
      assert forall j :: 0 <= j < |files| ==> r[j] == files[j];
    }
    if a >= 0 && b >= 0 {
      assert a == b;
    }
  }

  /**
   * An image whose base name no later image shares is what the copy loop
   * leaves under that base name.
   */
  lemma {:induction false} CopiedFilesLast(es: seq<Entry>, images: seq<string>, m: nat)
    requires m < |images|
    requires forall k :: m < k < |images| ==> BaseName(images[k]) != BaseName(images[m])
    ensures FileData(CopiedFiles(es, images), [BaseName(images[m])]) == EntryData(es, images[m])
  {
    var n := |images|;
    var init := images[..n - 1];
    var f := ScratchFile([BaseName(images[n - 1])], EntryData(es, images[n - 1]));
    if m == n - 1 {
      FileDataPut(CopiedFiles(es, init), f);
    } else {
      CopiedFilesLast(es, init, m);
      assert init[m] == images[m];
      FileDataPutOther(CopiedFiles(es, init), f, [BaseName(images[m])]);
    }
  }

  /**
   * Page `j` of the PDF is the image written last under the base name of
   * the `j`-th sorted image: images in different folders with the same
   * file name all become copies of the one that sorts last.
   */
  lemma PagesFollowBaseNames(es: seq<Entry>, lib: Library, j: nat, m: nat)
    requires ImagesToPdf(es, lib).error.None?
    requires var images := Sort(ImageNames(es));
      j < |images| && m < |images| && BaseName(images[m]) == BaseName(images[j]) &&
      forall k :: m < k < |images| ==> BaseName(images[k]) != BaseName(images[j])
    ensures var written := ImagesToPdf(es, lib).written;
      written.Some? && written.value.PdfDoc? && j < |written.value.pages| &&
      written.value.pages[j] == EntryData(es, Sort(ImageNames(es))[m])
  {
    var images := Sort(ImageNames(es));
    ImagesToPdfDecodes(es, lib);
    DecodingAt(CopiedFiles(es, images), Extracted(images), lib.decode, j);
    ExtractedAt(images, j);
    CopiedFilesLast(es, images, m);
  }

  /** With distinct base names, page `j` of the PDF is the `j`-th image in sorted order. */
  lemma PagesAreSortedImages(es: seq<Entry>, lib: Library, j: nat)
    requires ImagesToPdf(es, lib).error.None?
    requires var images := Sort(ImageNames(es));
      j < |images| && forall a, b :: 0 <= a < b < |images| ==> BaseName(images[a]) != BaseName(images[b])
    ensures var written := ImagesToPdf(es, lib).written;
      written.Some? && written.value.PdfDoc? && j < |written.value.pages| &&
      written.value.pages[j] == EntryData(es, Sort(ImageNames(es))[j])
  {
    var images := Sort(ImageNames(es));
    assert forall k :: j < k < |images| ==> BaseName(images[k]) != BaseName(images[j]);
    PagesFollowBaseNames(es, lib, j, j);
  }

  // ---------------------------------------------------------------------
  // Page order survives the round trip through a CBZ.

  /** `page_001.png`, ..., the names of pages 1 to n. */
  function PageNames(n: nat): (r: seq<string>)
    ensures |r| == n
  {
    seq(n, i requires 0 <= i < n => PageName(i + 1))
  }

  /** No name occurs twice. */
  predicate DistinctNames(names: seq<string>) {
    forall i, j :: 0 <= i < j < |names| ==> names[i] != names[j]
  }

  /** Every name is an image name without folders, hence its own base name. */
  predicate PlainImages(names: seq<string>) {
    names != [] ==>
      var last := names[|names| - 1];
      PlainImages(names[..|names| - 1]) && IsImageName(last) && BaseName(last) == last
  }

  lemma {:induction false} PlainImagesAt(names: seq<string>, i: nat)
    requires PlainImages(names) && i < |names|
    ensures IsImageName(names[i]) && BaseName(names[i]) == names[i]
  {
    if i < |names| - 1 {
      PlainImagesAt(names[..|names| - 1], i);
    }
  }

  /** The scratch files `names[i]` holding `pages[i]`, in order. */
  function NamedFiles(names: seq<string>, pages: seq<Blob>): (r: seq<ScratchFile>)
    requires |names| == |pages|
    ensures |r| == |pages|
  {
    seq(|pages|, i requires 0 <= i < |pages| => ScratchFile([names[i]], pages[i]))
  }

  /** The archive entries `names[i]` holding `pages[i]`, in order. */
  function NamedEntries(names: seq<string>, pages: seq<Blob>): (r: seq<Entry>)
    requires |names| == |pages|
    ensures |r| == |pages|
  {
    seq(|pages|, i requires 0 <= i < |pages| => Entry(names[i], pages[i]))
  }

  /** The scratch directory holding page `i + 1` of `pages` under its page name, in page order. */
  function PageScratch(pages: seq<Blob>): seq<ScratchFile> {
    NamedFiles(PageNames(|pages|), pages)
  }

  /** The entries of the CBZ made from `pages`: page `i + 1` stored under its page name. */
  function PageEntries(pages: seq<Blob>): seq<Entry> {
    NamedEntries(PageNames(|pages|), pages)
  }

  /** The page number written in a page name holds neither a dot nor a separator. */
  lemma PageDigits(k: nat)
    requires 1 <= k <= 999
    ensures '.' !in Pad3(NatStr(k)) && '/' !in Pad3(NatStr(k))
  {
    ThreeDigits(k);
    DecimalDigits(k);
    DigitCode(k / 100);
    DigitCode(k / 10 % 10);
    DigitCode(k % 10);
  }

  /** `PurePosixPath(name)` for a name without separators is that single component. */
  lemma ParsePlainName(name: string)
    requires IsPart(name)
    ensures Parse(name) == Path(false, [name])
  {
    SplitNoSeparator(name);
    assert KeepParts([name]) == [name] by {
      assert KeepParts([name][1..]) == [];
    }
  }

  lemma PngIsImage(name: string)
    requires Suffix(name) == ".png"
    ensures LowerIn(Suffix(name), ImageExtensions)
  {
    assert ImageExtensions[2] == ".png";
    assert LowerStr(".png") == ".png";
    LowerInMeans(".png", ImageExtensions);
  }

  /** A page name is a plain file name ending in `.png`, hence an image name, and its own base name. */
  lemma PageNameIsImage(k: nat)
    requires 1 <= k <= 999
    ensures IsImageName(PageName(k)) && BaseName(PageName(k)) == PageName(k)
  {
    var digits := Pad3(NatStr(k));
    PageDigits(k);
    var stem := "page_" + digits;
    var name := PageName(k);
    assert name == stem + "." + "png";
    SuffixOfExtended(stem, "png");
    assert '/' !in name && name[0] == 'p';
    ParsePlainName(name);
    assert Name(Parse(name)) == name;
    PngIsImage(name);
  }

  /** Up to 999 pages, the sorted page names are in page order. */
  lemma PageNamesStrictlySorted(n: nat)
    requires n <= 999
    ensures StrictlySorted(PageNames(n))
  {
    forall i, j | 0 <= i < j < n
      ensures LexLess(PageNames(n)[i], PageNames(n)[j])
    {
      PageNameOrder(i + 1, j + 1);
    }
  }

  /**
   * Up to 999 pages, sorting the page names recovers page order whatever
   * order they were listed in.
   */
  lemma PageOrderRecovered(names: seq<string>, n: nat)
    requires n <= 999
    requires multiset(names) == multiset(PageNames(n))
    ensures Sort(names) == PageNames(n)
  {
    PageNamesStrictlySorted(n);
    SortRecovers(names, PageNames(n));
  }

  /** Up to 999 pages, the page names are distinct. */
  lemma PageNamesDistinct(n: nat)
    requires n <= 999
    ensures DistinctNames(PageNames(n))
  {
    var names := PageNames(n);
    forall i, j | 0 <= i < j < n
      ensures names[i] != names[j]
    {
      PageNamesDiffer(i + 1, j + 1);
    }
  }

  /** Up to 999 pages, the page names are image names without folders. */
  lemma {:induction false} PageNamesPlain(n: nat)
    requires n <= 999
    ensures PlainImages(PageNames(n))
  {
    if n > 0 {
      PageNamesPlain(n - 1);
      PageNamesSnoc(n);
      PageNameIsImage(n);
    }
  }

  /** The names of the first pages, with the next one after them. */
  lemma PageNamesSnoc(n: nat)
    requires 0 < n
    ensures PageNames(n)[..n - 1] == PageNames(n - 1)
    ensures PageNames(n)[n - 1] == PageName(n)
  {
  }

  /** Writing a path the directory does not hold adds the file last. */
  lemma PutNew(files: seq<ScratchFile>, f: ScratchFile)
    requires forall g :: g in files ==> g.rel != f.rel
    ensures Put(files, f) == files + [f]
  {
  }

  /** The files of the first names, with the next file added after them. */
  lemma NamedFilesSnoc(names: seq<string>, pages: seq<Blob>, k: nat)
    requires |names| == |pages| && 0 < k <= |pages|
    ensures NamedFiles(names[..k], pages[..k]) ==
            NamedFiles(names[..k - 1], pages[..k - 1]) + [ScratchFile([names[k - 1]], pages[k - 1])]
  {
  }

  /** With distinct names, no file before the `k`-th has its name. */
  lemma EarlierNamesDiffer(names: seq<string>, pages: seq<Blob>, k: nat)
    requires |names| == |pages| && 0 < k <= |pages| && DistinctNames(names)
    ensures forall g :: g in NamedFiles(names[..k - 1], pages[..k - 1]) ==> g.rel != [names[k - 1]]
  {
    var prev := NamedFiles(names[..k - 1], pages[..k - 1]);
    forall g | g in prev
      ensures g.rel != [names[k - 1]]
    {
      var j :| 0 <= j < |prev| && prev[j] == g;
      assert g.rel == [names[j]];
    }
  }

  /** Writing files under distinct names, one after another, adds each one last. */
  lemma NamedFilesNew(names: seq<string>, pages: seq<Blob>, k: nat)
    requires |names| == |pages| && 0 < k <= |pages| && DistinctNames(names)
    ensures Put(NamedFiles(names[..k - 1], pages[..k - 1]), ScratchFile([names[k - 1]], pages[k - 1])) ==
            NamedFiles(names[..k], pages[..k])
  {
    EarlierNamesDiffer(names, pages, k);
    PutNew(NamedFiles(names[..k - 1], pages[..k - 1]), ScratchFile([names[k - 1]], pages[k - 1]));
    NamedFilesSnoc(names, pages, k);
  }

  /** Up to 999 pages, every page is written to a new file, in page order. */
  lemma {:induction false} PageFilesInOrder(pages: seq<Blob>)
    requires |pages| <= 999
    ensures PageFiles(pages) == PageScratch(pages)
  {
    if pages != [] {
      var n := |pages|;
      var names := PageNames(n);
      PageFilesInOrder(pages[..n - 1]);
      PageNamesSnoc(n);
      PageNamesDistinct(n);
      NamedFilesNew(names, pages, n);
      assert names[..n] == names && pages[..n] == pages;
    }
  }

  /** Archiving named files stores each one under its name. */
  lemma NamedArchive(names: seq<string>, pages: seq<Blob>)
    requires |names| == |pages|
    ensures ArchiveEntries(NamedFiles(names, pages)) == NamedEntries(names, pages)
  {
  }

  lemma NamedEntriesPrefix(names: seq<string>, pages: seq<Blob>, k: nat)
    requires |names| == |pages| && k <= |pages|
    ensures NamedEntries(names, pages)[..k] == NamedEntries(names[..k], pages[..k])
  {
  }

  /** An image entry added last is listed last among the image names. */
  lemma ImageNamesSnoc(es: seq<Entry>)
    requires es != [] && IsImageName(es[|es| - 1].name)
    ensures ImageNames(es) == ImageNames(es[..|es| - 1]) + [es[|es| - 1].name]
  {
  }

  lemma LastSplit<T>(s: seq<T>)
    requires s != []
    ensures s == s[..|s| - 1] + [s[|s| - 1]]
  {
  }

  /** When every name is a plain image name, the image entries are all the entries, in order. */
  lemma {:induction false} NamedImages(names: seq<string>, pages: seq<Blob>)
    requires |names| == |pages| && PlainImages(names)
    ensures ImageNames(NamedEntries(names, pages)) == names
  {
    if pages != [] {
      var n := |pages|;
      var init, last := names[..n - 1], names[n - 1];
      var es := NamedEntries(names, pages);
      NamedImages(init, pages[..n - 1]);
      NamedEntriesPrefix(names, pages, n - 1);
      assert es[n - 1].name == last && IsImageName(last);
      ImageNamesSnoc(es);
      LastSplit(names);
    }
  }

  /** With distinct names, every entry is found under its own name. */
  lemma LookupNamed(names: seq<string>, pages: seq<Blob>, i: nat)
    requires |names| == |pages| && DistinctNames(names) && i < |pages|
    ensures EntryData(NamedEntries(names, pages), names[i]) == pages[i]
  {
    var es := NamedEntries(names, pages);
    assert es[i].name == names[i];
    LookupDistinct(es, i);
  }

  /**
   * Copying the first `k` of distinct plain image names writes each one to
   * a new file, in order.
   */
  lemma {:induction false} CopiedNamed(names: seq<string>, pages: seq<Blob>, k: nat)
    requires |names| == |pages| && k <= |pages| && DistinctNames(names) && PlainImages(names)
    ensures CopiedFiles(NamedEntries(names, pages), names[..k]) == NamedFiles(names[..k], pages[..k])
  {
    if k > 0 {
      var es := NamedEntries(names, pages);
      var f := ScratchFile([names[k - 1]], pages[k - 1]);
      assert CopiedFiles(es, names[..k]) == Put(CopiedFiles(es, names[..k - 1]), f) by {
        LookupNamed(names, pages, k - 1);
        PlainImagesAt(names, k - 1);
        assert names[..k][..k - 1] == names[..k - 1] && names[..k][k - 1] == names[k - 1];
      }
      CopiedNamed(names, pages, k - 1);
      NamedFilesNew(names, pages, k);
    }
  }

  /** With distinct names, the file at a name holds what was written under it. */
  lemma NamedFileData(names: seq<string>, pages: seq<Blob>, i: nat)
    requires |names| == |pages| && DistinctNames(names) && i < |pages|
    ensures FileData(NamedFiles(names, pages), [names[i]]) == pages[i]
  {
    var files := NamedFiles(names, pages);
    assert files[i].rel == [names[i]];
    var j := Find(files, [names[i]]);
    assert files[j].rel == [names[j]];
    assert j == i;
  }

  /** Opening the files of distinct plain image names in order gives their contents back. */
  lemma DecodedNamed(names: seq<string>, pages: seq<Blob>)
    requires |names| == |pages| && DistinctNames(names) && PlainImages(names)
    ensures Decoding(NamedFiles(names, pages), Extracted(names), None) == Ok(pages)
  {
    var files := NamedFiles(names, pages);
    var ex := Extracted(names);
    forall i | 0 <= i < |pages|
      ensures FileData(files, ex[i]) == pages[i]
    {
      ExtractedAt(names, i);
      PlainImagesAt(names, i);
      NamedFileData(names, pages, i);
    }
    var decoded := seq(|ex|, i requires 0 <= i < |ex| => FileData(files, ex[i]));
    assert decoded == pages;
  }

  /** Rasterising up to 999 pages without failure writes the CBZ of the page entries. */
  lemma PdfToPageArchive(fs: FileSystem, lib: Library, pdf: Path, cbz: Path)
    requires pdf in fs && HasPdfSuffix(pdf) && fs[pdf].PdfDoc? && |fs[pdf].pages| <= 999
    requires lib.render.None? && lib.packOpen.None? && lib.pack.None?
    ensures var st := PdfToCbzConversion(fs, lib, pdf, Some(cbz));
      st.error.None? && st.fs == fs[cbz := ZipArchive(PageEntries(fs[pdf].pages))]
  {
    var pages := fs[pdf].pages;
    var n := |pages|;
    PdfSuffixDecides(fs, pdf);
    assert pages[..n] == pages;
    PageFilesInOrder(pages);
    var r := Rasterisation(pages, None);
    assert r.files == PageScratch(pages);
    assert r.files[..n] == r.files;
    NamedArchive(PageNames(n), pages);
    assert PackZip(lib.tempDir, true, r.files, None, None, 90, 100).written == Some(ZipArchive(PageEntries(pages)));
  }

  /** With libraries that do not fail, the work inside the archive writes the PDF of the decoded copies. */
  lemma ImagesToPdfClean(es: seq<Entry>, lib: Library)
    requires lib.openArchive.None? && lib.read.None? && lib.decode.None? && lib.save.None? && Sort(ImageNames(es)) != []
    ensures var images := Sort(ImageNames(es));
      var d := Decoding(CopiedFiles(es, images), Extracted(images), None);
      var pk := ImagesToPdf(es, lib);
      d.Ok? && pk.error.None? && pk.written == Some(PdfDoc(d.value, lib.savedSize))
  {
    var images := Sort(ImageNames(es));
    assert images[..|images|] == images;
  }

  /** Copying all of distinct plain image names writes each one to a new file, in order. */
  lemma CopiedAllNamed(names: seq<string>, pages: seq<Blob>)
    requires |names| == |pages| && DistinctNames(names) && PlainImages(names)
    ensures CopiedFiles(NamedEntries(names, pages), names) == NamedFiles(names, pages)
  {
    CopiedNamed(names, pages, |pages|);
    assert names[..|pages|] == names && pages[..|pages|] == pages;
  }

  /** The CBZ of 1 to 999 page entries converts, without failure, to a PDF of exactly those pages. */
  lemma PageArchiveToPdf(pages: seq<Blob>, lib: Library)
    requires 1 <= |pages| <= 999
    requires lib.openArchive.None? && lib.read.None? && lib.decode.None? && lib.save.None?
    ensures ImagesToPdf(PageEntries(pages), lib).error.None?
    ensures ImagesToPdf(PageEntries(pages), lib).written == Some(PdfDoc(pages, lib.savedSize))
  {
    var n := |pages|;
    var names := PageNames(n);
    var es := PageEntries(pages);
    PageNamesDistinct(n);
    PageNamesPlain(n);
    NamedImages(names, pages);
    PageOrderRecovered(names, n);
    assert Sort(ImageNames(es)) == names;
    ImagesToPdfClean(es, lib);
    CopiedAllNamed(names, pages);
    DecodedNamed(names, pages);
  }

  /**
   * PDF to CBZ and back keeps every page in order: with 1 to 999 pages and
   * libraries that do not fail, the PDF written from the CBZ has exactly the
   * pages of the original PDF.
   */
  lemma PdfCbzRoundTrip(fs: FileSystem, lib: Library, pdf: Path, cbz: Path, out: Path)
    requires pdf in fs && HasPdfSuffix(pdf) && fs[pdf].PdfDoc? && 1 <= |fs[pdf].pages| <= 999
    requires !HasPdfSuffix(cbz)
    requires lib.render.None? && lib.packOpen.None? && lib.pack.None? && lib.openArchive.None? && lib.read.None? && lib.decode.None? && lib.save.None?
    ensures var st := PdfToCbzConversion(fs, lib, pdf, Some(cbz));
      st.error.None? && st.fs == fs[cbz := ZipArchive(PageEntries(fs[pdf].pages))] &&
      var back := CbzToPdfConversion(st.fs, lib, cbz, Some(out));
      back.error.None? && back.fs == st.fs[out := PdfDoc(fs[pdf].pages, lib.savedSize)]
  {
    PdfToPageArchive(fs, lib, pdf, cbz);
    var st := PdfToCbzConversion(fs, lib, pdf, Some(cbz));
    DetectArchive(st.fs, cbz);
    PageArchiveToPdf(fs[pdf].pages, lib);
  }
}
