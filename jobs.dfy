/**
 * What both processors share: the library behaviour one conversion meets,
 * the `(original_path, converted_path, success, error_message)` result, the
 * success-and-delete step that ends `convert_file`, and how `convert_batch`
 * forwards one file's callback calls to the batch's own callbacks.
 */
module Jobs {
  import opened Wrappers
  import opened Text
  import opened Paths
  import opened Formats
  import opened Progress
  import opened Helpers

  /** How the libraries behave during the conversion of one file. */
  datatype Library = Library(
    /** The directory `tempfile.TemporaryDirectory` creates. */
    tempDir: Path,
    /**
     * What `zipfile.ZipFile` / `rarfile.RarFile` raise when they cannot open
     * an archive whose signature `is_zipfile` / `is_rarfile` accepted.
     */
    openArchive: Option<string>,
    /** `zipfile` / `rarfile` while extracting entries. */
    extract: Option<Fault>,
    /** What `zipfile.ZipFile` raises when it cannot create the output archive. */
    packOpen: Option<string>,
    /** `zipfile` while writing the output archive. */
    pack: Option<Fault>,
    rar: RarTool,
    /** What PyMuPDF raises on a file it cannot open. */
    openError: string,
    /** PyMuPDF while rasterising and saving page `at`. */
    render: Option<Fault>,
    /** `zipfile` while copying image `at` out of a CBZ. */
    read: Option<Fault>,
    /** PIL while opening image `at`. */
    decode: Option<Fault>,
    /** PIL while writing the PDF. */
    save: Option<string>,
    /** The byte size of the PDF PIL writes. */
    savedSize: nat,
    /** What deleting the original raises, if it does. */
    unlink: Option<string>)

  /** The state after an operation that may raise: the file system, the callback calls made, the error raised. */
  datatype Step = Step(fs: FileSystem, calls: seq<Call>, error: Option<string>)

  /** The file system after packing: the archive written at the output path, if any. */
  function Store(fs: FileSystem, output: Path, written: Option<Content>): FileSystem {
    if written.Some? then fs[output := written.value] else fs
  }

  /** `(original_path, converted_path, success, error_message)`, paths as `str(path)`. */
  datatype ConversionResult = ConversionResult(original: string, converted: string, success: bool, errorMessage: string)

  /** A call of `convert_file`: it returns a result, or raises before its `try` block. */
  datatype FileOutcome =
    | Converted(fs: FileSystem, calls: seq<Call>, result: ConversionResult)
    | Raised(message: string)

  /**
   * The end of `convert_file`: a caught error gives failure; otherwise
   * success is whether the converted path exists, and on success the
   * original is deleted when asked, a failed delete keeping success but
   * setting the message. The original is deleted even when it is the
   * converted path itself.
   */
  function Finish(fs: FileSystem, lib: Library, original: Path, converted: Path, deleteOriginal: bool, error: Option<string>)
    : (FileSystem, ConversionResult)
  {
    var orig, conv := Str(original), Str(converted);
    if error.Some? then (fs, ConversionResult(orig, conv, false, error.value))
    else if converted !in fs then (fs, ConversionResult(orig, conv, false, "Conversion failed: " + conv + " was not created."))
    else if !deleteOriginal then (fs, ConversionResult(orig, conv, true, ""))
    else if lib.unlink.Some? then (fs, ConversionResult(orig, conv, true, lib.unlink.value))
    else (fs - {original}, ConversionResult(orig, conv, true, ""))
  }

  /**
   * The same step with the original kept when it is the converted file
   * itself: the conversion wrote its output over the original, and deleting
   * "the original" would delete the output just reported as created.
   */
  function FinishCorrected(fs: FileSystem, lib: Library, original: Path, converted: Path, deleteOriginal: bool, error: Option<string>)
    : (FileSystem, ConversionResult)
  {
    var orig, conv := Str(original), Str(converted);
    if error.Some? then (fs, ConversionResult(orig, conv, false, error.value))
    else if converted !in fs then (fs, ConversionResult(orig, conv, false, "Conversion failed: " + conv + " was not created."))
    else if !deleteOriginal || original == converted then (fs, ConversionResult(orig, conv, true, ""))
    else if lib.unlink.Some? then (fs, ConversionResult(orig, conv, true, lib.unlink.value))
    else (fs - {original}, ConversionResult(orig, conv, true, ""))
  }

  /**
   * Success exactly when no error was caught and the converted file exists;
   * the only change is deleting the original, on success and when asked,
   * which leaves the converted file in place unless it is the original; a
   * failed delete keeps success and reports its message; the result names
   * both paths.
   */
  lemma FinishSpec(fs: FileSystem, lib: Library, original: Path, converted: Path, deleteOriginal: bool, error: Option<string>)
    ensures var (fs', r) := Finish(fs, lib, original, converted, deleteOriginal, error);
      r.original == Str(original) && r.converted == Str(converted) &&
      (r.success <==> error.None? && converted in fs) &&
      (r.success && (!deleteOriginal || original != converted || lib.unlink.Some?) ==> converted in fs') &&
      (!r.success ==> fs' == fs) &&
      (error.None? && converted !in fs ==> r.errorMessage == "Conversion failed: " + Str(converted) + " was not created.") &&
      (fs' == fs || (r.success && deleteOriginal && lib.unlink.None? && fs' == fs - {original})) &&
      (r.success && deleteOriginal && lib.unlink.None? ==> original !in fs') &&
      (r.success && deleteOriginal && lib.unlink.Some? ==> r.errorMessage == lib.unlink.value) &&
      (r.success && !(deleteOriginal && lib.unlink.Some?) ==> r.errorMessage == "") &&
      (error.Some? ==> r.errorMessage == error.value)
  {
  }

  /** A conversion in place that deletes the original reports success with no file left. */
  lemma FinishInPlaceLosesOutput(fs: FileSystem, lib: Library, p: Path)
    requires p in fs && lib.unlink.None?
    ensures var (fs', r) := Finish(fs, lib, p, p, true, None);
      r.success && r.errorMessage == "" && p !in fs'
  {
  }

  /**
   * The corrected step: as `Finish`, except that the converted file always
   * exists after a success, and the original is deleted only when it is
   * not the converted file.
   */
  lemma FinishCorrectedSpec(fs: FileSystem, lib: Library, original: Path, converted: Path, deleteOriginal: bool, error: Option<string>)
    ensures var (fs', r) := FinishCorrected(fs, lib, original, converted, deleteOriginal, error);
      r.original == Str(original) && r.converted == Str(converted) &&
      (r.success <==> error.None? && converted in fs) &&
      (r.success ==> converted in fs') &&
      (!r.success ==> fs' == fs) &&
      (error.None? && converted !in fs ==> r.errorMessage == "Conversion failed: " + Str(converted) + " was not created.") &&
      (fs' == fs || (r.success && deleteOriginal && original != converted && fs' == fs - {original})) &&
      (r.success && deleteOriginal && original != converted && lib.unlink.None? ==> original !in fs') &&
      (error.Some? ==> r.errorMessage == error.value)
  {
  }

  /** Where the original is not the output, the corrected step is the step as written. */
  lemma FinishAgrees(fs: FileSystem, lib: Library, original: Path, converted: Path, deleteOriginal: bool, error: Option<string>)
    requires original != converted
    ensures FinishCorrected(fs, lib, original, converted, deleteOriginal, error) == Finish(fs, lib, original, converted, deleteOriginal, error)
  {
  }

  // ---------------------------------------------------------------------
  // Forwarding one file's calls in `convert_batch`.

  /** `"File {idx + 1}/{total_files}: "`. */
  function FilePrefix(idx: nat, total: nat): string {
    "File " + NatStr(idx + 1) + "/" + NatStr(total) + ": "
  }

  /**
   * The calls the batch's callbacks receive when file `idx` of `total` makes
   * `calls`: progress goes through the per-file normaliser (nothing when the
   * converter has no progress callback), status messages get the file
   * prefix (nothing when the batch has no status callback).
   */
  function Forward(calls: seq<Call>, idx: nat, total: nat, hasProgress: bool, hasStatus: bool): seq<Call> {
    if calls == [] then []
    else
      var first := match calls[0]
        case ReportProgress(c, t) => Normalise(hasProgress, c, t, idx == total - 1)
        case ReportStatus(m) => if hasStatus then [ReportStatus(FilePrefix(idx, total) + m)] else [];
      first + Forward(calls[1..], idx, total, hasProgress, hasStatus)
  }

  /** The messages of the status calls, in order. */
  function Statuses(calls: seq<Call>): seq<string> {
    if calls == [] then []
    else (if calls[0].ReportStatus? then [calls[0].message] else []) + Statuses(calls[1..])
  }

  /** The values of the progress calls, in order. */
  function Percents(calls: seq<Call>): seq<int> {
    if calls == [] then []
    else (if calls[0].ReportProgress? then [calls[0].current] else []) + Percents(calls[1..])
  }

  function Prefixed(prefix: string, ms: seq<string>): (r: seq<string>)
    ensures |r| == |ms|
    ensures forall i :: 0 <= i < |ms| ==> r[i] == prefix + ms[i]
  {
    if ms == [] then [] else [prefix + ms[0]] + Prefixed(prefix, ms[1..])
  }

  /**
   * Forwarding keeps every status message, in order, behind the file's
   * prefix, and sends every progress call on out of 100, within 0..100, and
   * never at 100 unless the file is the last one.
   */
  lemma {:induction false} ForwardSpec(calls: seq<Call>, idx: nat, total: nat, hasProgress: bool, hasStatus: bool)
    ensures var f := Forward(calls, idx, total, hasProgress, hasStatus);
      Statuses(f) == (if hasStatus then Prefixed(FilePrefix(idx, total), Statuses(calls)) else []) &&
      (forall c :: c in f && c.ReportProgress? ==> c.total == 100 && 0 <= c.current <= 100 && (idx != total - 1 ==> c.current != 100)) &&
      (!hasProgress ==> Percents(f) == [])
  {
    if calls != [] {
      var rest := Forward(calls[1..], idx, total, hasProgress, hasStatus);
      ForwardSpec(calls[1..], idx, total, hasProgress, hasStatus);
      match calls[0]
      case ReportProgress(c, t) =>
        var first := Normalise(hasProgress, c, t, idx == total - 1);
        StatusesAppend(first, rest);
        PercentsAppend(first, rest);
        if hasProgress {
          assert first == [ReportProgress(PerFilePercent(c, t, idx == total - 1), 100)];
        }
      case ReportStatus(m) =>
        var first := if hasStatus then [ReportStatus(FilePrefix(idx, total) + m)] else [];
        StatusesAppend(first, rest);
        PercentsAppend(first, rest);
    }
  }

  lemma {:induction false} StatusesAppend(a: seq<Call>, b: seq<Call>)
    ensures Statuses(a + b) == Statuses(a) + Statuses(b)
  {
    if a != [] {
      assert (a + b)[1..] == a[1..] + b;
      StatusesAppend(a[1..], b);
    } else {
      assert a + b == b;
    }
  }

  lemma {:induction false} PercentsAppend(a: seq<Call>, b: seq<Call>)
    ensures Percents(a + b) == Percents(a) + Percents(b)
  {
    if a != [] {
      assert (a + b)[1..] == a[1..] + b;
      PercentsAppend(a[1..], b);
    } else {
      assert a + b == b;
    }
  }
}
