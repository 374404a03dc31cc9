/**
 * `ArchiveArchiveConverter` (arc_conv_cb_proc.py): CBR to CBZ and CBZ to
 * CBR by extracting into a scratch directory and packing it again.
 */
module ArchiveProcessor {
  import opened Wrappers
  import opened Text
  import opened Paths
  import opened Formats
  import opened Progress
  import opened Helpers
  import opened Jobs

  /** An entry of `FORMAT_MAP`: how to extract the source, how to pack the target, and the target. */
  datatype Plan = Plan(extract: Kind, create: Kind, targetSuffix: string, target: Format)

  /** `FORMAT_MAP`; PDF is not a key. */
  function FormatMap(f: Format): Option<Plan> {
    match f
    case CBR => Some(Plan(Rar, Zip, ".cbz", CBZ))
    case CBZ => Some(Plan(Zip, Rar, ".cbr", CBR))
    case PDF => None
  }

  /**
   * The map pairs the two archive formats: each converts to the other, the
   * target is packed the way the other one is extracted, and the suffix
   * names the target.
   */
  lemma FormatMapPairs(f: Format)
    requires f != PDF
    ensures FormatMap(f).Some?
    ensures var p := FormatMap(f).value;
      p.target != f && p.target != PDF && FormatMap(p.target).value.target == f &&
      FormatMap(p.target).value.extract == p.create && FormatMap(p.target).value.create == p.extract &&
      p.targetSuffix == (if p.target == CBZ then ".cbz" else ".cbr")
  {
  }

  function Wrap(source: Format, target: Format, message: string): string {
    "Failed to convert " + Tag(source) + " to " + Tag(target) + ": " + message
  }

  /** The packing step of a plan, on the extracted files. */
  function Pack(plan: Plan, lib: Library, files: seq<ScratchFile>): Packing {
    match plan.create
    case Zip => PackZip(lib.tempDir, true, files, lib.packOpen, lib.pack, 60, 90)
    case Rar => PackRar(files, lib.rar, 60, 90)
  }

  /**
   * The reference definition of `convert_archive` with its default
   * progress ranges (extract 10 to 60, create 60 to 90).
   */
  function ArchiveConversion(fs: FileSystem, lib: Library, source: Path, format: Format, output: Option<Path>): Step {
    if FormatMap(format).None? then
      Step(fs, [], Some("'" + Tag(format) + "'"))
    else if source !in fs then
      Step(fs, [], Some("Source " + Tag(format) + " file not found: " + Str(source)))
    else if DetectFormat(fs, source) != Some(format) then
      Step(fs, [], Some("File is not a valid " + Tag(format) + " archive: " + Str(source)))
    else
      var plan := FormatMap(format).value;
      match (if output.Some? then Ok(output.value) else WithSuffix(source, plan.targetSuffix))
      case Err(m) => Step(fs, [], Some(m))
      case Ok(out) =>
        var opening := [ReportStatus("Extracting " + Tag(format) + " archive..."), ReportProgress(10, 100)];
        var x := Extract(plan.extract, fs[source].entries, lib.openArchive, lib.extract);
        if x.error.Some? then
          Step(fs, opening + x.calls, Some(Wrap(format, plan.target, x.error.value)))
        else
          var middle := opening + x.calls + [ReportProgress(60, 100), ReportStatus("Converting format...")];
          var pk := Pack(plan, lib, x.files);
          var fs' := Store(fs, out, pk.written);
          if pk.error.Some? then
            Step(fs', middle + pk.calls, Some(Wrap(format, plan.target, pk.error.value)))
          else
            Step(fs', middle + pk.calls + [ReportStatus("Packing into " + Tag(plan.target) + " archive..."),
              ReportStatus("Cleaning up temporary files..."), ReportProgress(100, 100)], None)
  }

  /**
   * `convert_archive`: check that the source exists and is still detected
   * as `format`, then extract it into the scratch directory and pack that
   * into the output, reporting progress and status along the way; an error
   * inside the `try` is re-raised as "Failed to convert X to Y: ...".
   */
  method ConvertArchive(fs: FileSystem, lib: Library, source: Path, format: Format, output: Option<Path>)
    returns (st: Step)
    ensures st == ArchiveConversion(fs, lib, source, format, output)
  {
    var entry := FormatMap(format);
    if entry.None? {
      return Step(fs, [], Some("'" + Tag(format) + "'"));
    }
    var plan := entry.value;
    if source !in fs {
      return Step(fs, [], Some("Source " + Tag(format) + " file not found: " + Str(source)));
    }
    if DetectFormat(fs, source) != Some(format) {
      return Step(fs, [], Some("File is not a valid " + Tag(format) + " archive: " + Str(source)));
    }
    var out: Path;
    if output.Some? {
      out := output.value;
    } else {
      var r := WithSuffix(source, plan.targetSuffix);
      if r.Err? {
        return Step(fs, [], Some(r.message));
      }
      out := r.value;
    }
    var calls := [ReportStatus("Extracting " + Tag(format) + " archive..."), ReportProgress(10, 100)];
    var x := ExtractArchive(plan.extract, fs[source].entries, lib.openArchive, lib.extract);
    calls := calls + x.calls;
    if x.error.Some? {
      return Step(fs, calls, Some(Wrap(format, plan.target, x.error.value)));
    }
    calls := calls + [ReportProgress(60, 100), ReportStatus("Converting format...")];
    var pk: Packing;
    if plan.create == Zip {
      pk := CreateZipArchive(lib.tempDir, true, x.files, lib.packOpen, lib.pack, 60, 90);
    } else {
      pk := PackRar(x.files, lib.rar, 60, 90);
    }
    var fs' := fs;
    if pk.written.Some? {
      fs' := fs'[out := pk.written.value];
    }
    calls := calls + pk.calls;
    if pk.error.Some? {
      return Step(fs', calls, Some(Wrap(format, plan.target, pk.error.value)));
    }
    calls := calls + [ReportStatus("Packing into " + Tag(plan.target) + " archive..."),
      ReportStatus("Cleaning up temporary files..."), ReportProgress(100, 100)];
    st := Step(fs', calls, None);
  }

  // ---------------------------------------------------------------------
  // `convert_file`.

  /** The (target, detected source) pairs `convert_file` accepts; the target is compared as given. */
  predicate Supported(target: string, source: Option<Format>) {
    (target == "cbz" && source == Some(CBR)) || (target == "cbr" && source == Some(CBZ))
  }

  /** The `try` block of `convert_file` up to the success check. */
  function Attempt(fs: FileSystem, lib: Library, original: Path, converted: Path, target: string): Step {
    var source := DetectFormat(fs, original);
    if Supported(target, source) then
      var st := ArchiveConversion(fs, lib, original, source.value, Some(converted));
      Step(st.fs, [ReportStatus("Processing " + Name(original) + "...")] + st.calls, st.error)
    else
      Step(fs, [], Some("Unsupported conversion type or file extension."))
  }

  /** The reference definition of `convert_file`. */
  function FileConversion(fs: FileSystem, lib: Library, original: Path, target: string, deleteOriginal: bool): FileOutcome {
    match WithSuffix(original, "." + target)
    case Err(m) => Raised(m)
    case Ok(converted) =>
      var st := Attempt(fs, lib, original, converted, target);
      var (fs', r) := Finish(st.fs, lib, original, converted, deleteOriginal, st.error);
      Converted(fs', st.calls, r)
  }

  /** `convert_file` with the corrected final step, which keeps an original that is the converted file. */
  function FileConversionCorrected(fs: FileSystem, lib: Library, original: Path, target: string, deleteOriginal: bool): FileOutcome {
    match WithSuffix(original, "." + target)
    case Err(m) => Raised(m)
    case Ok(converted) =>
      var st := Attempt(fs, lib, original, converted, target);
      var (fs', r) := FinishCorrected(st.fs, lib, original, converted, deleteOriginal, st.error);
      Converted(fs', st.calls, r)
  }

  /**
   * `convert_file`: compute the converted path before the `try` (its
   * `ValueError` escapes), convert a supported pair, decide success by the
   * converted file's existence, and delete the original on success when
   * asked (even when it is the converted file); any error inside becomes
   * the result's message.
   */
  method ConvertFile(fs: FileSystem, lib: Library, original: Path, target: string, deleteOriginal: bool)
    returns (o: FileOutcome)
    ensures o == FileConversion(fs, lib, original, target, deleteOriginal)
  {
    var path := WithSuffix(original, "." + target);
    if path.Err? {
      return Raised(path.message);
    }
    var converted := path.value;
    var success := false;
    var errorMessage := "";
    var fs' := fs;
    var calls: seq<Call> := [];
    var error: Option<string> := None;
    var source := DetectFormat(fs, original);
    if Supported(target, source) {
      calls := [ReportStatus("Processing " + Name(original) + "...")];
      var st := ConvertArchive(fs, lib, original, source.value, Some(converted));
      fs', calls, error := st.fs, calls + st.calls, st.error;
    } else {
      error := Some("Unsupported conversion type or file extension.");
    }
    if error.None? {
      success := converted in fs';
      if success {
        if deleteOriginal {
          if lib.unlink.Some? {
            errorMessage := lib.unlink.value;
          } else {
            fs' := fs' - {original};
          }
        }
      } else {
        errorMessage := "Conversion failed: " + Str(converted) + " was not created.";
      }
    } else {
      errorMessage := error.value;
    }
    o := Converted(fs', calls, ConversionResult(Str(original), Str(converted), success, errorMessage));
  }

  // ---------------------------------------------------------------------
  // What `convert_archive` and `convert_file` promise.

  /**
   * A failed precondition of `convert_archive` (no plan, no file, or a
   * different format) raises its own message before anything is done or
   * reported (the missing plan is the `KeyError` of the opening log line,
   * whose text is the quoted key); an error
   * after that carries the "Failed to convert X to Y: " prefix; on success
   * the calls open with the extraction status and `(10, 100)` and end with
   * `(100, 100)`, and the only change is the output, now an archive of the
   * target format.
   */
  lemma ArchiveConversionSpec(fs: FileSystem, lib: Library, source: Path, format: Format, out: Path)
    ensures var st := ArchiveConversion(fs, lib, source, format, Some(out));
      (format == PDF || source !in fs || DetectFormat(fs, source) != Some(format) ==>
        st.fs == fs && st.calls == [] && st.error.Some?) &&
      (format == PDF ==> st.error == Some("'PDF'")) &&
      (format != PDF && source !in fs ==> st.error == Some("Source " + Tag(format) + " file not found: " + Str(source))) &&
      (format != PDF && source in fs && DetectFormat(fs, source) != Some(format) ==>
        st.error == Some("File is not a valid " + Tag(format) + " archive: " + Str(source))) &&
      (st.calls != [] && st.error.Some? ==>
        format != PDF && "Failed to convert " + Tag(format) + " to " + Tag(FormatMap(format).value.target) + ": " <= st.error.value) &&
      (st.error.None? ==>
        format != PDF && |st.calls| >= 3 &&
        st.calls[0] == ReportStatus("Extracting " + Tag(format) + " archive...") && st.calls[1] == ReportProgress(10, 100) &&
        st.calls[|st.calls| - 1] == ReportProgress(100, 100) &&
        out in st.fs && st.fs == fs[out := st.fs[out]] &&
        (format == CBR ==> st.fs[out].ZipArchive?) && (format == CBZ ==> st.fs[out].RarArchive?))
  {
    var st := ArchiveConversion(fs, lib, source, format, Some(out));
    if format == PDF {
      assert "'" + Tag(PDF) + "'" == "'PDF'";
    }
    if format != PDF && source in fs && DetectFormat(fs, source) == Some(format) {
      var plan := FormatMap(format).value;
      var x := Extract(plan.extract, fs[source].entries, lib.openArchive, lib.extract);
      if x.error.Some? {
        assert st.error.value == Wrap(format, plan.target, x.error.value);
      } else {
        var pk := Pack(plan, lib, x.files);
        if pk.error.Some? {
          assert st.error.value == Wrap(format, plan.target, pk.error.value);
        }
      }
    }
  }

  /**
   * A clean archive converts to the other format holding exactly its
   * entries, in order, when the libraries and the `rar` tool succeed.
   */
  lemma ArchiveConversionRepacks(fs: FileSystem, lib: Library, source: Path, format: Format, out: Path)
    requires source in fs && DetectFormat(fs, source) == Some(format) && format != PDF
    requires Clean(fs[source].entries)
    requires lib.openArchive.None? && lib.extract.None? && lib.packOpen.None? && lib.pack.None? && lib.rar.installed && lib.rar.exitCode == 0
    ensures var st := ArchiveConversion(fs, lib, source, format, Some(out));
      st.error.None? &&
      st.fs == fs[out := if format == CBR then ZipArchive(fs[source].entries) else RarArchive(fs[source].entries)]
  {
    var es := fs[source].entries;
    var plan := FormatMap(format).value;
    var x := Extract(plan.extract, es, None, None);
    assert es[..|es|] == es;
    assert x.files == Unpack(es);
    assert x.files[..|x.files|] == x.files;
    RepackPreservesEntries(es);
  }

  /**
   * `converted_path` is fixed before the `try`: `convert_file` raises only
   * when `with_suffix` does (an empty or `/`-holding target, a path without
   * a name), and otherwise returns a result naming the original and the
   * original with its suffix replaced by `.` and the target.
   */
  lemma FileConversionPaths(fs: FileSystem, lib: Library, original: Path, target: string, deleteOriginal: bool)
    ensures var o := FileConversion(fs, lib, original, target, deleteOriginal);
      (o.Raised? <==> target == "" || '/' in target || Name(original) == "") &&
      (o.Converted? ==> o.result.original == Str(original) &&
                        o.result.converted == Str(WithSuffix(original, "." + target).value))
  {
    WithSuffixFails(original, target);
  }

  /**
   * Every pair but (`cbz`, CBR) and (`cbr`, CBZ) fails with "Unsupported
   * conversion type or file extension." without touching anything,
   * including a missing file, which is detected as nothing.
   */
  lemma UnsupportedPairFails(fs: FileSystem, lib: Library, original: Path, target: string, deleteOriginal: bool)
    requires !Supported(target, DetectFormat(fs, original))
    ensures var o := FileConversion(fs, lib, original, target, deleteOriginal);
      o.Converted? ==> o.fs == fs && o.calls == [] && !o.result.success &&
                       o.result.errorMessage == "Unsupported conversion type or file extension."
  {
  }

  /**
   * The result reports success exactly when the conversion raised nothing
   * and the converted file exists; the converted file then still exists
   * unless it is the original and the original was deleted; a failure
   * changes nothing but what the conversion itself wrote.
   */
  lemma FileConversionSuccess(fs: FileSystem, lib: Library, original: Path, target: string, deleteOriginal: bool)
    requires WithSuffix(original, "." + target).Ok?
    ensures var converted := WithSuffix(original, "." + target).value;
      var st := Attempt(fs, lib, original, converted, target);
      var o := FileConversion(fs, lib, original, target, deleteOriginal);
      o.Converted? &&
      (o.result.success <==> st.error.None? && converted in st.fs) &&
      (o.result.success && (!deleteOriginal || original != converted || lib.unlink.Some?) ==> converted in o.fs) &&
      (o.result.success && deleteOriginal && original == converted && lib.unlink.None? ==> converted !in o.fs) &&
      (!o.result.success ==> o.fs == st.fs) &&
      o.calls == st.calls
  {
    var converted := WithSuffix(original, "." + target).value;
    var st := Attempt(fs, lib, original, converted, target);
    FinishSpec(st.fs, lib, original, converted, deleteOriginal, st.error);
  }

  /**
   * Progress is not monotonic: after `(10, 100)` the extraction reports raw
   * entry counts, and for more than ten entries its first report, `(1, n)`,
   * is forwarded as a smaller percentage than the `(10, 100)` before it.
   */
  lemma ExtractionProgressRestarts(fs: FileSystem, lib: Library, source: Path, format: Format, out: Path, isLast: bool)
    requires source in fs && DetectFormat(fs, source) == Some(format) && format != PDF
    requires |fs[source].entries| > 10 && lib.openArchive.None? && lib.extract.None?
    ensures var st := ArchiveConversion(fs, lib, source, format, Some(out));
      var n := |fs[source].entries|;
      |st.calls| >= 3 && st.calls[1] == ReportProgress(10, 100) && st.calls[2] == ReportProgress(1, n) &&
      PerFilePercent(1, n, isLast) < PerFilePercent(10, 100, isLast)
  {
    var n := |fs[source].entries|;
    var x := Extract(FormatMap(format).value.extract, fs[source].entries, lib.openArchive, lib.extract);
    assert x.calls[0] == ReportProgress(1, n);
    PerFileIsFloorPercent(1, n, isLast);
    PerFileIsFloorPercent(10, 100, isLast);
    HundredthBelowTen(n);
  }

  lemma HundredthBelowTen(n: int)
    requires n > 10
    ensures 100 / n < 10
  {
  }

  /** A RAR archive stored under a `.cbz` name and converted to `cbz` is converted in place. */
  lemma MisnamedArchiveInPlace()
    ensures WithSuffix(Path(false, ["book.cbz"]), ".cbz") == Ok(Path(false, ["book.cbz"]))
  {
    var name := "book.cbz";
    assert name == "book." + "cbz";
    RFindSkipsTail("book.", "cbz", '.');
    assert RFind(name, '.') == 4;
    assert Suffix(name) == ".cbz";
    assert Stem(name) == "book";
    assert Stem(name) + ".cbz" == name;
    assert '/' !in ".cbz";
    var p := Path(false, [name]);
    assert Name(p) == name;
    assert p.parts[..0] + [Stem(Name(p)) + ".cbz"] == [name];
  }

  /**
   * As written: converting a RAR archive named `*.cbz` to `cbz` with
   * deletion on writes the ZIP over the original path, reports success,
   * and then deletes that very file.
   */
  lemma InPlaceConversionAsWritten(fs: FileSystem, lib: Library, p: Path)
    requires p in fs && DetectFormat(fs, p) == Some(CBR)
    requires WithSuffix(p, ".cbz") == Ok(p)
    requires lib.openArchive.None? && lib.extract.None? && lib.packOpen.None? && lib.pack.None? && lib.unlink.None?
    ensures var o := FileConversion(fs, lib, p, "cbz", true);
      o.Converted? && o.result.success && o.result.errorMessage == "" && p !in o.fs
  {
    ArchiveConversionSpec(fs, lib, p, CBR, p);
  }

  /** Corrected: the same conversion reports success and leaves the ZIP at that path. */
  lemma InPlaceConversionKeepsOutput(fs: FileSystem, lib: Library, p: Path)
    requires p in fs && DetectFormat(fs, p) == Some(CBR)
    requires WithSuffix(p, ".cbz") == Ok(p)
    requires lib.openArchive.None? && lib.extract.None? && lib.packOpen.None? && lib.pack.None?
    ensures var o := FileConversionCorrected(fs, lib, p, "cbz", true);
      o.Converted? && o.result.success && p in o.fs && o.fs[p].ZipArchive?
  {
    var x := Extract(Rar, fs[p].entries, None, None);
    assert x.error.None?;
    assert PackZip(lib.tempDir, true, x.files, None, None, 60, 90).error.None?;
    var st := ArchiveConversion(fs, lib, p, CBR, Some(p));
    assert st.error.None?;
    ArchiveConversionSpec(fs, lib, p, CBR, p);
    var at := Attempt(fs, lib, p, p, "cbz");
    assert at.fs == st.fs && at.error.None?;
    FinishCorrectedSpec(at.fs, lib, p, p, true, None);
    assert "." + "cbz" == ".cbz";
    var r := FinishCorrected(at.fs, lib, p, p, true, at.error);
    assert FileConversionCorrected(fs, lib, p, "cbz", true) == Converted(r.0, at.calls, r.1);
  }
}
