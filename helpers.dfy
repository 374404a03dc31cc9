/**
 * The archive helpers of arc_conv_helpers.py: extracting a ZIP or RAR
 * archive into a scratch directory and packing a scratch directory into a
 * ZIP or RAR archive, each reporting progress through a callback.
 *
 * The scratch directory is the list of files written into it, in the order
 * they were first written; writing a file that is already there replaces
 * its content in place.
 */
module Helpers {
  import opened Wrappers
  import opened Paths
  import opened Formats
  import opened Progress

  /**
   * A library call that raises with message `cause` when its loop reaches
   * item `at`; the items before `at` are done. A fault at or past the end
   * of the loop never fires.
   */
  datatype Fault = Fault(at: nat, cause: string)

  predicate Fails(fault: Option<Fault>, n: nat) {
    fault.Some? && fault.value.at < n
  }

  /** How many of the `n` items are done when the call returns or raises. */
  function Completed(fault: Option<Fault>, n: nat): (k: nat)
    ensures k <= n
    ensures Fails(fault, n) <==> k < n
  {
    if Fails(fault, n) then fault.value.at else n
  }

  // ---------------------------------------------------------------------
  // The scratch directory.

  /** A file of the scratch directory: its path relative to it, as components. */
  datatype ScratchFile = ScratchFile(rel: seq<string>, data: Blob)

  /** The position of the file at `rel`, or -1. */
  function Find(files: seq<ScratchFile>, rel: seq<string>): (i: int)
    ensures -1 <= i < |files|
    ensures i >= 0 ==> files[i].rel == rel
    ensures i < 0 ==> forall j :: 0 <= j < |files| ==> files[j].rel != rel
  {
    if files == [] then -1
    else if files[|files| - 1].rel == rel then |files| - 1
    else Find(files[..|files| - 1], rel)
  }

  /** The position found is the last one holding `rel`. */
  lemma {:induction false} FindIsLast(files: seq<ScratchFile>, rel: seq<string>)
    ensures forall j :: Find(files, rel) < j < |files| ==> files[j].rel != rel
  {
    if files != [] && files[|files| - 1].rel != rel {
      FindIsLast(files[..|files| - 1], rel);
    }
  }

  /** Writing `f`: it replaces the file at the same path, or is added last. */
  function Put(files: seq<ScratchFile>, f: ScratchFile): seq<ScratchFile> {
    var i := Find(files, f.rel);
    if i >= 0 then files[i := f] else files + [f]
  }

  /** No two files at the same path. */
  predicate Distinct(files: seq<ScratchFile>) {
    forall i, j :: 0 <= i < j < |files| ==> files[i].rel != files[j].rel
  }

  /** Writing keeps paths distinct, adds exactly the written path, and leaves every other file alone. */
  lemma PutSpec(files: seq<ScratchFile>, f: ScratchFile)
    requires Distinct(files)
    ensures Distinct(Put(files, f))
    ensures f in Put(files, f)
    ensures forall g :: g in Put(files, f) <==> g == f || (g in files && g.rel != f.rel)
  {
    var i := Find(files, f.rel);
    var r := Put(files, f);
    if i >= 0 {
      assert r[i] == f;
      forall g | g in files && g.rel != f.rel
        ensures g in r
      {
        var j :| 0 <= j < |files| && files[j] == g;
        assert r[j] == g;
      }
      forall g | g in r && g != f
        ensures g in files && g.rel != f.rel
      {
        var j :| 0 <= j < |r| && r[j] == g;
        assert j != i && files[j] == g;
      }
    } else {
      assert r[|files|] == f;
      forall g | g in r && g != f
        ensures g in files && g.rel != f.rel
      {
        var j :| 0 <= j < |r| && r[j] == g;
        assert j < |files| && files[j] == g;
      }
    }
  }

  // ---------------------------------------------------------------------
  // Extraction (`extract_zip_archive`, `extract_rar_archive`).

  datatype Kind = Zip | Rar

  function KindName(kind: Kind): string {
    match kind
    case Zip => "ZIP"
    case Rar => "RAR"
  }

  /** A directory entry: its stored name ends with `/`; extracting it only creates a directory. */
  predicate IsDirEntry(name: string) {
    name != [] && name[|name| - 1] == '/'
  }

  /** The components kept when an entry name is made safe: no empty, `.` or `..` component. */
  function SafeParts(raw: seq<string>): (r: seq<string>)
    ensures forall i :: 0 <= i < |r| ==> IsPart(r[i]) && r[i] != ".."
  {
    if raw == [] then []
    else (if IsPart(raw[0]) && raw[0] != ".." then [raw[0]] else []) + SafeParts(raw[1..])
  }

  /** Where an entry is written, relative to the extraction directory. */
  function Destination(name: string): seq<string> {
    SafeParts(Split(name))
  }

  /** The entries that write a file. */
  predicate Writes(name: string) {
    !IsDirEntry(name) && Destination(name) != []
  }

  /** The scratch directory after extracting `es` in order. */
  function Unpack(es: seq<Entry>): seq<ScratchFile> {
    if es == [] then []
    else
      var e := es[|es| - 1];
      var files := Unpack(es[..|es| - 1]);
      if Writes(e.name) then Put(files, ScratchFile(Destination(e.name), e.data)) else files
  }

  /** Extraction writes one file per distinct destination, each the content of some entry written there. */
  lemma {:induction false} UnpackSpec(es: seq<Entry>)
    ensures Distinct(Unpack(es))
    ensures forall f :: f in Unpack(es) ==>
      exists i :: 0 <= i < |es| && Writes(es[i].name) && Destination(es[i].name) == f.rel && es[i].data == f.data
  {
    if es != [] {
      var es' := es[..|es| - 1];
      var e := es[|es| - 1];
      UnpackSpec(es');
      if Writes(e.name) {
        PutSpec(Unpack(es'), ScratchFile(Destination(e.name), e.data));
      }
      forall f | f in Unpack(es)
        ensures exists i :: 0 <= i < |es| && Writes(es[i].name) && Destination(es[i].name) == f.rel && es[i].data == f.data
      {
        if f in Unpack(es') {
          var i :| 0 <= i < |es'| && Writes(es'[i].name) && Destination(es'[i].name) == f.rel && es'[i].data == f.data;
          assert es[i] == es'[i];
        } else {
          assert es[|es| - 1] == e;
        }
      }
    }
  }

  /** What an extraction leaves: the scratch files, the callback calls made, and the error raised. */
  datatype Extraction = Extraction(files: seq<ScratchFile>, calls: seq<Call>, error: Option<string>)

  /** `(1, n), (2, n), ..., (k, n)`: one call after each of the first `k` of `n` entries. */
  function EntryCounts(k: nat, n: nat): seq<Call> {
    seq(k, i requires 0 <= i < k => ReportProgress(i + 1, n))
  }

  /** The reference definition of extracting the archive with entries `es`. */
  /**
   * `openError` is what `ZipFile` / `RarFile` raise when they cannot open
   * the archive (nothing is extracted or reported then, even for an
   * archive with no entries); `fault` is the error of extracting an entry.
   */
  function Extract(kind: Kind, es: seq<Entry>, openError: Option<string>, fault: Option<Fault>): Extraction {
    if openError.Some? then Extraction([], [], Some("Failed to extract " + KindName(kind) + " archive: " + openError.value))
    else
      var k := Completed(fault, |es|);
      Extraction(Unpack(es[..k]), EntryCounts(k, |es|),
        if Fails(fault, |es|) then Some("Failed to extract " + KindName(kind) + " archive: " + fault.value.cause) else None)
  }

  /**
   * `extract_zip_archive` / `extract_rar_archive`: open the archive, then
   * extract each name of `namelist()` and report `(i + 1, n)`; any library error is
   * re-raised with the helper's prefix. The start and end values the caller
   * passes play no part.
   */
  method ExtractArchive(kind: Kind, es: seq<Entry>, openError: Option<string>, fault: Option<Fault>) returns (x: Extraction)
    ensures x == Extract(kind, es, openError, fault)
  {
    var n := |es|;
    var files: seq<ScratchFile> := [];
    var calls: seq<Call> := [];
    if openError.Some? {
      return Extraction(files, calls, Some("Failed to extract " + KindName(kind) + " archive: " + openError.value));
    }
    var i := 0;
    while i < n
      invariant 0 <= i <= n
      invariant fault.Some? ==> fault.value.at >= i
      invariant files == Unpack(es[..i])
      invariant calls == EntryCounts(i, n)
    {
      if fault.Some? && fault.value.at == i {
        return Extraction(files, calls, Some("Failed to extract " + KindName(kind) + " archive: " + fault.value.cause));
      }
      var e := es[i];
      assert es[..i + 1][..i] == es[..i];
      if Writes(e.name) {
        files := Put(files, ScratchFile(Destination(e.name), e.data));
      }
      calls := calls + [ReportProgress(i + 1, n)];
      i := i + 1;
    }
    x := Extraction(files, calls, None);
  }

  /**
   * Extraction progress counts the entries one by one, strictly increasing,
   * always out of the entry count, and ends at `(n, n)` when nothing fails;
   * a failure carries the helper's prefix.
   */
  lemma ExtractReports(kind: Kind, es: seq<Entry>, openError: Option<string>, fault: Option<Fault>)
    ensures var x := Extract(kind, es, openError, fault);
      (forall i :: 0 <= i < |x.calls| ==> x.calls[i].ReportProgress? && x.calls[i].total == |es|) &&
      (forall i, j :: 0 <= i < j < |x.calls| ==> x.calls[i].current < x.calls[j].current) &&
      (x.error.None? <==> openError.None? && !Fails(fault, |es|)) &&
      (x.error.None? && es != [] ==> x.calls[|x.calls| - 1] == ReportProgress(|es|, |es|)) &&
      (openError.Some? ==> x.files == [] && x.calls == []) &&
      (openError.Some? ==> x.error == Some("Failed to extract " + KindName(kind) + " archive: " + openError.value)) &&
      (openError.None? && x.error.Some? ==> x.error.value == "Failed to extract " + KindName(kind) + " archive: " + fault.value.cause)
  {
  }

  // ---------------------------------------------------------------------
  // Packing (`create_zip_archive`, `create_rar_archive`).

  /** The entries an archive of the scratch files holds: each stored under its relative path. */
  function ArchiveEntries(files: seq<ScratchFile>): (es: seq<Entry>)
    ensures |es| == |files|
  {
    seq(|files|, i requires 0 <= i < |files| => Entry(Join(files[i].rel), files[i].data))
  }

  /** What packing leaves: the archive at the output path if one was written, the calls made, the error raised. */
  datatype Packing = Packing(written: Option<Content>, calls: seq<Call>, error: Option<string>)

  /** `(PackProgress(start, end, 1, n), n), ..., (PackProgress(start, end, k, n), n)`. */
  function PackCalls(start: int, end: int, k: nat, n: nat): seq<Call>
    requires k <= n
  {
    seq(k, i requires 0 <= i < k => ReportProgress(PackProgress(start, end, i + 1, n), n))
  }

  /**
   * The reference definition of `create_zip_archive` on the scratch files.
   * `openError` is what `zipfile.ZipFile` raises when it cannot create the
   * output (nothing is written then, and a file already there is left as
   * it was). Once the archive is open, a failure part-way leaves it holding
   * the files written so far, as closing the `with` block finalises it.
   */
  function PackZip(source: Path, sourceIsDir: bool, files: seq<ScratchFile>, openError: Option<string>, fault: Option<Fault>, start: int, end: int): Packing {
    if !sourceIsDir then
      Packing(None, [], Some("Source directory does not exist: " + Str(source)))
    else if openError.Some? then
      Packing(None, [], Some("Failed to create ZIP archive: " + openError.value))
    else
      var k := Completed(fault, |files|);
      Packing(Some(ZipArchive(ArchiveEntries(files[..k]))), PackCalls(start, end, k, |files|),
        if Fails(fault, |files|) then Some("Failed to create ZIP archive: " + fault.value.cause) else None)
  }

  /**
   * `create_zip_archive`: refuse a source that is not a directory before
   * opening anything, open the output, then write every walked file under
   * its relative path and report `(start + (i + 1) * (end - start) / n, n)`
   * after each.
   */
  method CreateZipArchive(source: Path, sourceIsDir: bool, files: seq<ScratchFile>, openError: Option<string>, fault: Option<Fault>, start: int, end: int)
    returns (p: Packing)
    ensures p == PackZip(source, sourceIsDir, files, openError, fault, start, end)
  {
    if !sourceIsDir {
      return Packing(None, [], Some("Source directory does not exist: " + Str(source)));
    }
    if openError.Some? {
      return Packing(None, [], Some("Failed to create ZIP archive: " + openError.value));
    }
    var n := |files|;
    var written: seq<Entry> := [];
    var calls: seq<Call> := [];
    for i := 0 to n
      invariant fault.Some? ==> fault.value.at >= i
      invariant written == ArchiveEntries(files[..i])
      invariant calls == PackCalls(start, end, i, n)
    {
      if fault.Some? && fault.value.at == i {
        return Packing(Some(ZipArchive(written)), calls, Some("Failed to create ZIP archive: " + fault.value.cause));
      }
      written := written + [Entry(Join(files[i].rel), files[i].data)];
      assert files[..i + 1] == files[..i] + [files[i]];
      calls := calls + [ReportProgress(PackProgress(start, end, i + 1, n), n)];
    }
    assert files[..n] == files;
    p := Packing(Some(ZipArchive(written)), calls, None);
  }

  /**
   * ZIP packing progress: the k-th value is `start + k * (end - start) / n`,
   * within `[start, end]`, non-decreasing, out of the file count, ending at
   * `end` when nothing fails; no call at all for an empty directory; an
   * output that cannot be created fails before anything is written or
   * reported.
   */
  lemma {:induction false} PackZipReports(source: Path, files: seq<ScratchFile>, openError: Option<string>, fault: Option<Fault>, start: int, end: int)
    requires 0 <= start <= end
    ensures var p := PackZip(source, true, files, openError, fault, start, end);
      (files == [] ==> p.calls == []) &&
      (openError.Some? ==> p.written.None? && p.calls == []) &&
      (openError.Some? ==> p.error == Some("Failed to create ZIP archive: " + openError.value)) &&
      (forall i :: 0 <= i < |p.calls| ==> p.calls[i] == ReportProgress(StepProgress(start, end, i + 1, |files|), |files|)) &&
      (forall i :: 0 <= i < |p.calls| ==> start <= p.calls[i].current <= end) &&
      (forall i, j :: 0 <= i < j < |p.calls| ==> p.calls[i].current <= p.calls[j].current) &&
      (p.error.None? && files != [] ==> p.calls[|p.calls| - 1].current == end)
  {
    var p := PackZip(source, true, files, openError, fault, start, end);
    var n := |files|;
    forall i | 0 <= i < |p.calls|
      ensures p.calls[i] == ReportProgress(StepProgress(start, end, i + 1, n), n)
      ensures start <= p.calls[i].current <= end
    {
      PackIsStep(start, end, i + 1, n);
      StepProgressBounds(start, end, i + 1, n);
    }
    forall i, j | 0 <= i < j < |p.calls|
      ensures p.calls[i].current <= p.calls[j].current
    {
      PackIsStep(start, end, i + 1, n);
      PackIsStep(start, end, j + 1, n);
      StepProgressMonotone(start, end, i + 1, j + 1, n);
    }
    if p.error.None? && n > 0 {
      PackIsStep(start, end, n, n);
      StepProgressBounds(start, end, n, n);
    }
  }

  /** The `rar` command-line tool as the helper sees it: present or not, and what one run returns. */
  datatype RarTool = RarTool(installed: bool, exitCode: int, stderr: string)

  const RarToolMissing := "RAR command-line tool not found. Install Rarfile or rar package to create CBR files."

  /**
   * `create_rar_archive`: probe for the tool, report `(start + 10, n)`, run
   * `rar a -r -ep1` on the output path and every file of the source, and report `(end, n)` if it exits
   * with 0. Every error, its own included, leaves with the prefix
   * "Failed to create RAR archive: ".
   */
  function PackRar(files: seq<ScratchFile>, tool: RarTool, start: int, end: int): (p: Packing)
    ensures p.error.None? <==> tool.installed && tool.exitCode == 0
    ensures p.error.None? ==> p.written == Some(RarArchive(ArchiveEntries(files))) &&
                               p.calls == [ReportProgress(start + 10, |files|), ReportProgress(end, |files|)]
    ensures p.error.Some? ==> p.written.None? && p.calls == (if tool.installed then [ReportProgress(start + 10, |files|)] else []) &&
                              p.error.value == "Failed to create RAR archive: " +
                                (if tool.installed then "RAR creation failed: " + tool.stderr else RarToolMissing)
  {
    if !tool.installed then
      Packing(None, [], Some("Failed to create RAR archive: " + RarToolMissing))
    else
      var first := [ReportProgress(start + 10, |files|)];
      if tool.exitCode != 0 then
        Packing(None, first, Some("Failed to create RAR archive: " + "RAR creation failed: " + tool.stderr))
      else
        Packing(Some(RarArchive(ArchiveEntries(files))), first + [ReportProgress(end, |files|)], None)
  }

  // ---------------------------------------------------------------------
  // Extracting and packing again gives back the archive's entries.

  /** An entry list that extraction reproduces exactly: no directory entries, names already safe, no name twice. */
  predicate Clean(es: seq<Entry>) {
    (forall i :: 0 <= i < |es| ==> Writes(es[i].name) && Join(Destination(es[i].name)) == es[i].name) &&
    (forall i, j :: 0 <= i < j < |es| ==> es[i].name != es[j].name)
  }

  lemma ArchiveEntriesSnoc(files: seq<ScratchFile>, f: ScratchFile)
    ensures ArchiveEntries(files + [f]) == ArchiveEntries(files) + [Entry(Join(f.rel), f.data)]
  {
  }

  /** In a clean archive, no earlier entry has already written where the last one writes. */
  lemma FreshDestination(es: seq<Entry>)
    requires Clean(es) && es != []
    ensures Find(Unpack(es[..|es| - 1]), Destination(es[|es| - 1].name)) < 0
  {
    var es' := es[..|es| - 1];
    UnpackSpec(es');
    var j := Find(Unpack(es'), Destination(es[|es| - 1].name));
    if j >= 0 {
      assert Unpack(es')[j] in Unpack(es');
    }
  }

  /** Packing what was extracted from a clean archive stores the same entries, in the same order. */
  lemma {:induction false} RepackPreservesEntries(es: seq<Entry>)
    requires Clean(es)
    ensures ArchiveEntries(Unpack(es)) == es
  {
    if es != [] {
      var es' := es[..|es| - 1];
      var e := es[|es| - 1];
      assert Clean(es');
      RepackPreservesEntries(es');
      FreshDestination(es);
      var f := ScratchFile(Destination(e.name), e.data);
      ArchiveEntriesSnoc(Unpack(es'), f);
      assert es == es' + [e];
    }
  }

  /** Hence a clean CBR repacked as ZIP holds exactly the RAR's entries. */
  lemma RepackZip(es: seq<Entry>, source: Path, start: int, end: int)
    requires Clean(es)
    ensures var x := Extract(Rar, es, None, None);
      PackZip(source, true, x.files, None, None, start, end).written == Some(ZipArchive(es))
  {
    assert es[..|es|] == es;
    var files := Extract(Rar, es, None, None).files;
    assert files == Unpack(es);
    assert files[..|files|] == files;
    RepackPreservesEntries(es);
  }
}
