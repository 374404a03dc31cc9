/**
 * `convert_batch`, which both processors define the same way: convert the
 * given paths one after the other, each through a per-file progress
 * callback and a status callback that puts "File i/N: " in front, and
 * collect one result per file. An error of `convert_file` that escapes it
 * (a path `with_suffix` refuses) ends the batch and escapes as well.
 */
module Batches {
  import opened Wrappers
  import opened Paths
  import opened Formats
  import opened Progress
  import opened Jobs
  import ArchiveProcessor
  import PdfProcessor

  /** The processor class that runs the batch. */
  datatype Converter = ArchiveConverter | PdfConverter

  /**
   * One call of `convert_batch`: the converter, the paths (each as
   * `Path(file_path)` makes it), the
   * target, whether to delete originals, and whether the converter was
   * built with a progress callback and the batch given a status callback.
   */
  datatype BatchJob = BatchJob(
    converter: Converter,
    paths: seq<Path>,
    target: string,
    deleteOriginal: bool,
    hasProgress: bool,
    hasStatus: bool)

  /** The batch so far: the file system, the calls its callbacks received, the results, and the error that escaped. */
  datatype Batch = Batch(fs: FileSystem, calls: seq<Call>, results: seq<ConversionResult>, raised: Option<string>)

  /** `convert_file` of the chosen converter. */
  function FileConversion(conv: Converter, fs: FileSystem, lib: Library, original: Path, target: string, deleteOriginal: bool): FileOutcome {
    match conv
    case ArchiveConverter => ArchiveProcessor.FileConversion(fs, lib, original, target, deleteOriginal)
    case PdfConverter => PdfProcessor.FileConversion(fs, lib, original, target, deleteOriginal)
  }

  /** Where `with_suffix` raises: an empty target, a target holding `/`, or a path without a name. */
  predicate Rejects(target: string, p: Path) {
    target == "" || '/' in target || Name(p) == ""
  }

  /** What one `convert_file` call does, given the file system, the file's index and its path. */
  type FileStep = (FileSystem, nat, Path) -> FileOutcome

  /** The chosen converter's `convert_file`, file `i` meeting the libraries as `env(i)` describes them. */
  function ConverterStep(job: BatchJob, env: nat -> Library): FileStep {
    (fs: FileSystem, i: nat, p: Path) => FileConversion(job.converter, fs, env(i), p, job.target, job.deleteOriginal)
  }

  /**
   * One more file, number `idx`: an escaping error ends the batch, a result
   * is appended and the file's calls forwarded.
   */
  function Advance(job: BatchJob, b: Batch, idx: nat, o: FileOutcome): Batch {
    match o
    case Raised(m) => b.(raised := Some(m))
    case Converted(fs', calls, r) =>
      Batch(fs', b.calls + Forward(calls, idx, |job.paths|, job.hasProgress, job.hasStatus), b.results + [r], None)
  }

  /** The batch after its first `n` files. */
  function BatchPrefix(job: BatchJob, fs: FileSystem, step: FileStep, n: nat): Batch
    requires n <= |job.paths|
  {
    if n == 0 then Batch(fs, [], [], None)
    else
      var b := BatchPrefix(job, fs, step, n - 1);
      if b.raised.Some? then b
      else Advance(job, b, n - 1, step(b.fs, n - 1, job.paths[n - 1]))
  }

  /** The reference definition of `convert_batch`. */
  function RunBatch(job: BatchJob, fs: FileSystem, env: nat -> Library): Batch {
    BatchPrefix(job, fs, ConverterStep(job, env), |job.paths|)
  }

  /** The batch after one more file when no error has escaped yet. */
  lemma PrefixNext(job: BatchJob, fs: FileSystem, step: FileStep, n: nat)
    requires n < |job.paths| && BatchPrefix(job, fs, step, n).raised.None?
    ensures var b := BatchPrefix(job, fs, step, n);
      BatchPrefix(job, fs, step, n + 1) == Advance(job, b, n, step(b.fs, n, job.paths[n]))
  {
  }

  /** Once an error has escaped, later files change nothing. */
  lemma {:induction false} RaisedStops(job: BatchJob, fs: FileSystem, step: FileStep, m: nat, n: nat)
    requires m <= n <= |job.paths|
    requires BatchPrefix(job, fs, step, m).raised.Some?
    ensures BatchPrefix(job, fs, step, n) == BatchPrefix(job, fs, step, m)
    decreases n
  {
    if n > m {
      RaisedStops(job, fs, step, m, n - 1);
    }
  }

  /** `self.convert_file(Path(file_path), ...)` for file `idx` of the batch. */
  method ConvertOne(job: BatchJob, env: nat -> Library, fs: FileSystem, idx: nat) returns (o: FileOutcome)
    requires idx < |job.paths|
    ensures o == ConverterStep(job, env)(fs, idx, job.paths[idx])
  {
    if job.converter == ArchiveConverter {
      o := ArchiveProcessor.ConvertFile(fs, env(idx), job.paths[idx], job.target, job.deleteOriginal);
    } else {
      o := PdfProcessor.ConvertFile(fs, env(idx), job.paths[idx], job.target, job.deleteOriginal);
    }
  }

  /**
   * `convert_batch`: one `convert_file` per path, in order, its callback
   * calls forwarded and its result appended; an error escaping
   * `convert_file` escapes the batch.
   */
  method ConvertBatch(job: BatchJob, fs: FileSystem, env: nat -> Library) returns (b: Batch)
    ensures b == RunBatch(job, fs, env)
  {
    var fs' := fs;
    var calls: seq<Call> := [];
    var results: seq<ConversionResult> := [];
    var total := |job.paths|;
    ghost var step := ConverterStep(job, env);
    for idx := 0 to total
      invariant BatchPrefix(job, fs, step, idx) == Batch(fs', calls, results, None)
    {
      var o := ConvertOne(job, env, fs', idx);
      PrefixNext(job, fs, step, idx);
      if o.Raised? {
        b := Batch(fs', calls, results, Some(o.message));
        RaisedStops(job, fs, step, idx + 1, total);
        return;
      }
      fs', calls, results := o.fs, calls + Forward(o.calls, idx, total, job.hasProgress, job.hasStatus), results + [o.result];
    }
    b := Batch(fs', calls, results, None);
  }

  // ---------------------------------------------------------------------
  // What `convert_batch` promises.

  /** Either converter's `convert_file` raises exactly where `with_suffix` does, and otherwise names the original. */
  lemma FileConversionRaises(conv: Converter, fs: FileSystem, lib: Library, original: Path, target: string, deleteOriginal: bool)
    ensures var o := FileConversion(conv, fs, lib, original, target, deleteOriginal);
      (o.Raised? <==> Rejects(target, original)) &&
      (o.Converted? ==> o.result.original == Str(original))
  {
    match conv
    case ArchiveConverter => ArchiveProcessor.FileConversionPaths(fs, lib, original, target, deleteOriginal);
    case PdfConverter => PdfProcessor.FileConversionPaths(fs, lib, original, target, deleteOriginal);
  }

  /** A step that raises exactly where `with_suffix` does and otherwise names the original. */
  ghost predicate NamesPaths(step: FileStep, target: string) {
    forall fs, i, p :: (step(fs, i, p).Raised? <==> Rejects(target, p)) &&
      (step(fs, i, p).Converted? ==> step(fs, i, p).result.original == Str(p))
  }

  lemma ConverterNamesPaths(job: BatchJob, env: nat -> Library)
    ensures NamesPaths(ConverterStep(job, env), job.target)
  {
    var step := ConverterStep(job, env);
    forall fs, i, p
      ensures (step(fs, i, p).Raised? <==> Rejects(job.target, p)) &&
        (step(fs, i, p).Converted? ==> step(fs, i, p).result.original == Str(p))
    {
      FileConversionRaises(job.converter, fs, env(i), p, job.target, job.deleteOriginal);
    }
  }

  /**
   * A batch ends early exactly when some file's path is refused, and then
   * at the first such file; otherwise there is one result per path, a file
   * that fails inside `convert_file` included. An empty batch does nothing
   * and returns no results.
   */
  lemma {:induction false} BatchResults(job: BatchJob, fs: FileSystem, step: FileStep, n: nat)
    requires n <= |job.paths| && NamesPaths(step, job.target)
    ensures var b := BatchPrefix(job, fs, step, n);
      (b.raised.None? <==> forall i :: 0 <= i < n ==> !Rejects(job.target, job.paths[i])) &&
      (b.raised.None? ==> |b.results| == n) &&
      (b.raised.Some? ==> |b.results| < n && Rejects(job.target, job.paths[|b.results|])) &&
      (b.raised.Some? ==> forall i :: 0 <= i < |b.results| ==> !Rejects(job.target, job.paths[i])) &&
      (n == 0 ==> b == Batch(fs, [], [], None))
  {
    if n > 0 {
      BatchResults(job, fs, step, n - 1);
      var b, b' := BatchPrefix(job, fs, step, n - 1), BatchPrefix(job, fs, step, n);
      if b.raised.None? {
        var p := job.paths[n - 1];
        var o := step(b.fs, n - 1, p);
        assert b' == Advance(job, b, n - 1, o);
        assert o.Raised? <==> Rejects(job.target, p);
      }
    }
  }

  /** The results follow the order of the paths: result `i` names path `i`. */
  lemma {:induction false} BatchOrder(job: BatchJob, fs: FileSystem, step: FileStep, n: nat)
    requires n <= |job.paths| && NamesPaths(step, job.target)
    ensures var b := BatchPrefix(job, fs, step, n);
      |b.results| <= n && (b.raised.None? ==> |b.results| == n) &&
      forall i :: 0 <= i < |b.results| ==> b.results[i].original == Str(job.paths[i])
  {
    if n > 0 {
      BatchOrder(job, fs, step, n - 1);
      var b, b' := BatchPrefix(job, fs, step, n - 1), BatchPrefix(job, fs, step, n);
      if b.raised.None? {
        var p := job.paths[n - 1];
        var o := step(b.fs, n - 1, p);
        assert b' == Advance(job, b, n - 1, o);
        if o.Converted? {
          assert b'.results == b.results + [o.result];
          assert o.result.original == Str(p);
          forall i | 0 <= i < |b'.results|
            ensures b'.results[i].original == Str(job.paths[i])
          {
            if i < |b.results| {
              assert b'.results[i] == b.results[i];
            }
          }
        }
      }
    }
  }

  /**
   * Every progress call the batch forwards is out of 100 and within
   * 0..100, and none reaches 100 before the last file starts; without a
   * progress callback nothing is forwarded.
   */
  lemma {:induction false} BatchProgress(job: BatchJob, fs: FileSystem, step: FileStep, n: nat)
    requires n <= |job.paths|
    ensures var b := BatchPrefix(job, fs, step, n);
      (forall c :: c in b.calls && c.ReportProgress? ==>
        c.total == 100 && 0 <= c.current <= 100 && (n < |job.paths| ==> c.current != 100)) &&
      (!job.hasProgress ==> Percents(b.calls) == [])
  {
    if n > 0 {
      BatchProgress(job, fs, step, n - 1);
      var b := BatchPrefix(job, fs, step, n - 1);
      if b.raised.None? {
        var o := step(b.fs, n - 1, job.paths[n - 1]);
        if o.Converted? {
          ForwardSpec(o.calls, n - 1, |job.paths|, job.hasProgress, job.hasStatus);
          PercentsAppend(b.calls, Forward(o.calls, n - 1, |job.paths|, job.hasProgress, job.hasStatus));
        }
      }
    }
  }

  /**
   * Every status message the batch forwards starts with "File i/N: " for
   * a file `i` already started; without a status callback nothing is
   * forwarded.
   */
  lemma {:induction false} BatchStatuses(job: BatchJob, fs: FileSystem, step: FileStep, n: nat)
    requires n <= |job.paths|
    ensures forall c :: c in BatchPrefix(job, fs, step, n).calls && c.ReportStatus? ==>
      job.hasStatus && exists i :: 0 <= i < n && FilePrefix(i, |job.paths|) <= c.message
  {
    if n > 0 {
      BatchStatuses(job, fs, step, n - 1);
      var b := BatchPrefix(job, fs, step, n - 1);
      if b.raised.None? {
        var o := step(b.fs, n - 1, job.paths[n - 1]);
        if o.Converted? {
          var f := Forward(o.calls, n - 1, |job.paths|, job.hasProgress, job.hasStatus);
          ForwardTagged(o.calls, n - 1, |job.paths|, job.hasProgress, job.hasStatus);
          assert BatchPrefix(job, fs, step, n).calls == b.calls + f;
          forall c | c in b.calls + f && c.ReportStatus?
            ensures job.hasStatus && exists i :: 0 <= i < n && FilePrefix(i, |job.paths|) <= c.message
          {
            if c in b.calls {
              var i :| 0 <= i < n - 1 && FilePrefix(i, |job.paths|) <= c.message;
            } else {
              assert FilePrefix(n - 1, |job.paths|) <= c.message;
            }
          }
        }
      }
    }
  }

  /** Every status message forwarded for file `idx` starts with its prefix, and none is forwarded without a status callback. */
  lemma {:induction false} ForwardTagged(calls: seq<Call>, idx: nat, total: nat, hasProgress: bool, hasStatus: bool)
    ensures forall c :: c in Forward(calls, idx, total, hasProgress, hasStatus) && c.ReportStatus? ==>
      hasStatus && FilePrefix(idx, total) <= c.message
  {
    if calls != [] {
      ForwardTagged(calls[1..], idx, total, hasProgress, hasStatus);
      match calls[0]
      case ReportProgress(c, t) =>
      case ReportStatus(m) =>
        var prefix := FilePrefix(idx, total);
        assert prefix <= prefix + m;
    }
  }
}
