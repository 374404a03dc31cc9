/**
 * `ConversionWorker` (arc_convert_worker.py): picks a converter for the
 * batch, runs it, and turns what happens into Qt signals, throttling the
 * progress signal to changes of at least one percent. The signals are
 * modelled as the sequence of emissions, in order.
 */
module Worker {
  import opened Wrappers
  import opened Text
  import opened Paths
  import opened Formats
  import opened Progress
  import opened Jobs
  import opened Batches

  /** One emission of `progress`, `status`, `result` or `finished`. */
  datatype Signal =
    | SProgress(current: int, total: int)
    | SStatus(message: string)
    | SResult(results: seq<ConversionResult>)
    | SFinished

  function Abs(x: int): nat {
    if x < 0 then -x else x
  }

  /**
   * `emit_progress` as a function of `last_progress_percent`: whether it
   * emits, and the new value. A positive total emits when the percentage
   * moved by at least one or is 100, and records it; any other total
   * emits and records nothing.
   */
  function Throttle(last: int, current: int, total: int): (bool, int) {
    if total > 0 then
      var percent := PercentOf(current, total);
      if Abs(percent - last) >= 1 || percent == 100 then (true, percent) else (false, last)
    else (true, last)
  }

  /** The signals the callbacks of one batch produce, in order, and `last_progress_percent` afterwards. */
  function Replay(calls: seq<Call>, last: int): (seq<Signal>, int)
    decreases |calls|
  {
    if calls == [] then ([], last)
    else
      var (signals, l) := Replay(calls[..|calls| - 1], last);
      match calls[|calls| - 1]
      case ReportStatus(m) => (signals + [SStatus(m)], l)
      case ReportProgress(c, t) =>
        var (emit, l') := Throttle(l, c, t);
        (signals + (if emit then [SProgress(c, t)] else []), l')
  }

  /** `target_format == "pdf"` or some path ends in `.pdf`, compared lowercased. */
  predicate UsesPdfConverter(filePaths: seq<string>, target: string) {
    target == "pdf" || exists i :: 0 <= i < |filePaths| && EndsWith(LowerStr(filePaths[i]), ".pdf")
  }

  function ChosenConverter(filePaths: seq<string>, target: string): Converter {
    if UsesPdfConverter(filePaths, target) then PdfConverter else ArchiveConverter
  }

  /** `Path(file_path)` for each path. */
  function ParseAll(filePaths: seq<string>): seq<Path> {
    seq(|filePaths|, i requires 0 <= i < |filePaths| => Parse(filePaths[i]))
  }

  /**
   * The batch `run` starts: the chosen converter built with `emit_progress`
   * as its progress callback, and the worker's status callback passed to
   * `convert_batch`.
   */
  function JobOf(filePaths: seq<string>, target: string, deleteOriginal: bool): BatchJob {
    BatchJob(ChosenConverter(filePaths, target), ParseAll(filePaths), target, deleteOriginal, true, true)
  }

  function InitMessage(filePaths: seq<string>, target: string): string {
    if UsesPdfConverter(filePaths, target) then "Initializing PDF converter..." else "Initializing archive converter..."
  }

  function StartMessage(filePaths: seq<string>): string {
    "Starting conversion of " + NatStr(|filePaths|) + " file(s)..."
  }

  /** What `run` emits around a batch that ended as `b`, and `last_progress_percent` afterwards. */
  datatype RunOutcome = RunOutcome(signals: seq<Signal>, lastPercent: int)

  /**
   * The reference definition of `run` given the batch's outcome: the two
   * opening status messages, the batch's callbacks, then on success the
   * completion message, the results and a final `(100, 100)`, and on an
   * escaping error the failure message, no results and the same final
   * `(100, 100)`; `finished` last.
   */
  function RunSignals(filePaths: seq<string>, target: string, last: int, b: Batch): RunOutcome {
    var r := Replay(b.calls, last);
    RunOutcome(Opening(filePaths, target) + r.0 + Closing(b), r.1)
  }

  /** The two status messages before the batch. */
  function Opening(filePaths: seq<string>, target: string): seq<Signal> {
    [SStatus(InitMessage(filePaths, target)), SStatus(StartMessage(filePaths))]
  }

  /** What follows the batch: its end message, its results (none on failure), `(100, 100)` and `finished`. */
  function Closing(b: Batch): seq<Signal> {
    if b.raised.None? then [SStatus("Conversion completed successfully."), SResult(b.results), SProgress(100, 100), SFinished]
    else [SStatus("Conversion failed."), SResult([]), SProgress(100, 100), SFinished]
  }

  // ---------------------------------------------------------------------
  // What the throttle and `run` promise.

  /**
   * `emit_progress` emits exactly when the total is not positive, or the
   * percentage differs from the last one recorded, or it is 100; it
   * records the percentage exactly when it emits for a positive total.
   */
  lemma ThrottleSpec(last: int, current: int, total: int)
    ensures var (emit, last') := Throttle(last, current, total);
      (emit <==> total <= 0 || PercentOf(current, total) != last || PercentOf(current, total) == 100) &&
      last' == (if emit && total > 0 then PercentOf(current, total) else last)
  {
  }

  /** A call repeating the one just emitted is suppressed, unless it reports 100%. */
  lemma ThrottleRepeat(last: int, current: int, total: int)
    requires total > 0 && PercentOf(current, total) != 100
    requires Throttle(last, current, total).0
    ensures Throttle(Throttle(last, current, total).1, current, total) == (false, PercentOf(current, total))
  {
  }

  /** The first call of a fresh worker emits for any non-negative progress. */
  lemma ThrottleFirst(current: int, total: int)
    requires current >= 0
    ensures Throttle(-1, current, total).0
  {
    if total > 0 {
      assert current * 100 >= 0;
    }
  }

  /** The status messages of `signals`, in order. */
  function StatusMessages(signals: seq<Signal>): seq<string> {
    if signals == [] then []
    else (if signals[0].SStatus? then [signals[0].message] else []) + StatusMessages(signals[1..])
  }

  lemma {:induction false} StatusMessagesAppend(a: seq<Signal>, b: seq<Signal>)
    ensures StatusMessages(a + b) == StatusMessages(a) + StatusMessages(b)
  {
    if a != [] {
      assert (a + b)[1..] == a[1..] + b;
      StatusMessagesAppend(a[1..], b);
    } else {
      assert a + b == b;
    }
  }

  /**
   * Status messages are never throttled: replaying a batch's calls emits
   * exactly its status messages, in order; every other signal is a
   * progress call of the batch, passed on unchanged.
   */
  lemma {:induction false} ReplaySpec(calls: seq<Call>, last: int)
    ensures var signals := Replay(calls, last).0;
      StatusMessages(signals) == Statuses(calls) &&
      forall s :: s in signals ==> s.SStatus? || (s.SProgress? && ReportProgress(s.current, s.total) in calls)
  {
    if calls != [] {
      var init, call := calls[..|calls| - 1], calls[|calls| - 1];
      assert calls == init + [call];
      ReplaySpec(init, last);
      var r := Replay(init, last);
      StatusesAppend(init, [call]);
      assert Statuses([call]) == if call.ReportStatus? then [call.message] else [];
      match call
      case ReportStatus(m) =>
        StatusMessagesAppend(r.0, [SStatus(m)]);
      case ReportProgress(c, t) =>
        var added := if Throttle(r.1, c, t).0 then [SProgress(c, t)] else [];
        StatusMessagesAppend(r.0, added);
        assert StatusMessages(added) == [];
    }
  }

  /**
   * `run` builds the PDF converter exactly when the target is `pdf` or some
   * path, lowercased, ends in `.pdf`, and announces the converter it built;
   * the batch gets one path per file path, in order, and both callbacks.
   */
  lemma JobSpec(filePaths: seq<string>, target: string, deleteOriginal: bool)
    ensures var job := JobOf(filePaths, target, deleteOriginal);
      (job.converter == PdfConverter <==>
        target == "pdf" || exists i :: 0 <= i < |filePaths| && EndsWith(LowerStr(filePaths[i]), ".pdf")) &&
      InitMessage(filePaths, target) ==
        (if job.converter == PdfConverter then "Initializing PDF converter..." else "Initializing archive converter...") &&
      |job.paths| == |filePaths| && (forall i :: 0 <= i < |filePaths| ==> job.paths[i] == Parse(filePaths[i])) &&
      job.target == target && job.deleteOriginal == deleteOriginal && job.hasProgress && job.hasStatus
  {
  }

  /** An upper-case `.PDF` path selects the PDF converter even for target `cbz`. */
  lemma UpperCasePdfSelectsPdf()
    ensures ChosenConverter(["book.PDF"], "cbz") == PdfConverter
  {
    assert EndsWith(LowerStr(["book.PDF"][0]), ".pdf");
  }

  /** Signals a batch's replay may hold: status and progress only. */
  ghost predicate Passthrough(r: seq<Signal>) {
    forall s :: s in r ==> s.SStatus? || s.SProgress?
  }

  /** Progress signals in `r` are all out of 100 and within 0..100. */
  ghost predicate Bounded(r: seq<Signal>) {
    forall s :: s in r && s.SProgress? ==> s.total == 100 && 0 <= s.current <= 100
  }

  /** A replay between an opening and a closing adds no `result` or `finished` signal. */
  lemma Framed(opening: seq<Signal>, r: seq<Signal>, closing: seq<Signal>)
    requires Passthrough(opening) && Passthrough(r)
    requires |closing| == 4 && closing[0].SStatus? && closing[1].SResult? && closing[2].SProgress? && closing[3].SFinished?
    ensures var s := opening + r + closing;
      (forall k :: 0 <= k < |s| - 1 ==> !s[k].SFinished?) &&
      (forall k :: 0 <= k < |s| && k != |s| - 3 ==> !s[k].SResult?)
  {
    var s := opening + r + closing;
    forall k | 0 <= k < |s| - 4
      ensures s[k].SStatus? || s[k].SProgress?
    {
      if k < |opening| {
        assert s[k] == opening[k] && s[k] in opening;
      } else {
        assert s[k] == r[k - |opening|] && s[k] in r;
      }
    }
  }

  /**
   * What `run` emits: the two opening status messages first; then the
   * batch's signals; then the end message, the only `result` signal (the
   * batch's results, or none when an error escaped), `(100, 100)`, and the
   * only `finished` signal, last.
   */
  lemma RunSignalsShape(filePaths: seq<string>, target: string, last: int, b: Batch)
    ensures var s := RunSignals(filePaths, target, last, b).signals;
      |s| >= 6 &&
      s[0] == SStatus(InitMessage(filePaths, target)) && s[1] == SStatus(StartMessage(filePaths)) &&
      s[|s| - 4] == SStatus(if b.raised.None? then "Conversion completed successfully." else "Conversion failed.") &&
      s[|s| - 3] == SResult(if b.raised.None? then b.results else []) &&
      s[|s| - 2] == SProgress(100, 100) && s[|s| - 1] == SFinished &&
      (forall k :: 0 <= k < |s| - 1 ==> !s[k].SFinished?) &&
      (forall k :: 0 <= k < |s| && k != |s| - 3 ==> !s[k].SResult?)
  {
    var r := Replay(b.calls, last).0;
    ReplaySpec(b.calls, last);
    Framed(Opening(filePaths, target), r, Closing(b));
  }

  /**
   * When every progress call of a batch is out of 100 and within 0..100,
   * so is every progress signal the worker emits.
   */
  lemma RunBounded(filePaths: seq<string>, target: string, last: int, b: Batch)
    requires forall c :: c in b.calls && c.ReportProgress? ==> c.total == 100 && 0 <= c.current <= 100
    ensures Bounded(RunSignals(filePaths, target, last, b).signals)
  {
    var r := Replay(b.calls, last).0;
    ReplaySpec(b.calls, last);
    assert Bounded(r) by {
      forall s | s in r && s.SProgress?
        ensures s.total == 100 && 0 <= s.current <= 100
      {
        assert ReportProgress(s.current, s.total) in b.calls;
      }
    }
    var o, c := Opening(filePaths, target), Closing(b);
    forall s: Signal | s in o + r + c && s.SProgress?
      ensures s.total == 100 && 0 <= s.current <= 100
    {
      assert s in o || s in r || s in c;
    }
  }

  lemma ParseAllSpec(filePaths: seq<string>)
    ensures |ParseAll(filePaths)| == |filePaths|
    ensures forall i :: 0 <= i < |filePaths| ==> ParseAll(filePaths)[i] == Parse(filePaths[i])
  {
  }

  /**
   * The batch `run` starts: it completes exactly when `with_suffix` accepts
   * every path, and then holds one result per path, in order; every
   * progress call it makes is out of 100 and within 0..100.
   */
  lemma JobBatch(filePaths: seq<string>, target: string, deleteOriginal: bool, fs: FileSystem, env: nat -> Library)
    ensures var b := RunBatch(JobOf(filePaths, target, deleteOriginal), fs, env);
      (b.raised.None? <==> forall i :: 0 <= i < |filePaths| ==> !Rejects(target, Parse(filePaths[i]))) &&
      (b.raised.None? ==> |b.results| == |filePaths|) &&
      (b.raised.None? ==> forall i :: 0 <= i < |filePaths| ==> b.results[i].original == Str(Parse(filePaths[i]))) &&
      (forall c :: c in b.calls && c.ReportProgress? ==> c.total == 100 && 0 <= c.current <= 100)
  {
    var job := JobOf(filePaths, target, deleteOriginal);
    ParseAllSpec(filePaths);
    var step := ConverterStep(job, env);
    ConverterNamesPaths(job, env);
    BatchResults(job, fs, step, |job.paths|);
    BatchOrder(job, fs, step, |job.paths|);
    BatchProgress(job, fs, step, |job.paths|);
  }

  class ConversionWorker {
    const filePaths: seq<string>
    const targetFormat: string
    const deleteOriginal: bool
    var conversionDone: bool
    var lastProgressPercent: int
    /** Every signal emitted so far, in order. */
    var events: seq<Signal>

    constructor(filePaths: seq<string>, targetFormat: string, deleteOriginal: bool)
      ensures this.filePaths == filePaths && this.targetFormat == targetFormat && this.deleteOriginal == deleteOriginal
      ensures !conversionDone && lastProgressPercent == -1 && events == []
    {
      this.filePaths := filePaths;
      this.targetFormat := targetFormat;
      this.deleteOriginal := deleteOriginal;
      conversionDone := false;
      lastProgressPercent := -1;
      events := [];
    }

    /** `emit_progress`: the progress callback every converter of this worker receives. */
    method EmitProgress(current: int, total: int)
      modifies this
      ensures var (emit, last) := Throttle(old(lastProgressPercent), current, total);
        events == old(events) + (if emit then [SProgress(current, total)] else []) &&
        lastProgressPercent == last
      ensures conversionDone == old(conversionDone)
    {
      if total > 0 {
        var percent := PercentOf(current, total);
        if Abs(percent - lastProgressPercent) >= 1 || percent == 100 {
          lastProgressPercent := percent;
          events := events + [SProgress(current, total)];
        }
      } else {
        events := events + [SProgress(current, total)];
      }
    }

    /** The status callback `run` defines. */
    method EmitStatus(message: string)
      modifies this
      ensures events == old(events) + [SStatus(message)]
      ensures lastProgressPercent == old(lastProgressPercent) && conversionDone == old(conversionDone)
    {
      events := events + [SStatus(message)];
    }

    /** The batch's callback calls, passed to the progress and status callbacks in order. */
    method ReplayCalls(calls: seq<Call>)
      modifies this
      ensures var (signals, last) := Replay(calls, old(lastProgressPercent));
        events == old(events) + signals && lastProgressPercent == last
      ensures conversionDone == old(conversionDone)
    {
      ghost var before := events;
      ghost var last0 := lastProgressPercent;
      for i := 0 to |calls|
        invariant events == before + Replay(calls[..i], last0).0
        invariant lastProgressPercent == Replay(calls[..i], last0).1
        invariant conversionDone == old(conversionDone)
      {
        assert calls[..i + 1][..i] == calls[..i];
        match calls[i]
        case ReportProgress(c, t) => EmitProgress(c, t);
        case ReportStatus(m) => EmitStatus(m);
      }
      assert calls[..|calls|] == calls;
    }

    /**
     * The signals of `run` around a batch that ended as `b`: the batch's
     * callback calls are passed to the callbacks in the order the batch
     * made them, which gives the signals in the order the worker emits them.
     */
    method Report(b: Batch)
      modifies this
      ensures var o := RunSignals(filePaths, targetFormat, old(lastProgressPercent), b);
        events == old(events) + o.signals && lastProgressPercent == o.lastPercent
      ensures conversionDone
    {
      ghost var before := events;
      ghost var r := Replay(b.calls, lastProgressPercent);
      Open();
      ghost var started := events;
      ReplayCalls(b.calls);
      ghost var replayed := events;
      Close(b);
      assert events == before + Opening(filePaths, targetFormat) + r.0 + Closing(b) by {
        assert started == before + Opening(filePaths, targetFormat);
        assert replayed == started + r.0;
        assert events == replayed + Closing(b);
      }
    }

    /** The status messages `run` sends before `convert_batch`. */
    method Open()
      modifies this
      ensures events == old(events) + Opening(filePaths, targetFormat)
      ensures lastProgressPercent == old(lastProgressPercent)
    {
      EmitStatus(InitMessage(filePaths, targetFormat));
      EmitStatus(StartMessage(filePaths));
    }

    /** The end of `run`'s `try`/`except`/`finally` for a batch that ended as `b`. */
    method Close(b: Batch)
      modifies this
      ensures events == old(events) + Closing(b)
      ensures lastProgressPercent == old(lastProgressPercent) && conversionDone
    {
      if b.raised.None? {
        EmitStatus("Conversion completed successfully.");
        events := events + [SResult(b.results)];
      } else {
        EmitStatus("Conversion failed.");
        events := events + [SResult([])];
      }
      conversionDone := true;
      events := events + [SProgress(100, 100)];
      events := events + [SFinished];
    }

    /** `run`: convert the batch with the chosen converter and report it. */
    method Run(fs: FileSystem, env: nat -> Library) returns (fs': FileSystem)
      modifies this
      ensures var b := RunBatch(JobOf(filePaths, targetFormat, deleteOriginal), fs, env);
        var o := RunSignals(filePaths, targetFormat, old(lastProgressPercent), b);
        events == old(events) + o.signals && fs' == b.fs && lastProgressPercent == o.lastPercent
      ensures conversionDone
    {
      var b := ConvertBatch(JobOf(filePaths, targetFormat, deleteOriginal), fs, env);
      Report(b);
      fs' := b.fs;
    }
  }
}
