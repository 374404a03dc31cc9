/**
 * Progress arithmetic: the per-file normaliser
 * (`create_per_file_progress_callback`) and the two interpolation formulas
 * the packers and the page loops use. Python computes these in floating
 * point; here they are exact rationals truncated the way `int()` truncates.
 */
module Progress {

  /** One call of a progress or status callback, in the order it was made. */
  datatype Call = ReportProgress(current: int, total: int) | ReportStatus(message: string)

  /** `int(a / b)` for a positive `b`: the quotient truncated toward zero. */
  function TruncDiv(a: int, b: int): int
    requires b > 0
  {
    if a >= 0 then a / b else -((-a) / b)
  }

  /** `int((current / total) * 100)` for a positive `total`. */
  function PercentOf(current: int, total: int): int
    requires total > 0
  {
    TruncDiv(current * 100, total)
  }

  function Clamp(x: int, lo: int, hi: int): int
    requires lo <= hi
  {
    if x < lo then lo else if x > hi then hi else x
  }

  /**
   * The percentage the per-file callback forwards (always with total 100)
   * for a raw `(current, total)`: 0 without a positive total, else the
   * truncated percentage clamped to 0..100, and 99 in place of 100 unless
   * this is the batch's last file.
   */
  function PerFilePercent(current: int, total: int, isLast: bool): (r: int)
    ensures 0 <= r <= 100
    ensures !isLast ==> r != 100
  {
    var percent := if total > 0 then Clamp(PercentOf(current, total), 0, 100) else 0;
    if !isLast && percent == 100 then 99 else percent
  }

  /** What the per-file callback passes to the batch's callback for one raw call: nothing when that callback is absent. */
  function Normalise(baseOn: bool, current: int, total: int, isLast: bool): (r: seq<Call>)
    ensures |r| == if baseOn then 1 else 0
    ensures forall c :: c in r ==> c.ReportProgress? && c.total == 100 && 0 <= c.current <= 100
  {
    if baseOn then [ReportProgress(PerFilePercent(current, total, isLast), 100)] else []
  }

  lemma MulMonotone(x: int, y: int, d: int)
    requires d >= 0 && x <= y
    ensures d * x <= d * y
  {
    assert d * y - d * x == d * (y - x);
  }

  lemma MulCancel(x: int, y: int, d: int)
    requires d > 0 && d * x < d * y
    ensures x < y
  {
    if x >= y {
      MulMonotone(y, x, d);
    }
  }

  lemma DivMonotone(a: int, b: int, d: int)
    requires 0 <= a <= b && d > 0
    ensures a / d <= b / d
  {
    assert d * (a / d) <= a;
    assert b < d * (b / d) + d;
    assert d * (b / d) + d == d * (b / d + 1);
    MulCancel(a / d, b / d + 1, d);
  }

  /** Euclidean division has one quotient for each remainder in range. */
  lemma DivUnique(a: int, n: int, q: int, r: int)
    requires n > 0 && 0 <= r < n && a == n * q + r
    ensures a / n == q
  {
    var q', r' := a / n, a % n;
    assert n * (q - q') == r' - r;
    if q - q' >= 1 { MulMonotone(1, q - q', n); }
    if q - q' <= -1 { MulMonotone(q - q', -1, n); }
  }

  lemma TruncDivMonotone(a: int, b: int, d: int)
    requires a <= b && d > 0
    ensures TruncDiv(a, d) <= TruncDiv(b, d)
  {
    if a >= 0 {
      DivMonotone(a, b, d);
    } else if b >= 0 {
      assert TruncDiv(a, d) <= 0 <= TruncDiv(b, d);
    } else {
      DivMonotone(-b, -a, d);
    }
  }

  /** Below the total, the forwarded value is the floor of the percentage done. */
  lemma PerFileIsFloorPercent(current: int, total: int, isLast: bool)
    requires 0 <= current < total
    ensures PerFilePercent(current, total, isLast) == current * 100 / total
  {
    MulMonotone(current, total - 1, 100);
    DivMonotone(current * 100, total * 100 - 1, total);
    DivUnique(total * 100 - 1, total, 99, total - 1);
  }

  /** A raw call that reports the whole file done forwards 100 for the last file and 99 otherwise. */
  lemma PerFileDone(current: int, total: int, isLast: bool)
    requires 0 < total <= current
    ensures PerFilePercent(current, total, isLast) == if isLast then 100 else 99
  {
    MulMonotone(total, current, 100);
    DivMonotone(total * 100, current * 100, total);
    DivUnique(total * 100, total, 100, 0);
  }

  /** A raw total of zero or less forwards 0. */
  lemma PerFileNoTotal(current: int, total: int, isLast: bool)
    requires total <= 0
    ensures PerFilePercent(current, total, isLast) == 0
  {
  }

  /** For a fixed total, more raw progress never forwards a smaller percentage. */
  lemma PerFileMonotone(c1: int, c2: int, total: int, isLast: bool)
    requires c1 <= c2
    ensures PerFilePercent(c1, total, isLast) <= PerFilePercent(c2, total, isLast)
  {
    if total > 0 {
      TruncDivMonotone(c1 * 100, c2 * 100, total);
    }
  }

  // ---------------------------------------------------------------------
  // Interpolation between a start and an end value over n steps.

  /** `int(start + ((k / n) * (end - start)))`: what `create_zip_archive` reports after its k-th file. */
  function PackProgress(start: int, end: int, k: int, n: int): int
    requires n > 0
  {
    TruncDiv(start * n + k * (end - start), n)
  }

  /** `start + int((k / n) * (end - start))`: what the page and image loops of the PDF converter report after item k. */
  function StepProgress(start: int, end: int, k: int, n: int): int
    requires n > 0
  {
    start + TruncDiv(k * (end - start), n)
  }

  lemma ShareBounds(d: nat, k: nat, n: nat)
    requires 0 < n && k <= n
    ensures 0 <= k * d / n <= d
    ensures k == n ==> k * d / n == d
  {
    MulMonotone(k, n, d);
    assert d * k == k * d && d * n == n * d;
    DivMonotone(k * d, n * d, n);
    DivUnique(n * d, n, d, 0);
  }

  lemma ShiftDiv(s: int, x: int, n: int)
    requires n > 0 && x >= 0 && s >= 0
    ensures (s * n + x) / n == s + x / n
  {
    var q, r := x / n, x % n;
    assert x == n * q + r && 0 <= r < n;
    assert s * n + x == n * (s + q) + r;
    DivUnique(s * n + x, n, s + q, r);
  }

  /** `PackProgress` equals `StepProgress` for non-negative bounds. */
  lemma PackIsStep(start: int, end: int, k: int, n: int)
    requires 0 <= start <= end && 0 <= k <= n && n > 0
    ensures PackProgress(start, end, k, n) == StepProgress(start, end, k, n)
  {
    ShareBounds(end - start, k, n);
    ShiftDiv(start, k * (end - start), n);
  }

  /** Interpolated progress stays within [start, end] and reaches `end` at the last step. */
  lemma StepProgressBounds(start: int, end: int, k: int, n: int)
    requires start <= end && 0 <= k <= n && n > 0
    ensures start <= StepProgress(start, end, k, n) <= end
    ensures k == n ==> StepProgress(start, end, k, n) == end
  {
    ShareBounds(end - start, k, n);
  }

  /** Interpolated progress never goes down from one step to a later one when `end >= start`. */
  lemma StepProgressMonotone(start: int, end: int, k1: int, k2: int, n: int)
    requires start <= end && 0 <= k1 <= k2 && n > 0
    ensures StepProgress(start, end, k1, n) <= StepProgress(start, end, k2, n)
  {
    MulMonotone(k1, k2, end - start);
    assert (end - start) * k1 == k1 * (end - start) && (end - start) * k2 == k2 * (end - start);
    DivMonotone(k1 * (end - start), k2 * (end - start), n);
  }
}
