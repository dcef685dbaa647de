/**
 * The signal normalizer: classifies raw RSSI readings reported by a
 * Bluetooth adapter and maps valid ones to a [0, 1] quality scale, to a
 * number of lit bars and to a percentage.
 *
 * Readings are whole dBm values; the quality scale is an exact `real`, so
 * the ceiling and rounding below are exact (no IEEE-754 artefacts).
 */
module SignalUtils {
  import opened Wrappers

  /** Weakest reading on the scale: everything at or below it is 0. */
  const RSSI_MIN: int := -100
  /** Strongest reading on the scale: everything at or above it is 1. */
  const RSSI_MAX: int := -20
  const RESOLUTION: int := RSSI_MAX - RSSI_MIN

  /** Platform sentinel meaning "no reading". */
  const NO_READING_SENTINEL: int := 127

  /** A raw JavaScript value found in an `rssi` property. */
  datatype Raw =
    | Num(n: int)   // a finite number
    | NaN           // the number NaN
    | NotANumber    // null, undefined, a string or any other non-number

  function Min(a: int, b: int): int { if a <= b then a else b }
  function Max(a: int, b: int): int { if a >= b then a else b }

  /** Smallest integer not below `x` (Math.ceil). */
  function Ceil(x: real): (r: int)
    ensures r as real - 1.0 < x <= r as real
  {
    -((-x).Floor)
  }

  /** Nearest integer, halves rounded up (Math.round). */
  function Round(x: real): (r: int)
    ensures r as real - 0.5 <= x < r as real + 0.5
  {
    (x + 0.5).Floor
  }

  /**
   * sanitizeRSSI: a valid reading is a number strictly below zero and is
   * returned unchanged; NaN, non-numbers, the sentinel 127, zero and every
   * positive value are classified as unknown (None, JavaScript's null).
   */
  function Sanitize(raw: Raw): (r: Option<int>)
    ensures r.Some? <==> raw.Num? && raw.n < 0
    ensures r.Some? ==> r.value == raw.n
    ensures raw == Num(NO_READING_SENTINEL) || raw == Num(0) ==> r == None
  {
    if !raw.Num? then None
    else if raw.n == NO_READING_SENTINEL || raw.n == 0 then None
    else if raw.n > 0 then None
    else Some(raw.n)
  }

  /** The JavaScript value a sanitized reading is: a number or null. */
  function AsRaw(reading: Option<int>): Raw {
    match reading
    case Some(v) => Num(v)
    case None => NotANumber
  }

  /** Sanitizing an already sanitized reading changes nothing. */
  lemma SanitizeIdempotent(raw: Raw)
    ensures Sanitize(AsRaw(Sanitize(raw))) == Sanitize(raw)
  {
  }

  /** The reading clamped into [RSSI_MIN, RSSI_MAX]. */
  function Clamp(v: int): (c: int)
    ensures RSSI_MIN <= c <= RSSI_MAX
    ensures RSSI_MIN <= v <= RSSI_MAX ==> c == v
    ensures v <= RSSI_MIN ==> c == RSSI_MIN
    ensures v >= RSSI_MAX ==> c == RSSI_MAX
  {
    Min(RSSI_MAX, Max(RSSI_MIN, v))
  }

  /**
   * normalizeRSSI: unknown is 0; otherwise the clamped reading rescaled
   * linearly so that RSSI_MIN is 0 and RSSI_MAX is 1.
   */
  function Normalize(rssi: Option<int>): (r: real)
    ensures 0.0 <= r <= 1.0
    ensures rssi.None? ==> r == 0.0
    ensures rssi.Some? && rssi.value <= RSSI_MIN ==> r == 0.0
    ensures rssi.Some? && rssi.value >= RSSI_MAX ==> r == 1.0
    ensures rssi.Some? ==> r * RESOLUTION as real == (Clamp(rssi.value) - RSSI_MIN) as real
  {
    if rssi.None? then 0.0
    else (Clamp(rssi.value) - RSSI_MIN) as real / RESOLUTION as real
  }

  lemma {:induction false} NormalizeMonotonic(a: int, b: int)
    requires a <= b
    ensures Normalize(Some(a)) <= Normalize(Some(b))
  {
    var na, nb := Normalize(Some(a)), Normalize(Some(b));
    assert Clamp(a) <= Clamp(b);
    assert na * RESOLUTION as real <= nb * RESOLUTION as real;
  }

  /** A bar count below 1 is treated as 1. */
  function SafeBarCount(barCount: int): (n: int)
    ensures barCount < 1 ==> n == 1
    ensures barCount >= 1 ==> n == barCount
  {
    Max(1, barCount)
  }

  /**
   * getSignalLevel: no bars for an unknown reading; otherwise the scaled
   * quality rounded up and clamped into [1, SafeBarCount(barCount)].
   */
  function SignalLevel(rssi: Option<int>, barCount: int): (r: int)
    ensures rssi.None? ==> r == 0
    ensures rssi.Some? ==> 1 <= r <= SafeBarCount(barCount)
    ensures rssi.Some? && rssi.value >= RSSI_MAX ==> r == SafeBarCount(barCount)
    ensures rssi.Some? && rssi.value <= RSSI_MIN ==> r == 1
  {
    if rssi.None? then 0
    else
      var safe := SafeBarCount(barCount);
      var bars := Ceil(Normalize(rssi) * safe as real);
      Min(safe, Max(1, bars))
  }

  /**
   * The bar count in integer arithmetic: with k = Clamp(v) - RSSI_MIN in
   * [0, 80], the level is ceil(k * n / 80) clamped into [1, n].
   */
  lemma {:induction false} SignalLevelExact(v: int, barCount: int)
    ensures var n := SafeBarCount(barCount);
            SignalLevel(Some(v), barCount)
            == Min(n, Max(1, ((Clamp(v) - RSSI_MIN) * n + RESOLUTION - 1) / RESOLUTION))
  {
    var n := SafeBarCount(barCount);
    var k := Clamp(v) - RSSI_MIN;
    var quality := Normalize(Some(v));
    var x := quality * n as real;
    ScaleQuality(quality, k, n);
    CeilOfEightieths(x, k * n);
    assert SignalLevel(Some(v), barCount) == Min(n, Max(1, Ceil(x)));
  }

  /** A quality of k eightieths scaled by n is k * n eightieths. */
  lemma ScaleQuality(quality: real, k: int, n: int)
    requires quality * 80.0 == k as real
    ensures (quality * n as real) * 80.0 == (k * n) as real
  {
    calc {
      (quality * n as real) * 80.0;
      (quality * 80.0) * n as real;
      k as real * n as real;
    }
  }

  /** Math.ceil of t eightieths, in integer arithmetic. */
  lemma CeilOfEightieths(x: real, t: int)
    requires x * 80.0 == t as real
    ensures Ceil(x) == (t + RESOLUTION - 1) / RESOLUTION
  {
    var q := (t + 79) / 80;
    assert 80 * q <= t + 79 < 80 * q + 80;
    assert (q - 1) as real < x <= q as real;
  }

  /** x <= y and n >= 0 give x * n <= y * n. */
  lemma MulMonotonic(x: int, y: int, n: int)
    requires x <= y && 0 <= n
    ensures x * n <= y * n
  {
  }

  /** More signal never shows fewer bars. */
  lemma {:induction false} SignalLevelMonotonic(a: int, b: int, barCount: int)
    requires a <= b
    ensures SignalLevel(Some(a), barCount) <= SignalLevel(Some(b), barCount)
  {
    var n := SafeBarCount(barCount);
    var ka, kb := Clamp(a) - RSSI_MIN, Clamp(b) - RSSI_MIN;
    assert ka <= kb;
    SignalLevelExact(a, barCount);
    SignalLevelExact(b, barCount);
    MulMonotonic(ka, kb, n);
    assert (ka * n + RESOLUTION - 1) / RESOLUTION <= (kb * n + RESOLUTION - 1) / RESOLUTION;
  }

  /** getSignalPercentage: the quality as a whole percentage, halves rounded up. */
  function SignalPercentage(rssi: Option<int>): (r: int)
    ensures 0 <= r <= 100
    ensures rssi.None? ==> r == 0
    ensures rssi.Some? && rssi.value >= RSSI_MAX ==> r == 100
    ensures rssi.Some? && rssi.value <= RSSI_MIN ==> r == 0
  {
    Round(Normalize(rssi) * 100.0)
  }

  /** More signal never shows a smaller percentage. */
  lemma {:induction false} SignalPercentageMonotonic(a: int, b: int)
    requires a <= b
    ensures SignalPercentage(Some(a)) <= SignalPercentage(Some(b))
  {
    SignalPercentageExact(a);
    SignalPercentageExact(b);
  }

  /**
   * The percentage in integer arithmetic: with k = Clamp(v) - RSSI_MIN,
   * round(k * 100 / 80) is floor((5 * k + 2) / 4).
   */
  lemma {:induction false} SignalPercentageExact(v: int)
    ensures SignalPercentage(Some(v)) == (5 * (Clamp(v) - RSSI_MIN) + 2) / 4
  {
    var k := Clamp(v) - RSSI_MIN;
    var q := (5 * k + 2) / 4;
    var x := Normalize(Some(v)) * 100.0;
    assert Normalize(Some(v)) * 80.0 == k as real;
    assert x * 4.0 == 5.0 * k as real;
    assert 4 * q <= 5 * k + 2 < 4 * q + 4;
    assert q as real - 0.5 <= x < q as real + 0.5;
    assert Round(x) == q;
  }
}
