/**
 The window splitter: tiles a closed, 1-based inclusive integer interval
 with fixed-size windows that overlap by a fixed amount, followed by one
 right-anchored trailing window.
 */
module Windows {

  /** A closed integer interval [start, end]; both ends are included. */
  datatype Interval = Interval(start: int, end: int)

  /** Number of integers in the interval (zero or negative when start > end + 1). */
  function Length(iv: Interval): int {
    iv.end - iv.start + 1
  }

  function Max(a: int, b: int): int {
    if a >= b then a else b
  }

  /** What the splitter needs of its window size and overlap: a step window - overlap of at least 1. */
  predicate ValidParams(window: int, overlap: int) {
    1 <= window && 0 <= overlap < window
  }

  /** Exact ceiling of a / b for b > 0, for negative a too (ceil(-0.5) is 0). */
  function CeilDiv(a: int, b: int): (q: int)
    requires 0 < b
    ensures (q - 1) * b < a <= q * b
  {
    -((-a) / b)
  }

  /** The number of regular windows ceil((length - window) / step); zero or negative means none. */
  function WindowCount(iv: Interval, window: int, overlap: int): int
    requires ValidParams(window, overlap)
  {
    CeilDiv(Length(iv) - window, window - overlap)
  }

  /** The i-th regular window: window long, starting i steps after the interval's start. */
  function RegularWindow(iv: Interval, window: int, overlap: int, i: int): Interval {
    Interval(iv.start + i * (window - overlap), iv.start + i * (window - overlap) + window - 1)
  }

  /** The trailing window: ends at the interval's end, clamped on the left to its start. */
  function TrailingWindow(iv: Interval, window: int): Interval {
    Interval(Max(iv.end - window + 1, iv.start), iv.end)
  }

  /** The first k regular windows. */
  function RegularWindows(iv: Interval, window: int, overlap: int, k: nat): seq<Interval> {
    seq(k, i => RegularWindow(iv, window, overlap, i))
  }

  /**
   The windows the splitter returns: the regular windows (none when the count
   is not positive), then the trailing window unless it is already among them.
   */
  function Split(iv: Interval, window: int, overlap: int): seq<Interval>
    requires ValidParams(window, overlap)
  {
    var regular := RegularWindows(iv, window, overlap, Max(WindowCount(iv, window, overlap), 0));
    var last := TrailingWindow(iv, window);
    if last in regular then regular else regular + [last]
  }
}
