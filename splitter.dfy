/**
 The splitter as the program runs it: a list that grows by one regular window
 per loop step, then takes the trailing window when it is not yet present.
 */
module Splitter {
  import opened Windows
  import opened WindowProperties

  method SplitInterval(iv: Interval, window: int, overlap: int) returns (windows: seq<Interval>)
    requires ValidParams(window, overlap)
    ensures windows == Split(iv, window, overlap)
    ensures |windows| == Max(WindowCount(iv, window, overlap), 0) + 1
    ensures windows[0].start == iv.start && windows[|windows| - 1] == TrailingWindow(iv, window)
  {
    var length := iv.end - iv.start + 1;
    var count := CeilDiv(length - window, window - overlap);
    windows := [];
    var i := 0;
    while i < count
      invariant 0 <= i && (i == 0 || i <= count)
      invariant windows == RegularWindows(iv, window, overlap, i)
    {
      windows := windows + [Interval(iv.start + i * (window - overlap),
                                     iv.start + i * (window - overlap) + window - 1)];
      i := i + 1;
    }
    var last := Interval(Max(iv.end - window + 1, iv.start), iv.end);
    if last !in windows {
      windows := windows + [last];
    }
    SplitShape(iv, window, overlap);
    Anchored(iv, window, overlap);
  }
}
