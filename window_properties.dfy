/**
 What the splitter promises about the windows it returns: their number and
 shape, anchoring at both ends of the interval, strict ordering, no gaps and
 exact coverage, and the documented example splits.
 */
module WindowProperties {
  import opened Windows

  lemma MulMonotone(a: int, b: int, c: int)
    requires a <= b && 0 <= c
    ensures a * c <= b * c
  {
    assert (b - a) * c >= 0;
  }

  lemma MulStrict(a: int, b: int, c: int)
    requires a < b && 0 < c
    ensures a * c < b * c
  {
    MulMonotone(a + 1, b, c);
  }

  /** There are regular windows exactly when the interval is longer than one window. */
  lemma {:induction false} WindowCountPositive(iv: Interval, window: int, overlap: int)
    requires ValidParams(window, overlap)
    ensures WindowCount(iv, window, overlap) > 0 <==> Length(iv) > window
  {
    var n, step := WindowCount(iv, window, overlap), window - overlap;
    if n <= 0 {
      MulMonotone(n, 0, step);
    } else {
      MulMonotone(0, n - 1, step);
    }
  }

  /**
   Under the preconditions every regular window ends strictly before the
   interval's end and starts strictly before the trailing window.
   */
  lemma {:induction false} RegularBeforeTrailing(iv: Interval, window: int, overlap: int, i: int)
    requires ValidParams(window, overlap)
    requires 0 <= i < WindowCount(iv, window, overlap)
    ensures RegularWindow(iv, window, overlap, i).end < iv.end
    ensures RegularWindow(iv, window, overlap, i).start < TrailingWindow(iv, window).start
  {
    var n, step := WindowCount(iv, window, overlap), window - overlap;
    WindowCountPositive(iv, window, overlap);
    MulMonotone(i, n - 1, step);
  }

  /**
   The membership test never suppresses the trailing window: the result is
   exactly max(count, 0) regular windows followed by the trailing window.
   */
  lemma {:induction false} SplitShape(iv: Interval, window: int, overlap: int)
    requires ValidParams(window, overlap)
    ensures var ws := Split(iv, window, overlap);
      && |ws| == Max(WindowCount(iv, window, overlap), 0) + 1
      && (forall i :: 0 <= i < |ws| - 1 ==> ws[i] == RegularWindow(iv, window, overlap, i))
      && ws[|ws| - 1] == TrailingWindow(iv, window)
  {
    var regular := RegularWindows(iv, window, overlap, Max(WindowCount(iv, window, overlap), 0));
    var last := TrailingWindow(iv, window);
    forall k | 0 <= k < |regular|
      ensures regular[k] != last
    {
      RegularBeforeTrailing(iv, window, overlap, k);
    }
    assert last !in regular;
  }

  /**
   An interval no longer than one window comes back unchanged as the only
   window, and only such an interval does.
   */
  lemma {:induction false} ShortIntervalIsSingleWindow(iv: Interval, window: int, overlap: int)
    requires ValidParams(window, overlap)
    ensures Split(iv, window, overlap) == [iv] <==> Length(iv) <= window
    ensures |Split(iv, window, overlap)| == 1 <==> Length(iv) <= window
  {
    SplitShape(iv, window, overlap);
    WindowCountPositive(iv, window, overlap);
  }

  /** The first window starts at the interval's start, the last ends at its end. */
  lemma {:induction false} Anchored(iv: Interval, window: int, overlap: int)
    requires ValidParams(window, overlap)
    ensures var ws := Split(iv, window, overlap);
      |ws| > 0 && ws[0].start == iv.start && ws[|ws| - 1].end == iv.end
  {
    SplitShape(iv, window, overlap);
    WindowCountPositive(iv, window, overlap);
  }

  /** No window reaches outside the interval. */
  lemma {:induction false} WindowsWithinBounds(iv: Interval, window: int, overlap: int)
    requires ValidParams(window, overlap)
    ensures forall w <- Split(iv, window, overlap) :: iv.start <= w.start && w.end <= iv.end
  {
    var ws := Split(iv, window, overlap);
    SplitShape(iv, window, overlap);
    forall k | 0 <= k < |ws|
      ensures iv.start <= ws[k].start && ws[k].end <= iv.end
    {
      if k < |ws| - 1 {
        RegularBeforeTrailing(iv, window, overlap, k);
        MulMonotone(0, k, window - overlap);
      }
    }
  }

  /**
   Every window is exactly one window size long, except when the interval is
   shorter than that: then the single window is the interval itself.
   */
  lemma {:induction false} WindowLengths(iv: Interval, window: int, overlap: int)
    requires ValidParams(window, overlap)
    ensures forall w <- Split(iv, window, overlap) ::
      Length(w) == if Length(iv) <= window then Length(iv) else window
  {
    SplitShape(iv, window, overlap);
    WindowCountPositive(iv, window, overlap);
  }

  /** Consecutive regular windows start exactly one step apart. */
  lemma {:induction false} RegularStep(iv: Interval, window: int, overlap: int)
    requires ValidParams(window, overlap)
    ensures var ws := Split(iv, window, overlap);
      forall k :: 0 <= k < |ws| - 2 ==> ws[k + 1].start == ws[k].start + (window - overlap)
  {
    SplitShape(iv, window, overlap);
  }

  /**
   Starts and ends are both strictly increasing along the result, so no two
   windows are equal and the trailing window comes last.
   */
  lemma {:induction false} StrictlyIncreasing(iv: Interval, window: int, overlap: int)
    requires ValidParams(window, overlap)
    ensures var ws := Split(iv, window, overlap);
      forall j, k :: 0 <= j < k < |ws| ==> ws[j].start < ws[k].start && ws[j].end < ws[k].end
  {
    var ws := Split(iv, window, overlap);
    SplitShape(iv, window, overlap);
    forall j, k | 0 <= j < k < |ws|
      ensures ws[j].start < ws[k].start && ws[j].end < ws[k].end
    {
      if k < |ws| - 1 {
        MulStrict(j, k, window - overlap);
      } else {
        RegularBeforeTrailing(iv, window, overlap, j);
      }
    }
  }

  lemma {:induction false} NoDuplicates(iv: Interval, window: int, overlap: int)
    requires ValidParams(window, overlap)
    ensures var ws := Split(iv, window, overlap);
      forall j, k :: 0 <= j < |ws| && 0 <= k < |ws| && j != k ==> ws[j] != ws[k]
  {
    var ws := Split(iv, window, overlap);
    StrictlyIncreasing(iv, window, overlap);
    forall j, k | 0 <= j < |ws| && 0 <= k < |ws| && j != k
      ensures ws[j] != ws[k]
    {
      if j < k { assert ws[j].start < ws[k].start; } else { assert ws[k].start < ws[j].start; }
    }
  }

  /** Each window after the first starts no later than just after the previous one ends. */
  lemma {:induction false} NoGaps(iv: Interval, window: int, overlap: int)
    requires ValidParams(window, overlap)
    ensures var ws := Split(iv, window, overlap);
      forall k :: 0 <= k < |ws| - 1 ==> ws[k + 1].start <= ws[k].end + 1
  {
    var ws := Split(iv, window, overlap);
    var n, step := WindowCount(iv, window, overlap), window - overlap;
    SplitShape(iv, window, overlap);
    WindowCountPositive(iv, window, overlap);
    forall k | 0 <= k < |ws| - 1
      ensures ws[k + 1].start <= ws[k].end + 1
    {
      if k == |ws| - 2 {
        assert k == n - 1;
        assert Length(iv) - window <= n * step;
      }
    }
  }

  /** Some window contains x. */
  predicate Covers(ws: seq<Interval>, x: int) {
    exists k :: 0 <= k < |ws| && ws[k].start <= x <= ws[k].end
  }

  /** A chain of windows without gaps covers everything from its first start to its last end. */
  lemma {:induction false} ChainCovers(ws: seq<Interval>, x: int)
    requires |ws| > 0
    requires forall k :: 0 <= k < |ws| - 1 ==> ws[k + 1].start <= ws[k].end + 1
    requires ws[0].start <= x <= ws[|ws| - 1].end
    ensures Covers(ws, x)
  {
    var last := |ws| - 1;
    if x >= ws[last].start {
      assert ws[last].start <= x <= ws[last].end;
    } else {
      var prefix := ws[..last];
      assert ws[last].start <= ws[last - 1].end + 1;
      ChainCovers(prefix, x);
      var k :| 0 <= k < |prefix| && prefix[k].start <= x <= prefix[k].end;
      assert ws[k] == prefix[k];
    }
  }

  /** The union of the windows is exactly the interval: no gaps and nothing outside. */
  lemma {:induction false} Coverage(iv: Interval, window: int, overlap: int, x: int)
    requires ValidParams(window, overlap)
    ensures Covers(Split(iv, window, overlap), x) <==> iv.start <= x <= iv.end
  {
    var ws := Split(iv, window, overlap);
    WindowsWithinBounds(iv, window, overlap);
    if iv.start <= x <= iv.end {
      Anchored(iv, window, overlap);
      NoGaps(iv, window, overlap);
      ChainCovers(ws, x);
    }
  }

  /** The examples documented with the splitter. */
  lemma DocumentedExamples()
    ensures Split(Interval(151, 300), 100, 50) == [Interval(151, 250), Interval(201, 300)]
    ensures Split(Interval(101, 201), 100, 50) == [Interval(101, 200), Interval(102, 201)]
    ensures Split(Interval(231, 530), 100, 50)
         == [Interval(231, 330), Interval(281, 380), Interval(331, 430), Interval(381, 480), Interval(431, 530)]
    ensures Split(Interval(1, 53), 100, 50) == [Interval(1, 53)]
    ensures Split(Interval(1, 200), 100, 0) == [Interval(1, 100), Interval(101, 200)]
    ensures Split(Interval(1, 200), 100, 20) == [Interval(1, 100), Interval(81, 180), Interval(101, 200)]
  {
    SplitShape(Interval(151, 300), 100, 50);
    SplitShape(Interval(101, 201), 100, 50);
    SplitShape(Interval(231, 530), 100, 50);
    SplitShape(Interval(1, 53), 100, 50);
    SplitShape(Interval(1, 200), 100, 0);
    SplitShape(Interval(1, 200), 100, 20);
  }
}
