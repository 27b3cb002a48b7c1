/** The state of `SlideshowManager`: the slide list, the index of the slide
    on display, the auto-advance timer, and the load and refresh cycle that
    replaces the slides. The page itself (slide markup, dots, counter text,
    fallback panel) is not modelled; `renderCount` counts the rebuilds of it. */
module Kiosk {
  import opened Wrappers
  import opened Csv
  import opened SlideData

  /** JavaScript `a % n` for `n > 0`: the remainder takes the sign of `a`. */
  function JsRem(a: int, n: int): (r: int)
    requires n > 0
    ensures a >= 0 ==> 0 <= r < n
    ensures a < 0 ==> -n < r <= 0
  {
    if a >= 0 then a % n else -((-a) % n)
  }

  /** The index `nextSlide` moves to: `(i + 1) % n`. */
  function NextIndex(i: int, n: int): int
    requires n > 0
  {
    JsRem(i + 1, n)
  }

  /** The index `previousSlide` moves to: `(i - 1 + n) % n`. */
  function PrevIndex(i: int, n: int): int
    requires n > 0
  {
    JsRem(i - 1 + n, n)
  }

  /** From any index that is not negative, even one left over from a longer
      slide list, both moves land on a valid index. */
  lemma MovesStayInRange(i: int, n: int)
    requires n > 0 && i >= 0
    ensures 0 <= NextIndex(i, n) < n
    ensures 0 <= PrevIndex(i, n) < n
  {
  }

  /** On a valid index, `nextSlide` adds one and wraps from the last slide to
      the first; `previousSlide` subtracts one and wraps from the first to the
      last. */
  lemma MovesWrap(i: int, n: int)
    requires 0 <= i < n
    ensures NextIndex(i, n) == if i == n - 1 then 0 else i + 1
    ensures PrevIndex(i, n) == if i == 0 then n - 1 else i - 1
  {
    if i == n - 1 {
      assert n % n == 0 by { ModWrap(n, n); }
    } else {
      ModSmall(i + 1, n);
    }
    if i == 0 {
      ModSmall(n - 1, n);
    } else {
      ModWrap(i - 1 + n, n);
    }
  }

  lemma ModSmall(x: int, n: int)
    requires 0 <= x < n
    ensures x % n == x
  {
  }

  lemma ModWrap(x: int, n: int)
    requires n <= x < 2 * n
    ensures x % n == x - n
  {
  }

  /** On a valid index, a move forward and a move back cancel out, in either
      order. */
  lemma MovesCancel(i: int, n: int)
    requires 0 <= i < n
    ensures PrevIndex(NextIndex(i, n), n) == i
    ensures NextIndex(PrevIndex(i, n), n) == i
  {
    MovesWrap(i, n);
    MovesWrap(NextIndex(i, n), n);
    MovesWrap(PrevIndex(i, n), n);
  }

  /** The index after `k` moves forward from `i`. */
  function Advance(i: int, n: int, k: nat): int
    requires n > 0
  {
    if k == 0 then i else NextIndex(Advance(i, n, k - 1), n)
  }

  /** `a` moves and then `b` moves are `a + b` moves. */
  lemma {:induction false} AdvanceCompose(i: int, n: int, a: nat, b: nat)
    requires n > 0
    ensures Advance(Advance(i, n, a), n, b) == Advance(i, n, a + b)
  {
    if b > 0 {
      AdvanceCompose(i, n, a, b - 1);
    }
  }

  /** Until the last slide is reached, each move adds one. */
  lemma {:induction false} AdvanceCounts(i: int, n: int, k: nat)
    requires 0 <= i && i + k < n
    ensures Advance(i, n, k) == i + k
  {
    if k > 0 {
      AdvanceCounts(i, n, k - 1);
      MovesWrap(i + k - 1, n);
    }
  }

  /** Moving forward `n` times from a valid index visits every slide once
      and comes back to the start: the auto-advance timer cycles through the
      whole list. */
  lemma AdvanceFullCycle(i: int, n: int)
    requires 0 <= i < n
    ensures Advance(i, n, n) == i
    ensures forall k :: 0 <= k < n - i ==> Advance(i, n, k) == i + k
    ensures Advance(i, n, n - i) == 0
  {
    forall k | 0 <= k < n - i ensures Advance(i, n, k) == i + k {
      AdvanceCounts(i, n, k);
    }
    AdvanceCounts(i, n, n - 1 - i);
    MovesWrap(n - 1, n);
    AdvanceCounts(0, n, i);
    AdvanceCompose(i, n, n - i, i);
  }

  /** What a load with an ok response makes of the parsed rows. */
  lemma LoadedFromRows(fetch: FetchResult, rows: seq<Row>)
    requires fetch.Response? && IsOk(fetch.status) && rows == CsvRows(fetch.body)
    ensures LoadSucceeds(fetch) <==> |rows| > 1
    ensures LoadedSlides(fetch) == if |rows| <= 1 then [] else ToSlides(Titled(rows[1..]))
  {
  }

  /** The body of `loadSlides` between the fetch and the assignment to
      `this.slides`: the slides to keep, and whether the load got far enough
      to refresh `lastUpdateTime`. */
  method FetchSlides(fetch: FetchResult) returns (loaded: seq<Slide>, succeeded: bool)
    ensures loaded == LoadedSlides(fetch)
    ensures succeeded == LoadSucceeds(fetch)
  {
    match fetch {
      case NetworkError =>
        loaded, succeeded := [], false;
      case Response(status, body) =>
        if !IsOk(status) {
          loaded, succeeded := [], false;
        } else {
          var rows := ParseCsv(body);
          LoadedFromRows(fetch, rows);
          if |rows| <= 1 {
            loaded, succeeded := [], false;
          } else {
            loaded, succeeded := ToSlides(Titled(rows[1..])), true;
          }
        }
    }
  }

  class SlideshowManager {
    /** `this.slides`. */
    var slides: seq<Slide>
    /** `this.currentSlideIndex`. */
    var currentSlideIndex: int
    /** `this.slideInterval`: the handle of the last auto-advance timer
        armed, kept after the timer is cleared since the source never resets
        it. */
    var slideInterval: Option<nat>
    /** The auto-advance timers that are armed and not yet cleared. */
    var liveIntervals: set<nat>
    /** The handle the next `setInterval` returns; handles are positive. */
    var nextHandle: nat
    /** `this.lastUpdateTime`: the clock reading at the last successful load. */
    var lastUpdateTime: int
    /** The number of `renderSlides` calls. */
    var renderCount: nat
    /** The refresh timer of `startAutoRefresh` has been armed. */
    var refreshArmed: bool

    /** The index is never negative, every handle handed out is positive and
        below `nextHandle`, and at most one auto-advance timer is armed: the
        one `slideInterval` names. */
    predicate Valid()
      reads this
    {
      && currentSlideIndex >= 0
      && nextHandle >= 1
      && (slideInterval.Some? ==> 1 <= slideInterval.value < nextHandle)
      && (slideInterval.None? ==> liveIntervals == {})
      && (slideInterval.Some? ==> liveIntervals <= {slideInterval.value})
    }

    /** The number of armed auto-advance timers. */
    function LiveCount(): nat
      reads this
    {
      |liveIntervals|
    }

    /** The field assignments of `constructor()`; the `init()` call it ends
        with is `Init`. */
    constructor ()
      ensures Valid()
      ensures slides == [] && currentSlideIndex == 0 && slideInterval == None
      ensures liveIntervals == {} && lastUpdateTime == 0 && renderCount == 0 && !refreshArmed
    {
      slides := [];
      currentSlideIndex := 0;
      slideInterval := None;
      liveIntervals := {};
      nextHandle := 1;
      lastUpdateTime := 0;
      renderCount := 0;
      refreshArmed := false;
    }

    /** `goToSlide(index)`: an index outside the slide list changes nothing;
        any other becomes the current index. */
    method GoToSlide(index: int)
      requires Valid()
      modifies this
      ensures Valid()
      ensures currentSlideIndex == if 0 <= index < |slides| then index else old(currentSlideIndex)
      ensures slides == old(slides) && slideInterval == old(slideInterval)
      ensures liveIntervals == old(liveIntervals) && nextHandle == old(nextHandle)
      ensures lastUpdateTime == old(lastUpdateTime) && renderCount == old(renderCount)
      ensures refreshArmed == old(refreshArmed)
    {
      if index < 0 || index >= |slides| {
        return;
      }
      currentSlideIndex := index;
    }

    /** `nextSlide()`: nothing without slides, otherwise the next index,
        wrapping from the last slide to the first. */
    method NextSlide()
      requires Valid()
      modifies this
      ensures Valid()
      ensures currentSlideIndex ==
                if |slides| == 0 then old(currentSlideIndex) else NextIndex(old(currentSlideIndex), |slides|)
      ensures |slides| > 0 ==> 0 <= currentSlideIndex < |slides|
      ensures slides == old(slides) && slideInterval == old(slideInterval)
      ensures liveIntervals == old(liveIntervals) && nextHandle == old(nextHandle)
      ensures lastUpdateTime == old(lastUpdateTime) && renderCount == old(renderCount)
      ensures refreshArmed == old(refreshArmed)
    {
      if |slides| == 0 {
        return;
      }
      var nextIndex := JsRem(currentSlideIndex + 1, |slides|);
      GoToSlide(nextIndex);
    }

    /** `previousSlide()`: nothing without slides, otherwise the previous
        index, wrapping from the first slide to the last. */
    method PreviousSlide()
      requires Valid()
      modifies this
      ensures Valid()
      ensures currentSlideIndex ==
                if |slides| == 0 then old(currentSlideIndex) else PrevIndex(old(currentSlideIndex), |slides|)
      ensures |slides| > 0 ==> 0 <= currentSlideIndex < |slides|
      ensures slides == old(slides) && slideInterval == old(slideInterval)
      ensures liveIntervals == old(liveIntervals) && nextHandle == old(nextHandle)
      ensures lastUpdateTime == old(lastUpdateTime) && renderCount == old(renderCount)
      ensures refreshArmed == old(refreshArmed)
    {
      if |slides| == 0 {
        return;
      }
      var prevIndex := JsRem(currentSlideIndex - 1 + |slides|, |slides|);
      GoToSlide(prevIndex);
    }

    /** `startAutoSlide()`: the running auto-advance timer, if any, is
        cleared; a new one is armed only when there is more than one slide.
        Afterwards one timer is armed exactly when there is more than one
        slide, and never more than one. */
    method StartAutoSlide()
      requires Valid()
      modifies this
      ensures Valid()
      ensures LiveCount() <= 1
      ensures LiveCount() == 1 <==> |slides| > 1
      ensures |slides| > 1 ==> slideInterval == Some(old(nextHandle)) && old(nextHandle) !in old(liveIntervals)
      ensures |slides| <= 1 ==> slideInterval == old(slideInterval) && liveIntervals == {}
      ensures |slides| > 1 ==> liveIntervals == {old(nextHandle)}
      ensures nextHandle == old(nextHandle) + (if |slides| > 1 then 1 else 0)
      ensures slides == old(slides) && currentSlideIndex == old(currentSlideIndex)
      ensures lastUpdateTime == old(lastUpdateTime) && renderCount == old(renderCount)
      ensures refreshArmed == old(refreshArmed)
    {
      if slideInterval.Some? {
        liveIntervals := liveIntervals - {slideInterval.value};
      }
      if |slides| > 1 {
        slideInterval := Some(nextHandle);
        liveIntervals := liveIntervals + {nextHandle};
        nextHandle := nextHandle + 1;
      }
    }

    /** The auto-advance timer with handle `handle` fires: a live timer
        calls `nextSlide()`, a cleared one does nothing. */
    method AutoAdvanceTick(handle: nat)
      requires Valid()
      modifies this
      ensures Valid()
      ensures currentSlideIndex ==
                if handle in liveIntervals && |slides| > 0 then NextIndex(old(currentSlideIndex), |slides|)
                else old(currentSlideIndex)
      ensures slides == old(slides) && slideInterval == old(slideInterval)
      ensures liveIntervals == old(liveIntervals) && nextHandle == old(nextHandle)
      ensures lastUpdateTime == old(lastUpdateTime) && renderCount == old(renderCount)
      ensures refreshArmed == old(refreshArmed)
    {
      if handle in liveIntervals {
        NextSlide();
      }
    }

    /** `renderSlides()`: the page is rebuilt with the first slide marked
        active, but `currentSlideIndex` keeps its value. */
    method RenderSlides()
      requires Valid()
      modifies this
      ensures Valid()
      ensures renderCount == old(renderCount) + 1
      ensures currentSlideIndex == old(currentSlideIndex)
      ensures slides == old(slides) && slideInterval == old(slideInterval)
      ensures liveIntervals == old(liveIntervals) && nextHandle == old(nextHandle)
      ensures lastUpdateTime == old(lastUpdateTime) && refreshArmed == old(refreshArmed)
    {
      renderCount := renderCount + 1;
    }

    /** `loadSlides()` with the fetch outcome and the clock reading `now`
        as inputs: the slides are replaced as a whole, by nothing on any
        failure and by the titled data rows of the sheet otherwise; the
        update time moves only on a load that yields more than one row. */
    method LoadSlides(fetch: FetchResult, now: int)
      requires Valid()
      modifies this
      ensures Valid()
      ensures slides == LoadedSlides(fetch)
      ensures lastUpdateTime == if LoadSucceeds(fetch) then now else old(lastUpdateTime)
      ensures currentSlideIndex == old(currentSlideIndex) && slideInterval == old(slideInterval)
      ensures liveIntervals == old(liveIntervals) && nextHandle == old(nextHandle)
      ensures renderCount == old(renderCount) && refreshArmed == old(refreshArmed)
    {
      var loaded, succeeded := FetchSlides(fetch);
      slides := loaded;
      if succeeded {
        lastUpdateTime := now;
      }
    }

    /** `init()`: load; with slides, render and start the auto-advance
        timer; then arm the refresh timer. */
    method Init(fetch: FetchResult, now: int)
      requires Valid()
      modifies this
      ensures Valid()
      ensures slides == LoadedSlides(fetch)
      ensures renderCount == old(renderCount) + (if |slides| > 0 then 1 else 0)
      ensures |slides| > 0 ==> (LiveCount() == 1 <==> |slides| > 1)
      ensures |slides| > 0 ==> liveIntervals == (if |slides| > 1 then {old(nextHandle)} else {})
      ensures |slides| == 0 ==> slideInterval == old(slideInterval) && liveIntervals == old(liveIntervals)
      ensures nextHandle == old(nextHandle) + (if |slides| > 1 then 1 else 0)
      ensures currentSlideIndex == old(currentSlideIndex)
      ensures lastUpdateTime == if LoadSucceeds(fetch) then now else old(lastUpdateTime)
      ensures refreshArmed
    {
      LoadSlides(fetch, now);
      if |slides| > 0 {
        RenderSlides();
        StartAutoSlide();
      }
      refreshArmed := true;
    }

    /** One run of the `startAutoRefresh` timer: reload, and rebuild the
        page and restart the auto-advance timer exactly when the number of
        slides changed. A reload that changes the slides but not their
        number leaves the page and the timer as they were. */
    method RefreshTick(fetch: FetchResult, now: int) returns (rerendered: bool)
      requires Valid()
      modifies this
      ensures Valid()
      ensures slides == LoadedSlides(fetch)
      ensures rerendered <==> |slides| != |old(slides)|
      ensures renderCount == old(renderCount) + (if rerendered then 1 else 0)
      ensures rerendered ==> LiveCount() <= 1 && (LiveCount() == 1 <==> |slides| > 1)
      ensures rerendered ==> liveIntervals == (if |slides| > 1 then {old(nextHandle)} else {})
      ensures nextHandle == old(nextHandle) + (if rerendered && |slides| > 1 then 1 else 0)
      ensures !rerendered ==> slideInterval == old(slideInterval) && liveIntervals == old(liveIntervals)
      ensures currentSlideIndex == old(currentSlideIndex)
      ensures lastUpdateTime == if LoadSucceeds(fetch) then now else old(lastUpdateTime)
      ensures refreshArmed == old(refreshArmed)
    {
      var previousSlideCount := |slides|;
      LoadSlides(fetch, now);
      rerendered := |slides| != previousSlideCount;
      if rerendered {
        RenderSlides();
        StartAutoSlide();
      }
    }
  }
}
