/**
 * The floating navigation bar: on each scroll event it slides out of view
 * when the page is scrolling down past the first 100 pixels, and back in
 * otherwise. Its only state is the offset seen at the previous event.
 */
module FloatingNav {

  /** Offsets at or above this many pixels from the top never hide the bar. */
  const HideThreshold := 100

  /** The hide decision for a scroll event at `scrollTop` after one at `lastScrollTop`. */
  predicate Hides(lastScrollTop: int, scrollTop: int)
  {
    scrollTop > lastScrollTop && scrollTop > HideThreshold
  }

  /** `window.pageYOffset || document.documentElement.scrollTop`: a zero offset falls back to the document's. */
  function ScrollTop(pageYOffset: int, documentScrollTop: int): int
  {
    if pageYOffset != 0 then pageYOffset else documentScrollTop
  }

  /**
   * The decisions taken over a run of scroll events at `offsets`, starting
   * from the handler's initial `lastScrollTop` of `start`: each event is
   * compared with the offset of the event before it.
   */
  function Decisions(start: int, offsets: seq<int>): (hidden: seq<bool>)
    ensures |hidden| == |offsets|
    ensures |offsets| > 0 ==> (hidden[0] <==> Hides(start, offsets[0]))
    ensures forall i {:trigger hidden[i]} :: 0 < i < |offsets| ==> (hidden[i] <==> Hides(offsets[i - 1], offsets[i]))
  {
    if offsets == [] then []
    else
      var init := offsets[..|offsets| - 1];
      var previous := if init == [] then start else init[|init| - 1];
      Decisions(start, init) + [Hides(previous, offsets[|offsets| - 1])]
  }

  /**
   * The bar is never hidden while the page is within the first 100 pixels,
   * and never after an event that did not move further down than the one before.
   */
  lemma {:induction false} ShownUnlessScrollingDown(start: int, offsets: seq<int>, i: nat)
    requires i < |offsets|
    requires offsets[i] <= HideThreshold || offsets[i] <= (if i == 0 then start else offsets[i - 1])
    ensures !Decisions(start, offsets)[i]
  {
    var hidden := Decisions(start, offsets);
    if i == 0 {
      assert hidden[0] <==> Hides(start, offsets[0]);
    } else {
      assert hidden[i] <==> Hides(offsets[i - 1], offsets[i]);
    }
  }

  /** The decision for an event appended to a run compares it with the run's last offset. */
  lemma LastDecision(start: int, offsets: seq<int>, scrollTop: int)
    ensures Decisions(start, offsets + [scrollTop])[|offsets|] <==>
      Hides(if offsets == [] then start else offsets[|offsets| - 1], scrollTop)
  {
    var run := offsets + [scrollTop];
    if offsets != [] {
      assert run[|run| - 2] == offsets[|offsets| - 1];
    }
  }

  /** The scroll listener's closure: the nav's displayed state and `lastScrollTop`. */
  class FloatingNavBar {
    var lastScrollTop: int
    /** True when the bar has been slid up and dimmed. */
    var hidden: bool
    /** The offsets of every scroll event handled so far. */
    ghost var offsets: seq<int>

    ghost predicate Valid()
      reads this
    {
      && (offsets == [] ==> lastScrollTop == 0 && !hidden)
      && (offsets != [] ==> lastScrollTop == offsets[|offsets| - 1] && hidden == Decisions(0, offsets)[|offsets| - 1])
    }

    constructor ()
      ensures Valid() && offsets == []
      ensures lastScrollTop == 0 && !hidden
    {
      lastScrollTop := 0;
      hidden := false;
      offsets := [];
    }

    /** Handles one scroll event. */
    method OnScroll(pageYOffset: int, documentScrollTop: int)
      requires Valid()
      modifies this
      ensures Valid()
      ensures offsets == old(offsets) + [ScrollTop(pageYOffset, documentScrollTop)]
      ensures lastScrollTop == ScrollTop(pageYOffset, documentScrollTop)
      ensures hidden <==> Hides(old(lastScrollTop), lastScrollTop)
    {
      var scrollTop := if pageYOffset != 0 then pageYOffset else documentScrollTop;
      if scrollTop > lastScrollTop && scrollTop > HideThreshold {
        hidden := true;
      } else {
        hidden := false;
      }
      ghost var run := offsets + [scrollTop];
      LastDecision(0, offsets, scrollTop);
      assert hidden == Decisions(0, run)[|run| - 1];
      offsets := run;
      lastScrollTop := scrollTop;
    }
  }
}
