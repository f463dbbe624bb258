/**
 * The viewport outline tracker of the preview (`Article` in
 * v2/web/components/Article.tsx): which heading is current for a scroll
 * position, the visibility test for an element, and the single pending
 * recomputation that scroll events are coalesced into. Geometry is given as
 * integer offsets.
 */
module Article {
  import opened Wrappers

  // ---------------------------------------------------------------------
  // The viewport (lines 7-13, 75-77)
  // ---------------------------------------------------------------------

  /** A bounding client rectangle, in pixels relative to the viewport. */
  datatype Rect = Rect(top: int, left: int, bottom: int, right: int)

  /** `appearInViewport`: the element is not wholly above, below, left or right of the window. */
  function AppearInViewport(r: Rect, innerHeight: int, innerWidth: int): bool {
    var outside := r.bottom < 0 || innerHeight < r.top || r.right < 0 || innerWidth < r.left;
    !outside
  }

  predicate Within(p: int, lo: int, hi: int) {
    lo <= p <= hi
  }

  /** The closed intervals `[lo1, hi1]` and `[lo2, hi2]` share a point. */
  ghost predicate Meet(lo1: int, hi1: int, lo2: int, hi2: int) {
    exists p :: Within(p, lo1, hi1) && Within(p, lo2, hi2)
  }

  /** For well-formed intervals, sharing a point is the usual two-comparison test. */
  lemma MeetIff(lo1: int, hi1: int, lo2: int, hi2: int)
    requires lo1 <= hi1 && lo2 <= hi2
    ensures Meet(lo1, hi1, lo2, hi2) <==> lo1 <= hi2 && lo2 <= hi1
  {
    if lo1 <= hi2 && lo2 <= hi1 {
      var p := if lo1 < lo2 then lo2 else lo1;
      assert Within(p, lo1, hi1) && Within(p, lo2, hi2);
    }
  }

  /**
   * A well-formed rectangle appears in a non-empty window exactly when the
   * two share a point, rows and columns alike.
   */
  lemma AppearIffSharesAPoint(r: Rect, innerHeight: int, innerWidth: int)
    requires r.top <= r.bottom && r.left <= r.right
    requires innerHeight >= 0 && innerWidth >= 0
    ensures AppearInViewport(r, innerHeight, innerWidth) <==>
            Meet(r.top, r.bottom, 0, innerHeight) && Meet(r.left, r.right, 0, innerWidth)
  {
    MeetIff(r.top, r.bottom, 0, innerHeight);
    MeetIff(r.left, r.right, 0, innerWidth);
  }

  /**
   * The guard before scrolling to the last modified element: it must exist
   * and be out of view.
   */
  function ShouldScrollToLastModified(elem: Option<Rect>, innerHeight: int, innerWidth: int): bool {
    !(elem.None? || AppearInViewport(elem.value, innerHeight, innerWidth))
  }

  /** An element that shares a point with the window is never scrolled to. */
  lemma VisibleIsNotScrolled(r: Rect, innerHeight: int, innerWidth: int, y: int, x: int)
    requires r.top <= y <= r.bottom && 0 <= y <= innerHeight
    requires r.left <= x <= r.right && 0 <= x <= innerWidth
    ensures !ShouldScrollToLastModified(Some(r), innerHeight, innerWidth)
  {
    AppearIffSharesAPoint(r, innerHeight, innerWidth);
    assert Within(y, r.top, r.bottom) && Within(y, 0, innerHeight);
    assert Within(x, r.left, r.right) && Within(x, 0, innerWidth);
  }

  /**
   * The guard scrolls exactly when there is an element and it shares no
   * point with the window, for well-formed rectangles and a non-empty window.
   */
  lemma ScrollIffOutOfView(elem: Option<Rect>, innerHeight: int, innerWidth: int)
    requires elem.Some? ==> elem.value.top <= elem.value.bottom && elem.value.left <= elem.value.right
    requires innerHeight >= 0 && innerWidth >= 0
    ensures ShouldScrollToLastModified(elem, innerHeight, innerWidth) <==>
            elem.Some? && !(Meet(elem.value.top, elem.value.bottom, 0, innerHeight) &&
                            Meet(elem.value.left, elem.value.right, 0, innerWidth))
  {
    if elem.Some? {
      AppearIffSharesAPoint(elem.value, innerHeight, innerWidth);
    }
  }

  // ---------------------------------------------------------------------
  // Headings (lines 15-35)
  // ---------------------------------------------------------------------

  /** A heading element of the article: tag name, text content (possibly absent) and top offset. */
  datatype HeadingElem = HeadingElem(tagName: string, textContent: Option<string>, offsetTop: int)

  /** A heading as handed to the outline. */
  datatype Heading = Heading(level: nat, text: string, elem: HeadingElem, current: bool)

  /** The selector only yields `H1` … `H6`. */
  predicate IsHeadingTag(tag: string) {
    |tag| == 2 && tag[0] == 'H' && '1' <= tag[1] <= '6'
  }

  /** The tag name of a heading of the given level. */
  function TagOf(level: nat): (tag: string)
    requires 1 <= level <= 6
    ensures IsHeadingTag(tag)
  {
    ['H', ('0' as int + level) as char]
  }

  /** `parseInt(tagName.slice(1), 10)` on a heading tag: the digit after the `H`. */
  function LevelOf(tag: string): (level: nat)
    requires IsHeadingTag(tag)
    ensures 1 <= level <= 6
  {
    tag[1] as int - '0' as int
  }

  /** Reading the level off the tag of a level gives that level back. */
  lemma LevelOfTag(level: nat)
    requires 1 <= level <= 6
    ensures LevelOf(TagOf(level)) == level
  {
  }

  /** Heading tags are exactly the tags of the six levels. */
  lemma TagOfLevel(tag: string)
    requires IsHeadingTag(tag)
    ensures TagOf(LevelOf(tag)) == tag
  {
    assert TagOf(LevelOf(tag)) == [tag[0], tag[1]];
  }

  /** The top offsets of the headings, in document order. */
  function Tops(elems: seq<HeadingElem>): (tops: seq<int>)
    ensures |tops| == |elems|
    ensures forall i :: 0 <= i < |elems| ==> tops[i] == elems[i].offsetTop
  {
    seq(|elems|, i requires 0 <= i < |elems| => elems[i].offsetTop)
  }

  /** The first position whose top is at or below `scrollTop`, if any. */
  function FirstAtOrBelow(tops: seq<int>, scrollTop: int): (r: Option<nat>)
    ensures r.Some? ==> r.value < |tops| && tops[r.value] >= scrollTop
    ensures r.Some? ==> forall j :: 0 <= j < r.value ==> tops[j] < scrollTop
    ensures r.None? <==> forall j :: 0 <= j < |tops| ==> tops[j] < scrollTop
    decreases |tops|
  {
    if tops == [] then None
    else if tops[0] >= scrollTop then Some(0)
    else
      match FirstAtOrBelow(tops[1..], scrollTop)
      case None => None
      case Some(k) => Some(k + 1)
  }

  /** The first position at or below `scrollTop` is the only one before which every top is above it. */
  lemma FirstAtOrBelowIs(tops: seq<int>, scrollTop: int, i: nat)
    requires i < |tops| && tops[i] >= scrollTop
    requires forall j :: 0 <= j < i ==> tops[j] < scrollTop
    ensures FirstAtOrBelow(tops, scrollTop) == Some(i)
  {
  }

  /**
   * The position of the current heading: the first heading at or below the
   * top of the viewport, or the one before it when that heading is already
   * past the bottom of the viewport and is not the first.
   */
  function CurrentIndex(tops: seq<int>, scrollTop: int, scrollBottom: int): (r: Option<nat>)
    ensures r.Some? ==> r.value < |tops|
    ensures r.None? <==> forall j :: 0 <= j < |tops| ==> tops[j] < scrollTop
  {
    match FirstAtOrBelow(tops, scrollTop)
    case None => None
    case Some(i) => Some(if tops[i] >= scrollBottom && i > 0 then i - 1 else i)
  }

  /**
   * The current heading is where the visible section starts: it lies above
   * the bottom of the viewport, unless it is the first heading of all.
   */
  lemma CurrentStartsVisibleSection(tops: seq<int>, scrollTop: int, clientHeight: nat)
    requires CurrentIndex(tops, scrollTop, scrollTop + clientHeight).Some?
    ensures var j := CurrentIndex(tops, scrollTop, scrollTop + clientHeight).value;
            tops[j] < scrollTop + clientHeight || j == 0
  {
    var i := FirstAtOrBelow(tops, scrollTop).value;
    if tops[i] >= scrollTop + clientHeight && i > 0 {
      assert tops[i - 1] < scrollTop;
    }
  }

  /**
   * When the current heading is not the first one at or below the top of
   * the viewport, it is the one just before it, which lies above the viewport.
   */
  lemma SteppedBackIsAbove(tops: seq<int>, scrollTop: int, scrollBottom: int)
    requires FirstAtOrBelow(tops, scrollTop).Some?
    requires CurrentIndex(tops, scrollTop, scrollBottom) != FirstAtOrBelow(tops, scrollTop)
    ensures var i := FirstAtOrBelow(tops, scrollTop).value;
            i > 0 && CurrentIndex(tops, scrollTop, scrollBottom) == Some(i - 1) &&
            tops[i - 1] < scrollTop && tops[i] >= scrollBottom
  {
    var i := FirstAtOrBelow(tops, scrollTop).value;
    assert tops[i - 1] < scrollTop;
  }

  /** Headings at 0, 100 and 300 with the viewport at [150, 250]: the one at 100 is current. */
  lemma WorkedExample()
    ensures CurrentIndex([0, 100, 300], 150, 250) == Some(1)
  {
    assert FirstAtOrBelow([0, 100, 300], 150) == Some(2) by {
      assert [0, 100, 300][1..] == [100, 300];
      assert [100, 300][1..] == [300];
    }
  }

  /** Scrolling past every heading leaves none current. */
  lemma NoneCurrentBelowAll(tops: seq<int>, scrollTop: int, scrollBottom: int)
    requires forall j :: 0 <= j < |tops| ==> tops[j] < scrollTop
    ensures CurrentIndex(tops, scrollTop, scrollBottom) == None
  {
  }

  /**
   * `collectHeadings`: one heading per element in document order, the level
   * read off the tag, then a scan that marks the current heading and stops.
   */
  method CollectHeadings(elems: seq<HeadingElem>, scrollTop: int, clientHeight: int) returns (headings: seq<Heading>)
    requires forall k :: 0 <= k < |elems| ==> IsHeadingTag(elems[k].tagName)
    ensures |headings| == |elems|
    ensures forall k :: 0 <= k < |elems| ==>
              && headings[k].elem == elems[k]
              && headings[k].level == LevelOf(elems[k].tagName)
              && headings[k].text == (if elems[k].textContent.Some? then elems[k].textContent.value else "")
    ensures forall k :: 0 <= k < |elems| ==>
              (headings[k].current <==> CurrentIndex(Tops(elems), scrollTop, scrollTop + clientHeight) == Some(k))
  {
    headings := [];
    for k := 0 to |elems|
      invariant |headings| == k
      invariant forall m :: 0 <= m < k ==>
                  && headings[m].elem == elems[m]
                  && headings[m].level == LevelOf(elems[m].tagName)
                  && headings[m].text == (if elems[m].textContent.Some? then elems[m].textContent.value else "")
                  && !headings[m].current
    {
      var elem := elems[k];
      var level := LevelOf(elem.tagName);
      var text := if elem.textContent.Some? then elem.textContent.value else "";
      headings := headings + [Heading(level, text, elem, false)];
    }

    headings := MarkCurrent(headings, Tops(elems), scrollTop, clientHeight);
  }

  /**
   * The scan of `collectHeadings`: find the first heading at or below the top
   * of the viewport, mark it or the one before it as current, and stop.
   */
  method MarkCurrent(headings: seq<Heading>, ghost tops: seq<int>, scrollTop: int, clientHeight: int)
    returns (marked: seq<Heading>)
    requires |tops| == |headings|
    requires forall k :: 0 <= k < |headings| ==> tops[k] == headings[k].elem.offsetTop && !headings[k].current
    ensures |marked| == |headings|
    ensures forall k :: 0 <= k < |headings| ==>
              marked[k] == headings[k].(current := CurrentIndex(tops, scrollTop, scrollTop + clientHeight) == Some(k))
  {
    marked := headings;
    var scrollBottom := scrollTop + clientHeight;
    var i := 0;
    while i < |marked|
      invariant 0 <= i <= |marked| && marked == headings
      invariant forall m :: 0 <= m < i ==> tops[m] < scrollTop
    {
      var top := marked[i].elem.offsetTop;
      if top >= scrollTop {
        var j := if top >= scrollBottom && i > 0 then i - 1 else i;
        FirstAtOrBelowIs(tops, scrollTop, i);
        assert CurrentIndex(tops, scrollTop, scrollBottom) == Some(j);
        marked := marked[j := marked[j].(current := true)];
        return;
      }
      i := i + 1;
    }
  }

  /** So at most one heading is current. */
  lemma AtMostOneCurrent(headings: seq<Heading>, elems: seq<HeadingElem>, scrollTop: int, clientHeight: int, k: nat, l: nat)
    requires |headings| == |elems|
    requires forall m :: 0 <= m < |elems| ==>
               (headings[m].current <==> CurrentIndex(Tops(elems), scrollTop, scrollTop + clientHeight) == Some(m))
    requires k < |headings| && l < |headings| && headings[k].current && headings[l].current
    ensures k == l
  {
  }

  // ---------------------------------------------------------------------
  // Coalescing recomputations (lines 37-63)
  // ---------------------------------------------------------------------

  /**
   * The module-level `currentId` slot together with the scheduler it talks
   * to: `live` is the set of handles scheduled and neither cancelled nor
   * run, and `nextHandle` is the handle the scheduler gives out next.
   */
  class HeadingTracker {
    var currentId: Option<nat>
    ghost var live: set<nat>
    var nextHandle: nat

    /** At most one recomputation is pending, and it is the one in the slot. */
    ghost predicate Valid()
      reads this
    {
      && (currentId.None? ==> live == {})
      && (currentId.Some? ==> live == {currentId.value} && currentId.value < nextHandle)
    }

    constructor ()
      ensures Valid() && currentId == None && live == {}
    {
      currentId := None;
      live := {};
      nextHandle := 0;
    }

    /**
     * `dispatchHeadings`: cancel the pending recomputation, if any, and
     * schedule a new one whose handle goes into the slot.
     */
    method Dispatch()
      requires Valid()
      modifies this
      ensures Valid()
      ensures currentId == Some(old(nextHandle)) && live == {old(nextHandle)}
      ensures old(currentId).Some? ==> old(currentId).value !in live
      ensures nextHandle == old(nextHandle) + 1
    {
      if currentId.Some? {
        live := live - {currentId.value};
        currentId := None;
      }
      var handle := nextHandle;
      nextHandle := nextHandle + 1;
      live := live + {handle};
      currentId := Some(handle);
    }

    /**
     * The scheduled callback runs: it collects the headings for the scroll
     * position at that moment and empties the slot.
     */
    method Fire(handle: nat, elems: seq<HeadingElem>, scrollTop: int, clientHeight: int)
      returns (headings: seq<Heading>)
      requires Valid() && handle in live
      requires forall k :: 0 <= k < |elems| ==> IsHeadingTag(elems[k].tagName)
      modifies this
      ensures Valid() && currentId == None && live == {}
      ensures old(currentId) == Some(handle)
      ensures nextHandle == old(nextHandle)
      ensures |headings| == |elems|
      ensures forall k :: 0 <= k < |elems| ==>
                (headings[k].current <==> CurrentIndex(Tops(elems), scrollTop, scrollTop + clientHeight) == Some(k))
    {
      headings := CollectHeadings(elems, scrollTop, clientHeight);
      live := live - {handle};
      currentId := None;
    }
  }

  /** After any number of dispatches at most one recomputation is pending. */
  lemma PendingAtMostOne(t: HeadingTracker)
    requires t.Valid()
    ensures |t.live| <= 1
  {
  }
}
