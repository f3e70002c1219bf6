/**
 * The carousel scroller: `scrollCarousel(direction)` reads the carousel's
 * `scrollLeft` and asks for a smooth scroll to that offset plus 220 when the
 * direction is exactly `"next"`, minus 220 for any other direction. With no
 * `.trending-carousel` on the page it only logs, so the carousel is an optional
 * offset. The offset is the requested target: the browser's clamping to the
 * scrollable range and the animation are not part of this model.
 */
module CarouselScroll {
  import opened Optional

  /** One item's width plus the gap between items, in pixels. */
  const ScrollAmount: int := 220

  /**
   * The offset `scrollCarousel` asks to scroll to: 220 past `current` when
   * `direction` is exactly `"next"`, 220 before it for every other direction.
   */
  function ScrollTarget(current: int, direction: string): int {
    if direction == "next" then current + ScrollAmount else current - ScrollAmount
  }

  /** The carousel offset after one `scrollCarousel(direction)`, or None when there is no carousel. */
  function Scroll(carousel: Option<int>, direction: string): Option<int> {
    match carousel
    case None => None
    case Some(current) => Some(ScrollTarget(current, direction))
  }

  /** A step forward and a step in any other direction cancel out. */
  lemma NextThenBackRestores(current: int, back: string)
    requires back != "next"
    ensures ScrollTarget(ScrollTarget(current, "next"), back) == current
    ensures ScrollTarget(ScrollTarget(current, back), "next") == current
  {
  }

  /** The offset after scrolling in each of `directions` in turn. */
  function ScrollAll(carousel: Option<int>, directions: seq<string>): (r: Option<int>)
    ensures r.Some? <==> carousel.Some?
    decreases |directions|
  {
    if |directions| == 0 then carousel else ScrollAll(Scroll(carousel, directions[0]), directions[1..])
  }

  /** How many of `directions` are `"next"`. */
  function CountNext(directions: seq<string>): nat {
    if |directions| == 0 then 0 else (if directions[0] == "next" then 1 else 0) + CountNext(directions[1..])
  }

  /**
   * Over any run of clicks the requested offset moves by 220 for each `"next"`
   * and back by 220 for each other direction; the order of the clicks does not matter.
   */
  lemma {:induction false} ScrollAllNet(start: int, directions: seq<string>)
    ensures ScrollAll(Some(start), directions)
      == Some(start + ScrollAmount * (2 * CountNext(directions) - |directions|))
    decreases |directions|
  {
    if |directions| > 0 {
      ScrollAllNet(ScrollTarget(start, directions[0]), directions[1..]);
    }
  }

  lemma {:induction false} CountNextConcat(a: seq<string>, b: seq<string>)
    ensures CountNext(a + b) == CountNext(a) + CountNext(b)
    decreases |a|
  {
    if |a| > 0 {
      assert (a + b)[1..] == a[1..] + b;
      CountNextConcat(a[1..], b);
    } else {
      assert a + b == b;
    }
  }

  /** Two runs of clicks request the same offset whichever of them comes first. */
  lemma ScrollAllOrderIrrelevant(start: int, first: seq<string>, second: seq<string>)
    ensures ScrollAll(Some(start), first + second) == ScrollAll(Some(start), second + first)
  {
    ScrollAllNet(start, first + second);
    ScrollAllNet(start, second + first);
    CountNextConcat(first, second);
    CountNextConcat(second, first);
  }

  /** Without a carousel no run of clicks produces an offset. */
  lemma {:induction false} ScrollAllAbsent(directions: seq<string>)
    ensures ScrollAll(None, directions) == None
    decreases |directions|
  {
    if |directions| > 0 {
      ScrollAllAbsent(directions[1..]);
    }
  }
}
