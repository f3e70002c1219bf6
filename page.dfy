/**
 * The page state the script's event handlers write: the carousel's scroll
 * offset, the carousel controls' `style.display` and the header's inline
 * style. Each is `None` when the page lacks the element the script looks up.
 */
module PageState {
  import opened Optional
  import opened CarouselScroll
  import opened Layout

  /** The controls' display after `updateCarouselNav` on a viewport `width` pixels wide; absent controls stay absent. */
  function NavAfterUpdate(nav: Option<string>, width: int): Option<string> {
    if nav.None? then None else Some(NavDisplay(width))
  }

  /** The header after one scroll event; with no header the handler throws before it sets anything. */
  function HeaderAfterScroll(header: Option<HeaderStyle>, scrollY: int): Option<HeaderStyle> {
    if header.None? then None else Some(HeaderStyleFor(scrollY))
  }

  /**
   * After any sequence of resizes, the controls are displayed as the last width
   * calls for, whatever they were before: the update is idempotent per width and
   * forgets earlier widths.
   */
  lemma NavUpdateForgetsEarlierWidths(nav: Option<string>, first: int, second: int)
    ensures NavAfterUpdate(NavAfterUpdate(nav, first), second) == NavAfterUpdate(nav, second)
    ensures NavAfterUpdate(NavAfterUpdate(nav, second), second) == NavAfterUpdate(nav, second)
  {
  }

  /** Present controls are hidden exactly on mobile widths, so they agree with `isMobile` after every update. */
  lemma NavAfterUpdateAgreesWithIsMobile(nav: Option<string>, width: int)
    requires nav.Some?
    ensures NavAfterUpdate(nav, width) == Some("none") <==> IsMobile(width)
    ensures NavAfterUpdate(nav, width) == Some("flex") <==> !IsMobile(width)
  {
    NavDisplayAgreesWithIsMobile(width);
  }

  class Page {
    /** The left offset last requested with `scrollTo` on the `.trending-carousel` element (initially its `scrollLeft`). */
    var carousel: Option<int>
    /** `style.display` of the first `.carousel-nav` element. */
    var nav: Option<string>
    /** The inline background and backdrop filter of the `.header` element. */
    var header: Option<HeaderStyle>

    /** Page load: the script calls `updateCarouselNav` once before any resize. */
    constructor (carousel: Option<int>, nav: Option<string>, header: Option<HeaderStyle>, width: int)
      ensures this.carousel == carousel && this.header == header
      ensures this.nav == NavAfterUpdate(nav, width)
    {
      this.carousel := carousel;
      this.nav := nav;
      this.header := header;
      new;
      UpdateCarouselNav(width);
    }

    /** `scrollCarousel(direction)`. */
    method ScrollCarousel(direction: string)
      modifies this`carousel
      ensures carousel == Scroll(old(carousel), direction)
    {
      if carousel.None? {
        return;
      }
      var current := carousel.value;
      if direction == "next" {
        carousel := Some(current + ScrollAmount);
      } else {
        carousel := Some(current - ScrollAmount);
      }
    }

    /** A click on the `.carousel-nav.next` control. */
    method OnNextClick()
      modifies this`carousel
      ensures carousel == Scroll(old(carousel), "next")
    {
      ScrollCarousel("next");
    }

    /** `updateCarouselNav`, run at load and on every resize. */
    method UpdateCarouselNav(width: int)
      modifies this`nav
      ensures nav == NavAfterUpdate(old(nav), width)
    {
      if width <= MobileMaxWidth {
        if nav.Some? {
          nav := Some("none");
        }
      } else {
        if nav.Some? {
          nav := Some("flex");
        }
      }
    }

    /** The header-shading scroll listener. */
    method OnScroll(scrollY: int)
      modifies this`header
      ensures header == HeaderAfterScroll(old(header), scrollY)
    {
      if header.None? {
        return;
      }
      if scrollY > HeaderShadeThreshold {
        header := Some(Shaded);
      } else {
        header := Some(Gradient);
      }
    }
  }
}
