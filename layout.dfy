/**
 * The width breakpoint and the scroll threshold of the page: the first
 * `.carousel-nav` element is hidden on viewports at most 768 pixels wide
 * (`updateCarouselNav`), the same test `isMobile` makes, and the header switches to a dark blurred
 * background once the page has scrolled more than 100 pixels.
 */
module Layout {

  /** The widest viewport, in CSS pixels, that counts as mobile. */
  const MobileMaxWidth: int := 768

  /** The vertical scroll, in pixels, beyond which the header is shaded. */
  const HeaderShadeThreshold: int := 100

  /** `isMobile()` for a viewport `width` pixels wide. */
  function IsMobile(width: int): bool {
    width <= MobileMaxWidth
  }

  /** The `style.display` that `updateCarouselNav` gives the carousel controls. */
  function NavDisplay(width: int): string {
    if width <= MobileMaxWidth then "none" else "flex"
  }

  /** The controls are hidden exactly on mobile widths and shown as a flex row on all others. */
  lemma NavDisplayAgreesWithIsMobile(width: int)
    ensures NavDisplay(width) == "none" <==> IsMobile(width)
    ensures NavDisplay(width) == "flex" <==> !IsMobile(width)
  {
  }

  /** Widening the viewport never hides controls that were shown; narrowing it never shows hidden ones. */
  lemma NavDisplayMonotone(narrow: int, wide: int)
    requires narrow <= wide
    ensures NavDisplay(narrow) == "flex" ==> NavDisplay(wide) == "flex"
    ensures NavDisplay(wide) == "none" ==> NavDisplay(narrow) == "none"
  {
  }

  /** The two inline style properties the scroll handler sets on the header. */
  datatype HeaderStyle = HeaderStyle(background: string, backdropFilter: string)

  /** The style once the page has scrolled past the threshold. */
  const Shaded := HeaderStyle("rgba(0, 0, 0, 0.9)", "blur(10px)")

  /** The style at the top of the page. */
  const Gradient := HeaderStyle("linear-gradient(180deg, rgba(0,0,0,0.7) 10%, transparent)", "none")

  /** The header style the scroll handler chooses for a vertical scroll of `scrollY` pixels. */
  function HeaderStyleFor(scrollY: int): HeaderStyle {
    if scrollY > HeaderShadeThreshold then Shaded else Gradient
  }

  /**
   * The header is shaded exactly when the page has scrolled more than 100 pixels,
   * so at exactly 100 it still has the gradient; the choice has no hysteresis.
   */
  lemma HeaderShadedAboveThreshold(scrollY: int)
    ensures HeaderStyleFor(scrollY) == Shaded <==> scrollY > 100
    ensures HeaderStyleFor(scrollY) == Gradient <==> scrollY <= 100
    ensures HeaderStyleFor(100) == Gradient && HeaderStyleFor(101) == Shaded
  {
  }
}
