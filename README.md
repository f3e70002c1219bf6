# Interactive behaviour of a streaming-service landing page, modelled in Dafny

The page's script (`script.js`) wires DOM events to a few small decisions. This
project models those decisions with the DOM abstracted away and proves what they
promise:

- **Email format check** (`validateEmail`): the pattern `^[^\s@]+@[^\s@]+\.[^\s@]+$`.
  `EmailFormat.MatchesPattern` is the pattern's language written out by index.
  `EmailFormat.ValidateEmail` is an executable check that splits at the first `@`.
  The two are proved equal. The check is then characterised as: exactly one `@`,
  no white space, a non-empty local part, and a `.` inside the domain part that is
  neither its first nor its last character. JavaScript's `\s` is spelled out as
  its WhiteSpace and LineTerminator code points (`EmailFormat.IsSpace`).
- **FAQ accordion** (the `.faq-question` click handler): the panel is an
  `array<bool>` of `active` flags. `Accordion.ClickQuestion` clears every flag in a
  loop, then sets the clicked one if it was clear before. It is proved against
  `Accordion.Toggled`, and the lemmas prove the single-selection invariant and the
  toggle semantics.
- **"Get started" buttons**: the button at position `i` reads the email input at
  position `i`, shows the `Redirecting to sign up...` alert when the input is valid
  (no navigation happens), and otherwise shows the invalid-address alert and focuses
  that same input (`GetStarted`).
- **Carousel scroller** (`scrollCarousel`): the requested offset is the current
  `scrollLeft` plus 220 for `"next"` and minus 220 for any other direction. Nothing
  happens when there is no carousel (`CarouselScroll`).
- **Breakpoint and threshold**: the first `.carousel-nav` element is hidden
  (`"none"`) at widths up to 768 and shown (`"flex"`) above, which agrees with
  `isMobile`. The
  header is shaded once `scrollY` exceeds 100 (`Layout`).
- **Page state**: the class `PageState.Page` holds the carousel offset, the
  controls' display and the header style. Each is `None` when the element is
  missing. The handlers are methods that update these fields.

Files: `option.dfy` (the `Option` type), `email.dfy`, `accordion.dfy`,
`get_started.dfy`, `carousel.dfy`, `layout.dfy`, `page.dfy`.

## Behaviour worth noting

- A `.faq-item` without a `.faq-question` makes `question.addEventListener` throw
  at script.js:44, which aborts the rest of the start-up handler. The wiring itself
  is not modelled.
- Only a `next` control is wired (script.js:28-37); any direction other than
  `"next"` scrolls back.
- Clicking the same FAQ item twice closes everything only if the item was closed
  to begin with. If it was open, the second click opens it again
  (`Accordion.ToggleTwice`).
- Only the first `.carousel-nav` element follows the breakpoint:
  `updateCarouselNav` looks it up with `document.querySelector` (script.js:195), so
  any other control with that class is never hidden.

## Model

| member | source | states |
|---|---|---|
| EmailFormat.ValidateEmail | script.js:208-211 | computes the verdict: true when the text before the first `@` is non-empty and free of white space, and the text after it is free of white space and `@` and has a `.` that is neither its first nor its last character |
| EmailFormat.MatchesPattern | script.js:209 | the language of the pattern: a string with an `@` at some `i > 0` and a `.` at some `k` with `i + 1 < k < |s| - 1`, where the three stretches between and around them contain no white space and no `@` |
| EmailFormat.IsSpace | script.js:209 | the characters JavaScript's `\s` matches: TAB to CR (U+0009-U+000D), SPACE, U+00A0, U+1680, U+2000-U+200A, U+2028, U+2029, U+202F, U+205F, U+3000 and U+FEFF, and no others |
| EmailFormat.InClass | script.js:209 | the class `[^\s@]`: any character that is neither in `\s` nor `@` |
| EmailFormat.FirstIndexOf | script.js:209 | the position found holds the character and no earlier position does; when none is found the character does not occur |
| EmailFormat.ValidateEmailMatchesPattern | script.js:208-211 | the executable check accepts exactly the strings of the pattern's language (both directions) |
| EmailFormat.ValidateEmailCharacterisation | script.js:208-211 | an address passes exactly when it has one `@`, no white space, a non-empty local part and a domain with a `.` that is neither first nor last (both directions) |
| EmailFormat.PatternAccepts | script.js:209 | `a@b.c` and `user@example.com` match the pattern |
| EmailFormat.PatternRejectsMalformed | script.js:209 | the empty string, `bad-email`, `a@b`, `a@.c` and `a@b.` do not match |
| EmailFormat.PatternRejectsSpace | script.js:209 | `a b@c.d` does not match: white space is refused |
| EmailFormat.PatternRejectsSecondAt | script.js:209 | `a@b@c.d` does not match: a second `@` is refused |
| Accordion.Toggled | script.js:45-55 | computes the panel after a click on item `i`: item `i` is open exactly when it was closed before, every other item is closed, and the length is kept |
| Accordion.ClickQuestion | script.js:44-56 | the in-place handler leaves the panel equal to `Toggled` of the panel before the click |
| Accordion.ToggledActiveSet | script.js:45-55 | after a click the open items are {} if the clicked item was open and {clicked} if it was closed |
| Accordion.ToggledAtMostOne | script.js:47-55 | after any click at most one item is open, whatever the panel was before |
| Accordion.ToggledCount | script.js:45-55 | clicking an open item leaves 0 items open, clicking a closed one leaves exactly 1 |
| Accordion.ToggleTwice | script.js:45-55 | two clicks on the same item leave {item} open if it was open before and nothing open if it was closed |
| Accordion.ToggleTwiceRestoresOpen | script.js:45-55 | on a panel with at most one open item, clicking the open item twice restores the panel |
| Accordion.AtMostOneActiveCount | script.js:47-55 | the invariant "no two items open" holds exactly when the number of open items is at most one |
| Accordion.AfterClicks | script.js:44-56 | a run of clicks keeps the number of items |
| Accordion.AfterClicksAtMostOne | script.js:44-56 | after any non-empty run of clicks, or any run from a panel that had at most one item open, at most one item is open |
| GetStarted.OnGetStartedClick | script.js:64-75 | computes the click's effect: a TypeError when there is no input at `index`, the redirect alert when input `index` passes `ValidateEmail`, otherwise the invalid-address alert with focus on input `index` |
| GetStarted.RedirectsExactlyWhenPatternMatches | script.js:63-73 | the click shows the redirect alert exactly when its paired input matches the email pattern, and throws exactly when it has no paired input |
| GetStarted.FocusOnlyPairedInput | script.js:66-73 | both directions: when the paired input exists and fails the email pattern, the click shows the invalid-address alert and focuses that input; and any click that focuses an input focuses the one at the button's own index, after that alert, only when that input fails the pattern |
| GetStarted.OnlyPairedInputMatters | script.js:63-68 | changing any input other than the paired one does not change what the click does |
| GetStarted.EmptyInputFocusesItself | script.js:66-73 | an empty paired input draws the invalid-address alert and focuses that input |
| CarouselScroll.NextThenBackRestores | script.js:9-22 | a `"next"` step and a step in any other direction cancel out, in either order |
| CarouselScroll.ScrollTarget | script.js:9-22 | computes the requested offset: the current offset plus 220 for exactly `"next"`, minus 220 for any other direction |
| CarouselScroll.Scroll | script.js:2-23 | computes the carousel after one `scrollCarousel`: no carousel stays no carousel, a present one gets `ScrollTarget` of its offset |
| CarouselScroll.ScrollAll | script.js:2-23 | a run of scrolls yields an offset exactly when there is a carousel |
| CarouselScroll.CountNextConcat | script.js:12 | the `"next"` steps of two runs joined are those of the first run plus those of the second |
| CarouselScroll.ScrollAllOrderIrrelevant | script.js:9-22 | two runs of scrolls request the same offset in either order |
| CarouselScroll.ScrollAllNet | script.js:9-22 | after any run of scrolls the requested offset is the start plus 220 per `"next"` minus 220 per other direction |
| CarouselScroll.ScrollAllAbsent | script.js:3-7 | without a carousel no run of scrolls yields an offset |
| Layout.IsMobile | script.js:223-225 | computes whether the viewport is at most 768 pixels wide |
| Layout.NavDisplay | script.js:196-200 | computes the controls' display: `"none"` up to 768 pixels, `"flex"` above |
| Layout.HeaderStyleFor | script.js:122-128 | computes the header style: background `rgba(0, 0, 0, 0.9)` with filter `blur(10px)` above 100 pixels of scroll, the gradient background with filter `none` otherwise |
| Layout.NavDisplayAgreesWithIsMobile | script.js:194-201 | the controls' display is `"none"` exactly when `isMobile` holds and `"flex"` exactly when it does not |
| Layout.NavDisplayMonotone | script.js:196-200 | widening never hides shown controls and narrowing never shows hidden ones |
| Layout.HeaderShadedAboveThreshold | script.js:122-128 | the header is shaded exactly when `scrollY` > 100 and has the gradient otherwise, including at exactly 100 |
| PageState.NavAfterUpdate | script.js:194-201 | computes the controls' display after `updateCarouselNav`: absent controls stay absent, present ones get `NavDisplay(width)` whatever they had |
| PageState.HeaderAfterScroll | script.js:119-128 | computes the header after a scroll event: an absent header stays absent, a present one gets `HeaderStyleFor(scrollY)` whatever it had |
| PageState.NavUpdateForgetsEarlierWidths | script.js:194-204 | after two updates the display depends only on the last width, and repeating an update changes nothing |
| PageState.NavAfterUpdateAgreesWithIsMobile | script.js:194-201 | present controls are `"none"` after an update exactly on mobile widths and `"flex"` exactly on the others |
| PageState.Page.constructor | script.js:203-204 | at load the controls already show the display for the initial width, and the carousel and header are as found |
| PageState.Page.ScrollCarousel | script.js:2-23 | the carousel offset becomes `Scroll` of the old offset, so it is unchanged when the carousel is absent; the other fields are framed out |
| PageState.Page.OnNextClick | script.js:28-34 | the next control scrolls the carousel in direction `"next"` |
| PageState.Page.UpdateCarouselNav | script.js:194-201 | present controls get the width's display and absent ones stay absent |
| PageState.Page.OnScroll | script.js:119-128 | a present header gets the style for `scrollY`; with no header nothing changes, because the handler throws before it writes |

## Left out

- The fade-in animations (`IntersectionObserver`, script.js:93-113) are not modelled. They run from browser callbacks, and their thresholds are fractions.
- The parallax effect (script.js:134-140) is not modelled. It is a floating-point offset inside a CSS string.
- Anchor smooth scrolling (`scrollIntoView`, script.js:79-90) is not modelled. It is a browser call.
- The smooth animation and the clamping that `scrollTo` performs are not modelled. The carousel offset is the requested target: `CarouselScroll.ScrollAllNet` assumes each scroll has finished and was not clamped before the next click reads `scrollLeft`.
- `addLoadingState` and `animateElement` (script.js:162-171, 214-220) are not modelled. They are timer effects.
- `alert`, `focus` and console logging become values (`GetStarted.ClickEffect`) or are dropped. The language-select and sign-in stubs only log or alert.
- Focus and blur class toggling and Enter-key forwarding (script.js:174-191) are left out. They are event plumbing with no decision in them.
- The one-time injection of mobile styles (script.js:228-243) is left out. It appends a fixed CSS string when `isMobile()` holds at load.
- `lastScrollY` (script.js:117, 130) is written and never read, so it is not modelled.
- Event registration itself is not modelled. That covers which handler is attached to which element, including the start-up abort when a FAQ item has no question element.
- `scrollLeft`, `scrollY` and `innerWidth` are modelled as integers. Browsers report the first two as fractional numbers.
- JavaScript strings are UTF-16 code units, and the pattern runs on them. The model uses Unicode scalar values, so unpaired surrogates are not represented.
- Only the `active` class of a FAQ item is modelled. Its other classes are not affected by the handler.
