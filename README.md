# KVS Spices & Traders page script: a model of its view state

`scripts.js` wires the site's pages to a set of independent features. This project models the
state each feature keeps and changes, with the DOM reduced to plain values: an element list is
an array of `active` flags, tab contents are a map from element id to `active`, attributes that
may be absent are `Option<string>`, and `document.body.style.overflow` is one shared `Body`
object that both the mobile menu and the lightbox write.

Each feature is one module. The handlers that change page state are the methods of a class,
written step by step like the source (the `forEach` loops become `while` loops). The stats
counter's handler changes only one text node, so it is a module-level method that returns the
texts it writes, with its interval loop kept as a loop. Each method's postcondition ties its
result, or the new state, to a pure function of the inputs. The lemmas beside them prove the
feature's invariants about those functions.

- `Page`: `Option`, the `overflow: hidden` constant and the shared `Body`.
- `Flags`: counting and "only this one is active" over a list of flags.
- `MobileMenu`: the closure flag `isMenuOpen` is kept apart from what the page shows: the
  menu's and the toggle's `active` class, the icon class and the scroll lock. It has one step
  function per handler (toggle, link, outside click, touchstart, touchmove, Escape) and the
  debounced resize handler. Runs of events can be replayed.
- `Accordion`: the FAQ click handler and the Enter/Space key handler.
- `Tabs`: the tab switcher, including the `data-tab + "-tab"` id convention.
- `TourFilter`: the filter buttons and the settled display of the tour cards.
- `Lightbox`: the resolution of src/alt/caption, the single overlay slot, and closing.
- `ScrollEffects`: the sticky header (`> 50`), the back-to-top button (`> 300`), and the
  header's shadow and mobile hide/show, which uses `lastScrollY`.
- `StatsCounter`: digit extraction, the suffix, `parseInt`, number printing, and the 50-tick
  interval loop in exact arithmetic.

Behaviour of the code that the model keeps, even where the feature evidently means something else:

- In the toggle handler, a toggle with no `<i>` element throws after the flag and the menu
  class are set, so the scroll lock and the toggle class are not updated. `closeMenu` guards
  the icon and does not throw.
- A button with no `data-tab` looks up the id `"null-tab"`. A filter button with no
  `data-filter` matches exactly the cards with no `data-category` (`null === null`).
- After a tab click, some content is active only if an element with the target id exists.
- Escape closes the lightbox even when it is not open, which clears the scroll lock.
- The counter writes the number followed by every non-digit character of the text, so
  "500+" ends as "500+" but "1,200+" ends as "1200,+".
- The resize handler does not reset `isMenuOpen`. See Findings.
- Enter or Space on a gallery image also reaches its container's keydown listener. The
  container then shows its own first image. See Findings.

## Model

| member | source | states |
|---|---|---|
| `MobileMenu.Toggled` | scripts.js:39-53 | a toggle click flips the flag and the menu class follows it; with an icon, the toggle class, the times/bars icon and `overflow: hidden` all mirror the new flag; without one, those three are untouched |
| `MobileMenu.Closed` | scripts.js:64-73 | closeMenu leaves the flag false and the page mirroring it (classes cleared, bars icon when there is one, scroll unlocked), touch coordinates kept |
| `MobileMenu.ClosedIdempotentAndNoOps` | scripts.js:64-107 | closeMenu is idempotent; the outside-click and Escape handlers change nothing when the menu is closed |
| `MobileMenu.SwipeClosesIff` | scripts.js:90-100 | a touchmove closes the menu iff both start coordinates were recorded and are non-zero, distX > 100 and abs(distY) < 100 |
| `MobileMenu.SwipeFromZeroNeverCloses` | scripts.js:91 | a touch that started at coordinate 0 never closes the menu (falsy check) |
| `MobileMenu.ToggleTwice` | scripts.js:39-53 | two toggle clicks from a consistent state give back the same state |
| `MobileMenu.StepMirrors` | scripts.js:39-107 | when the toggle has an `<i>` icon, every menu event except resize keeps the page mirroring the flag |
| `MobileMenu.RunMirrors` | scripts.js:31-107 | when the toggle has an `<i>` icon, any sequence of events without a resize keeps the page mirroring the flag |
| `MobileMenu.InitialState` | scripts.js:34 | the script starts with the menu closed and consistent |
| `MobileMenu.ResizeThenToggleStaysClosed` | scripts.js:656-663 | open, then widen: the flag stays set while the menu class is cleared, and the next toggle click leaves the menu hidden |
| `MobileMenu.ResizedClosing` | scripts.js:656-663 | the corrected resize handler: past 768 the menu is closed and unlocked, otherwise nothing changes |
| `MobileMenu.RunCorrectedMirrors` | scripts.js:656-663 | when the toggle has an `<i>` icon and the resize is corrected, every sequence of events keeps the page mirroring the flag, so a toggle click always changes the menu's visibility |
| `MobileMenu.Menu.constructor` | scripts.js:31-36 | the flag starts false and no touch is recorded; classes, icon and overflow come from the markup |
| `MobileMenu.Menu.ToggleClick` | scripts.js:39-53 | the new state is `Toggled` of the old one |
| `MobileMenu.Menu.CloseMenu` | scripts.js:64-73 | the new state is `Closed` of the old one |
| `MobileMenu.Menu.LinkClick` | scripts.js:56-61 | a navigation link click closes the menu |
| `MobileMenu.Menu.DocumentClick` | scripts.js:76-80 | a click outside both toggle and menu closes an open menu, else nothing changes |
| `MobileMenu.Menu.TouchStart` | scripts.js:85-88 | records the start coordinates, nothing else changes |
| `MobileMenu.Menu.TouchMove` | scripts.js:90-100 | closes the menu exactly when `SwipeCloses` holds |
| `MobileMenu.Menu.KeyDown` | scripts.js:103-107 | Escape closes an open menu, else nothing changes |
| `MobileMenu.Menu.HandleResize` | scripts.js:656-663 | as written: past 768, clears the menu class and the scroll lock and leaves `isMenuOpen` unchanged |
| `Accordion.Click` | scripts.js:269-279 | after a click on item i, every other item is inactive and item i is the negation of its previous state |
| `Accordion.ClickAtMostOne` | scripts.js:269-279 | from any prior state, at most one item is active after a click (pairwise and by count) |
| `Accordion.ClickOpensIffClosed` | scripts.js:277-278 | the click leaves exactly item i open iff it was closed, and no item open iff it was open |
| `Accordion.ClickTwice` | scripts.js:269-279 | clicking the same question twice closes the others and restores item i |
| `Accordion.ClicksAtMostOne` | scripts.js:265-279 | after any non-empty click sequence, or any sequence from a state with at most one open, at most one item is open |
| `Accordion.FaqAccordion.constructor` | scripts.js:262-267 | the items and which of them have a question come from the markup |
| `Accordion.FaqAccordion.QuestionClick` | scripts.js:265-279 | the loop closes the others and toggles item i, giving `Click` of the old items, so at most one is open; an item without a question has no handler |
| `Accordion.FaqAccordion.QuestionKeyDown` | scripts.js:282-287 | Enter or Space acts as a click on the question, any other key does nothing |
| `Tabs.TargetIdInjective` | scripts.js:315 | distinct `data-tab` values look up distinct ids |
| `Tabs.MissingTabIsNull` | scripts.js:302-315 | a button without `data-tab` looks up the same id as `data-tab="null"` |
| `Tabs.ShowOnlyActive` | scripts.js:306-321 | after a click the same contents exist and the active ones are exactly the target id if it exists, none otherwise |
| `Tabs.ShowOnlyLastWins` | scripts.js:301-321 | the contents after two clicks depend only on the second |
| `Tabs.SelectedExactlyOne` | scripts.js:305-312 | exactly one tab button is active after a click |
| `Tabs.TabSwitcher.constructor` | scripts.js:295-298 | buttons, their `data-tab` values and the contents come from the markup |
| `Tabs.TabSwitcher.Click` | scripts.js:298-322 | with contents on the page, only the clicked button is active and the contents are `ShowOnly` of the target id; with none, nothing changes |
| `TourFilter.SettledAt` | scripts.js:347-350 | in the settled state a card is displayed iff the filter is "all" or the card's category equals it |
| `TourFilter.AllShowsEveryCard` | scripts.js:350 | the "all" filter displays every card |
| `TourFilter.DistinctFiltersDisjoint` | scripts.js:350 | two different category filters never both display a card |
| `TourFilter.SpicesExample` | scripts.js:336-371 | categories spices, tools, spices under "spices" settle to shown, hidden, shown |
| `TourFilter.TourFilters.constructor` | scripts.js:330-333 | buttons, tokens, card categories and display come from the markup |
| `TourFilter.TourFilters.Click` | scripts.js:333-373 | with cards on the page, exactly the clicked button is active and each card's display is `Settled`, with categories unchanged; with none, nothing changes |
| `Lightbox.CaptionFallback` | scripts.js:412-422 | the caption is the non-empty gallery-caption text, else the non-empty alt, else empty |
| `Lightbox.Resolve` | scripts.js:410-422 | a container without an image resolves to an empty source and alt |
| `Lightbox.Open` | scripts.js:424-430 | the slot is overwritten with the resolved content, made active and the scroll locked only when the resolved source is non-empty; otherwise nothing changes |
| `Lightbox.Close` | scripts.js:453-456 | closing clears `active` and the scroll lock and keeps src, alt and caption |
| `Lightbox.OpenOverwrites` | scripts.js:424-430 | single slot: a successful open leaves nothing of the earlier content |
| `Lightbox.CloseIdempotent` | scripts.js:453-456 | closing twice is closing once |
| `Lightbox.EmptyContainerNeverOpens` | scripts.js:418-424 | clicking a gallery container without an image changes nothing |
| `Lightbox.OpenThenClose` | scripts.js:424-456 | open then close keeps exactly the resolved content, inactive and unlocked |
| `Lightbox.LightboxSlot.constructor` | scripts.js:388-399 | the overlay the script creates is empty and inactive |
| `Lightbox.LightboxSlot.Existing` | scripts.js:387-388 | an overlay already in the markup is reused with its own class, image and caption |
| `Lightbox.LightboxSlot.ItemClick` | scripts.js:406-431 | the new state is `Open` of the old one |
| `Lightbox.LightboxSlot.ItemKeyDown` | scripts.js:435-440 | an item's own listener: Enter or Space acts as a click on the item |
| `Lightbox.ImageKeyDown` | scripts.js:380-440 | Enter or Space on a gallery image opens the image and then, as the event bubbles, its container; other keys change nothing; an image outside a gallery item opens alone |
| `Lightbox.ContainerOpenWins` | scripts.js:418-440 | when the container resolves to a source, Enter or Space on any of its images ends showing the container's first image |
| `Lightbox.SecondImageKeyShowsFirst` | scripts.js:412-440 | in a gallery item with two images, a click on the second shows it but Enter on it shows the first |
| `Lightbox.ImageKeyDownIsolated` | scripts.js:435-440 | the corrected keydown: Enter or Space shows exactly the focused image when it has a source, else nothing changes |
| `Lightbox.LightboxSlot.ImageKeyDownBubbling` | scripts.js:435-440 | the image's listener then the container's: the new state is `ImageKeyDown` of the old one |
| `Lightbox.LightboxSlot.CloseLightbox` | scripts.js:453-456 | the new state is `Close` of the old one |
| `Lightbox.LightboxSlot.OverlayClick` | scripts.js:445-447 | a click whose target is the backdrop closes, one on the content does nothing |
| `Lightbox.LightboxSlot.KeyDown` | scripts.js:449-451 | Escape closes, whether or not the lightbox is open |
| `ScrollEffects.UpwardShowsHeader` | scripts.js:173 | scrolling up or staying put never hides the header |
| `ScrollEffects.HeaderScrolled` | scripts.js:157-181 | `lastScrollY` becomes the current position, the large shadow is set iff past 100, and on wide viewports the transform is kept |
| `ScrollEffects.StickySettles` | scripts.js:469-476 | after any scrolls the sticky class is set iff the last position is past 50 |
| `ScrollEffects.BackToTopSettles` | scripts.js:498-504 | after any scrolls the back-to-top button is visible iff the last position is past 300 |
| `ScrollEffects.HeaderSettles` | scripts.js:157-181 | after any scrolls `lastScrollY` is the last position, and on width at most 768 the header is hidden iff current > previous and current > 100 |
| `ScrollEffects.WideNeverMovesHeader` | scripts.js:172-178 | on viewports wider than 768 the header's transform never changes |
| `ScrollEffects.StickyHeader.constructor` | scripts.js:462-466 | `lastScroll` starts at 0 |
| `ScrollEffects.StickyHeader.OnScroll` | scripts.js:468-478 | the sticky class is set iff scrollY > 50 |
| `ScrollEffects.BackToTopButton.constructor` | scripts.js:485-495 | the button's class comes from the markup or is absent when created |
| `ScrollEffects.BackToTopButton.OnScroll` | scripts.js:498-504 | the button is visible iff scrollY > 300 |
| `ScrollEffects.HeaderScrollEffect.constructor` | scripts.js:151-155 | `lastScrollY` starts at the scroll position when the script runs |
| `ScrollEffects.HeaderScrollEffect.OnScroll` | scripts.js:157-181 | the new state is `HeaderScrolled` of the old one |
| `StatsCounter.Digits` | scripts.js:527 | the extracted text consists of digits only and is no longer than the text; that it keeps their order is `DigitsAppend` |
| `StatsCounter.Suffix` | scripts.js:544 | the suffix contains no digit and is no longer than the text; that it keeps the order of the non-digits is `SuffixAppend` |
| `StatsCounter.DigitsAppend` | scripts.js:527-544 | the digits keep the text's order: the digits of `a + b` are those of `a` followed by those of `b` |
| `StatsCounter.SuffixAppend` | scripts.js:527-544 | the suffix keeps the text's order: the non-digits of `a + b` are those of `a` followed by those of `b` |
| `StatsCounter.DigitsSuffixPartition` | scripts.js:527-544 | every character of the text is in exactly one of digits and suffix |
| `StatsCounter.DigitsSuffixSplit` | scripts.js:527-544 | a digit run followed by non-digits splits back into exactly those two parts |
| `StatsCounter.NatToString` | scripts.js:549-552 | a printed number is a non-empty digit string without a leading zero |
| `StatsCounter.ParsePrinted` | scripts.js:527-549 | parsing a printed number gives the number |
| `StatsCounter.PrintParsed` | scripts.js:527-549 | printing a parsed run without leading zeros gives the run |
| `StatsCounter.FinalValue` | scripts.js:527 | the target is `NaN` exactly when the text has no digit |
| `StatsCounter.Displayed` | scripts.js:546-554 | a displayed number never exceeds `finalValue` |
| `StatsCounter.TickCount` | scripts.js:546-550 | the loop stops at the first tick whose exact value reaches `finalValue` |
| `StatsCounter.DisplayedMonotone` | scripts.js:546-554 | the displayed numbers are non-decreasing |
| `StatsCounter.AnimateCounter` | scripts.js:541-555 | tick k shows floor(k * finalValue / 50) until it reaches `finalValue`; the numbers are non-decreasing and at most `finalValue`; the last is `finalValue`; each text is the number followed by the suffix |
| `StatsCounter.OnVisible` | scripts.js:522-533 | no animation when the target is `NaN` or 0; otherwise 50 writes, the last being the final value followed by the suffix |
| `StatsCounter.ConvergesToOriginal` | scripts.js:541-555 | a text of a number without leading zeros followed by non-digits ends on exactly itself |
| `StatsCounter.FiveHundredPlus` | scripts.js:541-555 | "500+" animates and ends on "500+" |
| `StatsCounter.SeparatorsMoveToSuffix` | scripts.js:544-549 | "1,200+" animates and ends on "1200,+" |

## Left out

- DOM querying, listener registration and element creation (the lightbox markup and the
  back-to-top button, scripts.js:386-399, 488-495) are host plumbing. Elements are indices or
  ids. The markup's initial state is given to the constructors. The lightbox has two
  constructors: one for the overlay the script creates, and `Existing` for one the page
  already has.
- LightboxSlot.Existing: assumes the overlay already in the page has all three children the
  script looks up (`.lightbox-image`, `.lightbox-caption`, `.lightbox-close`, scripts.js:401-403).
  The source does not check this, and the model cannot express a missing child:
  - Without `.lightbox-image`, an item click with a source throws at scripts.js:425 before
    writing anything.
  - Without `.lightbox-caption`, it writes `src` and `alt` and then throws at scripts.js:427,
    so the overlay never becomes active and scrolling is never locked.
  - Without `.lightbox-close`, setup throws at scripts.js:444. The backdrop and Escape handlers
    (`OverlayClick`, `KeyDown`) are then never installed, and the whole `DOMContentLoaded`
    callback stops, so the init calls after it (scripts.js:16-25) never run.
  The overlay the script creates always has all three children.
- Event propagation between features is not modelled. Each handler is its own method, and the
  document click handler takes where the click landed as a parameter. `stopPropagation` on the
  toggle and on gallery items is what keeps those clicks from reaching the document handler.
  Within the gallery, the one bubbling path is modelled: a keydown goes from a gallery image
  to its `.gallery-item` (`ImageKeyDown`).
- TourFilters.Click: states the display after every card timer has fired. The opacity and
  transform steps, the staggered show delays and the race between timers of rapid re-filtering
  (scripts.js:352-369) are not modelled.
- TabSwitcher.Click: the 50 ms opacity fade-in (scripts.js:318-320) is left out. The target is
  looked up among the tab contents only, not among every element of the document, and two
  contents with the same id are one map entry.
- The resize debounce (scripts.js:646-654), `debounce`, `throttle` and the throttled-scroll helper
  (scripts.js:637-644, 791-823) depend on timers and the clock. `HandleResize` is the settled
  call.
- A page with `navMenu` but no `navToggle` has no menu handlers, but the resize handler still
  clears the menu's class. The model only has a menu when both elements exist.
- Scroll progress and parallax (scripts.js:136-146, 598-611) compute floating-point values. The
  progress line also has no guard against a zero `docHeight`.
- Smooth anchor scrolling, `isInViewport`, `scrollToElement`, the back-to-top click, the scroll
  animations and the intersection observers (scripts.js:113-131, 187-256, 507-512, 825-846)
  depend on layout geometry.
- The header's background and backdrop filter are set to the same values in both branches
  (scripts.js:161-169). Only the shadow, which differs, is modelled.
- Scroll positions, widths and touch coordinates are whole numbers. The browser may report
  fractions.
- AnimateCounter: arithmetic is exact. With IEEE doubles the accumulated value can fall short
  of `finalValue` at tick 50 and need a 51st tick.
- FinalValue: `parseInt` loses precision past 2^53, and `Number` prints as exponent notation
  from 10^21 on. Neither is modelled.
- The 40 ms interval timing and the observer's `unobserve` are not modelled.
- Hover effects, theme detection, reduced-motion styles, the keyboard-navigation body class,
  the skip link, image-error placeholders, the load handler, the global error handler and the
  service-worker stub (scripts.js:561-593, 669-784, 861-873) are presentation glue or logging.

## Findings

| source | as written | input that shows it | evidently intended | confidence | as-written member | corrected member |
|---|---|---|---|---|---|---|
| scripts.js:656-663 | The resize handler removes the menu's `active` class and the scroll lock. It cannot reach `isMenuOpen`, the toggle's class or the icon, which live in another closure. | Click the toggle, widen the viewport to 1024, then click the toggle again: the flag becomes false and the menu stays hidden. | Leaving the mobile layout closes the menu as `closeMenu` does, so the next toggle click opens it. | medium, not executed | `MobileMenu.ResizeThenToggleStaysClosed` | `MobileMenu.RunCorrectedMirrors` |
| scripts.js:435-440 | The keydown listener of a gallery image calls `preventDefault` but not `stopPropagation`. Its container, also a gallery element, has the same listener and opens again with its own first `<img>` and caption (scripts.js:418-421). | In a `.gallery-item` holding images a.jpg then b.jpg, focus b.jpg and press Enter: the lightbox shows a.jpg. | Enter or Space shows the focused image, as a click on it does. | medium, not executed | `Lightbox.SecondImageKeyShowsFirst` | `Lightbox.ImageKeyDownIsolated` |

The class method `MobileMenu.Menu.HandleResize` keeps the behaviour as written. The corrected
handler is `MobileMenu.ResizedClosing`, which `StepCorrected` and `RunCorrected` use. In the
same way `Lightbox.LightboxSlot.ImageKeyDownBubbling` keeps the bubbling keydown as written, and
`Lightbox.ImageKeyDownIsolated` is the corrected handler.
