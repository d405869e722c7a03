/** The mobile navigation menu (`initMobileNavigation`) and the part of the resize
    handler (`handleResize` in `initPerformanceOptimizations`) that touches it.
    The closure flag `isMenuOpen` is kept apart from what the page shows: the `active`
    class of the menu and of the toggle, the class of the toggle's `<i>` icon and the
    body's `overflow` style. */
module MobileMenu {
  import opened Page

  const IconTimes: string := "fas fa-times"
  const IconBars: string := "fas fa-bars"

  /** The viewport width above which the layout is not the mobile one. */
  const Breakpoint: int := 768
  /** Minimum rightward travel, and bound on vertical drift, of a closing swipe. */
  const SwipeDistance: int := 100

  /** Everything the menu handlers read or write. `startX`/`startY` are the coordinates
      recorded by the last touchstart on the menu, `None` before the first one. */
  datatype MenuState = MenuState(
    isMenuOpen: bool,
    menuActive: bool,
    toggleActive: bool,
    icon: string,
    overflow: string,
    startX: Option<int>,
    startY: Option<int>)

  /** Where a click on the document landed. */
  datatype Target = OnToggle | InMenu | Outside

  /** The events the menu listens to (and the debounced resize). */
  datatype MenuEvent =
    | ToggleClick
    | LinkClick
    | DocumentClick(target: Target)
    | TouchStart(x: int, y: int)
    | TouchMove(x: int, y: int)
    | KeyDown(key: string)
    | Resize(width: int)

  /** The page shows exactly what the flag says. The icon is only constrained when the
      toggle has an `<i>` element. */
  predicate Mirrors(s: MenuState, hasIcon: bool)
  {
    s.menuActive == s.isMenuOpen &&
    s.toggleActive == s.isMenuOpen &&
    s.overflow == (if s.isMenuOpen then OverflowHidden else "") &&
    (hasIcon ==> s.icon == (if s.isMenuOpen then IconTimes else IconBars))
  }

  /** JavaScript truthiness of a recorded coordinate: `undefined` and `0` are falsy. */
  predicate Truthy(c: Option<int>)
  {
    c.Some? && c.value != 0
  }

  function Abs(n: int): int
  {
    if n < 0 then -n else n
  }

  /** Whether a touchmove to (`x`, `y`) closes the menu. */
  predicate SwipeCloses(startX: Option<int>, startY: Option<int>, x: int, y: int)
  {
    Truthy(startX) && Truthy(startY) &&
    x - startX.value > SwipeDistance && Abs(y - startY.value) < SwipeDistance
  }

  /** A swipe closes the menu exactly when both coordinates were recorded and are
      non-zero, the finger moved more than 100 to the right and less than 100 up or down. */
  lemma SwipeClosesIff(sx: Option<int>, sy: Option<int>, x: int, y: int)
    ensures SwipeCloses(sx, sy, x, y) <==>
      sx.Some? && sy.Some? && sx.value != 0 && sy.value != 0 &&
      x > sx.value + 100 && sy.value - 100 < y < sy.value + 100
  {
  }

  /** A touch that started on the left or top edge (coordinate 0) never closes the menu. */
  lemma SwipeFromZeroNeverCloses(sx: int, sy: int, x: int, y: int)
    requires sx == 0 || sy == 0
    ensures !SwipeCloses(Some(sx), Some(sy), x, y)
  {
  }

  /** The toggle's click handler. Without an `<i>` in the toggle, setting the icon class
      throws, so the scroll lock and the toggle's class are not updated. */
  function Toggled(s: MenuState, hasIcon: bool): (r: MenuState)
    ensures r.isMenuOpen == !s.isMenuOpen && r.menuActive == r.isMenuOpen
    ensures hasIcon ==> Mirrors(r, hasIcon)
    ensures !hasIcon ==> r.overflow == s.overflow && r.toggleActive == s.toggleActive && r.icon == s.icon
    ensures r.startX == s.startX && r.startY == s.startY
  {
    var open := !s.isMenuOpen;
    if !hasIcon then
      s.(isMenuOpen := open, menuActive := open)
    else
      s.(isMenuOpen := open, menuActive := open,
         icon := if open then IconTimes else IconBars,
         overflow := if open then OverflowHidden else "",
         toggleActive := open)
  }

  /** `closeMenu`. */
  function Closed(s: MenuState, hasIcon: bool): (r: MenuState)
    ensures !r.isMenuOpen && Mirrors(r, hasIcon)
    ensures !hasIcon ==> r.icon == s.icon
    ensures r.startX == s.startX && r.startY == s.startY
  {
    s.(isMenuOpen := false, menuActive := false,
       icon := if hasIcon then IconBars else s.icon,
       overflow := "", toggleActive := false)
  }

  /** The document's click handler: closes an open menu on a click outside both the
      toggle and the menu. */
  function DocumentClicked(s: MenuState, target: Target, hasIcon: bool): (r: MenuState)
  {
    if s.isMenuOpen && target == Outside then Closed(s, hasIcon) else s
  }

  /** The document's keydown handler: Escape closes an open menu. */
  function KeyPressed(s: MenuState, key: string, hasIcon: bool): (r: MenuState)
  {
    if key == "Escape" && s.isMenuOpen then Closed(s, hasIcon) else s
  }

  /** The menu's touchmove handler. */
  function TouchMoved(s: MenuState, x: int, y: int, hasIcon: bool): (r: MenuState)
  {
    if SwipeCloses(s.startX, s.startY, x, y) then Closed(s, hasIcon) else s
  }

  /** `handleResize`, as written: it lives in another closure, so it clears the menu's
      class and the scroll lock but cannot reset `isMenuOpen`, the toggle or the icon. */
  function Resized(s: MenuState, width: int): (r: MenuState)
  {
    if width > Breakpoint then s.(menuActive := false, overflow := "") else s
  }

  /** One event, with the resize handler as written. */
  function Step(s: MenuState, e: MenuEvent, hasIcon: bool): MenuState
  {
    match e
    case ToggleClick => Toggled(s, hasIcon)
    case LinkClick => Closed(s, hasIcon)
    case DocumentClick(t) => DocumentClicked(s, t, hasIcon)
    case TouchStart(x, y) => s.(startX := Some(x), startY := Some(y))
    case TouchMove(x, y) => TouchMoved(s, x, y, hasIcon)
    case KeyDown(k) => KeyPressed(s, k, hasIcon)
    case Resize(w) => Resized(s, w)
  }

  /** A sequence of events, in order. */
  function Run(s: MenuState, events: seq<MenuEvent>, hasIcon: bool): MenuState
    decreases |events|
  {
    if events == [] then s else Run(Step(s, events[0], hasIcon), events[1..], hasIcon)
  }

  /** `closeMenu` is idempotent, and the outside-click and Escape handlers do nothing
      when the menu is already closed. */
  lemma ClosedIdempotentAndNoOps(s: MenuState, t: Target, key: string, hasIcon: bool)
    ensures Closed(Closed(s, hasIcon), hasIcon) == Closed(s, hasIcon)
    ensures !s.isMenuOpen ==> DocumentClicked(s, t, hasIcon) == s && KeyPressed(s, key, hasIcon) == s
  {
  }

  /** Two toggle clicks give back the flag, and, with an icon, the whole page state. */
  lemma ToggleTwice(s: MenuState)
    requires Mirrors(s, true)
    ensures Toggled(Toggled(s, true), true) == s
  {
  }

  /** When the toggle has an `<i>` icon, every event except resize keeps the page in step
      with the flag. */
  lemma StepMirrors(s: MenuState, e: MenuEvent)
    requires Mirrors(s, true) && !e.Resize?
    ensures Mirrors(Step(s, e, true), true)
  {
  }

  /** With an icon in the toggle, any sequence of events without a resize keeps the page
      in step with the flag. */
  lemma {:induction false} RunMirrors(s: MenuState, events: seq<MenuEvent>)
    requires Mirrors(s, true)
    requires forall k :: 0 <= k < |events| ==> !events[k].Resize?
    ensures Mirrors(Run(s, events, true), true)
    decreases |events|
  {
    if events != [] {
      StepMirrors(s, events[0]);
      RunMirrors(Step(s, events[0], true), events[1..]);
    }
  }

  /** The state the script starts in, for a page whose menu markup shows it closed. */
  function InitialState(): (s: MenuState)
    ensures Mirrors(s, true) && !s.isMenuOpen
  {
    MenuState(false, false, false, IconBars, "", None, None)
  }

  /** As written, widening the viewport while the menu is open leaves the flag set: the
      next toggle click then "closes" the already hidden menu, so the user has to click
      twice to see it again. */
  lemma ResizeThenToggleStaysClosed()
    ensures var afterOpen := Step(InitialState(), ToggleClick, true);
            var widened := Step(afterOpen, Resize(1024), true);
            afterOpen.menuActive && widened.isMenuOpen && !widened.menuActive &&
            !Mirrors(widened, true) &&
            !Step(widened, ToggleClick, true).menuActive
  {
  }

  /** The evidently intended resize handler: leaving the mobile layout closes the menu. */
  function ResizedClosing(s: MenuState, width: int, hasIcon: bool): (r: MenuState)
    ensures width > Breakpoint ==> !r.isMenuOpen && !r.menuActive && r.overflow == ""
    ensures width <= Breakpoint ==> r == s
  {
    if width > Breakpoint then Closed(s, hasIcon) else s
  }

  /** One event, with the corrected resize handler. */
  function StepCorrected(s: MenuState, e: MenuEvent, hasIcon: bool): MenuState
  {
    if e.Resize? then ResizedClosing(s, e.width, hasIcon) else Step(s, e, hasIcon)
  }

  function RunCorrected(s: MenuState, events: seq<MenuEvent>, hasIcon: bool): MenuState
    decreases |events|
  {
    if events == [] then s else RunCorrected(StepCorrected(s, events[0], hasIcon), events[1..], hasIcon)
  }

  /** With the corrected resize handler every sequence of events keeps the page in step
      with the flag, so a toggle click always shows or hides the menu. */
  lemma {:induction false} RunCorrectedMirrors(s: MenuState, events: seq<MenuEvent>)
    requires Mirrors(s, true)
    ensures Mirrors(RunCorrected(s, events, true), true)
    ensures var r := RunCorrected(s, events, true);
            Toggled(r, true).menuActive == !r.menuActive
    decreases |events|
  {
    if events != [] {
      if !events[0].Resize? {
        StepMirrors(s, events[0]);
      }
      RunCorrectedMirrors(StepCorrected(s, events[0], true), events[1..]);
    }
  }

  /** The menu's closure state and the elements it writes. `hasIcon` says whether the
      toggle contains an `<i>` element. */
  class Menu {
    var isMenuOpen: bool
    var menuActive: bool
    var toggleActive: bool
    var icon: string
    var startX: Option<int>
    var startY: Option<int>
    const hasIcon: bool
    const body: Body

    function State(): MenuState
      reads this, body
    {
      MenuState(isMenuOpen, menuActive, toggleActive, icon, body.overflow, startX, startY)
    }

    /** The script starts with the flag false and no touch recorded; classes, icon and
        overflow are whatever the markup has. */
    constructor (pageBody: Body, withIcon: bool, menuClass: bool, toggleClass: bool, iconClass: string)
      ensures body == pageBody && hasIcon == withIcon
      ensures State() == MenuState(false, menuClass, toggleClass, iconClass, pageBody.overflow, None, None)
    {
      isMenuOpen, menuActive, toggleActive, icon := false, menuClass, toggleClass, iconClass;
      startX, startY := None, None;
      hasIcon, body := withIcon, pageBody;
    }

    method ToggleClick()
      modifies this, body
      ensures State() == Toggled(old(State()), hasIcon)
    {
      isMenuOpen := !isMenuOpen;
      menuActive := isMenuOpen;
      if !hasIcon {
        return;
      }
      icon := if isMenuOpen then IconTimes else IconBars;
      body.overflow := if isMenuOpen then OverflowHidden else "";
      toggleActive := isMenuOpen;
    }

    method CloseMenu()
      modifies this, body
      ensures State() == Closed(old(State()), hasIcon)
    {
      isMenuOpen := false;
      menuActive := false;
      if hasIcon {
        icon := IconBars;
      }
      body.overflow := "";
      toggleActive := false;
    }

    method LinkClick()
      modifies this, body
      ensures State() == Step(old(State()), MenuEvent.LinkClick, hasIcon)
    {
      CloseMenu();
    }

    method DocumentClick(target: Target)
      modifies this, body
      ensures State() == Step(old(State()), MenuEvent.DocumentClick(target), hasIcon)
    {
      if isMenuOpen && target == Outside {
        CloseMenu();
      }
    }

    method TouchStart(x: int, y: int)
      modifies this
      ensures State() == Step(old(State()), MenuEvent.TouchStart(x, y), hasIcon)
    {
      startX, startY := Some(x), Some(y);
    }

    method TouchMove(x: int, y: int)
      modifies this, body
      ensures State() == Step(old(State()), MenuEvent.TouchMove(x, y), hasIcon)
    {
      if !Truthy(startX) || !Truthy(startY) {
        return;
      }
      var distX := x - startX.value;
      var distY := y - startY.value;
      if distX > SwipeDistance && Abs(distY) < SwipeDistance {
        CloseMenu();
      }
    }

    method KeyDown(key: string)
      modifies this, body
      ensures State() == Step(old(State()), MenuEvent.KeyDown(key), hasIcon)
    {
      if key == "Escape" && isMenuOpen {
        CloseMenu();
      }
    }

    /** `handleResize` as written; `isMenuOpen` is out of its reach. */
    method HandleResize(width: int)
      modifies this, body
      ensures State() == Step(old(State()), MenuEvent.Resize(width), hasIcon)
      ensures isMenuOpen == old(isMenuOpen)
    {
      if width > Breakpoint {
        menuActive := false;
        body.overflow := "";
      }
    }
  }
}
