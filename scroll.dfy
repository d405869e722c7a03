/** The scroll-linked effects: the sticky header (`initStickyHeader`), the back-to-top
    button (`initBackToTopButton`) and the header's shadow and mobile hide/show
    (`initHeaderScrollEffect`). Scroll positions and widths are whole CSS pixels. */
module ScrollEffects {

  const StickyThreshold: int := 50
  const BackToTopThreshold: int := 300
  const HeaderThreshold: int := 100
  const MobileWidth: int := 768

  /** The header carries `sticky-header` at this scroll position. */
  predicate IsSticky(scrollY: int)
  {
    scrollY > StickyThreshold
  }

  /** The back-to-top button carries `visible` at this scroll position. */
  predicate BackToTopVisible(scrollY: int)
  {
    scrollY > BackToTopThreshold
  }

  /** Whether the mobile header slides away (`translateY(-100%)`): the page moved down
      and is past the threshold. */
  predicate HidesHeader(current: int, lastScrollY: int)
  {
    current > lastScrollY && current > HeaderThreshold
  }

  /** Scrolling up, or staying put, always shows the header. */
  lemma UpwardShowsHeader(current: int, lastScrollY: int)
    requires current <= lastScrollY
    ensures !HidesHeader(current, lastScrollY)
  {
  }

  /** One window `scroll` event. */
  datatype ScrollEvent = ScrollEvent(y: int, width: int)

  /** What `initHeaderScrollEffect` keeps: its `lastScrollY`, whether the header is
      translated out of view, and whether it has the large shadow. */
  datatype HeaderState = HeaderState(lastScrollY: int, hidden: bool, largeShadow: bool)

  /** The header's scroll handler. On wide viewports the transform is left as it was. */
  function HeaderScrolled(h: HeaderState, e: ScrollEvent): (r: HeaderState)
    ensures r.lastScrollY == e.y
    ensures r.largeShadow <==> e.y > HeaderThreshold
    ensures e.width > MobileWidth ==> r.hidden == h.hidden
  {
    HeaderState(
      e.y,
      if e.width <= MobileWidth then HidesHeader(e.y, h.lastScrollY) else h.hidden,
      e.y > HeaderThreshold)
  }

  /** All three effects after a sequence of scroll events. The sticky header's own
      `lastScroll` is written and never read, so it is left out of the state. */
  datatype ScrollState = ScrollState(sticky: bool, backToTop: bool, header: HeaderState)

  function Scrolled(s: ScrollState, e: ScrollEvent): ScrollState
  {
    ScrollState(IsSticky(e.y), BackToTopVisible(e.y), HeaderScrolled(s.header, e))
  }

  function Scrolls(s: ScrollState, trace: seq<ScrollEvent>): ScrollState
    decreases |trace|
  {
    if trace == [] then s else Scrolls(Scrolled(s, trace[0]), trace[1..])
  }

  /** After any non-empty sequence of scrolls the sticky class depends only on the last
      position. */
  lemma {:induction false} StickySettles(s: ScrollState, trace: seq<ScrollEvent>)
    requires trace != []
    ensures Scrolls(s, trace).sticky == (trace[|trace| - 1].y > 50)
    decreases |trace|
  {
    if |trace| > 1 {
      StickySettles(Scrolled(s, trace[0]), trace[1..]);
      assert trace[1..][|trace[1..]| - 1] == trace[|trace| - 1];
    }
  }

  /** After any non-empty sequence of scrolls the back-to-top button is visible iff the
      last position is past 300. */
  lemma {:induction false} BackToTopSettles(s: ScrollState, trace: seq<ScrollEvent>)
    requires trace != []
    ensures Scrolls(s, trace).backToTop == (trace[|trace| - 1].y > 300)
    decreases |trace|
  {
    if |trace| > 1 {
      BackToTopSettles(Scrolled(s, trace[0]), trace[1..]);
      assert trace[1..][|trace[1..]| - 1] == trace[|trace| - 1];
    }
  }

  /** After any non-empty sequence of scrolls `lastScrollY` is the last position and, on
      a narrow viewport, the header is hidden iff the last scroll went down past 100 from
      the position before it. */
  lemma {:induction false} HeaderSettles(s: ScrollState, trace: seq<ScrollEvent>)
    requires trace != []
    ensures var r := Scrolls(s, trace);
            var last := trace[|trace| - 1];
            var previous := if |trace| == 1 then s.header.lastScrollY else trace[|trace| - 2].y;
            r.header.lastScrollY == last.y &&
            (last.width <= 768 ==> r.header.hidden == (last.y > previous && last.y > 100))
    decreases |trace|
  {
    if |trace| > 1 {
      HeaderSettles(Scrolled(s, trace[0]), trace[1..]);
      assert trace[1..][|trace[1..]| - 1] == trace[|trace| - 1];
      if |trace| > 2 {
        assert trace[1..][|trace[1..]| - 2] == trace[|trace| - 2];
      }
    }
  }

  /** On wide viewports the header's transform is never touched. */
  lemma {:induction false} WideNeverMovesHeader(s: ScrollState, trace: seq<ScrollEvent>)
    requires forall k :: 0 <= k < |trace| ==> trace[k].width > MobileWidth
    ensures Scrolls(s, trace).header.hidden == s.header.hidden
    decreases |trace|
  {
    if trace != [] {
      WideNeverMovesHeader(Scrolled(s, trace[0]), trace[1..]);
    }
  }

  /** `initStickyHeader`'s state. */
  class StickyHeader {
    var sticky: bool
    var lastScroll: int

    constructor (stickyClass: bool)
      ensures sticky == stickyClass && lastScroll == 0
    {
      sticky, lastScroll := stickyClass, 0;
    }

    method OnScroll(scrollY: int)
      modifies this
      ensures sticky == IsSticky(scrollY) && lastScroll == scrollY
    {
      if scrollY > StickyThreshold {
        sticky := true;
      } else {
        sticky := false;
      }
      lastScroll := scrollY;
    }
  }

  /** The back-to-top button's `visible` class. */
  class BackToTopButton {
    var visible: bool

    constructor (visibleClass: bool)
      ensures visible == visibleClass
    {
      visible := visibleClass;
    }

    method OnScroll(scrollY: int)
      modifies this
      ensures visible == BackToTopVisible(scrollY)
    {
      if scrollY > BackToTopThreshold {
        visible := true;
      } else {
        visible := false;
      }
    }
  }

  /** `initHeaderScrollEffect`'s closure variable and the header's style. */
  class HeaderScrollEffect {
    var lastScrollY: int
    var hidden: bool
    var largeShadow: bool

    function State(): HeaderState
      reads this
    {
      HeaderState(lastScrollY, hidden, largeShadow)
    }

    /** `lastScrollY` starts at the scroll position when the script runs. The header has
        no inline transform or shadow yet; `largeShadow` false stands both for that and for
        the medium shadow of positions up to 100, which look the same in this model. */
    constructor (scrollY: int)
      ensures State() == HeaderState(scrollY, false, false)
    {
      lastScrollY, hidden, largeShadow := scrollY, false, false;
    }

    method OnScroll(currentScrollY: int, innerWidth: int)
      modifies this
      ensures State() == HeaderScrolled(old(State()), ScrollEvent(currentScrollY, innerWidth))
    {
      largeShadow := currentScrollY > HeaderThreshold;
      if innerWidth <= MobileWidth {
        if currentScrollY > lastScrollY && currentScrollY > HeaderThreshold {
          hidden := true;
        } else {
          hidden := false;
        }
      }
      lastScrollY := currentScrollY;
    }
  }
}
