/** The navigation bar's state: the `active` class on the hamburger button
    and on the link list (the mobile menu), and the `scrolled` class on the
    bar. Each is a boolean here; the handlers change them in place. */
module Navigation {

  /** The two menu flags: `active` on the hamburger and on the link list. */
  datatype MenuState = MenuState(hamburgerActive: bool, navLinksActive: bool)

  /** Where a click lands: inside the hamburger, inside the link list, and
      whether it is on an in-page anchor (`a[href^="#"]`) and, if so,
      whether the element its `href` names exists. */
  datatype Click = Click(inHamburger: bool, inNavLinks: bool, anchor: AnchorHit)
  datatype AnchorHit = NoAnchor | Anchor(targetExists: bool)

  /** The menu flags agree: both set (menu open) or both clear. */
  predicate Synced(m: MenuState)
  {
    m.hamburgerActive == m.navLinksActive
  }

  const Closed := MenuState(false, false)

  /** `classList.toggle('active')` on both elements. */
  function Toggled(m: MenuState): (r: MenuState)
    ensures r.hamburgerActive != m.hamburgerActive && r.navLinksActive != m.navLinksActive
  {
    MenuState(!m.hamburgerActive, !m.navLinksActive)
  }

  /** The anchor's own listener: closes the menu when the target exists. */
  function AfterAnchor(m: MenuState, a: AnchorHit): MenuState
  {
    if a.Anchor? && a.targetExists then Closed else m
  }

  /** The hamburger's listener: toggles the menu for clicks inside it. */
  function AfterHamburger(m: MenuState, c: Click): MenuState
  {
    if c.inHamburger then Toggled(m) else m
  }

  /** The document's listener: closes the menu for clicks outside both the
      hamburger and the link list. */
  function AfterDocument(m: MenuState, c: Click): MenuState
  {
    if !c.inHamburger && !c.inNavLinks then Closed else m
  }

  /** One click, with the listeners run in bubbling order: the anchor first,
      then the hamburger, then the document, assuming no in-page anchor
      encloses the hamburger. */
  function AfterClick(m: MenuState, c: Click): MenuState
  {
    AfterDocument(AfterHamburger(AfterAnchor(m, c.anchor), c), c)
  }

  /** A sequence of clicks, in order. */
  function AfterClicks(m: MenuState, cs: seq<Click>): MenuState
    decreases cs
  {
    if cs == [] then m else AfterClicks(AfterClick(m, cs[0]), cs[1..])
  }

  /** A plain click on the hamburger toggles both flags; the document's
      listener leaves it alone. */
  lemma HamburgerClickToggles(m: MenuState, c: Click)
    requires c.inHamburger && c.anchor == NoAnchor
    ensures AfterClick(m, c) == Toggled(m)
    ensures AfterClick(AfterClick(m, c), c) == m
  {
  }

  /** A click outside both elements closes the menu, whatever it was. */
  lemma OutsideClickCloses(m: MenuState, c: Click)
    requires !c.inHamburger && !c.inNavLinks
    ensures AfterClick(m, c) == Closed
  {
  }

  /** An anchor whose target exists closes the menu, including one inside
      the link list (which the document's listener ignores). */
  lemma AnchorClickCloses(m: MenuState, c: Click)
    requires !c.inHamburger && c.anchor == Anchor(true)
    ensures AfterClick(m, c) == Closed
  {
  }

  /** Inside the link list, a click that is not on an anchor with an existing
      target leaves the menu as it was. */
  lemma InsideMenuClickKeeps(m: MenuState, c: Click)
    requires !c.inHamburger && c.inNavLinks && c.anchor != Anchor(true)
    ensures AfterClick(m, c) == m
  {
  }

  /** One click keeps agreeing flags in agreement, and a click outside both
      elements leaves them in agreement whatever they were. */
  lemma ClickPreservesSynced(m: MenuState, c: Click)
    ensures !c.inHamburger && !c.inNavLinks ==> Synced(AfterClick(m, c))
    ensures Synced(m) ==> Synced(AfterClick(m, c))
  {
  }

  /** Flags that start equal stay equal over any sequence of clicks. */
  lemma {:induction false} ClicksPreserveSynced(m: MenuState, cs: seq<Click>)
    requires Synced(m)
    ensures Synced(AfterClicks(m, cs))
    decreases cs
  {
    if cs != [] {
      ClickPreservesSynced(m, cs[0]);
      ClicksPreserveSynced(AfterClick(m, cs[0]), cs[1..]);
    }
  }

  /** The bar's `scrolled` class: set exactly above 100 pixels. */
  const ScrollThreshold: real := 100.0

  class Navbar {
    var hamburgerActive: bool
    var navLinksActive: bool
    var scrolled: bool
    /** The last offset seen by the scroll handler; written, never read. */
    var lastScroll: real

    function Menu(): MenuState
      reads this
    {
      MenuState(hamburgerActive, navLinksActive)
    }

    /** The page as loaded: no `active` or `scrolled` class, offset 0. */
    constructor ()
      ensures Menu() == Closed && Synced(Menu())
      ensures !scrolled && lastScroll == 0.0
    {
      hamburgerActive, navLinksActive := false, false;
      scrolled := false;
      lastScroll := 0.0;
    }

    /** The hamburger's click listener. */
    method OnHamburgerClick()
      modifies this
      ensures Menu() == Toggled(old(Menu()))
      ensures Synced(Menu()) == Synced(old(Menu()))
      ensures scrolled == old(scrolled) && lastScroll == old(lastScroll)
    {
      hamburgerActive := !hamburgerActive;
      navLinksActive := !navLinksActive;
    }

    /** The document's click listener. */
    method OnDocumentClick(inHamburger: bool, inNavLinks: bool)
      modifies this
      ensures !inHamburger && !inNavLinks ==> Menu() == Closed
      ensures inHamburger || inNavLinks ==> Menu() == old(Menu())
      ensures scrolled == old(scrolled) && lastScroll == old(lastScroll)
    {
      if !inHamburger && !inNavLinks {
        navLinksActive := false;
        hamburgerActive := false;
      }
    }

    /** An in-page anchor's click listener, after the smooth scroll. */
    method OnAnchorClick(targetExists: bool)
      modifies this
      ensures targetExists ==> Menu() == Closed
      ensures !targetExists ==> Menu() == old(Menu())
      ensures scrolled == old(scrolled) && lastScroll == old(lastScroll)
    {
      if targetExists {
        navLinksActive := false;
        hamburgerActive := false;
      }
    }

    /** A click dispatched to every listener it reaches, innermost first. */
    method OnClick(c: Click)
      modifies this
      ensures Menu() == AfterClick(old(Menu()), c)
      ensures Synced(old(Menu())) ==> Synced(Menu())
      ensures scrolled == old(scrolled) && lastScroll == old(lastScroll)
    {
      ClickPreservesSynced(Menu(), c);
      if c.anchor.Anchor? {
        OnAnchorClick(c.anchor.targetExists);
      }
      if c.inHamburger {
        OnHamburgerClick();
      }
      OnDocumentClick(c.inHamburger, c.inNavLinks);
    }

    /** The window's scroll listener, given `window.pageYOffset`. */
    method OnScroll(pageYOffset: real)
      modifies this
      ensures scrolled <==> pageYOffset > ScrollThreshold
      ensures lastScroll == pageYOffset
      ensures Menu() == old(Menu())
    {
      if pageYOffset > ScrollThreshold {
        scrolled := true;
      } else {
        scrolled := false;
      }
      lastScroll := pageYOffset;
    }
  }

  /** What a caller can rely on from the contracts alone: the threshold is
      strict, two hamburger clicks restore the menu, an outside click closes
      it. */
  method NavbarScenario()
  {
    var bar := new Navbar();
    bar.OnScroll(100.0);
    assert !bar.scrolled;
    bar.OnScroll(100.5);
    assert bar.scrolled;
    var onHamburger := Click(true, false, NoAnchor);
    bar.OnClick(onHamburger);
    assert bar.hamburgerActive && bar.navLinksActive;
    bar.OnClick(onHamburger);
    assert bar.Menu() == Closed;
    bar.OnClick(onHamburger);
    bar.OnClick(Click(false, false, NoAnchor));
    assert bar.Menu() == Closed && bar.scrolled;
  }
}
