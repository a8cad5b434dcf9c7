/** The scroll- and click-driven page chrome of main.js: the header's
    `scrolled` class, the back-to-top button, the active navigation link
    (`updateActiveNavLink`), and the hamburger/nav-menu pair whose `active`
    classes are always changed together. Scroll positions are whole
    pixels here. */
module Navigation {
  import opened Wrappers

  /** The header gets `scrolled` above this scroll position. */
  const HeaderThreshold := 100
  /** The back-to-top button is `visible` above this scroll position. */
  const BackToTopThreshold := 300
  /** `updateActiveNavLink` probes this far below the top of the viewport. */
  const ProbeOffset := 100
  /** `handleResize` closes the menu from this window width up. */
  const DesktopWidth := 768

  predicate HeaderScrolled(scrollY: int) {
    scrollY > HeaderThreshold
  }

  predicate BackToTopVisible(scrollY: int) {
    scrollY > BackToTopThreshold
  }

  /** A `section[id]`: its id, `offsetTop` and `clientHeight`. */
  datatype Section = Section(id: string, top: int, height: int)

  /** Whether the probe position falls inside the section. */
  predicate Covers(s: Section, pos: int) {
    s.top <= pos < s.top + s.height
  }

  /** The index of the last section covering `pos`, if any. */
  function LastCovering(secs: seq<Section>, pos: int): (r: Option<nat>)
    ensures r.Some? ==> r.value < |secs| && Covers(secs[r.value], pos)
    ensures r.Some? ==> forall j :: r.value < j < |secs| ==> !Covers(secs[j], pos)
    ensures r.None? ==> forall j :: 0 <= j < |secs| ==> !Covers(secs[j], pos)
  {
    if secs == [] then None
    else if Covers(secs[|secs| - 1], pos) then Some(|secs| - 1)
    else LastCovering(secs[..|secs| - 1], pos)
  }

  /** The id `updateActiveNavLink` settles on: the last covering section's,
      or the empty string. */
  function CurrentSection(secs: seq<Section>, pos: int): string {
    match LastCovering(secs, pos)
    case None => ""
    case Some(i) => secs[i].id
  }

  /** The `forEach` of `updateActiveNavLink` that reassigns `current` for
      every section that covers the probe position. */
  method FindCurrent(secs: seq<Section>, scrollY: int) returns (current: string)
    ensures current == CurrentSection(secs, scrollY + ProbeOffset)
  {
    var pos := scrollY + ProbeOffset;
    current := "";
    var i := 0;
    while i < |secs|
      invariant 0 <= i <= |secs|
      invariant current == CurrentSection(secs[..i], pos)
    {
      assert secs[..i + 1][..i] == secs[..i];
      if Covers(secs[i], pos) {
        current := secs[i].id;
      }
      i := i + 1;
    }
    assert secs[..|secs|] == secs;
  }

  /** When no section covers the probe, a link whose href is the bare "#"
      is the one that matches. */
  lemma NothingCoveredMatchesBareHash(secs: seq<Section>, pos: int)
    requires forall j :: 0 <= j < |secs| ==> !Covers(secs[j], pos)
    ensures "#" + CurrentSection(secs, pos) == "#"
  {
  }

  /** When a section covers the probe, the matching href names the last
      covering section. */
  lemma CoveredMatchesLastSection(secs: seq<Section>, pos: int, i: nat)
    requires i < |secs| && Covers(secs[i], pos)
    ensures exists j :: i <= j < |secs| && Covers(secs[j], pos) && CurrentSection(secs, pos) == secs[j].id
  {
  }

  /** The page's header, back-to-top button, navigation links and mobile
      menu. */
  class Page {
    const links: seq<string>
    const linkActive: array<bool>
    const hasMenu: bool
    var hamburgerActive: bool
    var menuActive: bool
    const hasHeader: bool
    var headerScrolled: bool
    const hasBackToTop: bool
    var backToTopVisible: bool

    /** One flag per link; the hamburger and the menu open together; and,
        the back-to-top threshold lying above the header's, a visible
        back-to-top button comes with a scrolled header. */
    ghost predicate Valid()
      reads this
    {
      && linkActive.Length == |links|
      && hamburgerActive == menuActive
      && (hasBackToTop && backToTopVisible ==> headerScrolled)
    }

    /** `links` are the `href`s of the `.nav-link` elements; `hasMenu` says
        whether both `.hamburger` and `.nav-menu` exist; `hasHeader` and
        `hasBackToTop` whether `.header` and `#backToTop` do. */
    constructor (links: seq<string>, hasMenu: bool, hasHeader: bool, hasBackToTop: bool)
      ensures Valid() && fresh(linkActive)
      ensures this.links == links && this.hasMenu == hasMenu
      ensures this.hasHeader == hasHeader && this.hasBackToTop == hasBackToTop
      ensures !hamburgerActive && !menuActive && !headerScrolled && !backToTopVisible
      ensures forall i :: 0 <= i < linkActive.Length ==> !linkActive[i]
    {
      this.links := links;
      linkActive := new bool[|links|](_ => false);
      this.hasMenu := hasMenu;
      this.hasHeader := hasHeader;
      this.hasBackToTop := hasBackToTop;
      hamburgerActive, menuActive := false, false;
      headerScrolled, backToTopVisible := false, false;
    }

    /** A click on the hamburger toggles both `active` classes. */
    method ClickHamburger()
      requires Valid()
      modifies this
      ensures Valid()
      ensures menuActive == (if hasMenu then !old(menuActive) else old(menuActive))
      ensures headerScrolled == old(headerScrolled) && backToTopVisible == old(backToTopVisible)
    {
      if hasMenu {
        hamburgerActive := !hamburgerActive;
        menuActive := !menuActive;
      }
    }

    /** Closing the menu: a click on a `.nav-link`, a click elsewhere on the
        document outside hamburger and menu, or a resize to desktop width. */
    method CloseMenu()
      requires Valid()
      modifies this
      ensures Valid()
      ensures menuActive == (old(menuActive) && !hasMenu)
      ensures headerScrolled == old(headerScrolled) && backToTopVisible == old(backToTopVisible)
    {
      if hasMenu {
        hamburgerActive := false;
        menuActive := false;
      }
    }

    /** A click that reaches the document handler; `inside` says whether its
        target lies within the hamburger or the menu. */
    method ClickDocument(inside: bool)
      requires Valid()
      modifies this
      ensures Valid()
      ensures menuActive == (old(menuActive) && (inside || !hasMenu))
      ensures headerScrolled == old(headerScrolled) && backToTopVisible == old(backToTopVisible)
    {
      if !inside {
        CloseMenu();
      }
    }

    /** `handleResize`: from desktop width on, the menu is closed. */
    method Resize(innerWidth: int)
      requires Valid()
      modifies this
      ensures Valid()
      ensures menuActive == (old(menuActive) && (innerWidth < DesktopWidth || !hasMenu))
      ensures headerScrolled == old(headerScrolled) && backToTopVisible == old(backToTopVisible)
    {
      if innerWidth >= DesktopWidth {
        CloseMenu();
      }
    }

    /** `updateActiveNavLink`: every link loses `active`, and those whose
        href is "#" followed by the current section's id regain it. */
    method UpdateActiveNavLink(secs: seq<Section>, scrollY: int)
      requires linkActive.Length == |links|
      modifies linkActive
      ensures forall i :: 0 <= i < |links| ==>
        linkActive[i] == (links[i] == "#" + CurrentSection(secs, scrollY + ProbeOffset))
    {
      var current := FindCurrent(secs, scrollY);
      var i := 0;
      while i < |links|
        invariant 0 <= i <= |links|
        invariant forall j :: 0 <= j < i ==> linkActive[j] == (links[j] == "#" + current)
      {
        linkActive[i] := links[i] == "#" + current;
        i := i + 1;
      }
    }

    /** `handleScroll` (without the scroll-in animations): header, active
        link, back-to-top button. Without a `.header`, the first step
        throws, and the handler stops before changing anything. */
    method Scroll(secs: seq<Section>, scrollY: int)
      requires Valid()
      modifies this, linkActive
      ensures Valid() && menuActive == old(menuActive)
      ensures !hasHeader ==>
        && headerScrolled == old(headerScrolled)
        && backToTopVisible == old(backToTopVisible)
        && linkActive[..] == old(linkActive[..])
      ensures hasHeader ==> headerScrolled == HeaderScrolled(scrollY)
      ensures hasHeader ==>
        backToTopVisible == if hasBackToTop then BackToTopVisible(scrollY) else old(backToTopVisible)
      ensures hasHeader ==> forall i :: 0 <= i < |links| ==>
        linkActive[i] == (links[i] == "#" + CurrentSection(secs, scrollY + ProbeOffset))
    {
      if !hasHeader {
        return;
      }
      headerScrolled := HeaderScrolled(scrollY);
      UpdateActiveNavLink(secs, scrollY);
      if hasBackToTop {
        backToTopVisible := BackToTopVisible(scrollY);
      }
    }
  }
}
