/** The navigation bar's state: the mobile menu's `active` class on the menu and on the
    hamburger button, the navbar's `scrolled` class, and the `active` class on the nav link
    of the section the reader is looking at. */
module Navigation {
  import opened Wrappers

  /** The `active` class on the nav menu and on the hamburger button. */
  datatype Menu = Menu(menuActive: bool, hamburgerActive: bool)

  /** A click on the hamburger toggles the class on both elements, each on its own. */
  function ToggleMenu(m: Menu): (m': Menu)
    ensures m'.menuActive != m.menuActive && m'.hamburgerActive != m.hamburgerActive
  {
    Menu(!m.menuActive, !m.hamburgerActive)
  }

  /** A click on a nav link removes the class from both elements. */
  function CloseMenu(m: Menu): (m': Menu)
    ensures !m'.menuActive && !m'.hamburgerActive
  {
    Menu(false, false)
  }

  /** The menu and the button agree on whether the menu is open. */
  predicate InSync(m: Menu) {
    m.menuActive == m.hamburgerActive
  }

  /** Toggling twice restores the state, and toggling keeps the two classes in step. */
  lemma ToggleInvolution(m: Menu)
    ensures ToggleMenu(ToggleMenu(m)) == m
    ensures InSync(ToggleMenu(m)) <==> InSync(m)
  {
  }

  /** Closing is idempotent, and a closed menu is in step. */
  lemma CloseIdempotent(m: Menu)
    ensures CloseMenu(CloseMenu(m)) == CloseMenu(m)
    ensures InSync(CloseMenu(m))
  {
  }

  /** A click the menu reacts to: on the hamburger button, or on a nav link. */
  datatype Click = Hamburger | NavLink

  /** Any sequence of clicks keeps the menu and the button in step when they start in step,
      as they do on page load with both classes off. */
  function Clicks(m: Menu, clicks: seq<Click>): (m': Menu)
    ensures InSync(m) ==> InSync(m')
    decreases |clicks|
  {
    if |clicks| == 0 then m
    else
      var next := match clicks[0]
                  case Hamburger => ToggleMenu(m)
                  case NavLink => CloseMenu(m);
      Clicks(next, clicks[1..])
  }

  /** The scroll offset beyond which the navbar is styled as scrolled. */
  const ScrolledThreshold: int := 100

  /** The scroll handler's new value of the navbar's `scrolled` class: it depends only on the
      current offset, never on the previous value. */
  function NavbarScrolled(scrollY: int): bool {
    scrollY > ScrolledThreshold
  }

  /** The class switches on strictly above 100 pixels: exactly 100 is not scrolled, and it
      stays on as the page scrolls further down. */
  lemma NavbarThreshold(y: int, y': int)
    ensures !NavbarScrolled(100) && NavbarScrolled(101)
    ensures NavbarScrolled(y) && y <= y' ==> NavbarScrolled(y')
    ensures NavbarScrolled(y) <==> y >= 101
  {
  }

  // ---------------------------------------------------------------------------------------
  // updateActiveLink

  /** A `section[id]` with its `offsetTop` and `offsetHeight`. */
  datatype Section = Section(id: string, top: int, height: int)

  /** How far below the top of the viewport the reading position lies. */
  const ReadingOffset: int := 100

  /** The section spans the reading position, both ends included. */
  predicate Covers(s: Section, pos: int) {
    s.top <= pos <= s.top + s.height
  }

  /** The `href` of the nav link that points at a section. */
  function Anchor(id: string): string {
    "#" + id
  }

  /** The active links once section `s` matched: its nav link, if there is one. */
  function LinkFor(s: Section, links: set<string>): (r: set<string>)
    ensures r <= links && r <= {Anchor(s.id)}
    ensures Anchor(s.id) in links <==> r == {Anchor(s.id)}
  {
    if Anchor(s.id) in links then {Anchor(s.id)} else {}
  }

  /** The last section in document order that spans `pos`. */
  function LastCovering(sections: seq<Section>, pos: int): (r: Option<nat>)
    ensures r.Some? ==> r.value < |sections| && Covers(sections[r.value], pos)
    ensures r.Some? ==> forall j :: r.value < j < |sections| ==> !Covers(sections[j], pos)
    ensures r.None? ==> forall j :: 0 <= j < |sections| ==> !Covers(sections[j], pos)
  {
    if |sections| == 0 then None
    else if Covers(sections[|sections| - 1], pos) then Some(|sections| - 1)
    else LastCovering(sections[..|sections| - 1], pos)
  }

  /** What `updateActiveLink` leaves active: the link of the last section spanning the
      reading position, or nothing if that section has no link; the previous set when no
      section spans it. */
  function ActiveLinks(sections: seq<Section>, links: set<string>, active: set<string>,
                       scrollY: int): (r: set<string>)
    ensures (forall j :: 0 <= j < |sections| ==> !Covers(sections[j], scrollY + ReadingOffset))
              ==> r == active
    ensures forall i :: 0 <= i < |sections| && Covers(sections[i], scrollY + ReadingOffset)
              && (forall j :: i < j < |sections| ==> !Covers(sections[j], scrollY + ReadingOffset))
              ==> r == LinkFor(sections[i], links)
  {
    match LastCovering(sections, scrollY + ReadingOffset)
    case None => active
    case Some(i) => LinkFor(sections[i], links)
  }

  /** `updateActiveLink`: walks the sections in document order; each one spanning the
      reading position clears every nav link and activates its own. */
  method UpdateActiveLink(sections: seq<Section>, links: set<string>, active: set<string>,
                          scrollY: int)
    returns (r: set<string>)
    ensures r == ActiveLinks(sections, links, active, scrollY)
  {
    var pos := scrollY + ReadingOffset;
    r := active;
    var i := 0;
    while i < |sections|
      invariant 0 <= i <= |sections|
      invariant r == match LastCovering(sections[..i], pos)
                     case None => active
                     case Some(j) => LinkFor(sections[j], links)
    {
      var s := sections[i];
      if pos >= s.top && pos <= s.top + s.height {
        r := {};
        if Anchor(s.id) in links {
          r := r + {Anchor(s.id)};
        }
      }
      assert sections[..i + 1][..i] == sections[..i];
      i := i + 1;
    }
    assert sections[..i] == sections;
  }

  /** When some section spans the reading position, at most one link is active, and it is a
      nav link; otherwise the active links stay as they were. */
  lemma ActiveLinksAtMostOne(sections: seq<Section>, links: set<string>, active: set<string>,
                             scrollY: int)
    ensures var pos := scrollY + ReadingOffset;
            var r := ActiveLinks(sections, links, active, scrollY);
            && ((exists j :: 0 <= j < |sections| && Covers(sections[j], pos)) ==> r <= links && |r| <= 1)
            && ((forall j :: 0 <= j < |sections| ==> !Covers(sections[j], pos)) ==> r == active)
  {
  }

  /** Running the update again at the same scroll position changes nothing. */
  lemma ActiveLinksIdempotent(sections: seq<Section>, links: set<string>, active: set<string>,
                              scrollY: int)
    ensures var once := ActiveLinks(sections, links, active, scrollY);
            ActiveLinks(sections, links, once, scrollY) == once
  {
  }

  /** Both ends of a section count: at a scroll offset of 400 a section from 500 to 700 is
      active, and it still is at 600, but not at 601. */
  lemma ActiveLinksInclusiveBounds(links: set<string>, active: set<string>)
    requires Anchor("fleet") in links
    ensures ActiveLinks([Section("fleet", 500, 200)], links, active, 400) == {"#fleet"}
    ensures ActiveLinks([Section("fleet", 500, 200)], links, active, 600) == {"#fleet"}
    ensures ActiveLinks([Section("fleet", 500, 200)], links, active, 601) == active
  {
    assert Anchor("fleet") == "#fleet";
  }
}
