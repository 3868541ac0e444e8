/** The marketing page's navigation bar (src/components/Navbar.jsx): the
    scroll handler that picks the active section and sets the `scrolled`
    shadow flag, the link click that closes the mobile menu and scrolls to
    the target, the menu button, and the link highlight.  The page is the
    map `getElementById` consults, from element id to the section's
    `offsetTop` and `clientHeight`; the scroll position is a parameter. */
module Navbar {
  import opened Common

  /** The sections the scroll handler checks, in page order. */
  const SectionIds: seq<string> := ["home", "about", "skills", "projects", "contact"]

  /** The `href` of each navigation link, in menu order. */
  const LinkHrefs: seq<string> := ["#home", "#about", "#skills", "#projects", "#contact"]

  /** The fixed bar's height, the extra lead the scroll spy gives a section,
      and the offset past which the bar gets its shadow. */
  const NavHeight := 80
  const SpyLead := 100
  const ShadowThreshold := 100

  /** A section element's layout. */
  datatype Section = Section(offsetTop: int, clientHeight: int)

  /** The elements `getElementById` can find. */
  type Page = map<string, Section>

  /** The component's state: `isOpen`, `activeSection`, `scrolled`. */
  datatype NavState = NavState(isOpen: bool, activeSection: string, scrolled: bool)

  /** The first render. */
  const InitialNav := NavState(false, "home", false)

  /** The scroll position `y` lies in the band a section owns: from 180
      pixels above its top, for its height. */
  predicate InBand(sec: Section, y: int) {
    var top := sec.offsetTop - NavHeight - SpyLead;
    top <= y < top + sec.clientHeight
  }

  /** Section `id` exists on the page and owns position `y`. */
  predicate Owns(page: Page, id: string, y: int) {
    id in page && InBand(page[id], y)
  }

  /** The loop over `ids` from position `from`: the index of the first
      section that exists and owns `y`; absent sections are skipped. */
  function FirstOwner(ids: seq<string>, page: Page, y: int, from: nat): (r: Option<nat>)
    requires from <= |ids|
    ensures r.Some? ==> from <= r.value < |ids| && Owns(page, ids[r.value], y)
    ensures forall j :: from <= j < (if r.Some? then r.value else |ids|) ==> !Owns(page, ids[j], y)
    decreases |ids| - from
  {
    if from == |ids| then None
    else if Owns(page, ids[from], y) then Some(from)
    else FirstOwner(ids, page, y, from + 1)
  }

  /** `handleScroll`: the shadow flag follows the offset; the active section
      becomes the first owner of the offset, or stays as it was when no
      section owns it.  The menu is untouched. */
  function OnScroll(st: NavState, page: Page, y: int): (r: NavState)
    ensures r.scrolled <==> y > ShadowThreshold
    ensures r.isOpen == st.isOpen
    ensures r.activeSection == st.activeSection || r.activeSection in SectionIds
  {
    var owner := FirstOwner(SectionIds, page, y, 0);
    var active := match owner
      case Some(i) => SectionIds[i]
      case None => st.activeSection;
    NavState(st.isOpen, active, y > ShadowThreshold)
  }

  /** The earliest owning section wins: if section `i` owns the offset and
      no earlier section does, it becomes active. */
  lemma EarliestOwnerWins(st: NavState, page: Page, y: int, i: nat)
    requires i < |SectionIds| && Owns(page, SectionIds[i], y)
    requires forall j :: 0 <= j < i ==> !Owns(page, SectionIds[j], y)
    ensures OnScroll(st, page, y).activeSection == SectionIds[i]
  {
  }

  /** An offset no section owns leaves the active section unchanged. */
  lemma NoOwnerKeepsActive(st: NavState, page: Page, y: int)
    requires forall j :: 0 <= j < |SectionIds| ==> !Owns(page, SectionIds[j], y)
    ensures OnScroll(st, page, y).activeSection == st.activeSection
  {
  }

  /** Conversely, the section made active owns the offset and every
      earlier section is absent or does not own it. */
  lemma ActiveOwnsOffset(st: NavState, page: Page, y: int)
    requires OnScroll(st, page, y).activeSection != st.activeSection
    ensures exists i :: 0 <= i < |SectionIds| && SectionIds[i] == OnScroll(st, page, y).activeSection
              && Owns(page, SectionIds[i], y)
              && forall j :: 0 <= j < i ==> !Owns(page, SectionIds[j], y)
  {
    var r := FirstOwner(SectionIds, page, y, 0);
    assert r.Some?;
  }

  /** The id a link points at: its `href` without the first character. */
  function TargetId(href: string): (id: string)
    ensures |href| >= 1 ==> [href[0]] + id == href
    ensures |href| == 0 ==> id == ""
  {
    if |href| >= 1 then href[1..] else ""
  }

  /** `handleClick`: the mobile menu closes; when the target exists the
      page scrolls (smoothly) to 80 pixels above it, otherwise it does not
      scroll.  `getElementById('')` finds nothing. */
  function OnClick(st: NavState, page: Page, href: string): (r: (NavState, Option<int>))
    ensures !r.0.isOpen
    ensures r.0.activeSection == st.activeSection && r.0.scrolled == st.scrolled
    ensures r.1.Some? <==> TargetId(href) != "" && TargetId(href) in page
    ensures r.1.Some? ==> r.1.value + NavHeight == page[TargetId(href)].offsetTop
  {
    var id := TargetId(href);
    var scroll := if id != "" && id in page then Some(page[id].offsetTop - NavHeight) else None;
    (st.(isOpen := false), scroll)
  }

  /** A link to `#id` scrolls to section `id` when it exists. */
  lemma ClickScrollsToSection(st: NavState, page: Page, id: string)
    requires id in page && id != ""
    ensures OnClick(st, page, "#" + id).1 == Some(page[id].offsetTop - NavHeight)
  {
    assert ("#" + id)[1..] == id;
  }

  /** The menu button flips `isOpen` and nothing else. */
  function ToggleMenu(st: NavState): (r: NavState)
    ensures r.isOpen == !st.isOpen
    ensures r.activeSection == st.activeSection && r.scrolled == st.scrolled
  {
    st.(isOpen := !st.isOpen)
  }

  /** Pressing the menu button twice restores the state. */
  lemma ToggleTwice(st: NavState)
    ensures ToggleMenu(ToggleMenu(st)) == st
  {
  }

  /** A link is highlighted when the active section is its target: its
      `href` is one character followed by the active section's id. */
  predicate Highlighted(st: NavState, href: string): (b: bool)
    ensures b && |href| >= 1 ==> href == [href[0]] + st.activeSection
    ensures |href| >= 1 && href == [href[0]] + st.activeSection ==> b
  {
    st.activeSection == TargetId(href)
  }

  /** The link list points at the section list, one for one. */
  lemma LinksMatchSections()
    ensures |LinkHrefs| == |SectionIds|
    ensures forall k :: 0 <= k < |LinkHrefs| ==> TargetId(LinkHrefs[k]) == SectionIds[k]
  {
    assert TargetId(LinkHrefs[0]) == SectionIds[0];
    assert TargetId(LinkHrefs[1]) == SectionIds[1];
    assert TargetId(LinkHrefs[2]) == SectionIds[2];
    assert TargetId(LinkHrefs[3]) == SectionIds[3];
    assert TargetId(LinkHrefs[4]) == SectionIds[4];
  }

  /** The section ids are pairwise different. */
  lemma SectionIdsDistinct()
    ensures forall j, k :: 0 <= j < k < |SectionIds| ==> SectionIds[j] != SectionIds[k]
  {
    assert SectionIds[0][0] == 'h' && SectionIds[1][0] == 'a' && SectionIds[2][0] == 's';
    assert SectionIds[3][0] == 'p' && SectionIds[4][0] == 'c';
  }

  /** The active section is always one of the page's sections. */
  ghost predicate Known(st: NavState) {
    st.activeSection in SectionIds
  }

  /** Scrolling, clicking and the menu button all keep the active section
      one of the page's sections, starting from `home`. */
  lemma KnownPreserved(st: NavState, page: Page, y: int, href: string)
    requires Known(st)
    ensures Known(InitialNav)
    ensures Known(OnScroll(st, page, y))
    ensures Known(OnClick(st, page, href).0)
    ensures Known(ToggleMenu(st))
  {
    assert InitialNav.activeSection == SectionIds[0];
  }

  /** With a known active section exactly one link is highlighted. */
  lemma ExactlyOneHighlighted(st: NavState)
    requires Known(st)
    ensures exists k :: 0 <= k < |LinkHrefs| && Highlighted(st, LinkHrefs[k])
    ensures forall j, k ::
              (0 <= j < |LinkHrefs| && 0 <= k < |LinkHrefs|
               && Highlighted(st, LinkHrefs[j]) && Highlighted(st, LinkHrefs[k])) ==> j == k
  {
    LinksMatchSections();
    SectionIdsDistinct();
    var k :| 0 <= k < |SectionIds| && SectionIds[k] == st.activeSection;
    assert Highlighted(st, LinkHrefs[k]);
    forall j, k' | 0 <= j < |LinkHrefs| && 0 <= k' < |LinkHrefs|
        && Highlighted(st, LinkHrefs[j]) && Highlighted(st, LinkHrefs[k'])
      ensures j == k'
    {
      assert SectionIds[j] == SectionIds[k'];
    }
  }
}
