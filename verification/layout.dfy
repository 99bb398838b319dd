/** The application layout: a desktop sidebar that collapses, a mobile sidebar drawn
    over an overlay, a user menu, and per-session action menus, driven by clicks,
    the Escape key, window resizes and page (re)initialisation.

    Each part's visibility is a boolean abstracting the CSS classes the script toggles;
    which elements exist on the page is a parameter, because every setter does nothing
    when one of its elements is missing. */
module Layout {

  /** Which of the layout's elements are on the page. */
  datatype Elements = Elements(
    container: bool, sidebar: bool, header: bool,
    overlay: bool, userMenu: bool, userMenuToggle: bool)

  /** The visible state.
      - desktopOpen: the container and header carry `lg:pl-64` (sidebar shown on desktop)
      - desktopCollapsed: the sidebar carries `lg:-translate-x-full`
      - mobileOpen: the mobile sidebar is slid in and the overlay shown
      - userMenuOpen: the user menu is not hidden (its toggle's `aria-expanded` agrees)
      - openSessionMenus: the session action menus currently open */
  datatype LayoutState = LayoutState(
    desktopOpen: bool, desktopCollapsed: bool, mobileOpen: bool,
    userMenuOpen: bool, openSessionMenus: set<nat>)

  predicate CanSetDesktop(e: Elements)
  {
    e.container && e.sidebar && e.header
  }

  predicate CanSetMobile(e: Elements)
  {
    e.sidebar && e.overlay
  }

  predicate CanSetUserMenu(e: Elements)
  {
    e.userMenu && e.userMenuToggle
  }

  /** The two desktop class flags agree. Every transition keeps this. */
  predicate Consistent(s: LayoutState)
  {
    s.desktopCollapsed == !s.desktopOpen
  }

  /** `setDesktopSidebar`: with the container, sidebar and header present, the two
      desktop classes follow `open`; otherwise, and for every other part, nothing changes. */
  function SetDesktopSidebar(e: Elements, s: LayoutState, open: bool): (r: LayoutState)
    ensures CanSetDesktop(e) ==> r.desktopOpen == open && r.desktopCollapsed == !open
    ensures !CanSetDesktop(e) ==> r == s
    ensures r.(desktopOpen := s.desktopOpen, desktopCollapsed := s.desktopCollapsed) == s
    ensures CanSetDesktop(e) || Consistent(s) ==> Consistent(r)
  {
    if CanSetDesktop(e) then s.(desktopOpen := open, desktopCollapsed := !open) else s
  }

  /** `setMobileSidebar`: with the sidebar and overlay present, the mobile sidebar and
      overlay follow `open`; otherwise, and for every other part, nothing changes. */
  function SetMobileSidebar(e: Elements, s: LayoutState, open: bool): (r: LayoutState)
    ensures CanSetMobile(e) ==> r.mobileOpen == open
    ensures !CanSetMobile(e) ==> r == s
    ensures r.(mobileOpen := s.mobileOpen) == s
  {
    if CanSetMobile(e) then s.(mobileOpen := open) else s
  }

  /** `setUserMenu`: with the menu and its toggle present, the menu follows `open`;
      otherwise, and for every other part, nothing changes. */
  function SetUserMenu(e: Elements, s: LayoutState, open: bool): (r: LayoutState)
    ensures CanSetUserMenu(e) ==> r.userMenuOpen == open
    ensures !CanSetUserMenu(e) ==> r == s
    ensures r.(userMenuOpen := s.userMenuOpen) == s
  {
    if CanSetUserMenu(e) then s.(userMenuOpen := open) else s
  }

  /** `closeSessionActionMenus`: every session menu closes; nothing else changes. */
  function CloseSessionMenus(s: LayoutState): (r: LayoutState)
    ensures r.openSessionMenus == {}
    ensures r.(openSessionMenus := s.openSessionMenus) == s
  {
    s.(openSessionMenus := {})
  }

  /** `initializeApplicationLayout`, run on load and after every live navigation: with
      the container, sidebar and header present, the desktop sidebar opens unless the
      sidebar is marked collapsed, and the mobile sidebar and user menu close. */
  function Initialize(e: Elements, s: LayoutState): (r: LayoutState)
    ensures !CanSetDesktop(e) ==> r == s
    ensures r.openSessionMenus == s.openSessionMenus
    ensures CanSetDesktop(e) ==> r.desktopOpen == (s.desktopOpen || !s.desktopCollapsed)
    ensures CanSetDesktop(e) && e.overlay ==> !r.mobileOpen
    ensures CanSetDesktop(e) && e.userMenu ==> !r.userMenuOpen
    ensures r.desktopCollapsed == s.desktopCollapsed
    ensures !e.overlay ==> r.mobileOpen == s.mobileOpen
    ensures !e.userMenu ==> r.userMenuOpen == s.userMenuOpen
    ensures Consistent(s) ==> Consistent(r)
    ensures CanSetDesktop(e) && (s.desktopCollapsed ==> !s.desktopOpen) ==> Consistent(r)
  {
    if !CanSetDesktop(e) then s
    else
      var s1 := if !s.desktopCollapsed then SetDesktopSidebar(e, s, true) else s;
      var s2 := SetMobileSidebar(e, s1, false);
      if e.userMenu then s2.(userMenuOpen := false) else s2
  }

  /** Initialising twice is initialising once. */
  lemma InitializeIdempotent(e: Elements, s: LayoutState)
    ensures Initialize(e, Initialize(e, s)) == Initialize(e, s)
  {
  }

  /** `toggleDesktopSidebar`: flips the desktop sidebar and changes nothing else. */
  function ToggleDesktopSidebar(e: Elements, s: LayoutState): (r: LayoutState)
    ensures CanSetDesktop(e) ==> r.desktopOpen == !s.desktopOpen && r.desktopCollapsed == s.desktopOpen
    ensures !CanSetDesktop(e) ==> r == s
    ensures r.mobileOpen == s.mobileOpen && r.userMenuOpen == s.userMenuOpen
    ensures r.openSessionMenus == s.openSessionMenus
  {
    if !e.container then s else SetDesktopSidebar(e, s, !s.desktopOpen)
  }

  /** Toggling twice restores a consistent layout. */
  lemma ToggleDesktopInvolution(e: Elements, s: LayoutState)
    requires Consistent(s)
    ensures ToggleDesktopSidebar(e, ToggleDesktopSidebar(e, s)) == s
  {
  }

  /** The marked ancestors a click target has (what each `closest(...)` query finds). */
  datatype Hit = Hit(
    sidebarOpen: bool, sidebarClose: bool, sidebarOverlay: bool, desktopToggle: bool,
    userMenuToggle: bool, sessionMenu: bool, sessionMenuClose: bool, userMenu: bool)

  /** The branch of the click handler a click takes. */
  datatype Route = OpenMobile | CloseMobile | ToggleDesktop | ToggleUserMenu
                 | InsideSessionMenu | Outside

  /** The click handler's priority order: open the mobile sidebar, else close it (close
      button or overlay), else toggle the desktop sidebar, else toggle the user menu, else
      a click inside a session menu, else a click outside everything. */
  function RouteOf(hit: Hit): (route: Route)
    ensures route == OpenMobile <==> hit.sidebarOpen
    ensures route == CloseMobile <==> !hit.sidebarOpen && (hit.sidebarClose || hit.sidebarOverlay)
    ensures route == ToggleDesktop <==>
              !hit.sidebarOpen && !hit.sidebarClose && !hit.sidebarOverlay && hit.desktopToggle
    ensures route == ToggleUserMenu <==>
              !hit.sidebarOpen && !hit.sidebarClose && !hit.sidebarOverlay && !hit.desktopToggle
              && hit.userMenuToggle
    ensures route == Outside <==>
              !hit.sidebarOpen && !hit.sidebarClose && !hit.sidebarOverlay && !hit.desktopToggle
              && !hit.userMenuToggle && !hit.sessionMenu
  {
    if hit.sidebarOpen then OpenMobile
    else if hit.sidebarClose || hit.sidebarOverlay then CloseMobile
    else if hit.desktopToggle then ToggleDesktop
    else if hit.userMenuToggle then ToggleUserMenu
    else if hit.sessionMenu then InsideSessionMenu
    else Outside
  }

  /** `handleApplicationLayoutClick`. Each part of the layout changes only on its own
      route; a click inside a session menu closes the session menus only when it hit a
      close control; a click outside closes the session menus, and the user menu too
      unless the click landed inside it. No click opens a session menu. */
  function Click(e: Elements, s: LayoutState, hit: Hit): (r: LayoutState)
    ensures r.desktopOpen != s.desktopOpen ==> RouteOf(hit) == ToggleDesktop
    ensures RouteOf(hit) == ToggleDesktop && CanSetDesktop(e) ==> r.desktopOpen == !s.desktopOpen
    ensures r.mobileOpen != s.mobileOpen ==>
              RouteOf(hit) == OpenMobile || RouteOf(hit) == CloseMobile
    ensures RouteOf(hit) == OpenMobile && CanSetMobile(e) ==> r.mobileOpen
    ensures RouteOf(hit) == CloseMobile && CanSetMobile(e) ==> !r.mobileOpen
    ensures r.userMenuOpen != s.userMenuOpen ==>
              RouteOf(hit) == ToggleUserMenu || (RouteOf(hit) == Outside && !hit.userMenu)
    ensures RouteOf(hit) == ToggleUserMenu && CanSetUserMenu(e) ==> r.userMenuOpen == !s.userMenuOpen
    ensures RouteOf(hit) == Outside && !hit.userMenu && CanSetUserMenu(e) ==> !r.userMenuOpen
    ensures r.openSessionMenus == s.openSessionMenus || r.openSessionMenus == {}
    ensures r.openSessionMenus != s.openSessionMenus ==>
              RouteOf(hit) == Outside || (RouteOf(hit) == InsideSessionMenu && hit.sessionMenuClose)
    ensures RouteOf(hit) == Outside ==> r.openSessionMenus == {}
    ensures RouteOf(hit) == InsideSessionMenu && hit.sessionMenuClose ==> r.openSessionMenus == {}
    ensures RouteOf(hit) == InsideSessionMenu && !hit.sessionMenuClose ==> r == s
    ensures !CanSetDesktop(e) ==> r.desktopOpen == s.desktopOpen && r.desktopCollapsed == s.desktopCollapsed
    ensures RouteOf(hit) != ToggleDesktop ==> r.desktopCollapsed == s.desktopCollapsed
    ensures RouteOf(hit) == ToggleDesktop && CanSetDesktop(e) ==> r.desktopCollapsed == s.desktopOpen
    ensures !CanSetMobile(e) ==> r.mobileOpen == s.mobileOpen
    ensures !CanSetUserMenu(e) ==> r.userMenuOpen == s.userMenuOpen
    ensures Consistent(s) ==> Consistent(r)
  {
    if hit.sidebarOpen then SetMobileSidebar(e, s, true)
    else if hit.sidebarClose || hit.sidebarOverlay then SetMobileSidebar(e, s, false)
    else if hit.desktopToggle then ToggleDesktopSidebar(e, s)
    else if hit.userMenuToggle then SetUserMenu(e, s, !s.userMenuOpen)
    else if hit.sessionMenu then
      if hit.sessionMenuClose then CloseSessionMenus(s) else s
    else
      var closed := CloseSessionMenus(s);
      if !hit.userMenu then SetUserMenu(e, closed, false) else closed
  }

  /** Toggling the user menu twice restores it. */
  lemma UserMenuToggleInvolution(e: Elements, s: LayoutState, hit: Hit)
    requires RouteOf(hit) == ToggleUserMenu
    ensures Click(e, Click(e, s, hit), hit) == s
  {
  }

  /** The keydown listener: Escape closes the mobile sidebar, the user menu and the
      session menus, and leaves the desktop sidebar alone; other keys do nothing. */
  function KeyDown(e: Elements, s: LayoutState, key: string): (r: LayoutState)
    ensures key != "Escape" ==> r == s
    ensures r.desktopOpen == s.desktopOpen && r.desktopCollapsed == s.desktopCollapsed
    ensures key == "Escape" ==>
              && r.openSessionMenus == {}
              && (CanSetMobile(e) ==> !r.mobileOpen)
              && (CanSetUserMenu(e) ==> !r.userMenuOpen)
    ensures !CanSetMobile(e) ==> r.mobileOpen == s.mobileOpen
    ensures !CanSetUserMenu(e) ==> r.userMenuOpen == s.userMenuOpen
  {
    if key == "Escape" then
      CloseSessionMenus(SetUserMenu(e, SetMobileSidebar(e, s, false), false))
    else s
  }

  /** Pressing Escape twice is pressing it once. */
  lemma EscapeIdempotent(e: Elements, s: LayoutState)
    ensures KeyDown(e, KeyDown(e, s, "Escape"), "Escape") == KeyDown(e, s, "Escape")
  {
  }

  /** The resize listener: at a desktop width (1024 pixels or more) the mobile sidebar
      closes; nothing else changes. */
  function Resize(e: Elements, s: LayoutState, innerWidth: int): (r: LayoutState)
    ensures r.(mobileOpen := s.mobileOpen) == s
    ensures innerWidth >= 1024 && CanSetMobile(e) ==> !r.mobileOpen
    ensures innerWidth < 1024 ==> r == s
    ensures !CanSetMobile(e) ==> r == s
  {
    if innerWidth >= 1024 then SetMobileSidebar(e, s, false) else s
  }

  /** Every event keeps the two desktop class flags in agreement. */
  lemma TransitionsKeepConsistent(e: Elements, s: LayoutState, hit: Hit, key: string, width: int)
    requires Consistent(s)
    ensures Consistent(Click(e, s, hit))
    ensures Consistent(KeyDown(e, s, key))
    ensures Consistent(Resize(e, s, width))
    ensures Consistent(ToggleDesktopSidebar(e, s))
    ensures Consistent(Initialize(e, s))
  {
  }
}
