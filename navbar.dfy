/** The navigation bar of the page (navbar.js): class changes on scroll, and the
    drop-down menu button. Class lists are sets of class names. */
module NavBar {

  const NavStyle := "nav_style"
  const NavPush := "nav_push"
  const Header := "header"
  const HeaderStyle := "header_style"
  const NavDropdownActive := "nav_dropdown_active"
  const Change := "change"
  const MenuItemsActive := "menuItems_active"
  const MenuItemsInactive := "menuItems_inactive"
  const MenuItemActive := "menuItem_active"
  const Tog := "tog"
  const BodyDropdown := "body_dropdown"

  /** Screens at least this wide (in CSS pixels) get the wide-screen bar. */
  const WideScreen := 700

  /** The class lists of the `nav` and `header` elements. */
  datatype Bars = Bars(nav: set<string>, header: set<string>)

  /** The classes `adjustNavBar` leaves on `nav` and `header` when the page scrolls
      from `prev` to `cur`, in the order the handler adds and removes them. */
  function Scrolled(wide: bool, prev: real, cur: real, b: Bars): (r: Bars)
    // wide screen: scrolling up shows the styled bar, back at the top the plain one,
    // scrolling down (or not moving) pushes it away; the header is not touched
    ensures wide && prev > cur && cur != 0.0 ==> NavStyle in r.nav && NavPush !in r.nav
    ensures wide && prev > cur && cur == 0.0 ==> NavStyle !in r.nav && NavPush !in r.nav
    ensures wide && prev <= cur ==> NavStyle !in r.nav && NavPush in r.nav
    ensures wide ==> r.header == b.header
    // narrow screen: the header carries the style instead, and "nav_style" is not touched
    ensures !wide && prev > cur && cur != 0.0 ==>
              Header in r.header && HeaderStyle in r.header && NavPush !in r.nav
    ensures !wide && prev > cur && cur == 0.0 ==>
              Header !in r.header && HeaderStyle !in r.header && NavPush !in r.nav
    ensures !wide && prev <= cur ==>
              Header !in r.header && HeaderStyle !in r.header && NavPush in r.nav
    ensures !wide ==> (NavStyle in r.nav <==> NavStyle in b.nav)
    // no other class moves
    ensures forall c :: c != NavStyle && c != NavPush ==> (c in r.nav <==> c in b.nav)
    ensures forall c :: c != Header && c != HeaderStyle ==> (c in r.header <==> c in b.header)
  {
    if wide then
      if prev > cur then
        var nav := b.nav + {NavStyle} - {NavPush};
        if cur == 0.0 then Bars(nav - {NavStyle} - {NavPush}, b.header) else Bars(nav, b.header)
      else
        Bars(b.nav - {NavStyle} + {NavPush}, b.header)
    else
      if prev > cur then
        var header := b.header + {Header} + {HeaderStyle};
        var nav := b.nav - {NavPush};
        if cur == 0.0 then Bars(nav - {NavPush}, header - {Header} - {HeaderStyle}) else Bars(nav, header)
      else
        Bars(b.nav + {NavPush}, b.header - {Header} - {HeaderStyle})
  }

  /** The bars after scrolling through `positions` from `start`, the handler
      remembering each position for the next event. */
  function ScrolledThrough(wide: bool, start: real, positions: seq<real>, b: Bars): (r: Bars)
  {
    if positions == [] then b
    else
      var before := positions[..|positions| - 1];
      var prev := if before == [] then start else before[|before| - 1];
      Scrolled(wide, prev, positions[|positions| - 1], ScrolledThrough(wide, start, before, b))
  }

  /** After a run of scroll events, the bar-managed classes do not depend on the
      classes the bar carried before the run. */
  lemma {:induction false} LastScrollDecides(wide: bool, start: real, positions: seq<real>, b1: Bars, b2: Bars)
    requires |positions| > 0
    ensures var r1, r2 := ScrolledThrough(wide, start, positions, b1), ScrolledThrough(wide, start, positions, b2);
            && (NavPush in r1.nav <==> NavPush in r2.nav)
            && (wide ==> (NavStyle in r1.nav <==> NavStyle in r2.nav))
            && (!wide ==> (Header in r1.header <==> Header in r2.header)
                          && (HeaderStyle in r1.header <==> HeaderStyle in r2.header))
  {
    var before := positions[..|positions| - 1];
    var prev := if before == [] then start else before[|before| - 1];
    var cur := positions[|positions| - 1];
    var s1 := Scrolled(wide, prev, cur, ScrolledThrough(wide, start, before, b1));
    var s2 := Scrolled(wide, prev, cur, ScrolledThrough(wide, start, before, b2));
    assert ScrolledThrough(wide, start, positions, b1) == s1;
    assert ScrolledThrough(wide, start, positions, b2) == s2;
  }

  /** Two runs of at least two scroll events that end on the same two positions leave
      the same bar-managed classes, whatever came before: the start, the earlier
      positions and the earlier classes. */
  lemma {:induction false} LastTwoPositionsDecide(wide: bool, start1: real, p: seq<real>, b1: Bars,
                                                  start2: real, q: seq<real>, b2: Bars)
    requires |p| >= 2 && |q| >= 2 && p[|p| - 2..] == q[|q| - 2..]
    ensures var r1, r2 := ScrolledThrough(wide, start1, p, b1), ScrolledThrough(wide, start2, q, b2);
            && (NavPush in r1.nav <==> NavPush in r2.nav)
            && (wide ==> (NavStyle in r1.nav <==> NavStyle in r2.nav))
            && (!wide ==> (Header in r1.header <==> Header in r2.header)
                          && (HeaderStyle in r1.header <==> HeaderStyle in r2.header))
  {
    assert p[|p| - 2] == q[|q| - 2] && p[|p| - 1] == q[|q| - 1];
  }

  /** `classList.toggle(c)`. */
  function Toggle(s: set<string>, c: string): (r: set<string>)
    ensures c in r <==> c !in s
    ensures forall d :: d != c ==> (d in r <==> d in s)
  {
    if c in s then s - {c} else s + {c}
  }

  lemma ToggleTwice(s: set<string>, c: string)
    ensures Toggle(Toggle(s, c), c) == s
  {
  }

  /** The class lists `menuButton` touches: `nav`, `header`, the `menuButton` element,
      the `menuItems` element, every `item`, `html` and `body`. */
  datatype Menu = Menu(nav: set<string>, header: set<string>, button: set<string>,
                       menuItems: set<string>, items: seq<set<string>>,
                       html: set<string>, body: set<string>)

  /** What one call of `menuButton` does when the page is scrolled to `scrollY`. */
  function MenuToggled(m: Menu, scrollY: real): (r: Menu)
    ensures NavDropdownActive in r.nav <==> NavDropdownActive !in m.nav
    ensures scrollY != 0.0 ==> (HeaderStyle in r.header <==> HeaderStyle !in m.header)
                               && (Header in r.header <==> Header in m.header)
    ensures scrollY == 0.0 ==> (Header in r.header <==> Header !in m.header)
                               && (HeaderStyle in r.header <==> HeaderStyle in m.header)
    ensures |r.items| == |m.items|
    ensures forall k :: 0 <= k < |r.items| ==> (MenuItemActive in r.items[k] <==> MenuItemActive !in m.items[k])
    ensures Change in r.button <==> Change !in m.button
    ensures MenuItemsActive in r.menuItems <==> MenuItemsActive !in m.menuItems
    ensures MenuItemsInactive in r.menuItems <==> MenuItemsInactive !in m.menuItems
    ensures Tog in r.html <==> Tog !in m.html
    ensures BodyDropdown in r.body <==> BodyDropdown !in m.body
    // no other class moves
    ensures forall c :: c != NavDropdownActive ==> (c in r.nav <==> c in m.nav)
    ensures forall c :: c != Header && c != HeaderStyle ==> (c in r.header <==> c in m.header)
    ensures forall c :: c != Change ==> (c in r.button <==> c in m.button)
    ensures forall c :: c != MenuItemsActive && c != MenuItemsInactive ==> (c in r.menuItems <==> c in m.menuItems)
    ensures forall k, c :: 0 <= k < |r.items| && c != MenuItemActive ==> (c in r.items[k] <==> c in m.items[k])
    ensures forall c :: c != Tog ==> (c in r.html <==> c in m.html)
    ensures forall c :: c != BodyDropdown ==> (c in r.body <==> c in m.body)
  {
    Menu(Toggle(m.nav, NavDropdownActive),
         if scrollY != 0.0 then Toggle(m.header, HeaderStyle) else Toggle(m.header, Header),
         Toggle(m.button, Change),
         Toggle(Toggle(m.menuItems, MenuItemsActive), MenuItemsInactive),
         seq(|m.items|, k requires 0 <= k < |m.items| => Toggle(m.items[k], MenuItemActive)),
         Toggle(m.html, Tog),
         Toggle(m.body, BodyDropdown))
  }

  /** Pressing the menu button twice without scrolling in between restores every class list. */
  lemma MenuTwiceRestores(m: Menu, scrollY: real)
    ensures MenuToggled(MenuToggled(m, scrollY), scrollY) == m
  {
    var r := MenuToggled(MenuToggled(m, scrollY), scrollY);
    assert r.items == m.items by {
      forall k | 0 <= k < |m.items|
        ensures r.items[k] == m.items[k]
      {
        ToggleTwice(m.items[k], MenuItemActive);
      }
    }
  }

  /** The page's navigation state: the class lists of its elements and the
      module-level `prevScrollPos`. */
  class Navigation {
    var prevScrollPos: real
    var nav: set<string>
    var header: set<string>
    var button: set<string>
    var menuItems: set<string>
    const items: array<set<string>>
    var html: set<string>
    var body: set<string>

    ghost function Bar(): (b: Bars)
      reads this
    {
      Bars(nav, header)
    }

    ghost function MenuState(): (m: Menu)
      reads this, items
    {
      Menu(nav, header, button, menuItems, items[..], html, body)
    }

    /** The page as loaded, scrolled to `scrollY`, its elements carrying the given classes. */
    constructor (scrollY: real, nav: set<string>, header: set<string>, button: set<string>,
                 menuItems: set<string>, items: array<set<string>>, html: set<string>, body: set<string>)
      ensures prevScrollPos == scrollY && this.items == items
      ensures MenuState() == Menu(nav, header, button, menuItems, items[..], html, body)
    {
      prevScrollPos := scrollY;
      this.nav, this.header, this.button, this.menuItems := nav, header, button, menuItems;
      this.html, this.body := html, body;
      this.items := items;
    }

    /** `adjustNavBar`, run on every scroll event. */
    method AdjustNavBar(scrollY: real, innerWidth: int)
      modifies this
      ensures Bar() == Scrolled(innerWidth >= WideScreen, old(prevScrollPos), scrollY, old(Bar()))
      ensures prevScrollPos == scrollY
      ensures button == old(button) && menuItems == old(menuItems) && html == old(html) && body == old(body)
    {
      var currentScrollPos := scrollY;
      if innerWidth >= WideScreen {
        if prevScrollPos > currentScrollPos {
          nav := nav + {NavStyle};
          nav := nav - {NavPush};
          if currentScrollPos == 0.0 {
            nav := nav - {NavStyle};
            nav := nav - {NavPush};
          }
        } else {
          nav := nav - {NavStyle};
          nav := nav + {NavPush};
        }
      } else {
        if prevScrollPos > currentScrollPos {
          header := header + {Header};
          header := header + {HeaderStyle};
          nav := nav - {NavPush};
          if currentScrollPos == 0.0 {
            header := header - {Header};
            header := header - {HeaderStyle};
            nav := nav - {NavPush};
          }
        } else {
          header := header - {Header};
          header := header - {HeaderStyle};
          nav := nav + {NavPush};
        }
      }
      prevScrollPos := currentScrollPos;
    }

    /** `menuButton`, the click handler of the menu button. */
    method MenuButton(scrollY: real)
      modifies this, items
      ensures MenuState() == MenuToggled(old(MenuState()), scrollY)
      ensures prevScrollPos == old(prevScrollPos)
    {
      nav := Toggle(nav, NavDropdownActive);
      if scrollY != 0.0 {
        header := Toggle(header, HeaderStyle);
      } else {
        header := Toggle(header, Header);
      }
      button := Toggle(button, Change);
      menuItems := Toggle(menuItems, MenuItemsActive);
      menuItems := Toggle(menuItems, MenuItemsInactive);
      for k := 0 to items.Length
        modifies items
        invariant forall j :: 0 <= j < items.Length ==>
          items[j] == (if j < k then Toggle(old(items[j]), MenuItemActive) else old(items[j]))
      {
        items[k] := Toggle(items[k], MenuItemActive);
      }
      html := Toggle(html, Tog);
      body := Toggle(body, BodyDropdown);
    }
  }
}
