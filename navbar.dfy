/**
 * The site navigation bar: desktop links that highlight the current route, and
 * a mobile drawer that opens from a menu button, closes on Escape, on the
 * overlay, on its close button or on any of its links, and locks page scroll
 * while it is open.
 */
module Navbar {

  datatype MenuItem = MenuItem(href: string, text: string)

  /** `menuItems` as written: the Contacts link points at "/contact". */
  const MenuItemsAsWritten: seq<MenuItem> := [
    MenuItem("/", "Home"),
    MenuItem("/experience", "Experience"),
    MenuItem("/technologies", "Technologies"),
    MenuItem("/contact", "Contacts")]

  /** The menu with the Contacts link pointing at the contacts page's route. */
  const MenuItems: seq<MenuItem> := MenuItemsAsWritten[3 := MenuItem("/contacts", "Contacts")]

  /** The app's page routes: the home page and the `experience`, `technologies` and `contacts` pages. */
  const Routes: seq<string> := ["/", "/experience", "/technologies", "/contacts"]

  // ---------------------------------------------------------------------------
  // Active link

  /** `pathname === item.href`. */
  predicate IsActive(pathname: string, item: MenuItem) {
    pathname == item.href
  }

  predicate DistinctHrefs(items: seq<MenuItem>) {
    forall i, j :: 0 <= i < j < |items| ==> items[i].href != items[j].href
  }

  /** The indices of the highlighted links, in menu order. */
  function ActiveIndices(pathname: string, items: seq<MenuItem>): (r: seq<nat>)
    ensures forall k :: 0 <= k < |r| ==> r[k] < |items| && IsActive(pathname, items[r[k]])
    ensures forall i :: 0 <= i < |items| && IsActive(pathname, items[i]) ==> i in r
  {
    if |items| == 0 then []
    else
      var rest := ActiveIndices(pathname, items[..|items| - 1]);
      if IsActive(pathname, items[|items| - 1]) then rest + [|items| - 1] else rest
  }

  /** With distinct hrefs at most one link is highlighted, on any route. */
  lemma {:induction false} AtMostOneActive(pathname: string, items: seq<MenuItem>)
    requires DistinctHrefs(items)
    ensures |ActiveIndices(pathname, items)| <= 1
  {
    if |items| > 0 {
      var init := items[..|items| - 1];
      assert DistinctHrefs(init);
      AtMostOneActive(pathname, init);
      var rest := ActiveIndices(pathname, init);
      if |rest| == 1 {
        assert rest[0] < |init| && items[rest[0]].href == pathname;
        assert items[rest[0]].href != items[|items| - 1].href;
      }
    }
  }

  /** A route that is no link's href highlights nothing. */
  lemma {:induction false} NoneActive(pathname: string, items: seq<MenuItem>)
    requires forall i :: 0 <= i < |items| ==> items[i].href != pathname
    ensures ActiveIndices(pathname, items) == []
  {
    if |items| > 0 {
      NoneActive(pathname, items[..|items| - 1]);
    }
  }

  /** Both menus have four different hrefs. */
  lemma MenusDistinct()
    ensures DistinctHrefs(MenuItemsAsWritten)
    ensures DistinctHrefs(MenuItems)
  {
  }

  /** As written, on the contacts page no link is highlighted. */
  lemma ContactsUnhighlightedAsWritten()
    ensures "/contacts" in Routes
    ensures ActiveIndices("/contacts", MenuItemsAsWritten) == []
  {
    NoneActive("/contacts", MenuItemsAsWritten);
  }

  /** With the route as the Contacts href, every page highlights exactly its own link. */
  lemma EachRouteHighlightsItsLink(k: nat)
    requires k < |Routes|
    ensures ActiveIndices(Routes[k], MenuItems) == [k]
  {
    MenusDistinct();
    AtMostOneActive(Routes[k], MenuItems);
    assert MenuItems[k].href == Routes[k];
  }

  // ---------------------------------------------------------------------------
  // Drawer

  /** What can happen to the drawer. */
  datatype Event =
    | MenuButton      // the hamburger button
    | KeyDown(key: string)
    | OverlayClick
    | CloseButton
    | DrawerLink

  /** The drawer state after an event: the menu button flips it, every closing event clears it. */
  function NextOpen(isOpen: bool, e: Event): (r: bool)
    ensures e.MenuButton? ==> r == !isOpen
    ensures (e.OverlayClick? || e.CloseButton? || e.DrawerLink? || e == KeyDown("Escape")) ==> !r
    ensures e.KeyDown? && e.key != "Escape" ==> r == isOpen
  {
    match e
    case MenuButton => !isOpen
    case KeyDown(key) => if key == "Escape" then false else isOpen
    case OverlayClick => false
    case CloseButton => false
    case DrawerLink => false
  }

  /** Only the menu button opens the drawer, and pressing it twice changes nothing. */
  lemma OnlyMenuButtonOpens(isOpen: bool, e: Event)
    ensures !isOpen && NextOpen(isOpen, e) ==> e.MenuButton?
    ensures NextOpen(NextOpen(isOpen, MenuButton), MenuButton) == isOpen
  {
  }

  class Nav {
    var isOpen: bool
    /** Whether the document root carries the `overflow-hidden` class. */
    var scrollLocked: bool

    ghost predicate Valid()
      reads this
    {
      scrollLocked == isOpen
    }

    /** The drawer starts closed, and the first run of the effect leaves scrolling free. */
    constructor()
      ensures Valid() && !isOpen && !scrollLocked
    {
      isOpen := false;
      scrollLocked := false;
    }

    /** The effect on `isOpen`: add or remove `overflow-hidden` on the root. */
    method SyncScrollLock()
      modifies this
      ensures scrollLocked == isOpen && isOpen == old(isOpen)
    {
      if isOpen {
        scrollLocked := true;
      } else {
        scrollLocked := false;
      }
    }

    /** One event, followed by the effect it triggers. */
    method Handle(e: Event)
      requires Valid()
      modifies this
      ensures Valid()
      ensures isOpen == NextOpen(old(isOpen), e)
    {
      match e {
        case MenuButton => isOpen := !isOpen;
        case KeyDown(key) =>
          if key == "Escape" {
            isOpen := false;
          }
        case OverlayClick => isOpen := false;
        case CloseButton => isOpen := false;
        case DrawerLink => isOpen := false;
      }
      SyncScrollLock();
    }
  }
}
