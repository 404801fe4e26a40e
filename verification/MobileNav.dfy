/** The mobile navigation menu: a panel, a hamburger icon and a close icon,
    each shown or hidden through the `hidden` class, and a menu button whose
    `aria-expanded` attribute reports whether the panel is open. */
module MobileNav {
  import opened Wrappers

  /** An element looked up once when the script starts: absent from the page,
      or present with its `hidden` class set or not. */
  datatype Element = Absent | Present(hidden: bool)

  /** The menu button: absent, or present with its `aria-expanded` attribute
      (`None` while the attribute is unset). */
  datatype Button = NoButton | MenuButton(ariaExpanded: Option<string>)

  datatype NavDom = NavDom(button: Button, menu: Element, menuIcon: Element, closeIcon: Element)

  predicate IsOpen(d: NavDom) {
    d.menu.Present? && !d.menu.hidden
  }

  /** The panel and both icons exist, the case in which the toggle acts. */
  predicate AllPresent(d: NavDom) {
    d.menu.Present? && d.menuIcon.Present? && d.closeIcon.Present?
  }

  /** What assistive technology and the eye see agree: `aria-expanded` is
      "true" exactly when the panel is shown, the hamburger is shown exactly
      when the panel is hidden, and the close icon exactly when it is shown. */
  predicate Consistent(d: NavDom) {
    (d.menu.Present? && d.button.MenuButton? ==>
      (d.button.ariaExpanded == Some("true") <==> !d.menu.hidden)) &&
    (d.menu.Present? && d.menuIcon.Present? ==> d.menuIcon.hidden == !d.menu.hidden) &&
    (d.menu.Present? && d.closeIcon.Present? ==> d.closeIcon.hidden == d.menu.hidden)
  }

  /** In a consistent page with both icons, exactly one icon is visible. */
  lemma OneIconVisible(d: NavDom)
    requires Consistent(d) && AllPresent(d)
    ensures d.menuIcon.hidden != d.closeIcon.hidden
    ensures d.menuIcon.hidden <==> IsOpen(d)
  {
  }

  function Flip(e: Element): Element {
    match e
    case Absent => Absent
    case Present(hidden) => Present(!hidden)
  }

  function AriaValue(b: bool): string {
    if b then "true" else "false"
  }

  /** `toggleMobileMenu`: with the panel and both icons present, flips all
      three and sets `aria-expanded` to "true" exactly when the panel was
      hidden; otherwise changes nothing. */
  function Toggled(d: NavDom): (r: NavDom)
    ensures !AllPresent(d) ==> r == d
    ensures AllPresent(d) ==> AllPresent(r) && (IsOpen(r) <==> !IsOpen(d))
    ensures AllPresent(d) ==> r.menuIcon.hidden == !d.menuIcon.hidden && r.closeIcon.hidden == !d.closeIcon.hidden
    ensures AllPresent(d) && d.button.MenuButton? ==>
              r.button == MenuButton(Some(if d.menu.hidden then "true" else "false"))
    ensures r.button.NoButton? <==> d.button.NoButton?
    ensures Consistent(d) ==> Consistent(r)
  {
    if !AllPresent(d) then d
    else
      var wasHidden := d.menu.hidden;
      var button := if d.button.MenuButton? then MenuButton(Some(AriaValue(wasHidden))) else NoButton;
      NavDom(button, Flip(d.menu), Flip(d.menuIcon), Flip(d.closeIcon))
  }

  /** Toggling twice restores the panel and the icons, and restores
      `aria-expanded` too once it holds "true" or "false". */
  lemma ToggleTwice(d: NavDom)
    ensures var r := Toggled(Toggled(d));
            r.menu == d.menu && r.menuIcon == d.menuIcon && r.closeIcon == d.closeIcon
    ensures Consistent(d) && (d.button.MenuButton? ==> d.button.ariaExpanded in {Some("true"), Some("false")}) ==>
            Toggled(Toggled(d)) == d
  {
  }

  /** The `keydown` listener, registered only when the menu button exists:
      Escape toggles the menu when the panel is shown, which closes it when
      the panel and both icons exist and changes nothing otherwise; any other
      key changes nothing. */
  function AfterKey(d: NavDom, key: string): (r: NavDom)
    ensures !(d.button.MenuButton? && key == "Escape" && IsOpen(d)) ==> r == d
    ensures d.button.MenuButton? && key == "Escape" && IsOpen(d) ==> r == Toggled(d)
    ensures d.button.MenuButton? && key == "Escape" && IsOpen(d) && !AllPresent(d) ==> r == d
    ensures d.button.MenuButton? && key == "Escape" && IsOpen(d) && AllPresent(d) ==>
              !IsOpen(r) && r.button == MenuButton(Some("false")) &&
              r.menuIcon == Flip(d.menuIcon) && r.closeIcon == Flip(d.closeIcon)
    ensures Consistent(d) && AllPresent(d) && d.button.MenuButton? && key == "Escape" && IsOpen(d) ==>
              r.menuIcon == Present(false) && r.closeIcon == Present(true)
    ensures Consistent(d) ==> Consistent(r)
  {
    if d.button.MenuButton? && key == "Escape" && IsOpen(d) then Toggled(d) else d
  }

  function Shown(e: Element): Element {
    if e.Present? then Present(false) else Absent
  }

  function Hidden(e: Element): Element {
    if e.Present? then Present(true) else Absent
  }

  /** The `click` listener of every link inside the panel: when the panel is
      shown, it hides the panel, shows the hamburger, hides the close icon
      and sets `aria-expanded` to "false"; when the panel is hidden, it
      changes nothing. */
  function AfterMenuLinkClick(d: NavDom): (r: NavDom)
    ensures !IsOpen(r)
    ensures !IsOpen(d) ==> r == d
    ensures IsOpen(d) ==>
              (r.menuIcon.Present? ==> !r.menuIcon.hidden) &&
              (r.closeIcon.Present? ==> r.closeIcon.hidden) &&
              (r.button.MenuButton? ==> r.button.ariaExpanded == Some("false"))
    ensures r.menu.Present? == d.menu.Present? && r.menuIcon.Present? == d.menuIcon.Present? &&
            r.closeIcon.Present? == d.closeIcon.Present? && r.button.MenuButton? == d.button.MenuButton?
    ensures Consistent(d) ==> Consistent(r)
  {
    if !IsOpen(d) then d
    else
      var button := if d.button.MenuButton? then MenuButton(Some("false")) else NoButton;
      NavDom(button, Present(true), Shown(d.menuIcon), Hidden(d.closeIcon))
  }

  /** The page elements the navigation script updates in place. */
  class MobileMenu {
    var button: Button
    var menu: Element
    var menuIcon: Element
    var closeIcon: Element

    function State(): NavDom
      reads this
    {
      NavDom(button, menu, menuIcon, closeIcon)
    }

    constructor (initial: NavDom)
      ensures State() == initial
    {
      button, menu, menuIcon, closeIcon := initial.button, initial.menu, initial.menuIcon, initial.closeIcon;
    }

    /** `toggleMobileMenu`, the menu button's `click` listener. */
    method Toggle()
      modifies this
      ensures State() == Toggled(old(State()))
    {
      if menu.Absent? || menuIcon.Absent? || closeIcon.Absent? {
        return;
      }
      var isHidden := menu.hidden;
      menu := Flip(menu);
      menuIcon := Flip(menuIcon);
      closeIcon := Flip(closeIcon);
      if button.MenuButton? {
        button := MenuButton(Some(if isHidden then "true" else "false"));
      }
    }

    /** The document's `keydown` listener. */
    method OnKeyDown(key: string)
      modifies this
      ensures State() == AfterKey(old(State()), key)
    {
      if button.MenuButton? && key == "Escape" && menu.Present? && !menu.hidden {
        Toggle();
      }
    }

    /** The `click` listener of a link inside the panel. */
    method OnMenuLinkClick()
      modifies this
      ensures State() == AfterMenuLinkClick(old(State()))
    {
      if menu.Present? && !menu.hidden {
        menu := Present(true);
        if menuIcon.Present? {
          menuIcon := Present(false);
        }
        if closeIcon.Present? {
          closeIcon := Present(true);
        }
        if button.MenuButton? {
          button := MenuButton(Some("false"));
        }
      }
    }
  }
}
