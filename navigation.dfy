/** The navigation bar: the `active` class of the hamburger toggle and of the
    menu it opens, and the `scrolled` class of the bar. The toggle's click
    flips both `active` flags; a click on a navigation link, a click anywhere
    outside the navigation bar and the Escape key clear both. */
module Navigation {

  class NavMenu {
    var toggleActive: bool
    var menuActive: bool
    var scrolled: bool

    /** The menu and its toggle agree on whether the menu is open. */
    predicate InSync()
      reads this
    {
      toggleActive == menuActive
    }

    /** At page load neither element has the `active` class. */
    constructor ()
      ensures !toggleActive && !menuActive && !scrolled && InSync()
    {
      toggleActive, menuActive, scrolled := false, false, false;
    }

    /** Click on the toggle: both classes are toggled, each on its own, so
        they stay equal when they were equal. The same click reaches the
        document listener with a target inside the bar, which does nothing. */
    method ToggleClick()
      modifies this`toggleActive, this`menuActive
      ensures toggleActive == !old(toggleActive) && menuActive == !old(menuActive)
      ensures old(InSync()) ==> InSync()
    {
      toggleActive := !toggleActive;
      menuActive := !menuActive;
      DocumentClick(true);
    }

    /** Remove `active` from both. */
    method Close()
      modifies this`toggleActive, this`menuActive
      ensures !toggleActive && !menuActive && InSync()
    {
      toggleActive := false;
      menuActive := false;
    }

    /** Click on a navigation link. The links sit inside the bar, so the
        document listener that follows does nothing more. */
    method LinkClick()
      modifies this`toggleActive, this`menuActive
      ensures !toggleActive && !menuActive && InSync()
    {
      Close();
      DocumentClick(true);
    }

    /** Any click reaches the document listener; it closes the menu only when
        the target lies outside the navigation bar. */
    method DocumentClick(insideNav: bool)
      modifies this`toggleActive, this`menuActive
      ensures insideNav ==> toggleActive == old(toggleActive) && menuActive == old(menuActive)
      ensures !insideNav ==> !toggleActive && !menuActive
    {
      if !insideNav {
        Close();
      }
    }

    /** Any key pressed on the page; Escape closes the menu, other keys do
        nothing. */
    method DocumentKeyDown(key: string)
      modifies this`toggleActive, this`menuActive
      ensures key == "Escape" ==> !toggleActive && !menuActive
      ensures key != "Escape" ==> toggleActive == old(toggleActive) && menuActive == old(menuActive)
    {
      if key == "Escape" {
        Close();
      }
    }

    /** A scroll event re-evaluates the `scrolled` class from the vertical
        offset, with a fixed threshold of 40 pixels and no hysteresis. */
    method Scroll(scrollY: real)
      modifies this`scrolled
      ensures scrolled <==> scrollY > 40.0
    {
      scrolled := scrollY > 40.0;
    }
  }
}
