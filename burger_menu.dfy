/** The navigation menu of `initBurgerMenu` (script.js): an open/closed state whose visible
    traces (the panel's `show` class, the toggle's `aria-expanded`, the body's `u-no-scroll`)
    follow it, and a focus trap while it is open. */
module BurgerMenu {
  import opened Wrappers
  import opened Dom

  /** Viewport widths from this one up show the full navigation, and the menu closes. */
  const DesktopMinWidth := 1024

  /** The keys the `keydown` listener distinguishes. */
  datatype Key = Escape | Tab | OtherKey

  /** `trapFocus`: where to move focus on Tab (Shift+Tab when `shift`) from `active`, or `None`
      to let the browser move it. Only the two ends of the list wrap. */
  function TrapTarget(focusable: seq<Element>, active: Element, shift: bool): (target: Option<Element>)
    ensures target.Some? <==>
      |focusable| > 0 && active == (if shift then focusable[0] else focusable[|focusable| - 1])
    ensures target.Some? ==> target.value == (if shift then focusable[|focusable| - 1] else focusable[0])
    ensures target.Some? ==> target.value in focusable
  {
    if |focusable| == 0 then None
    else
      var first, last := focusable[0], focusable[|focusable| - 1];
      if shift && active == first then Some(last)
      else if !shift && active == last then Some(first)
      else None
  }

  predicate Distinct(s: seq<Element>) {
    forall i, j | 0 <= i < j < |s| :: s[i] != s[j]
  }

  /** Where focus is after Tab (Shift+Tab when `shift`) from the `i`-th focusable element of the
      open panel: the trap's target when it intervenes, otherwise the browser's own move to the
      next (previous) element, the list being in document order. */
  function FocusAfterTab(focusable: seq<Element>, i: nat, shift: bool): Element
    requires i < |focusable|
  {
    match TrapTarget(focusable, focusable[i], shift)
    case Some(target) => target
    case None => if shift then focusable[i - 1] else focusable[i + 1]
  }

  /** With the trap, Tab and Shift+Tab cycle through the panel's focusable elements: focus moves
      one place forward (backward), from the last element to the first (the first to the last),
      and never leaves the panel. */
  lemma FocusCycles(focusable: seq<Element>, i: nat, shift: bool)
    requires Distinct(focusable) && i < |focusable|
    ensures var n := |focusable|;
      FocusAfterTab(focusable, i, shift)
      == focusable[if shift then (if i == 0 then n - 1 else i - 1) else (if i == n - 1 then 0 else i + 1)]
  {
  }

  /** The menu's closure state, and the page state it drives. */
  class Menu {
    /** The toggle button. */
    const toggle: Element
    /** `isOpen`. */
    var isOpen: bool
    /** The panel has the `show` class. */
    var panelShown: bool
    /** The toggle's `aria-expanded` is "true". */
    var ariaExpanded: bool
    /** The body has the `u-no-scroll` class. */
    var noScroll: bool
    /** `focusableElements`: the panel's focusable descendants when it was last opened. */
    var focusable: seq<Element>
    /** `document.activeElement`. */
    var activeElement: Element

    /** The page shows what `isOpen` says. */
    ghost predicate Mirrors()
      reads this
    {
      panelShown == isOpen && ariaExpanded == isOpen && noScroll == isOpen
    }

    /** The menu as `initBurgerMenu` leaves it: closed, over the page state the markup gives. */
    constructor (toggle: Element, shown: bool, expanded: bool, noScroll: bool, activeElement: Element)
      ensures this.toggle == toggle && !isOpen && focusable == []
      ensures panelShown == shown && ariaExpanded == expanded && this.noScroll == noScroll
      ensures this.activeElement == activeElement
      ensures Mirrors() <==> !shown && !expanded && !noScroll
    {
      this.toggle := toggle;
      isOpen := false;
      panelShown, ariaExpanded, this.noScroll := shown, expanded, noScroll;
      focusable := [];
      this.activeElement := activeElement;
    }

    /** `openMenu`, given the panel's focusable descendants at this moment. */
    method OpenMenu(descendants: seq<Element>)
      modifies this
      ensures isOpen && Mirrors() && focusable == descendants
      ensures activeElement == if descendants == [] then old(activeElement) else descendants[0]
    {
      isOpen := true;
      panelShown := true;
      ariaExpanded := true;
      noScroll := true;
      focusable := descendants;
      if |focusable| > 0 {
        activeElement := focusable[0];
      }
    }

    /** `closeMenu`. */
    method CloseMenu()
      modifies this
      ensures !isOpen && Mirrors()
      ensures focusable == old(focusable) && activeElement == old(activeElement)
    {
      isOpen := false;
      panelShown := false;
      ariaExpanded := false;
      noScroll := false;
    }

    /** A click on the toggle flips the state. */
    method ToggleClick(descendants: seq<Element>)
      modifies this
      ensures isOpen == !old(isOpen) && Mirrors()
      ensures old(isOpen) ==> focusable == old(focusable) && activeElement == old(activeElement)
      ensures !old(isOpen) ==> focusable == descendants
      ensures !old(isOpen) ==>
        activeElement == if descendants == [] then old(activeElement) else descendants[0]
    {
      if isOpen {
        CloseMenu();
      } else {
        OpenMenu(descendants);
      }
    }

    /** The document's `keydown` listener; `prevented` tells whether it cancelled the key's
        default action. Escape closes an open menu and gives focus back to the toggle; Tab and
        Shift+Tab in an open menu go through the trap. */
    method KeyDown(key: Key, shift: bool) returns (prevented: bool)
      modifies this
      ensures focusable == old(focusable)
      ensures old(Mirrors()) ==> Mirrors()
      ensures key == Escape && old(isOpen) ==> !isOpen && Mirrors() && activeElement == toggle && !prevented
      ensures key == Tab && old(isOpen) ==>
        isOpen && panelShown == old(panelShown) && ariaExpanded == old(ariaExpanded) && noScroll == old(noScroll)
        && var target := TrapTarget(focusable, old(activeElement), shift);
           prevented == target.Some? && activeElement == (if target.Some? then target.value else old(activeElement))
      ensures key == OtherKey || !old(isOpen) ==> unchanged(this) && !prevented
    {
      prevented := false;
      if key == Escape && isOpen {
        CloseMenu();
        activeElement := toggle;
      }
      if key == Tab && isOpen {
        match TrapTarget(focusable, activeElement, shift)
        case Some(target) =>
          prevented := true;
          activeElement := target;
        case None =>
      }
    }

    /** A click anywhere in the document, with where its target lies: outside both the toggle
        and the panel it closes an open menu. */
    method DocumentClick(inToggle: bool, inPanel: bool)
      modifies this
      ensures isOpen == (old(isOpen) && (inToggle || inPanel))
      ensures old(isOpen) && !isOpen ==> Mirrors()
      ensures focusable == old(focusable) && activeElement == old(activeElement)
      ensures isOpen == old(isOpen) ==> unchanged(this)
    {
      if isOpen && !inToggle && !inPanel {
        CloseMenu();
      }
    }

    /** A click on a navigation link closes the menu, open or not, below the desktop width. */
    method NavLinkClick(width: int)
      modifies this
      ensures width < DesktopMinWidth ==> !isOpen && Mirrors()
      ensures focusable == old(focusable) && activeElement == old(activeElement)
      ensures width >= DesktopMinWidth ==> unchanged(this)
    {
      if width < DesktopMinWidth {
        CloseMenu();
      }
    }

    /** The debounced `resize` handler, run when the resize events have settled: at the desktop
        width an open menu closes. */
    method ResizeSettled(width: int)
      modifies this
      ensures isOpen == (old(isOpen) && width < DesktopMinWidth)
      ensures old(isOpen) && !isOpen ==> Mirrors()
      ensures focusable == old(focusable) && activeElement == old(activeElement)
      ensures isOpen == old(isOpen) ==> unchanged(this)
    {
      if width >= DesktopMinWidth && isOpen {
        CloseMenu();
      }
    }
  }
}
