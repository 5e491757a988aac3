/**
 * The registry entry of the second generation of the editor
 * (scripts/drag-n-bar-element.js): it pairs a sub-content id with an
 * element that can be re-bound, and owns that element's context menu.
 */
module EditorElement {
  import opened Common
  import opened EditorContextMenu

  /**
   * What an entry is identified by: the host's sub-content id string, the
   * toolbar button object a press registers, or whatever else a caller
   * passes where an id is expected, such as an element.
   */
  datatype Ident = SubContentId(id: string) | ToolbarButton(buttonId: string) | HandleIdent(handle: Handle)

  /**
   * The `options` object: the element a `createElement` factory made (and
   * appended to the container), a given element, and the coordinates flag.
   */
  datatype ElementOptions = ElementOptions(created: Option<Handle>, element: Option<Handle>, hasCoordinates: Option<bool>)

  /** Options that are absent altogether. */
  function NoOptions(): ElementOptions
  {
    ElementOptions(None, None, None)
  }

  class DragNBarElement {
    /** The id given to the constructor, which `getSubcontentId` returns. */
    const subContentId: Ident
    const menu: ContextMenu
    /** `this.$element`. */
    var element: Option<Handle>
    /**
     * Whether `removeElement` has detached the element from the page. The
     * flag belongs to the entry, so `setElement` leaves it as it was.
     */
    var detached: bool

    ghost predicate Valid()
      reads this, menu
    {
      menu.Valid()
    }

    /**
     * The element is the factory's product when there is a factory, and
     * otherwise the given element, which may be absent.
     */
    constructor (id: Ident, options: ElementOptions)
      ensures Valid() && fresh(menu)
      ensures subContentId == id && !detached
      ensures element == if options.created.Some? then options.created else options.element
      ensures !menu.attached && menu.buttons == DefaultButtons()
      ensures menu.hasCoordinates == (options.hasCoordinates.None? || options.hasCoordinates.value)
    {
      subContentId := id;
      menu := new ContextMenu(options.hasCoordinates);
      element := if options.created.Some? then options.created else options.element;
      detached := false;
    }

    /** Appends a node to the menu's box of buttons, outside the button list. */
    method AddButton(buttonText: string, eventName: string)
      requires Valid()
      modifies menu`buttonNodes
      ensures Valid()
      ensures menu.buttonNodes == old(menu.buttonNodes) + [ButtonNode(buttonText, eventName)]
    {
      menu.AddToMenu(buttonText, eventName);
    }

    /** Re-binds the entry; the id, the menu and the rest stay as they were. */
    method SetElement(e: Handle)
      modifies this`element
      ensures element == Some(e)
    {
      element := Some(e);
    }

    method ShowContextMenu()
      modifies menu`attached
      ensures menu.attached
    {
      menu.Attach();
    }

    method HideContextMenu()
      modifies menu`attached
      ensures !menu.attached
    {
      menu.Detach();
    }

    /**
     * Forwards all four values to the menu, then left-aligns the menu by the
     * same `left`.
     */
    method UpdateCoordinates(l: Option<real>, t: Option<real>, x: Option<real>, y: Option<real>,
                             menuWidth: int, containerWidth: int)
      modifies menu`left, menu`top, menu`shownX, menu`shownY, menu`leftAligned
      ensures menu.left == (if l.Some? then l else old(menu.left))
      ensures menu.top == (if t.Some? then t else old(menu.top))
      ensures menu.hasCoordinates ==>
        && menu.shownX == (if x.Some? then Some(JsRound(x.value)) else None)
        && menu.shownY == (if y.Some? then Some(JsRound(y.value)) else None)
      ensures !menu.hasCoordinates ==> menu.shownX == old(menu.shownX) && menu.shownY == old(menu.shownY)
      ensures menu.leftAligned <==> l.Some? && l.value + menuWidth as real >= containerWidth as real
    {
      menu.UpdateCoordinates(l, t, x, y);
      ResizeContextMenu(l, menuWidth, containerWidth);
    }

    /**
     * Left-aligns the menu exactly when it would reach past the container's
     * right edge; an absent `left` makes the sum NaN, which compares false.
     */
    method ResizeContextMenu(l: Option<real>, menuWidth: int, containerWidth: int)
      modifies menu`leftAligned
      ensures menu.leftAligned <==> l.Some? && l.value + menuWidth as real >= containerWidth as real
    {
      var isTooWide := l.Some? && l.value + menuWidth as real >= containerWidth as real;
      menu.SetLeftAligned(isTooWide);
    }

    /** Blurs the element if there is one (returned) and always detaches the menu. */
    method Blur() returns (blurred: Option<Handle>)
      modifies menu`attached
      ensures !menu.attached
      ensures blurred == element
    {
      blurred := element;
      HideContextMenu();
    }

    /**
     * Detaches the element and the menu, keeping the reference to the
     * element; without an element it fails before touching the menu.
     */
    method RemoveElement() returns (ok: bool)
      modifies this`detached, menu`attached
      ensures ok == element.Some?
      ensures ok ==> detached && !menu.attached
      ensures !ok ==> detached == old(detached) && menu.attached == old(menu.attached)
    {
      if element.None? {
        return false;
      }
      detached := true;
      HideContextMenu();
      return true;
    }
  }
}
