/**
 * The context menu of the first generation of the editor (context-menu.js):
 * one menu node that holds the coordinate picker and one node per button,
 * shown and hidden as a whole.
 */
module LegacyContextMenu {
  import opened Common

  class ContextMenu {
    /** Whether the menu node is shown (jQuery `show`/`hide`). */
    var visible: bool
    var hasCoordinates: bool
    /** Whether `this.$coordinates` has been created. */
    var coordinatesCreated: bool
    var buttons: seq<MenuButton>
    /** The children of the menu node, in document order. */
    var children: seq<MenuNode>
    /** The menu node's CSS `left`/`top`; None while never set. */
    var left: Option<real>
    var top: Option<real>
    /** The values shown in the x and y inputs. */
    var shownX: int
    var shownY: int

    /**
     * Coordinates are enabled only once the picker inputs exist, and the
     * children are the button nodes of the list, possibly after the picker.
     */
    ghost predicate Valid()
      reads this
    {
      && (hasCoordinates ==> coordinatesCreated)
      && (|| children == ButtonNodes(buttons)
          || (coordinatesCreated && children == [CoordinatePicker] + ButtonNodes(buttons)))
    }

    /** `new ContextMenu(dragNBar, hasCoordinates)`; coordinates default to on. */
    constructor (hasCoordinatesArg: Option<bool>)
      ensures Valid()
      ensures visible && buttons == DefaultButtons()
      ensures hasCoordinates == (hasCoordinatesArg.None? || hasCoordinatesArg.value)
      ensures coordinatesCreated == hasCoordinates
      ensures children == (if hasCoordinates then [CoordinatePicker] else []) + ButtonNodes(DefaultButtons())
      ensures left.None? && top.None? && shownX == 0 && shownY == 0
    {
      visible := true;
      hasCoordinates := match hasCoordinatesArg case None => true case Some(b) => b;
      coordinatesCreated := false;
      buttons := DefaultButtons();
      children := [];
      left, top := None, None;
      shownX, shownY := 0, 0;
      new;
      UpdateContextMenu();
    }

    /** Creates and appends the coordinate picker, unless disabled or already created. */
    method AddCoordinates()
      modifies this`coordinatesCreated, this`children, this`shownX, this`shownY
      ensures old(!hasCoordinates || coordinatesCreated) ==> unchanged(this)
      ensures old(hasCoordinates && !coordinatesCreated) ==>
        && coordinatesCreated
        && children == old(children) + [CoordinatePicker]
        && shownX == 0 && shownY == 0
    {
      if !hasCoordinates || coordinatesCreated {
        return;
      }
      coordinatesCreated := true;
      children := children + [CoordinatePicker];
      // Both inputs are created with value "0".
      shownX, shownY := 0, 0;
    }

    /** Moves the menu and, when coordinates are on, shows the rounded x and y. */
    method UpdateCoordinates(l: real, t: real, x: real, y: real)
      requires Valid()
      modifies this`left, this`top, this`shownX, this`shownY
      ensures Valid()
      ensures left == Some(l) && top == Some(t)
      ensures hasCoordinates ==> shownX == JsRound(x) && shownY == JsRound(y)
      ensures !hasCoordinates ==> shownX == old(shownX) && shownY == old(shownY)
      ensures visible == old(visible) && hasCoordinates == old(hasCoordinates)
      ensures coordinatesCreated == old(coordinatesCreated)
      ensures buttons == old(buttons) && children == old(children)
    {
      left, top := Some(l), Some(t);
      if hasCoordinates {
        shownX, shownY := JsRound(x), JsRound(y);
      }
    }

    /** Appends one button node to the menu node. */
    method AddToMenu(buttonName: string, eventName: string)
      modifies this`children
      ensures children == old(children) + [ButtonNode(buttonName, eventName)]
    {
      children := children + [ButtonNode(buttonName, eventName)];
    }

    /**
     * Re-renders the menu: every child is removed, the picker included; the
     * picker is appended again only if it was never created before, so once
     * created it does not survive a second render; then one node per button.
     */
    method UpdateContextMenu()
      modifies this`coordinatesCreated, this`children, this`shownX, this`shownY
      ensures Valid()
      ensures coordinatesCreated == (old(coordinatesCreated) || hasCoordinates)
      ensures children ==
        (if hasCoordinates && !old(coordinatesCreated) then [CoordinatePicker] else []) + ButtonNodes(buttons)
      ensures if hasCoordinates && !old(coordinatesCreated) then shownX == 0 && shownY == 0
              else shownX == old(shownX) && shownY == old(shownY)
    {
      children := [];
      if hasCoordinates {
        AddCoordinates();
      }
      AddMenuButtons();
    }

    /** The `forEach` of a render: one node per button, in list order. */
    method AddMenuButtons()
      modifies this`children
      ensures children == old(children) + ButtonNodes(buttons)
    {
      ghost var head := children;
      for i := 0 to |buttons|
        invariant children == head + ButtonNodes(buttons[..i])
      {
        assert buttons[..i + 1][..i] == buttons[..i];
        AddToMenu(buttons[i].buttonName, buttons[i].eventName);
      }
      assert buttons[..|buttons|] == buttons;
    }

    /** Appends one button to the list and re-renders. */
    method AddButton(buttonName: string, eventName: string)
      modifies this`buttons, this`coordinatesCreated, this`children, this`shownX, this`shownY
      ensures Valid()
      ensures buttons == old(buttons) + [MenuButton(buttonName, eventName)]
      ensures coordinatesCreated == (old(coordinatesCreated) || hasCoordinates)
      ensures children ==
        (if hasCoordinates && !old(coordinatesCreated) then [CoordinatePicker] else []) + ButtonNodes(buttons)
      ensures if hasCoordinates && !old(coordinatesCreated) then shownX == 0 && shownY == 0
              else shownX == old(shownX) && shownY == old(shownY)
      ensures hasCoordinates == old(hasCoordinates) && visible == old(visible)
    {
      buttons := buttons + [MenuButton(buttonName, eventName)];
      UpdateContextMenu();
    }

    /**
     * Removes the entry `indexOf` finds and re-renders; a button name is
     * never found in a list of button objects, so it removes nothing.
     */
    method RemoveButton(arg: ButtonArg)
      modifies this`buttons, this`coordinatesCreated, this`children, this`shownX, this`shownY
      ensures Valid()
      ensures arg.NameArg? ==> buttons == old(buttons)
      ensures ButtonIndex(old(buttons), arg) == -1 ==> buttons == old(buttons)
      ensures ButtonIndex(old(buttons), arg) >= 0 ==> buttons == RemoveAt(old(buttons), ButtonIndex(old(buttons), arg))
      ensures coordinatesCreated == (old(coordinatesCreated) || hasCoordinates)
      ensures children ==
        (if hasCoordinates && !old(coordinatesCreated) then [CoordinatePicker] else []) + ButtonNodes(buttons)
      ensures if hasCoordinates && !old(coordinatesCreated) then shownX == 0 && shownY == 0
              else shownX == old(shownX) && shownY == old(shownY)
      ensures hasCoordinates == old(hasCoordinates) && visible == old(visible)
    {
      var buttonIndex := ButtonIndex(buttons, arg);
      if buttonIndex >= 0 {
        buttons := RemoveAt(buttons, buttonIndex);
      }
      UpdateContextMenu();
    }

    /** Without an argument flips `hasCoordinates`, with one sets it; then re-renders. */
    method ToggleCoordinates(enable: Option<bool>)
      modifies this`hasCoordinates, this`coordinatesCreated, this`children, this`shownX, this`shownY
      ensures Valid()
      ensures hasCoordinates == (if enable.None? then !old(hasCoordinates) else enable.value)
      ensures coordinatesCreated == (old(coordinatesCreated) || hasCoordinates)
      ensures children ==
        (if hasCoordinates && !old(coordinatesCreated) then [CoordinatePicker] else []) + ButtonNodes(buttons)
      ensures if hasCoordinates && !old(coordinatesCreated) then shownX == 0 && shownY == 0
              else shownX == old(shownX) && shownY == old(shownY)
      ensures buttons == old(buttons) && visible == old(visible)
    {
      if enable.None? {
        hasCoordinates := !hasCoordinates;
      } else {
        hasCoordinates := enable.value;
      }
      UpdateContextMenu();
    }

    method Hide()
      modifies this`visible
      ensures !visible
    {
      visible := false;
    }

    method Show()
      modifies this`visible
      ensures visible
    {
      visible := true;
    }
  }

  /**
   * The page coordinates the coordinate picker hands to the release
   * callback for container coordinates `(x, y)`.
   */
  function PageCoordinates(x: int, y: int, adjust: Point, containerOffset: Point, scroll: Point, paddingLeft: int): (p: Point)
    ensures ContainerCoordinates(p, adjust, containerOffset, scroll, paddingLeft) == Point(x, y)
  {
    Point(x + adjust.x + containerOffset.x + scroll.x + paddingLeft,
          y + adjust.y + containerOffset.y + scroll.y)
  }

  /**
   * The inverse of `PageCoordinates`: the grab offset, the container's page
   * offset, the scroll offsets and the left padding taken back off a page
   * position: the container position the picker's page coordinates stand
   * for. The release callback as written never reads them; the corrected
   * entry handler places the element there.
   */
  function ContainerCoordinates(p: Point, adjust: Point, containerOffset: Point, scroll: Point, paddingLeft: int): Point
  {
    Point(p.x - adjust.x - containerOffset.x - scroll.x - paddingLeft,
          p.y - adjust.y - containerOffset.y - scroll.y)
  }
}
