/**
 * The context menu of the second generation of the editor
 * (scripts/context-menu.js): one menu per element, attached to the page
 * while its element has focus. The menu node holds the coordinate picker
 * and a separate box of buttons, and only the box is rebuilt on re-render.
 */
module EditorContextMenu {
  import opened Common

  class ContextMenu {
    /** Whether the menu node is in the page (`attach`/`detach`). */
    var attached: bool
    /** Whether the menu node carries the `left-aligned` class. */
    var leftAligned: bool
    var hasCoordinates: bool
    /** Whether `this.$coordinates` has been created. */
    var coordinatesCreated: bool
    var buttons: seq<MenuButton>
    /** The children of the menu node: the picker and the box of buttons. */
    var children: seq<MenuNode>
    /** The children of the box of buttons, in document order. */
    var buttonNodes: seq<MenuNode>
    /** The menu node's CSS `left`/`top`; None while never set. */
    var left: Option<real>
    var top: Option<real>
    /** The values shown in the x and y inputs; None shows "NaN". */
    var shownX: Option<int>
    var shownY: Option<int>

    /**
     * Coordinates are enabled only once the picker exists; the picker, once
     * created, stays ahead of the box of buttons; and the box holds the
     * nodes of the button list, possibly followed by nodes added directly.
     */
    ghost predicate Valid()
      reads this
    {
      && (hasCoordinates ==> coordinatesCreated)
      && children == (if coordinatesCreated then [CoordinatePicker] else []) + [ButtonBox]
      && ButtonNodes(buttons) <= buttonNodes
    }

    /** The shape of the menu node between renders: the picker (once created) and, once rendered, the box. */
    ghost predicate Shaped()
      reads this
    {
      || (children == [] && !coordinatesCreated)
      || children == (if coordinatesCreated then [CoordinatePicker] else []) + [ButtonBox]
    }

    /** `new ContextMenu(dnbElement, hasCoordinates)`; coordinates default to on. */
    constructor (hasCoordinatesArg: Option<bool>)
      ensures Valid()
      ensures !attached && !leftAligned && buttons == DefaultButtons()
      ensures hasCoordinates == (hasCoordinatesArg.None? || hasCoordinatesArg.value)
      ensures coordinatesCreated == hasCoordinates
      ensures children == (if hasCoordinates then [CoordinatePicker] else []) + [ButtonBox]
      ensures buttonNodes == ButtonNodes(DefaultButtons())
      ensures left.None? && top.None? && shownX == Some(0) && shownY == Some(0)
    {
      attached, leftAligned := false, false;
      hasCoordinates := match hasCoordinatesArg case None => true case Some(b) => b;
      coordinatesCreated := false;
      buttons := DefaultButtons();
      children, buttonNodes := [], [];
      left, top := None, None;
      shownX, shownY := Some(0), Some(0);
      new;
      UpdateContextMenu();
    }

    /** Creates and appends the coordinate picker, unless disabled or already created. */
    method AddCoordinates()
      modifies this`coordinatesCreated, this`children, this`shownX, this`shownY
      ensures old(!hasCoordinates || coordinatesCreated) ==> unchanged(this)
      ensures old(hasCoordinates && !coordinatesCreated) ==>
        && coordinatesCreated
        && children == old(children) + [CoordinatePicker]
        && shownX == Some(0) && shownY == Some(0)
    {
      if !hasCoordinates || coordinatesCreated {
        return;
      }
      coordinatesCreated := true;
      children := children + [CoordinatePicker];
      // Both inputs are created with value "0".
      shownX, shownY := Some(0), Some(0);
    }

    /**
     * Moves the menu and, when coordinates are on, shows Math.round of x and
     * y. An absent left/top leaves that CSS property as it was; an absent x
     * or y shows NaN.
     */
    method UpdateCoordinates(l: Option<real>, t: Option<real>, x: Option<real>, y: Option<real>)
      modifies this`left, this`top, this`shownX, this`shownY
      ensures left == (if l.Some? then l else old(left)) && top == (if t.Some? then t else old(top))
      ensures hasCoordinates ==>
        && shownX == (if x.Some? then Some(JsRound(x.value)) else None)
        && shownY == (if y.Some? then Some(JsRound(y.value)) else None)
      ensures !hasCoordinates ==> shownX == old(shownX) && shownY == old(shownY)
    {
      if l.Some? {
        left := l;
      }
      if t.Some? {
        top := t;
      }
      if hasCoordinates {
        shownX := if x.Some? then Some(JsRound(x.value)) else None;
        shownY := if y.Some? then Some(JsRound(y.value)) else None;
      }
    }

    /** Appends one button node to the box of buttons. */
    method AddToMenu(buttonName: string, eventName: string)
      requires Valid()
      modifies this`buttonNodes
      ensures Valid()
      ensures buttonNodes == old(buttonNodes) + [ButtonNode(buttonName, eventName)]
    {
      buttonNodes := buttonNodes + [ButtonNode(buttonName, eventName)];
    }

    /**
     * Re-renders the menu: the box of buttons is emptied and refilled with
     * one node per button, in list order, and moved back to the end of the
     * menu; the picker is created if coordinates are on and it does not
     * exist yet, and an existing picker is left in place.
     */
    method UpdateContextMenu()
      requires Shaped()
      modifies this`buttonNodes, this`coordinatesCreated, this`children, this`shownX, this`shownY
      ensures Valid()
      ensures buttonNodes == ButtonNodes(buttons)
      ensures coordinatesCreated == (old(coordinatesCreated) || hasCoordinates)
      ensures old(coordinatesCreated) ==> CoordinatePicker in children
      ensures if hasCoordinates && !old(coordinatesCreated) then shownX == Some(0) && shownY == Some(0)
              else shownX == old(shownX) && shownY == old(shownY)
    {
      buttonNodes := [];
      if hasCoordinates {
        AddCoordinates();
      }
      AddMenuButtons();
      assert buttonNodes == ButtonNodes(buttons) by {
        assert [] + ButtonNodes(buttons) == ButtonNodes(buttons);
      }
      MoveBoxToEnd();
    }

    /** Appending the box of buttons to the menu node moves it behind the picker, if any. */
    method MoveBoxToEnd()
      requires || children == [] || children == [CoordinatePicker] || children == [ButtonBox]
               || children == [CoordinatePicker, ButtonBox] || children == [ButtonBox, CoordinatePicker]
      modifies this`children
      ensures children == (if CoordinatePicker in old(children) then [CoordinatePicker] else []) + [ButtonBox]
    {
      RenderShape(children);
      children := Without(children, ButtonBox) + [ButtonBox];
    }

    /** The `forEach` of a render: one node per button, in list order, appended to the box. */
    method AddMenuButtons()
      modifies this`buttonNodes
      ensures buttonNodes == old(buttonNodes) + ButtonNodes(buttons)
    {
      ghost var start := buttonNodes;
      for i := 0 to |buttons|
        invariant buttonNodes == start + ButtonNodes(buttons[..i])
      {
        assert buttons[..i + 1][..i] == buttons[..i];
        buttonNodes := buttonNodes + [ButtonNode(buttons[i].buttonName, buttons[i].eventName)];
      }
      assert buttons[..|buttons|] == buttons;
    }

    /** Appends one button to the list and re-renders. */
    method AddButton(buttonName: string, eventName: string)
      requires Valid()
      modifies this`buttons, this`buttonNodes, this`coordinatesCreated, this`children, this`shownX, this`shownY
      ensures Valid()
      ensures buttons == old(buttons) + [MenuButton(buttonName, eventName)]
      ensures buttonNodes == ButtonNodes(buttons)
      ensures children == old(children) && coordinatesCreated == old(coordinatesCreated)
      ensures shownX == old(shownX) && shownY == old(shownY)
      ensures attached == old(attached) && hasCoordinates == old(hasCoordinates)
    {
      buttons := buttons + [MenuButton(buttonName, eventName)];
      UpdateContextMenu();
    }

    /**
     * Removes the entry `indexOf` finds and re-renders; a button name is
     * never found in a list of button objects, so it removes nothing.
     */
    method RemoveButton(arg: ButtonArg)
      requires Valid()
      modifies this`buttons, this`buttonNodes, this`coordinatesCreated, this`children, this`shownX, this`shownY
      ensures Valid()
      ensures arg.NameArg? ==> buttons == old(buttons)
      ensures ButtonIndex(old(buttons), arg) == -1 ==> buttons == old(buttons)
      ensures ButtonIndex(old(buttons), arg) >= 0 ==> buttons == RemoveAt(old(buttons), ButtonIndex(old(buttons), arg))
      ensures buttonNodes == ButtonNodes(buttons)
      ensures children == old(children) && coordinatesCreated == old(coordinatesCreated)
      ensures shownX == old(shownX) && shownY == old(shownY)
      ensures attached == old(attached) && hasCoordinates == old(hasCoordinates)
    {
      var buttonIndex := ButtonIndex(buttons, arg);
      if buttonIndex >= 0 {
        buttons := RemoveAt(buttons, buttonIndex);
      }
      UpdateContextMenu();
    }

    /**
     * Without an argument flips `hasCoordinates`, with one sets it; then
     * re-renders. Turning coordinates off leaves an existing picker shown.
     */
    method ToggleCoordinates(enable: Option<bool>)
      requires Valid()
      modifies this`hasCoordinates, this`buttonNodes, this`coordinatesCreated, this`children, this`shownX, this`shownY
      ensures Valid()
      ensures hasCoordinates == (if enable.None? then !old(hasCoordinates) else enable.value)
      ensures coordinatesCreated == (old(coordinatesCreated) || hasCoordinates)
      ensures children == (if coordinatesCreated then [CoordinatePicker] else []) + [ButtonBox]
      ensures buttonNodes == ButtonNodes(buttons)
      ensures if hasCoordinates && !old(coordinatesCreated) then shownX == Some(0) && shownY == Some(0)
              else shownX == old(shownX) && shownY == old(shownY)
      ensures buttons == old(buttons) && attached == old(attached)
    {
      if enable.None? {
        hasCoordinates := !hasCoordinates;
      } else {
        hasCoordinates := enable.value;
      }
      UpdateContextMenu();
    }

    method Attach()
      modifies this`attached
      ensures attached
    {
      attached := true;
    }

    method Detach()
      modifies this`attached
      ensures !attached
    {
      attached := false;
    }

    /** Toggles the `left-aligned` class. */
    method SetLeftAligned(b: bool)
      modifies this`leftAligned
      ensures leftAligned == b
    {
      leftAligned := b;
    }
  }

  /** Moving the box of buttons to the end puts it after the picker, whichever came first. */
  lemma RenderShape(s: seq<MenuNode>)
    requires || s == [] || s == [CoordinatePicker] || s == [ButtonBox]
             || s == [CoordinatePicker, ButtonBox] || s == [ButtonBox, CoordinatePicker]
    ensures Without(s, ButtonBox) == if CoordinatePicker in s then [CoordinatePicker] else []
  {
    if s == [CoordinatePicker, ButtonBox] {
      assert s[1..] == [ButtonBox];
      assert Without(s[1..][1..], ButtonBox) == [];
    } else if s == [ButtonBox, CoordinatePicker] {
      assert s[1..] == [CoordinatePicker];
      assert Without(s[1..][1..], ButtonBox) == [];
    } else if s == [ButtonBox] || s == [CoordinatePicker] {
      assert s[1..] == [];
    }
  }

  /**
   * The coordinate picker's bound on one entered value: below zero becomes
   * zero, then above `max` becomes `max`.
   */
  method Clamp(v: real, max: real) returns (r: real)
    ensures r <= max
    ensures 0.0 <= max ==> 0.0 <= r
    ensures 0.0 <= v <= max ==> r == v
    ensures v > max ==> r == max
    ensures v < 0.0 && 0.0 <= max ==> r == 0.0
    ensures v < 0.0 && max < 0.0 ==> r == max
  {
    r := v;
    if r < 0.0 {
      r := 0.0;
    }
    if r > max {
      r := max;
    }
  }
}
