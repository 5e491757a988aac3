/**
 * The first generation of the editor (drag-n-bar.js): one shared context
 * menu, the drag-and-drop callbacks that give a dragged element its bounds,
 * snap it to the grid and commit its position as percentages, and the body
 * key and click handlers.
 *
 * Drag-and-drop itself lives in a collaborator that is not part of this
 * model; what it measures (pointer coordinates, CSS values, sizes) comes in
 * as parameters, and the fields `snap`, `min`, `max`, `adjust` and
 * `dragged` stand for the properties of it that these callbacks read and
 * write. A JavaScript exception is an `ok` result of false, with the state
 * as the statements before the throw left it.
 */
module LegacyDragNBar {
  import opened Common
  import opened LegacyContextMenu

  class DragNBar {
    /** The one context menu every element shares. */
    const contextMenu: ContextMenu
    /** Whether the host has installed `this.stopMovingCallback`. */
    const hasStopMovingCallback: bool

    /** `this.$element`: the element last focused. */
    var element: Option<Handle>
    /** Set by a press on an element or the menu, consumed by the next body click. */
    var pressed: bool
    /** Set while an element created from a toolbar button is being dragged in. */
    var newElement: bool
    /** Whether the container's overflow is set to visible. */
    var overflowVisible: bool

    /** Drag-and-drop state these callbacks read and write. */
    var snap: Option<int>
    var min: Option<Point>
    var max: Option<Point>
    var adjust: Point
    /** `dnd.$element`: the element drag-and-drop last pressed. */
    var dragged: Option<Handle>

    /** The percentage `left`/`top` written on each element placed by `StopMoving`. */
    var placements: map<Handle, PercentPos>
    /** The `tabindex` attributes of the elements. */
    var tabIndex: map<Handle, int>
    /** The elements that carry the mousedown and focus handlers of `Add`. */
    var listening: set<Handle>

    /**
     * The snap step is the editor's grid or absent; the bounds exist
     * together, only while drag-and-drop holds a pressed element, and an
     * element is pressed only after it has been focused.
     */
    ghost predicate Valid()
      reads this, contextMenu
    {
      && contextMenu.Valid()
      && (snap.Some? ==> snap.value == DefaultSnap)
      && (min.Some? <==> max.Some?)
      && (min.Some? ==> dragged.Some?)
      && (dragged.Some? ==> element.Some?)
    }

    constructor (stopMovingCallback: bool, initialTabIndex: map<Handle, int>)
      ensures Valid() && fresh(contextMenu)
      ensures hasStopMovingCallback == stopMovingCallback
      ensures snap == Some(DefaultSnap) && !newElement && !pressed && !overflowVisible
      ensures element.None? && dragged.None? && min.None? && max.None?
      ensures placements == map[] && tabIndex == initialTabIndex && listening == {}
      ensures contextMenu.visible && contextMenu.hasCoordinates && contextMenu.buttons == DefaultButtons()
    {
      contextMenu := new ContextMenu(None);
      hasStopMovingCallback := stopMovingCallback;
      element, pressed, newElement, overflowVisible := None, false, false, false;
      snap, min, max, adjust, dragged := Some(DefaultSnap), None, None, Point(0, 0), None;
      placements, tabIndex, listening := map[], initialTabIndex, {};
    }

    /** The body keydown handler: Ctrl turns snapping off while it is held. */
    method KeyDown(keyCode: int)
      requires Valid()
      modifies this`snap
      ensures Valid()
      ensures snap == if keyCode == CtrlKey then None else old(snap)
    {
      if keyCode == CtrlKey && snap.Some? {
        snap := None;
      }
    }

    /** The body keyup handler: releasing Ctrl restores the grid. */
    method KeyUp(keyCode: int)
      requires Valid()
      modifies this`snap
      ensures Valid()
      ensures snap == if keyCode == CtrlKey then Some(DefaultSnap) else old(snap)
    {
      if keyCode == CtrlKey {
        snap := Some(DefaultSnap);
      }
    }

    /**
     * The menu shown at an element with geometry `g`: visible, moved to the
     * element's page offset and, while coordinates are on, showing its
     * rounded position.
     */
    ghost predicate ShownAt(g: Geometry)
      reads contextMenu`visible, contextMenu`left, contextMenu`top, contextMenu`hasCoordinates
      reads contextMenu`shownX, contextMenu`shownY
    {
      && contextMenu.visible
      && contextMenu.left == Some(g.offsetLeft) && contextMenu.top == Some(g.offsetTop)
      && (contextMenu.hasCoordinates ==>
            contextMenu.shownX == JsRound(g.positionLeft) && contextMenu.shownY == JsRound(g.positionTop))
    }

    /** The element the menu belongs to; shows the menu at that element. */
    method Focus(h: Handle, g: Geometry)
      requires Valid()
      modifies this`element, contextMenu`visible, contextMenu`left, contextMenu`top
      modifies contextMenu`shownX, contextMenu`shownY
      ensures Valid()
      ensures element == Some(h) && ShownAt(g)
      ensures contextMenu.hasCoordinates == old(contextMenu.hasCoordinates)
      ensures contextMenu.buttons == old(contextMenu.buttons) && contextMenu.children == old(contextMenu.children)
    {
      element := Some(h);
      contextMenu.Show();
      UpdateCoordinates(g.offsetLeft, g.offsetTop, g.positionLeft, g.positionTop);
    }

    /** Hides the menu; visibility is the only state it has. */
    method Blur()
      requires Valid()
      modifies contextMenu`visible
      ensures Valid()
      ensures !contextMenu.visible
    {
      contextMenu.Hide();
    }

    method UpdateCoordinates(l: real, t: real, x: real, y: real)
      requires Valid()
      modifies contextMenu`left, contextMenu`top, contextMenu`shownX, contextMenu`shownY
      ensures Valid()
      ensures contextMenu.left == Some(l) && contextMenu.top == Some(t)
      ensures contextMenu.hasCoordinates ==> contextMenu.shownX == JsRound(x) && contextMenu.shownY == JsRound(y)
      ensures contextMenu.visible == old(contextMenu.visible)
      ensures contextMenu.hasCoordinates == old(contextMenu.hasCoordinates)
      ensures contextMenu.buttons == old(contextMenu.buttons) && contextMenu.children == old(contextMenu.children)
    {
      contextMenu.UpdateCoordinates(l, t, x, y);
    }

    /**
     * The body click handler: a click that follows a press only consumes
     * the press; any other click hides the menu.
     */
    method Click()
      requires Valid()
      modifies this`pressed, contextMenu`visible
      ensures Valid()
      ensures !pressed
      ensures old(pressed) ==> contextMenu.visible == old(contextMenu.visible)
      ensures !old(pressed) ==> !contextMenu.visible
    {
      if pressed {
        pressed := false;
      } else {
        Blur();
      }
    }

    /** Makes an element focusable and listens for presses and focus on it. */
    method Add(h: Handle)
      requires Valid()
      modifies this`tabIndex, this`listening
      ensures Valid()
      ensures tabIndex == if h in old(tabIndex) then old(tabIndex) else old(tabIndex)[h := 1]
      ensures listening == old(listening) + {h}
    {
      if h !in tabIndex {
        tabIndex := tabIndex[h := 1];
      }
      listening := listening + {h};
    }

    /** What drag-and-drop's `press` records: the element and where it was grabbed. */
    method DndPress(h: Handle, grab: Point)
      requires Valid() && element == Some(h)
      modifies this`dragged, this`adjust
      ensures Valid()
      ensures dragged == Some(h) && adjust == grab
    {
      dragged, adjust := Some(h), grab;
    }

    /**
     * A press on a toolbar button: `created` is the element the button's
     * factory made; it is focused and pressed as a new element.
     */
    method AddButtonPress(which: int, created: Handle, grab: Point, g: Geometry)
      requires Valid()
      modifies this`newElement, this`pressed, this`overflowVisible, this`element, this`dragged, this`adjust
      modifies contextMenu`visible, contextMenu`left, contextMenu`top, contextMenu`shownX, contextMenu`shownY
      ensures Valid()
      ensures which != PrimaryButton ==> unchanged(this) && unchanged(contextMenu)
      ensures which == PrimaryButton ==>
        && newElement && pressed && overflowVisible
        && element == Some(created) && dragged == Some(created) && adjust == grab
        && ShownAt(g)
      ensures snap == old(snap) && min == old(min) && max == old(max) && placements == old(placements)
      ensures tabIndex == old(tabIndex) && listening == old(listening)
      ensures contextMenu.hasCoordinates == old(contextMenu.hasCoordinates)
      ensures contextMenu.buttons == old(contextMenu.buttons) && contextMenu.children == old(contextMenu.children)
    {
      if which != PrimaryButton {
        return;
      }
      newElement, pressed := true, true;
      overflowVisible := true;
      Focus(created, g);
      DndPress(created, grab);
    }

    /**
     * The mousedown handler `Add` installs: a primary press focuses the
     * element and, unless another handler cancelled it, starts dragging it.
     */
    method ElementMouseDown(h: Handle, which: int, proceed: bool, grab: Point, g: Geometry)
      requires Valid() && h in listening
      modifies this`pressed, this`element, this`dragged, this`adjust
      modifies contextMenu`visible, contextMenu`left, contextMenu`top, contextMenu`shownX, contextMenu`shownY
      ensures Valid()
      ensures which != PrimaryButton ==> unchanged(this) && unchanged(contextMenu)
      ensures which == PrimaryButton ==> pressed && element == Some(h) && ShownAt(g)
      ensures which == PrimaryButton && proceed ==> dragged == Some(h) && adjust == grab
      ensures !(which == PrimaryButton && proceed) ==> dragged == old(dragged) && adjust == old(adjust)
      ensures newElement == old(newElement) && snap == old(snap) && min == old(min) && max == old(max)
      ensures placements == old(placements) && tabIndex == old(tabIndex) && listening == old(listening)
      ensures contextMenu.hasCoordinates == old(contextMenu.hasCoordinates)
      ensures contextMenu.buttons == old(contextMenu.buttons) && contextMenu.children == old(contextMenu.children)
    {
      if which != PrimaryButton {
        return;
      }
      pressed := true;
      Focus(h, g);
      if proceed {
        DndPress(h, grab);
      }
    }

    /**
     * Drag-and-drop's start callback: the element may move within the
     * container; a new element also gets the insertion bias and may start
     * above the canvas, over the toolbar.
     */
    method StartMoving(containerWidth: int, containerHeight: int, outerWidth: int, outerHeight: int, listHeight: int)
      returns (started: bool)
      requires Valid() && dragged.Some?
      modifies this`min, this`max, this`adjust
      ensures Valid()
      ensures started
      ensures min == Some(Point(0, if newElement then -listHeight else 0))
      ensures max == Some(Point(containerWidth - outerWidth, containerHeight - outerHeight))
      ensures adjust == if newElement then Point(NewElementAdjust, NewElementAdjust) else old(adjust)
    {
      var lo := Point(0, 0);
      max := Some(Point(containerWidth - outerWidth, containerHeight - outerHeight));
      if newElement {
        adjust := Point(NewElementAdjust, NewElementAdjust);
        lo := lo.(y := lo.y - listHeight);
      }
      min := Some(lo);
      started := true;
    }

    /**
     * Drag-and-drop's move callback: the pointer position, snapped to the
     * grid while snapping is on, moves the menu; the inputs show the
     * element's truncated CSS position. A new element that has come down
     * onto the canvas may no longer go back up.
     */
    method Move(x: int, y: int, cssLeft: real, cssTop: real, cssPaddingLeft: real) returns (moved: Point)
      requires Valid() && min.Some?
      modifies this`min, contextMenu`left, contextMenu`top, contextMenu`shownX, contextMenu`shownY
      ensures Valid()
      ensures snap.None? ==> moved == Point(x, y)
      ensures snap.Some? ==> moved == Point(Snap(x, snap.value), Snap(y, snap.value))
      ensures snap.Some? ==> moved.x % snap.value == 0 && moved.y % snap.value == 0
      ensures contextMenu.left == Some(moved.x as real) && contextMenu.top == Some(moved.y as real)
      ensures contextMenu.hasCoordinates ==>
        contextMenu.shownX == JsTrunc(cssLeft) - JsTrunc(cssPaddingLeft) && contextMenu.shownY == JsTrunc(cssTop)
      ensures min == if newElement && JsTrunc(cssTop) >= 0 then Some(old(min).value.(y := 0)) else old(min)
      ensures contextMenu.visible == old(contextMenu.visible)
    {
      var paddingLeft := JsTrunc(cssPaddingLeft);
      var left := JsTrunc(cssLeft);
      var top := JsTrunc(cssTop);
      moved := Point(x, y);
      if snap.Some? {
        moved := Point(Snap(x, snap.value), Snap(y, snap.value));
      }
      UpdateCoordinates(moved.x as real, moved.y as real, (left - paddingLeft) as real, top as real);
      if newElement && top >= 0 {
        min := Some(min.value.(y := 0));
      }
    }

    /**
     * Stores `left`/`top` as percentages of the container on the pressed
     * element and hands exactly those values to the host's callback; fails
     * when drag-and-drop has never pressed an element.
     */
    method StopMoving(l: real, t: real, containerWidth: int, containerHeight: int)
      returns (notified: Option<PercentPos>, ok: bool)
      requires Valid() && containerWidth > 0 && containerHeight > 0
      modifies this`placements
      ensures Valid()
      ensures ok == old(dragged).Some?
      ensures ok ==>
        && placements == old(placements)[dragged.value := PercentPos(ToPercent(l, containerWidth), ToPercent(t, containerHeight))]
        && ToPixels(placements[dragged.value].left, containerWidth) == l
        && ToPixels(placements[dragged.value].top, containerHeight) == t
      ensures notified == if ok && hasStopMovingCallback then Some(placements[dragged.value]) else None
      ensures !ok ==> placements == old(placements)
    {
      notified := None;
      if dragged.None? {
        ok := false;
        return;
      }
      var pos := PercentPos(ToPercent(l, containerWidth), ToPercent(t, containerHeight));
      PercentRoundTrip(l, containerWidth);
      PercentRoundTrip(t, containerHeight);
      placements := placements[dragged.value := pos];
      if hasStopMovingCallback {
        notified := Some(pos);
      }
      ok := true;
    }

    /**
     * Drag-and-drop's stop callback (the event it is given is not read):
     * places the element by `DropPosition`, clears the new-element flag,
     * refocuses the element and drops the bounds. It fails when there is no
     * element, no position or no pressed element, and a release that ends a
     * drag session always has all three.
     */
    method Release(cssLeft: real, cssTop: real, containerWidth: int, containerHeight: int, g: Geometry)
      returns (notified: Option<PercentPos>, ok: bool)
      requires Valid() && containerWidth > 0 && containerHeight > 0
      modifies this`overflowVisible, this`placements, this`newElement, this`element, this`min, this`max
      modifies contextMenu`visible, contextMenu`left, contextMenu`top, contextMenu`shownX, contextMenu`shownY
      ensures Valid()
      ensures overflowVisible == (old(overflowVisible) && !old(newElement))
      ensures ok <==>
        && old(element).Some? && old(dragged).Some?
        && DropPosition(old(newElement), JsTrunc(cssLeft), JsTrunc(cssTop), old(max)).Some?
      ensures old(min).Some? ==> ok
      ensures ok ==>
        var (x, y) := DropPosition(old(newElement), JsTrunc(cssLeft), JsTrunc(cssTop), old(max)).value;
        placements == old(placements)[old(dragged).value := PercentPos(ToPercent(x, containerWidth), ToPercent(y, containerHeight))]
      ensures notified == if ok && hasStopMovingCallback then Some(placements[old(dragged).value]) else None
      ensures ok ==> !newElement && min.None? && max.None? && element == old(element) && ShownAt(g)
      ensures !ok ==>
        && placements == old(placements) && newElement == old(newElement) && element == old(element)
        && min == old(min) && max == old(max) && unchanged(contextMenu)
      ensures contextMenu.hasCoordinates == old(contextMenu.hasCoordinates)
      ensures contextMenu.buttons == old(contextMenu.buttons) && contextMenu.children == old(contextMenu.children)
    {
      notified := None;
      if newElement {
        overflowVisible := false;
      }
      // Reading the element's CSS throws while there is no element.
      if element.None? {
        ok := false;
        return;
      }
      var drop := DropPosition(newElement, JsTrunc(cssLeft), JsTrunc(cssTop), max);
      if drop.None? {
        ok := false;
        return;
      }
      notified, ok := Commit(drop.value.0, drop.value.1, containerWidth, containerHeight, g);
    }

    /**
     * The end of the stop callback: the pressed element is placed at
     * `(l, t)`, is no longer new and is refocused, and the bounds go; fails,
     * before anything changes, when drag-and-drop has never pressed an
     * element.
     */
    method Commit(l: real, t: real, containerWidth: int, containerHeight: int, g: Geometry)
      returns (notified: Option<PercentPos>, ok: bool)
      requires Valid() && element.Some? && containerWidth > 0 && containerHeight > 0
      modifies this`placements, this`newElement, this`element, this`min, this`max
      modifies contextMenu`visible, contextMenu`left, contextMenu`top, contextMenu`shownX, contextMenu`shownY
      ensures Valid()
      ensures ok == old(dragged).Some?
      ensures ok ==>
        && placements == old(placements)[dragged.value := PercentPos(ToPercent(l, containerWidth), ToPercent(t, containerHeight))]
        && ToPixels(placements[dragged.value].left, containerWidth) == l
        && ToPixels(placements[dragged.value].top, containerHeight) == t
      ensures notified == if ok && hasStopMovingCallback then Some(placements[dragged.value]) else None
      ensures ok ==> !newElement && min.None? && max.None? && element == old(element) && ShownAt(g)
      ensures !ok ==>
        && placements == old(placements) && newElement == old(newElement) && element == old(element)
        && min == old(min) && max == old(max) && unchanged(contextMenu)
      ensures contextMenu.hasCoordinates == old(contextMenu.hasCoordinates)
      ensures contextMenu.buttons == old(contextMenu.buttons) && contextMenu.children == old(contextMenu.children)
    {
      notified, ok := StopMoving(l, t, containerWidth, containerHeight);
      if !ok {
        return;
      }
      newElement := false;
      Focus(element.value, g);
      min, max := None, None;
    }

    /** A press on the coordinate picker counts as a press for the next body click. */
    method CoordinatesMouseDown()
      requires Valid() && CoordinatePicker in contextMenu.children
      modifies this`pressed
      ensures Valid()
      ensures pressed
    {
      pressed := true;
    }

    /**
     * The coordinate picker's handler as written: entered container
     * coordinates are turned into page coordinates, and the release
     * callback is run with snapping suspended; `snap` is put back afterwards
     * unless the callback threw. The callback does not read the page
     * coordinates, so the element is placed where its CSS already puts it,
     * whatever was entered. Input that does not parse does nothing.
     */
    method CoordinateEntry(xIn: Option<int>, yIn: Option<int>, containerOffset: Point, scroll: Point,
                           cssPaddingLeft: real, cssLeft: real, cssTop: real,
                           containerWidth: int, containerHeight: int, g: Geometry)
      returns (event: Option<Point>, notified: Option<PercentPos>, ok: bool)
      requires Valid() && CoordinatePicker in contextMenu.children
      requires containerWidth > 0 && containerHeight > 0
      modifies this`snap, this`overflowVisible, this`placements, this`newElement, this`element, this`min, this`max
      modifies contextMenu`visible, contextMenu`left, contextMenu`top, contextMenu`shownX, contextMenu`shownY
      ensures Valid()
      ensures (xIn.None? || yIn.None?) ==> event.None? && ok && unchanged(this) && unchanged(contextMenu)
      ensures xIn.Some? && yIn.Some? ==>
        && event == Some(PageCoordinates(xIn.value, yIn.value, old(adjust), containerOffset, scroll, JsTrunc(cssPaddingLeft)))
        && (ok <==>
              && old(element).Some? && old(dragged).Some?
              && DropPosition(old(newElement), JsTrunc(cssLeft), JsTrunc(cssTop), old(max)).Some?)
        && (old(min).Some? ==> ok)
      ensures xIn.Some? && yIn.Some? && ok ==>
        && (var (x, y) := DropPosition(old(newElement), JsTrunc(cssLeft), JsTrunc(cssTop), old(max)).value;
            placements == old(placements)[old(dragged).value := PercentPos(ToPercent(x, containerWidth), ToPercent(y, containerHeight))])
        && notified == (if hasStopMovingCallback then Some(placements[old(dragged).value]) else None)
        && snap == old(snap) && !newElement && min.None? && max.None? && element == old(element) && ShownAt(g)
      ensures xIn.Some? && yIn.Some? && !ok ==>
        && snap.None? && notified.None? && placements == old(placements)
        && min == old(min) && max == old(max) && unchanged(contextMenu)
    {
      event, notified, ok := None, None, true;
      if xIn.None? || yIn.None? {
        return;
      }
      var saved := snap;
      snap := None;
      event := Some(PageCoordinates(xIn.value, yIn.value, adjust, containerOffset, scroll, JsTrunc(cssPaddingLeft)));
      notified, ok := Release(cssLeft, cssTop, containerWidth, containerHeight, g);
      if !ok {
        return;
      }
      snap := saved;
    }

    /**
     * The coordinate picker's handler with a release that reads the page
     * coordinates it is handed: the element is placed at the entered
     * container coordinates, recovered from the page coordinates, and is
     * refocused, with snapping restored afterwards unless that failed.
     */
    method CommitEntry(xIn: Option<int>, yIn: Option<int>, containerOffset: Point, scroll: Point,
                       cssPaddingLeft: real, containerWidth: int, containerHeight: int, g: Geometry)
      returns (event: Option<Point>, notified: Option<PercentPos>, ok: bool)
      requires Valid() && CoordinatePicker in contextMenu.children
      requires containerWidth > 0 && containerHeight > 0
      modifies this`snap, this`overflowVisible, this`placements, this`newElement, this`element, this`min, this`max
      modifies contextMenu`visible, contextMenu`left, contextMenu`top, contextMenu`shownX, contextMenu`shownY
      ensures Valid()
      ensures (xIn.None? || yIn.None?) ==> event.None? && ok && unchanged(this) && unchanged(contextMenu)
      ensures xIn.Some? && yIn.Some? ==>
        && event == Some(PageCoordinates(xIn.value, yIn.value, old(adjust), containerOffset, scroll, JsTrunc(cssPaddingLeft)))
        && (ok <==> old(element).Some? && old(dragged).Some?)
      ensures xIn.Some? && yIn.Some? && ok ==>
        && placements == old(placements)[old(dragged).value :=
             PercentPos(ToPercent(xIn.value as real, containerWidth), ToPercent(yIn.value as real, containerHeight))]
        && ToPixels(placements[old(dragged).value].left, containerWidth) == xIn.value as real
        && ToPixels(placements[old(dragged).value].top, containerHeight) == yIn.value as real
        && notified == (if hasStopMovingCallback then Some(placements[old(dragged).value]) else None)
        && snap == old(snap) && !newElement && min.None? && max.None? && element == old(element) && ShownAt(g)
      ensures xIn.Some? && yIn.Some? && !ok ==>
        && snap.None? && notified.None? && placements == old(placements)
        && min == old(min) && max == old(max) && unchanged(contextMenu)
    {
      event, notified, ok := None, None, true;
      if xIn.None? || yIn.None? {
        return;
      }
      var saved := snap;
      snap := None;
      var paddingLeft := JsTrunc(cssPaddingLeft);
      event := Some(PageCoordinates(xIn.value, yIn.value, adjust, containerOffset, scroll, paddingLeft));
      var at := ContainerCoordinates(event.value, adjust, containerOffset, scroll, paddingLeft);
      if newElement {
        overflowVisible := false;
      }
      if element.None? {
        ok := false;
        return;
      }
      notified, ok := Commit(at.x as real, at.y as real, containerWidth, containerHeight, g);
      if !ok {
        return;
      }
      snap := saved;
    }
  }

  /**
   * Where the handler as written puts an element whose CSS position is
   * (50, 50) in a 100 by 100 container when (0, 0) is entered: at 50%, not
   * at the 0% that was entered.
   */
  method EntryIgnored(d: DragNBar, g: Geometry)
    requires d.Valid() && CoordinatePicker in d.contextMenu.children
    requires d.dragged.Some? && d.min.Some? && !d.newElement
    modifies d`snap, d`overflowVisible, d`placements, d`newElement, d`element, d`min, d`max
    modifies d.contextMenu`visible, d.contextMenu`left, d.contextMenu`top, d.contextMenu`shownX, d.contextMenu`shownY
    ensures d.dragged.Some? && d.dragged.value in d.placements && d.placements[d.dragged.value] == PercentPos(50.0, 50.0)
    ensures ToPercent(0.0, 100) != 50.0
  {
    var event, notified, ok := d.CoordinateEntry(Some(0), Some(0), Point(0, 0), Point(0, 0), 0.0, 50.0, 50.0, 100, 100, g);
    assert JsTrunc(50.0) == 50;
  }
}
