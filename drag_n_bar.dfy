/**
 * The second generation of the editor (scripts/drag-n-bar.js): a registry
 * of entries, each pairing a sub-content id with an element and owning a
 * context menu; at most one focused entry; the drag-and-drop callbacks;
 * and the body key and click handlers.
 *
 * As in the first generation, what drag-and-drop and the DOM measure comes
 * in as parameters; `snap`, `min`, `max`, `adjust` and `dragged` stand for
 * the drag-and-drop properties these callbacks read and write; and a
 * JavaScript exception is an `ok` result of false, with the state as the
 * statements before the throw left it. Frames name single fields, so what
 * a method does not name it leaves as it was.
 */
module Editor {
  import opened Common
  import opened EditorContextMenu
  import opened EditorElement

  ghost function MenusOf(es: seq<DragNBarElement>): set<ContextMenu>
  {
    set e | e in es :: e.menu
  }

  /** Two entries that own different menus. */
  predicate DistinctMenus(a: DragNBarElement, b: DragNBarElement)
  {
    a.menu != b.menu
  }

  function IdsOf(es: seq<DragNBarElement>): (r: seq<Ident>)
    ensures |r| == |es| && forall i :: 0 <= i < |es| ==> r[i] == es[i].subContentId
  {
    seq(|es|, i requires 0 <= i < |es| => es[i].subContentId)
  }

  /** The menu of an entry, if there is one. */
  function MenuSet(e: Option<DragNBarElement>): set<ContextMenu>
  {
    if e.Some? then {e.value.menu} else {}
  }

  /** An entry, if there is one, as a frame. */
  function EntrySet(e: Option<DragNBarElement>): set<DragNBarElement>
  {
    if e.Some? then {e.value} else {}
  }

  /**
   * A menu shown at an element with geometry `g`: attached, moved to the
   * element's page offset, showing its rounded position, and left-aligned
   * exactly when it would reach past the container.
   */
  ghost predicate Shown(m: ContextMenu, g: Geometry, menuWidth: int, containerWidth: int)
    reads m`attached, m`left, m`top, m`hasCoordinates, m`shownX, m`shownY, m`leftAligned
  {
    && m.attached
    && m.left == Some(g.offsetLeft) && m.top == Some(g.offsetTop)
    && (m.hasCoordinates ==> m.shownX == Some(JsRound(g.positionLeft)) && m.shownY == Some(JsRound(g.positionTop)))
    && (m.leftAligned <==> g.offsetLeft + menuWidth as real >= containerWidth as real)
  }

  class DragNBar {
    /** Whether the host has installed `this.stopMovingCallback`. */
    const hasStopMovingCallback: bool

    /** The registry: entries are appended and never removed. */
    var elements: seq<DragNBarElement>
    var focusedElement: Option<DragNBarElement>
    /** `this.$element`: the element last focused. */
    var element: Option<Handle>
    /** Set by a press on an element or a menu, consumed by the next body click. */
    var pressed: bool
    /** Set while an element created from a toolbar button is being dragged in. */
    var newElement: bool
    /** Whether the container's overflow is set to visible. */
    var overflowVisible: bool

    /** Drag-and-drop state these callbacks read and write. */
    var snap: Option<int>
    var min: Option<Point>
    var max: Option<Point>
    var adjust: Point
    /** `dnd.$element`: the element drag-and-drop last pressed. */
    var dragged: Option<Handle>

    /** The percentage `left`/`top` written on each element placed by `StopMoving`. */
    var placements: map<Handle, PercentPos>
    /** The `tabindex` attributes of the elements. */
    var tabIndex: map<Handle, int>
    /** The elements that carry the mousedown and focus handlers of `Add`. */
    var listening: set<Handle>
    /** The elements whose entry's constructor installed its own press handler. */
    var pressListening: set<Handle>

    /** The element of each entry, in registry order. */
    ghost var handles: seq<Option<Handle>>

    ghost function Entries(): set<DragNBarElement>
      reads this`elements
    {
      set e | e in elements
    }

    ghost function Menus(): set<ContextMenu>
      reads this`elements
    {
      MenusOf(elements)
    }

    /** The id of each entry, in registry order. */
    function Ids(): seq<Ident>
      reads this`elements
    {
      IdsOf(elements)
    }

    /** No entry is focused and no entry's menu is attached. */
    ghost predicate AllBlurred()
      reads this`focusedElement, this`elements, Menus()`attached
    {
      && focusedElement.None?
      && forall k :: 0 <= k < |elements| ==> !elements[k].menu.attached
    }

    /** The focused entry, if any, has lost its element. */
    ghost predicate Stale(f: Option<DragNBarElement>)
      reads (if f.Some? then {f.value} else {})`element
    {
      f.Some? && f.value.element.None?
    }

    /** The entry at a found index, or none. */
    ghost function Entry(i: Option<nat>): Option<DragNBarElement>
      reads this`elements
    {
      if i.Some? && i.value < |elements| then Some(elements[i.value]) else None
    }

    /** The entry `focus` picks for `h`: the first whose element is `h`, or none. */
    ghost function Target(h: Handle): Option<DragNBarElement>
      reads this`elements, this`handles
    {
      Entry(FirstIndex(handles, Some(h)))
    }

    /** The first entry registered under `id`, or none. */
    ghost function ById(id: Ident): Option<DragNBarElement>
      reads this`elements
    {
      Entry(FirstIndex(Ids(), id))
    }

    /** The menu `focus` shows for `h`, if any. */
    ghost function MenuOf(h: Handle): set<ContextMenu>
      reads this`elements, this`handles
    {
      MenuSet(Target(h))
    }

    /** The focused entry's menu, if any. */
    ghost function FocusedMenu(): set<ContextMenu>
      reads this`focusedElement
    {
      MenuSet(focusedElement)
    }

    /** The menu `focus` shows for `$element`, if there is an element. */
    ghost function ElementMenu(): set<ContextMenu>
      reads this`element, this`elements, this`handles
    {
      if element.Some? then MenuOf(element.value) else {}
    }

    /**
     * The menus focusing `created` may show once a factory has registered it
     * under `registersAs`: the one it shows now, and the one of the entry
     * the id re-binds.
     */
    ghost function CreatedMenus(created: Handle, registersAs: Option<Ident>): set<ContextMenu>
      reads this`elements, this`handles
    {
      MenuOf(created) + (if registersAs.Some? then MenuSet(ById(registersAs.value)) else {})
    }

    /** Every attached menu is the menu of `e`. */
    ghost predicate AttachedOnly(e: Option<DragNBarElement>)
      reads this`elements, Menus()`attached
    {
      forall k :: 0 <= k < |elements| && elements[k].menu.attached ==> e == Some(elements[k])
    }

    /**
     * `$element` is `h`, the focused entry is the first entry whose element
     * is `h` (none if there is none), and that entry's menu is shown at `h`.
     */
    ghost predicate FocusedOn(h: Handle, g: Geometry, menuWidth: int, containerWidth: int)
      reads this`element, this`focusedElement, this`elements, this`handles
      reads FocusedMenu()`attached, FocusedMenu()`left, FocusedMenu()`top, FocusedMenu()`hasCoordinates
      reads FocusedMenu()`shownX, FocusedMenu()`shownY, FocusedMenu()`leftAligned
    {
      && element == Some(h)
      && focusedElement == Target(h)
      && (focusedElement.Some? ==> Shown(focusedElement.value.menu, g, menuWidth, containerWidth))
    }

    /**
     * `handles` follows the entries' elements; every entry owns a menu of
     * its own (so entries are distinct); the focused entry is registered;
     * the drag-and-drop invariants of the first generation hold.
     */
    ghost predicate Registry()
      reads this`elements, this`handles, this`focusedElement, this`element, this`snap, this`min, this`max
      reads this`dragged, Entries()`element
    {
      && |handles| == |elements|
      && (forall i :: 0 <= i < |elements| ==> elements[i].element == handles[i])
      && (forall i, j {:trigger DistinctMenus(elements[i], elements[j])} ::
            0 <= i < j < |elements| ==> DistinctMenus(elements[i], elements[j]))
      && (focusedElement.Some? ==> focusedElement.value in elements)
      && (snap.Some? ==> snap.value == DefaultSnap)
      && (min.Some? <==> max.Some?)
      && (min.Some? ==> dragged.Some?)
      && (dragged.Some? ==> element.Some?)
    }

    /** The registry invariants, and single focus: a menu is attached only if it is the focused entry's. */
    ghost predicate Valid()
      reads this`elements, this`handles, this`focusedElement, this`element, this`snap, this`min, this`max
      reads this`dragged, Entries()`element, Menus()`attached
    {
      Registry() && AttachedOnly(focusedElement)
    }

    /** Single focus: no two entries have their menus attached at once. */
    lemma SingleMenu()
      requires Valid()
      ensures forall i, j :: 0 <= i < j < |elements| && elements[i].menu.attached ==> !elements[j].menu.attached
    {
      forall i, j | 0 <= i < j < |elements| && elements[i].menu.attached
        ensures !elements[j].menu.attached
      {
        assert DistinctMenus(elements[i], elements[j]);
      }
    }

    constructor (stopMovingCallback: bool, initialTabIndex: map<Handle, int>)
      ensures Valid()
      ensures hasStopMovingCallback == stopMovingCallback
      ensures elements == [] && focusedElement.None? && element.None?
      ensures snap == Some(DefaultSnap) && !newElement && !pressed && !overflowVisible
      ensures dragged.None? && min.None? && max.None?
      ensures placements == map[] && tabIndex == initialTabIndex && listening == {} && pressListening == {}
    {
      hasStopMovingCallback := stopMovingCallback;
      elements, focusedElement, element := [], None, None;
      pressed, newElement, overflowVisible := false, false, false;
      snap, min, max, adjust, dragged := Some(DefaultSnap), None, None, Point(0, 0), None;
      placements, tabIndex, listening, pressListening := map[], initialTabIndex, {}, {};
      handles := [];
    }

    /** The first entry whose element is `h`, or none. */
    method GetDragNBarElement(h: Handle) returns (r: Option<DragNBarElement>)
      requires Registry()
      ensures r == Target(h)
    {
      var i := 0;
      while i < |elements|
        invariant 0 <= i <= |elements|
        invariant Some(h) !in handles[..i]
      {
        if elements[i].element == Some(h) {
          FirstIndexAt(handles, Some(h), i);
          return Some(elements[i]);
        }
        assert handles[..i + 1] == handles[..i] + [handles[i]];
        i := i + 1;
      }
      assert handles[..i] == handles;
      return None;
    }

    /** The first entry whose id is `id`, or none. */
    method GetElementFromSubContentId(id: Ident) returns (r: Option<DragNBarElement>)
      ensures r == Entry(FirstIndex(Ids(), id))
    {
      var i := 0;
      while i < |elements|
        invariant 0 <= i <= |elements|
        invariant id !in Ids()[..i]
      {
        if elements[i].subContentId == id {
          FirstIndexAt(Ids(), id, i);
          return Some(elements[i]);
        }
        assert Ids()[..i + 1] == Ids()[..i] + [Ids()[i]];
        i := i + 1;
      }
      assert Ids()[..i] == Ids();
      return None;
    }

    /**
     * Registers `h` under `id`: the first entry with that id is re-bound to
     * `h`, otherwise one new entry is appended; either way that entry is
     * returned. `h` becomes focusable and gets the press and focus handlers.
     */
    method Add(h: Handle, id: Ident) returns (entry: DragNBarElement)
      requires Valid()
      modifies this`elements, this`handles, this`tabIndex, this`listening, this`pressListening, Entries()`element
      ensures Valid()
      ensures entry in elements && entry.subContentId == id && entry.element == Some(h)
      ensures FirstIndex(old(Ids()), id).Some? ==>
        var i := FirstIndex(old(Ids()), id).value;
        && elements == old(elements) && entry == elements[i]
        && handles == old(handles)[i := Some(h)]
        && pressListening == old(pressListening)
      ensures FirstIndex(old(Ids()), id).None? ==>
        && elements == old(elements) + [entry] && fresh(entry) && fresh(entry.menu)
        && handles == old(handles) + [Some(h)]
        && !entry.detached && !entry.menu.attached && entry.menu.hasCoordinates
        && entry.menu.buttons == DefaultButtons()
        && pressListening == old(pressListening) + {h}
      ensures tabIndex == if h in old(tabIndex) then old(tabIndex) else old(tabIndex)[h := 1]
      ensures listening == old(listening) + {h}
    {
      var found := GetElementFromSubContentId(id);
      // The tabindex and the handlers touch no state the registry update reads.
      if h !in tabIndex {
        tabIndex := tabIndex[h := 1];
      }
      listening := listening + {h};
      if found.Some? {
        entry := found.value;
        Rebind(FirstIndex(Ids(), id).value, h);
      } else {
        entry := Append(id, h);
      }
    }

    /** `Add` for an id already registered at index `i`: that entry's element becomes `h`. */
    method Rebind(i: nat, h: Handle)
      requires Valid() && i < |elements|
      modifies {elements[i]}`element, this`handles
      ensures Valid()
      ensures elements[i].element == Some(h) && handles == old(handles)[i := Some(h)]
    {
      var e := elements[i];
      e.SetElement(h);
      handles := handles[i := Some(h)];
      assert forall k :: 0 <= k < |elements| && k != i ==> elements[k] != elements[i] by {
        forall k | 0 <= k < |elements| && k != i
          ensures elements[k] != elements[i]
        {
          if k < i { assert DistinctMenus(elements[k], elements[i]); }
          else { assert DistinctMenus(elements[i], elements[k]); }
        }
      }
    }

    /** `Add` for a new id: one new entry for `h`, which installs its own press handler. */
    method Append(id: Ident, h: Handle) returns (entry: DragNBarElement)
      requires Valid()
      modifies this`elements, this`handles, this`pressListening
      ensures Valid()
      ensures elements == old(elements) + [entry] && fresh(entry) && fresh(entry.menu)
      ensures entry.subContentId == id && entry.element == Some(h) && handles == old(handles) + [Some(h)]
      ensures !entry.detached && !entry.menu.attached && entry.menu.hasCoordinates
      ensures entry.menu.buttons == DefaultButtons()
      ensures pressListening == old(pressListening) + {h}
    {
      entry := new DragNBarElement(id, ElementOptions(None, Some(h), None));
      elements := elements + [entry];
      handles := handles + [Some(h)];
      pressListening := pressListening + {h};
    }

    /**
     * Looks the element up where an id is expected: the entry found is the
     * one registered under the element itself, so with string ids there is
     * none and the call fails; the registry is never shortened.
     */
    method RemoveElement(h: Handle) returns (ok: bool)
      requires Valid()
      modifies EntrySet(ById(HandleIdent(h)))`detached, MenuSet(ById(HandleIdent(h)))`attached
      ensures Valid()
      ensures HandleIdent(h) !in Ids() ==> !ok
      ensures ok <==> ById(HandleIdent(h)).Some? && ById(HandleIdent(h)).value.element.Some?
      ensures ok ==> ById(HandleIdent(h)).value.detached && !ById(HandleIdent(h)).value.menu.attached
      ensures !ok ==> unchanged(Entries()) && unchanged(Menus())
    {
      var found := GetElementFromSubContentId(HandleIdent(h));
      if found.None? {
        return false;
      }
      ok := found.value.RemoveElement();
    }

    /**
     * The first half of `focus`: blurs the previously focused entry when it
     * is not the entry `h` is about to focus, which throws when it has no
     * element. Afterwards only that entry's menu may still be attached.
     */
    method BlurFocused(h: Handle) returns (blurred: Option<Handle>, ok: bool)
      requires Valid()
      modifies FocusedMenu()`attached
      ensures ok == !Stale(focusedElement)
      ensures blurred == (if ok && focusedElement.Some? && focusedElement != Target(h)
                          then focusedElement.value.element else None)
      ensures blurred.Some? ==> !focusedElement.value.menu.attached
      ensures ok ==> AttachedOnly(Target(h))
      ensures !ok ==> unchanged(Menus())
    {
      blurred, ok := None, true;
      var target := GetDragNBarElement(h);
      var prior := focusedElement;
      if prior.Some? && prior != target {
        // `.blur()` on the previously focused entry's element throws when it has none.
        if prior.value.element.None? {
          return None, false;
        }
        blurred := prior.value.element;
        prior.value.HideContextMenu();
      }
    }

    /**
     * The first half of `focus` as the code tests it: the previously focused
     * entry is blurred only when its element differs from `h`.
     */
    method BlurByElement(h: Handle) returns (blurred: Option<Handle>, ok: bool)
      requires Registry()
      modifies FocusedMenu()`attached
      ensures ok == !Stale(focusedElement)
      ensures blurred == (if ok && focusedElement.Some? && focusedElement.value.element != Some(h)
                          then focusedElement.value.element else None)
      ensures blurred.Some? ==> !focusedElement.value.menu.attached
      ensures blurred.None? ==> unchanged(Menus())
    {
      blurred, ok := None, true;
      var prior := focusedElement;
      if prior.Some? && prior.value.element != Some(h) {
        if prior.value.element.None? {
          return None, false;
        }
        blurred := prior.value.element;
        prior.value.HideContextMenu();
      }
    }

    /**
     * The second half of `focus`: makes the first entry whose element is
     * `h` the focused one and shows its menu at `h`; fails when no entry
     * has that element. When no other menu was attached, single focus
     * holds afterwards.
     */
    method ShowFocus(h: Handle, g: Geometry, menuWidth: int, containerWidth: int) returns (ok: bool)
      requires Registry()
      modifies this`element, this`focusedElement
      modifies MenuOf(h)`attached, MenuOf(h)`left, MenuOf(h)`top, MenuOf(h)`shownX, MenuOf(h)`shownY, MenuOf(h)`leftAligned
      ensures Registry()
      ensures FocusedOn(h, g, menuWidth, containerWidth)
      ensures ok == focusedElement.Some?
      ensures ok <==> Some(h) in handles
      ensures old(AttachedOnly(Target(h))) ==> Valid()
    {
      ghost var only := AttachedOnly(Target(h));
      element := Some(h);
      focusedElement := GetDragNBarElement(h);
      if focusedElement.None? {
        return false;
      }
      assert only == AttachedOnly(focusedElement);
      ShowOwnMenu(focusedElement.value, g, menuWidth, containerWidth);
      return true;
    }

    /** Showing an entry's menu attaches no menu but that entry's. */
    method ShowOwnMenu(e: DragNBarElement, g: Geometry, menuWidth: int, containerWidth: int)
      requires Registry() && e in elements
      modifies e.menu`attached, e.menu`left, e.menu`top, e.menu`shownX, e.menu`shownY, e.menu`leftAligned
      ensures Registry() && Shown(e.menu, g, menuWidth, containerWidth)
      ensures old(AttachedOnly(Some(e))) ==> AttachedOnly(Some(e))
    {
      OwnMenu(e);
      ShowMenuAt(e, g, menuWidth, containerWidth);
    }

    /** Only the entry that owns a menu has that menu. */
    lemma OwnMenu(e: DragNBarElement)
      requires Registry() && e in elements
      ensures forall k :: 0 <= k < |elements| && elements[k].menu == e.menu ==> elements[k] == e
    {
      var i :| 0 <= i < |elements| && elements[i] == e;
      forall k | 0 <= k < |elements| && k != i
        ensures elements[k].menu != e.menu
      {
        if k < i {
          assert DistinctMenus(elements[k], elements[i]);
        } else {
          assert DistinctMenus(elements[i], elements[k]);
        }
      }
    }

    /**
     * Focuses `h`: the previously focused entry is blurred unless it is the
     * entry `h` is about to focus; then the first entry whose element is
     * `h` becomes the focused one and its menu, the only one attached, is
     * shown at `h`. Fails when no entry has that element, and before
     * anything changes when the previously focused entry has no element to
     * blur.
     */
    method Focus(h: Handle, g: Geometry, menuWidth: int, containerWidth: int)
      returns (blurred: Option<Handle>, ok: bool)
      requires Valid()
      modifies this`element, this`focusedElement, FocusedMenu()`attached
      modifies MenuOf(h)`attached, MenuOf(h)`left, MenuOf(h)`top, MenuOf(h)`shownX, MenuOf(h)`shownY, MenuOf(h)`leftAligned
      ensures Valid()
      ensures Stale(old(focusedElement)) ==>
        && !ok && blurred.None? && element == old(element) && focusedElement == old(focusedElement)
        && unchanged(Menus())
      ensures !Stale(old(focusedElement)) ==>
        && blurred == (if old(focusedElement).Some? && old(focusedElement) != Target(h)
                       then old(focusedElement.value.element) else None)
        && FocusedOn(h, g, menuWidth, containerWidth)
        && (ok <==> Some(h) in handles)
      ensures ok ==> focusedElement.Some?
      ensures ok ==> forall k :: 0 <= k < |elements| ==> (elements[k].menu.attached <==> focusedElement == Some(elements[k]))
      ensures blurred.Some? ==> !old(focusedElement).value.menu.attached
      ensures unchanged(Entries())
    {
      blurred, ok := BlurFocused(h);
      if !ok {
        return;
      }
      if blurred.Some? {
        OtherMenu(h);
      }
      ok := ShowFocus(h, g, menuWidth, containerWidth);
    }

    /**
     * `focus` as written: the blur is skipped whenever the previously
     * focused entry's element is `h`, even when another entry is the one
     * focused for `h`; that entry's menu is then attached beside the
     * previous one.
     */
    method FocusByElement(h: Handle, g: Geometry, menuWidth: int, containerWidth: int)
      returns (blurred: Option<Handle>, ok: bool)
      requires Registry()
      modifies this`element, this`focusedElement, FocusedMenu()`attached
      modifies MenuOf(h)`attached, MenuOf(h)`left, MenuOf(h)`top, MenuOf(h)`shownX, MenuOf(h)`shownY, MenuOf(h)`leftAligned
      ensures Registry()
      ensures Stale(old(focusedElement)) ==>
        !ok && blurred.None? && element == old(element) && focusedElement == old(focusedElement)
      ensures !Stale(old(focusedElement)) ==>
        && blurred == (if old(focusedElement).Some? && old(focusedElement.value.element) != Some(h)
                       then old(focusedElement.value.element) else None)
        && FocusedOn(h, g, menuWidth, containerWidth)
        && (ok <==> Some(h) in handles)
      ensures
        var prior := old(focusedElement);
        prior.Some? && old(prior.value.element) == Some(h) && prior != Target(h) && old(prior.value.menu.attached) ==>
          && ok && prior.value.menu.attached && focusedElement.value.menu.attached
          && prior.value.menu != focusedElement.value.menu
    {
      blurred, ok := BlurByElement(h);
      if !ok {
        return;
      }
      ghost var prior := focusedElement;
      if prior.Some? && prior != Target(h) {
        OtherMenu(h);
      }
      ok := ShowFocus(h, g, menuWidth, containerWidth);
    }

    /** The previously focused entry, when it is not the one `focus` picks for `h`, does not own that entry's menu. */
    lemma OtherMenu(h: Handle)
      requires Registry() && focusedElement.Some? && focusedElement != Target(h)
      ensures focusedElement.value.menu !in MenuOf(h)
    {
      if Target(h).Some? {
        OwnMenu(Target(h).value);
        var j :| 0 <= j < |elements| && elements[j] == focusedElement.value;
      }
    }

    /** Blurs every entry, in order, and leaves no entry focused. */
    method BlurAll() returns (blurred: seq<Handle>)
      requires Valid()
      modifies this`focusedElement, Menus()`attached
      ensures Valid()
      ensures AllBlurred()
      ensures blurred == Present(handles)
      ensures old(AllBlurred()) ==> unchanged(Menus()) && focusedElement == old(focusedElement)
    {
      blurred := BlurEach();
      focusedElement := None;
    }

    /** The `forEach` of `blurAll`: every entry blurs its element, if any, and detaches its menu. */
    method BlurEach() returns (blurred: seq<Handle>)
      requires Valid()
      modifies Menus()`attached
      ensures forall k :: 0 <= k < |elements| ==> !elements[k].menu.attached
      ensures blurred == Present(handles)
      ensures (forall k :: 0 <= k < |elements| ==> !old(elements[k].menu.attached)) ==> unchanged(Menus())
    {
      blurred := [];
      for i := 0 to |elements|
        invariant blurred == Present(handles[..i])
        invariant forall k :: 0 <= k < i ==> !elements[k].menu.attached
      {
        var b := elements[i].Blur();
        assert handles[..i + 1] == handles[..i] + [b];
        blurred := blurred + (if b.Some? then [b.value] else []);
      }
      assert handles[..|elements|] == handles;
    }

    /**
     * The body click handler: a click that follows a press only consumes
     * the press; any other click blurs everything.
     */
    method BodyClick() returns (blurred: seq<Handle>)
      requires Valid()
      modifies this`pressed, this`focusedElement, Menus()`attached
      ensures Valid()
      ensures !pressed
      ensures old(pressed) ==> blurred == [] && focusedElement == old(focusedElement) && unchanged(Menus())
      ensures !old(pressed) ==> blurred == Present(handles) && AllBlurred()
    {
      if pressed {
        pressed := false;
        blurred := [];
      } else {
        blurred := BlurAll();
      }
    }

    /** The body keydown handler: Ctrl turns snapping off while it is held. */
    method KeyDown(keyCode: int)
      requires Valid()
      modifies this`snap
      ensures Valid()
      ensures snap == if keyCode == CtrlKey then None else old(snap)
    {
      if keyCode == CtrlKey && snap.Some? {
        snap := None;
      }
    }

    /** The body keyup handler: releasing Ctrl restores the grid. */
    method KeyUp(keyCode: int)
      requires Valid()
      modifies this`snap
      ensures Valid()
      ensures snap == if keyCode == CtrlKey then Some(DefaultSnap) else old(snap)
    {
      if keyCode == CtrlKey {
        snap := Some(DefaultSnap);
      }
    }

    /** Forwards to the focused entry; fails when there is none. */
    method UpdateCoordinates(l: Option<real>, t: Option<real>, x: Option<real>, y: Option<real>,
                             menuWidth: int, containerWidth: int) returns (ok: bool)
      requires Valid()
      modifies FocusedMenu()`left, FocusedMenu()`top, FocusedMenu()`shownX, FocusedMenu()`shownY, FocusedMenu()`leftAligned
      ensures ok == focusedElement.Some?
      ensures ok ==>
        var m := focusedElement.value.menu;
        && m.left == (if l.Some? then l else old(m.left)) && m.top == (if t.Some? then t else old(m.top))
        && (m.hasCoordinates ==>
              && m.shownX == (if x.Some? then Some(JsRound(x.value)) else None)
              && m.shownY == (if y.Some? then Some(JsRound(y.value)) else None))
        && (m.leftAligned <==> l.Some? && l.value + menuWidth as real >= containerWidth as real)
      ensures !ok ==> unchanged(Menus())
    {
      if focusedElement.None? {
        return false;
      }
      focusedElement.value.UpdateCoordinates(l, t, x, y, menuWidth, containerWidth);
      return true;
    }

    /** What drag-and-drop's `press` records: the element and where it was grabbed. */
    method DndPress(h: Handle, grab: Point)
      requires Valid() && element == Some(h)
      modifies this`dragged, this`adjust
      ensures Valid() && unchanged(Entries())
      ensures dragged == Some(h) && adjust == grab
    {
      dragged, adjust := Some(h), grab;
    }

    /**
     * Drag-and-drop's start callback: the element may move within the
     * container; a new element also gets the insertion bias and may start
     * above the canvas, over the toolbar.
     */
    method StartMoving(containerWidth: int, containerHeight: int, outerWidth: int, outerHeight: int, listHeight: int)
      returns (started: bool)
      requires Valid() && dragged.Some?
      modifies this`min, this`max, this`adjust
      ensures Valid()
      ensures started
      ensures min == Some(Point(0, if newElement then -listHeight else 0))
      ensures max == Some(Point(containerWidth - outerWidth, containerHeight - outerHeight))
      ensures adjust == if newElement then Point(NewElementAdjust, NewElementAdjust) else old(adjust)
    {
      var lo := Point(0, 0);
      max := Some(Point(containerWidth - outerWidth, containerHeight - outerHeight));
      if newElement {
        adjust := Point(NewElementAdjust, NewElementAdjust);
        lo := lo.(y := lo.y - listHeight);
      }
      min := Some(lo);
      started := true;
    }

    /**
     * Drag-and-drop's move callback: the pointer position, snapped to the
     * grid while snapping is on, moves the focused entry's menu, whose
     * inputs show the element's CSS position rounded to whole pixels. A new
     * element that has come down onto the canvas may no longer go back up.
     * Fails, before the latch, when no entry is focused.
     */
    method Move(x: int, y: int, cssLeft: real, cssTop: real, cssPaddingLeft: real, menuWidth: int, containerWidth: int)
      returns (moved: Point, ok: bool)
      requires Valid() && min.Some?
      modifies this`min, FocusedMenu()`left, FocusedMenu()`top, FocusedMenu()`shownX, FocusedMenu()`shownY, FocusedMenu()`leftAligned
      ensures Valid()
      ensures snap.None? ==> moved == Point(x, y)
      ensures snap.Some? ==> moved == Point(Snap(x, snap.value), Snap(y, snap.value))
      ensures snap.Some? ==> moved.x % snap.value == 0 && moved.y % snap.value == 0
      ensures ok == focusedElement.Some?
      ensures ok ==>
        var m := focusedElement.value.menu;
        && m.left == Some(moved.x as real) && m.top == Some(moved.y as real)
        && (m.hasCoordinates ==>
              m.shownX == Some(JsRound(cssLeft) - JsRound(cssPaddingLeft)) && m.shownY == Some(JsRound(cssTop)))
        && (m.leftAligned <==> moved.x as real + menuWidth as real >= containerWidth as real)
      ensures !ok ==> unchanged(Menus())
      ensures min == if ok && newElement && JsRound(cssTop) >= 0 then Some(old(min).value.(y := 0)) else old(min)
    {
      var paddingLeft := JsRound(cssPaddingLeft);
      var left := JsRound(cssLeft);
      var top := JsRound(cssTop);
      moved := Point(x, y);
      if snap.Some? {
        moved := Point(Snap(x, snap.value), Snap(y, snap.value));
      }
      WholeRound(left - paddingLeft);
      WholeRound(top);
      ok := UpdateCoordinates(Some(moved.x as real), Some(moved.y as real),
                              Some((left - paddingLeft) as real), Some(top as real), menuWidth, containerWidth);
      if !ok {
        return;
      }
      if newElement && top >= 0 {
        min := Some(min.value.(y := 0));
      }
    }

    /**
     * Stores `left`/`top` as percentages of the container on the pressed
     * element and hands exactly those values to the host's callback; fails
     * when drag-and-drop has never pressed an element.
     */
    method StopMoving(l: real, t: real, containerWidth: int, containerHeight: int)
      returns (notified: Option<PercentPos>, ok: bool)
      requires Valid() && containerWidth > 0 && containerHeight > 0
      modifies this`placements
      ensures Valid()
      ensures ok == old(dragged).Some?
      ensures ok ==>
        && placements == old(placements)[dragged.value := PercentPos(ToPercent(l, containerWidth), ToPercent(t, containerHeight))]
        && ToPixels(placements[dragged.value].left, containerWidth) == l
        && ToPixels(placements[dragged.value].top, containerHeight) == t
      ensures notified == if ok && hasStopMovingCallback then Some(placements[dragged.value]) else None
      ensures !ok ==> placements == old(placements)
    {
      notified := None;
      if dragged.None? {
        ok := false;
        return;
      }
      var pos := PercentPos(ToPercent(l, containerWidth), ToPercent(t, containerHeight));
      PercentRoundTrip(l, containerWidth);
      PercentRoundTrip(t, containerHeight);
      placements := placements[dragged.value := pos];
      if hasStopMovingCallback {
        notified := Some(pos);
      }
      ok := true;
    }

    /**
     * Whether the stop callback can place the element: there is an element
     * whose CSS can be read, a drop position, and an element drag-and-drop
     * has pressed.
     */
    ghost predicate Placeable(cssLeft: real, cssTop: real)
      reads this`element, this`dragged, this`newElement, this`max
    {
      element.Some? && dragged.Some? && DropPosition(newElement, JsRound(cssLeft), JsRound(cssTop), max).Some?
    }

    /**
     * Drag-and-drop's stop callback (the event it is given is not read):
     * places the element by `DropPosition`, clears the new-element flag,
     * refocuses the element and drops the bounds. A release that ends a
     * drag session fails only when focusing the element fails, and then
     * the element has already been placed and is no longer new.
     */
    method Release(cssLeft: real, cssTop: real, containerWidth: int, containerHeight: int, g: Geometry,
                   menuWidth: int)
      returns (notified: Option<PercentPos>, blurred: Option<Handle>, ok: bool)
      requires Valid() && containerWidth > 0 && containerHeight > 0
      modifies this`overflowVisible, this`placements, this`newElement, this`element, this`focusedElement
      modifies this`min, this`max, FocusedMenu()`attached
      modifies ElementMenu()`attached, ElementMenu()`left, ElementMenu()`top, ElementMenu()`shownX, ElementMenu()`shownY
      modifies ElementMenu()`leftAligned
      ensures Valid()
      ensures overflowVisible == (old(overflowVisible) && !old(newElement))
      ensures old(min).Some? ==> (ok <==> !Stale(old(focusedElement)) && Some(old(element).value) in handles)
      ensures ok ==> old(Placeable(cssLeft, cssTop))
      ensures old(Placeable(cssLeft, cssTop)) ==>
        && (var (x, y) := DropPosition(old(newElement), JsRound(cssLeft), JsRound(cssTop), old(max)).value;
            placements == old(placements)[old(dragged).value := PercentPos(ToPercent(x, containerWidth), ToPercent(y, containerHeight))])
        && notified == (if hasStopMovingCallback then Some(placements[old(dragged).value]) else None)
        && !newElement
      ensures !old(Placeable(cssLeft, cssTop)) ==>
        && !ok && notified.None? && placements == old(placements) && newElement == old(newElement)
        && element == old(element) && focusedElement == old(focusedElement) && unchanged(Menus())
      ensures ok ==> min.None? && max.None? && FocusedOn(old(element).value, g, menuWidth, containerWidth)
      ensures !ok ==> min == old(min) && max == old(max)
    {
      blurred := None;
      notified, ok := Place(cssLeft, cssTop, containerWidth, containerHeight);
      if !ok {
        return;
      }
      blurred, ok := Refocus(g, menuWidth, containerWidth);
    }

    /**
     * The first part of the stop callback: the overflow is hidden again
     * after a new element, and the element is placed by `DropPosition`.
     * Fails when there is no element, no position or no pressed element.
     */
    method Place(cssLeft: real, cssTop: real, containerWidth: int, containerHeight: int)
      returns (notified: Option<PercentPos>, ok: bool)
      requires Valid() && containerWidth > 0 && containerHeight > 0
      modifies this`overflowVisible, this`placements
      ensures Valid()
      ensures overflowVisible == (old(overflowVisible) && !newElement)
      ensures old(min).Some? ==> ok
      ensures ok <==>
        && element.Some? && dragged.Some?
        && DropPosition(newElement, JsRound(cssLeft), JsRound(cssTop), max).Some?
      ensures ok ==>
        var (x, y) := DropPosition(newElement, JsRound(cssLeft), JsRound(cssTop), max).value;
        placements == old(placements)[dragged.value := PercentPos(ToPercent(x, containerWidth), ToPercent(y, containerHeight))]
      ensures notified == if ok && hasStopMovingCallback then Some(placements[dragged.value]) else None
      ensures !ok ==> placements == old(placements)
    {
      notified := None;
      if newElement {
        overflowVisible := false;
      }
      // Reading the element's CSS throws while there is no element.
      if element.None? {
        ok := false;
        return;
      }
      var drop := DropPosition(newElement, JsRound(cssLeft), JsRound(cssTop), max);
      if drop.None? {
        ok := false;
        return;
      }
      notified, ok := StopMoving(drop.value.0, drop.value.1, containerWidth, containerHeight);
    }

    /** The rest of the stop callback: the element is no longer new, is refocused and the bounds go. */
    method Refocus(g: Geometry, menuWidth: int, containerWidth: int) returns (blurred: Option<Handle>, ok: bool)
      requires Valid() && element.Some?
      modifies this`newElement, this`element, this`focusedElement, this`min, this`max, FocusedMenu()`attached
      modifies MenuOf(element.value)`attached, MenuOf(element.value)`left, MenuOf(element.value)`top
      modifies MenuOf(element.value)`shownX, MenuOf(element.value)`shownY, MenuOf(element.value)`leftAligned
      ensures Valid() && !newElement
      ensures ok <==> !Stale(old(focusedElement)) && Some(old(element).value) in handles
      ensures ok ==> min.None? && max.None? && FocusedOn(old(element).value, g, menuWidth, containerWidth)
      ensures !ok ==> min == old(min) && max == old(max)
    {
      newElement := false;
      blurred, ok := Focus(element.value, g, menuWidth, containerWidth);
      if ok {
        DropBounds();
      }
    }

    /** `delete` of drag-and-drop's bounds. */
    method DropBounds()
      requires Valid()
      modifies this`min, this`max
      ensures Valid() && min.None? && max.None?
    {
      min, max := None, None;
    }

    /**
     * A press on a toolbar button. An entry is registered under the button
     * itself, with no element; the button's factory then makes the element
     * (and, when `registersAs` is given, registers it under that id, as a
     * host's factory may). The element is focused and, if focusing it
     * succeeds, pressed.
     */
    method AddButtonPress(which: int, buttonId: string, created: Handle, registersAs: Option<Ident>,
                          grab: Point, g: Geometry, menuWidth: int, containerWidth: int)
      returns (wrapper: Option<DragNBarElement>, blurred: Option<Handle>, ok: bool)
      requires Valid()
      modifies this`newElement, this`pressed, this`elements, this`handles, this`overflowVisible
      modifies this`element, this`focusedElement, this`dragged, this`adjust
      modifies this`tabIndex, this`listening, this`pressListening, Entries()`element
      modifies FocusedMenu()`attached, CreatedMenus(created, registersAs)`attached
      modifies CreatedMenus(created, registersAs)`left, CreatedMenus(created, registersAs)`top
      modifies CreatedMenus(created, registersAs)`shownX, CreatedMenus(created, registersAs)`shownY
      modifies CreatedMenus(created, registersAs)`leftAligned
      ensures Valid()
      ensures which != PrimaryButton ==> wrapper.None? && blurred.None? && ok && unchanged(this)
      ensures which == PrimaryButton ==>
        && wrapper.Some? && fresh(wrapper.value) && wrapper.value.subContentId == ToolbarButton(buttonId)
        && |old(elements)| < |elements| && elements[..|old(elements)| + 1] == old(elements) + [wrapper.value]
        && newElement && pressed && overflowVisible
        && (ok <==> !Stale(focusedElement) && Some(created) in handles)
        && (!Stale(focusedElement) ==> FocusedOn(created, g, menuWidth, containerWidth))
        && (registersAs.None? ==>
              && elements == old(elements) + [wrapper.value] && wrapper.value.element.None?
              && handles == old(handles) + [None])
        && (registersAs.Some? ==> Some(created) in handles && (ok <==> !Stale(focusedElement)))
      ensures which == PrimaryButton && ok ==> dragged == Some(created) && adjust == grab
      ensures !(which == PrimaryButton && ok) ==> dragged == old(dragged) && adjust == old(adjust)
    {
      if which != PrimaryButton {
        return None, None, true;
      }
      var w;
      w, blurred, ok := ToolbarPress(buttonId, created, registersAs, grab, g, menuWidth, containerWidth);
      // The handler sets these flags before the push and the overflow after
      // it. Nothing in the press reads them, and a press that throws leaves
      // them set all the same, so they are set here, together.
      MarkNew();
      wrapper := Some(w);
    }

    /** The new-element, pressed and container overflow flags of a toolbar press. */
    method MarkNew()
      requires Valid()
      modifies this`newElement, this`pressed, this`overflowVisible
      ensures Valid() && newElement && pressed && overflowVisible
    {
      newElement, pressed, overflowVisible := true, true, true;
    }

    /** A toolbar press with the primary button. */
    method ToolbarPress(buttonId: string, created: Handle, registersAs: Option<Ident>,
                        grab: Point, g: Geometry, menuWidth: int, containerWidth: int)
      returns (w: DragNBarElement, blurred: Option<Handle>, ok: bool)
      requires Valid()
      modifies this`elements, this`handles
      modifies this`element, this`focusedElement, this`dragged, this`adjust
      modifies this`tabIndex, this`listening, this`pressListening, Entries()`element
      modifies FocusedMenu()`attached, CreatedMenus(created, registersAs)`attached
      modifies CreatedMenus(created, registersAs)`left, CreatedMenus(created, registersAs)`top
      modifies CreatedMenus(created, registersAs)`shownX, CreatedMenus(created, registersAs)`shownY
      modifies CreatedMenus(created, registersAs)`leftAligned
      ensures Valid()
      ensures fresh(w) && w.subContentId == ToolbarButton(buttonId)
      ensures |old(elements)| < |elements| && elements[..|old(elements)| + 1] == old(elements) + [w]
      ensures ok <==> !Stale(focusedElement) && Some(created) in handles
      ensures !Stale(focusedElement) ==> FocusedOn(created, g, menuWidth, containerWidth)
      ensures registersAs.None? ==>
        elements == old(elements) + [w] && w.element.None? && handles == old(handles) + [None]
      ensures registersAs.Some? ==> Some(created) in handles && (ok <==> !Stale(focusedElement))
      ensures ok ==> dragged == Some(created) && adjust == grab
      ensures !ok ==> dragged == old(dragged) && adjust == old(adjust)
    {
      w := PushWrapper(buttonId);
      blurred, ok := CreateAndPress(created, registersAs, grab, g, menuWidth, containerWidth);
    }

    /**
     * The rest of a toolbar press: the factory makes the element, registering
     * it under `registersAs` when that is given; it becomes `$element` and is
     * focused and pressed.
     */
    method CreateAndPress(created: Handle, registersAs: Option<Ident>,
                          grab: Point, g: Geometry, menuWidth: int, containerWidth: int)
      returns (blurred: Option<Handle>, ok: bool)
      requires Valid()
      modifies this`elements, this`handles, this`element, this`focusedElement, this`dragged, this`adjust
      modifies this`tabIndex, this`listening, this`pressListening, Entries()`element
      modifies FocusedMenu()`attached, CreatedMenus(created, registersAs)`attached
      modifies CreatedMenus(created, registersAs)`left, CreatedMenus(created, registersAs)`top
      modifies CreatedMenus(created, registersAs)`shownX, CreatedMenus(created, registersAs)`shownY
      modifies CreatedMenus(created, registersAs)`leftAligned
      ensures Valid()
      ensures |old(elements)| <= |elements| && elements[..|old(elements)|] == old(elements)
      ensures ok <==> !Stale(focusedElement) && Some(created) in handles
      ensures !Stale(focusedElement) ==> FocusedOn(created, g, menuWidth, containerWidth)
      ensures registersAs.None? ==> elements == old(elements) && handles == old(handles) && unchanged(Entries())
      ensures registersAs.Some? ==> Some(created) in handles && (ok <==> !Stale(focusedElement))
      ensures ok ==> dragged == Some(created) && adjust == grab
      ensures !ok ==> dragged == old(dragged) && adjust == old(adjust)
    {
      Register(created, registersAs);
      blurred, ok := FocusAndPress(created, true, grab, g, menuWidth, containerWidth);
    }

    /**
     * What the factory does to the registry, `Add` under `registersAs` when
     * that is given, and its result becoming `$element`.
     */
    method Register(created: Handle, registersAs: Option<Ident>)
      requires Valid()
      modifies this`elements, this`handles, this`element, this`tabIndex, this`listening, this`pressListening
      modifies Entries()`element
      ensures Valid() && element == Some(created)
      ensures |old(elements)| <= |elements| && elements[..|old(elements)|] == old(elements)
      ensures forall i :: |old(elements)| <= i < |elements| ==> fresh(elements[i].menu)
      ensures registersAs.None? ==>
        && elements == old(elements) && handles == old(handles) && unchanged(Entries())
        && tabIndex == old(tabIndex) && listening == old(listening) && pressListening == old(pressListening)
      ensures registersAs.Some? ==>
        var i := FirstIndex(old(Ids()), registersAs.value);
        && Some(created) in handles
        && (i.Some? ==> elements == old(elements) && handles == old(handles)[i.value := Some(created)])
        && (i.None? ==>
              && |elements| == |old(elements)| + 1 && elements[|old(elements)|].subContentId == registersAs.value
              && handles == old(handles) + [Some(created)])
      ensures Target(created).Some? ==>
        Target(created).value.menu in old(CreatedMenus(created, registersAs)) || fresh(Target(created).value.menu)
    {
      if registersAs.Some? {
        ghost var before := handles;
        var entry := Add(created, registersAs.value);
        var i := FirstIndex(old(Ids()), registersAs.value);
        if i.Some? {
          FirstIndexUpdate(before, i.value, Some(created));
        } else {
          FirstIndexAppend(before, Some(created), Some(created));
        }
      }
      element := Some(created);
    }

    /** An entry without an element is registered under the button. */
    method PushWrapper(buttonId: string) returns (w: DragNBarElement)
      requires Valid()
      modifies this`elements, this`handles
      ensures Valid()
      ensures fresh(w) && fresh(w.menu) && w.subContentId == ToolbarButton(buttonId) && w.element.None?
      ensures elements == old(elements) + [w] && handles == old(handles) + [None]
      ensures forall h :: Target(h) == old(Target(h))
      ensures forall id :: ById(id) == old(ById(id)) || ById(id) == Some(w)
    {
      w := new DragNBarElement(ToolbarButton(buttonId), NoOptions());
      elements := elements + [w];
      handles := handles + [None];
      forall h: Handle
        ensures Target(h) == old(Target(h))
      {
        FirstIndexAppend(old(handles), None, Some(h));
      }
      assert Ids() == old(Ids()) + [w.subContentId];
      forall id: Ident
        ensures ById(id) == old(ById(id)) || ById(id) == Some(w)
      {
        FirstIndexAppend(old(Ids()), w.subContentId, id);
      }
    }

    /**
     * Focuses `h` and then, if focusing did not throw and the press was not
     * cancelled, has drag-and-drop press it.
     */
    method FocusAndPress(h: Handle, proceed: bool, grab: Point, g: Geometry, menuWidth: int, containerWidth: int)
      returns (blurred: Option<Handle>, ok: bool)
      requires Valid()
      modifies this`element, this`focusedElement, this`dragged, this`adjust
      modifies FocusedMenu()`attached
      modifies MenuOf(h)`attached, MenuOf(h)`left, MenuOf(h)`top, MenuOf(h)`shownX, MenuOf(h)`shownY, MenuOf(h)`leftAligned
      ensures Valid()
      ensures ok <==> !Stale(focusedElement) && Some(h) in handles
      ensures !Stale(focusedElement) ==> FocusedOn(h, g, menuWidth, containerWidth)
      ensures Stale(focusedElement) ==> focusedElement == old(focusedElement)
      ensures ok && proceed ==> dragged == Some(h) && adjust == grab
      ensures !(ok && proceed) ==> dragged == old(dragged) && adjust == old(adjust)
      ensures unchanged(Entries())
    {
      blurred, ok := Focus(h, g, menuWidth, containerWidth);
      if ok && proceed {
        DndPress(h, grab);
      }
    }

    /**
     * A mousedown on a registered element: the entry's own handler sets
     * `pressed` for any button; a primary press also sets it, focuses the
     * element and, unless another handler cancelled it and provided the
     * focus succeeded, starts dragging it.
     */
    method ElementMouseDown(h: Handle, which: int, proceed: bool, grab: Point, g: Geometry,
                            menuWidth: int, containerWidth: int)
      returns (blurred: Option<Handle>, ok: bool)
      requires Valid() && h in listening
      modifies this`pressed, this`element, this`focusedElement, this`dragged, this`adjust
      modifies FocusedMenu()`attached
      modifies MenuOf(h)`attached, MenuOf(h)`left, MenuOf(h)`top, MenuOf(h)`shownX, MenuOf(h)`shownY, MenuOf(h)`leftAligned
      ensures Valid()
      ensures pressed == (old(pressed) || which == PrimaryButton || h in pressListening)
      ensures which != PrimaryButton ==>
        ok && blurred.None? && element == old(element) && focusedElement == old(focusedElement) && unchanged(Menus())
      ensures which == PrimaryButton ==>
        && (ok <==> !Stale(focusedElement) && Some(h) in handles)
        && (!Stale(focusedElement) ==> FocusedOn(h, g, menuWidth, containerWidth))
      ensures which == PrimaryButton && ok && proceed ==> dragged == Some(h) && adjust == grab
      ensures !(which == PrimaryButton && ok && proceed) ==> dragged == old(dragged) && adjust == old(adjust)
    {
      blurred, ok := None, true;
      if h in pressListening {
        pressed := true;
      }
      if which != PrimaryButton {
        return;
      }
      pressed := true;
      blurred, ok := FocusAndPress(h, proceed, grab, g, menuWidth, containerWidth);
    }

    /** The focus handler `Add` installs. */
    method ElementFocusEvent(h: Handle, g: Geometry, menuWidth: int, containerWidth: int)
      returns (blurred: Option<Handle>, ok: bool)
      requires Valid() && h in listening
      modifies this`element, this`focusedElement
      modifies FocusedMenu()`attached
      modifies MenuOf(h)`attached, MenuOf(h)`left, MenuOf(h)`top, MenuOf(h)`shownX, MenuOf(h)`shownY, MenuOf(h)`leftAligned
      ensures Valid()
      ensures !Stale(old(focusedElement)) ==> FocusedOn(h, g, menuWidth, containerWidth)
      ensures ok <==> !Stale(old(focusedElement)) && Some(h) in handles
    {
      blurred, ok := Focus(h, g, menuWidth, containerWidth);
    }

    /** A press on a coordinate picker counts as a press for the next body click. */
    method CoordinatesMouseDown(owner: DragNBarElement)
      requires Valid() && owner in elements && owner.menu.coordinatesCreated
      modifies this`pressed
      ensures Valid() && pressed
    {
      pressed := true;
    }

    /** A click on a menu button: counts as a press and fires the button's event. */
    method MenuButtonClick(owner: DragNBarElement, k: nat) returns (fired: string)
      requires Valid() && owner in elements
      requires k < |owner.menu.buttonNodes| && owner.menu.buttonNodes[k].ButtonNode?
      modifies this`pressed
      ensures Valid() && pressed
      ensures fired == owner.menu.buttonNodes[k].eventName
    {
      pressed := true;
      fired := owner.menu.buttonNodes[k].eventName;
    }

    /**
     * The coordinate picker's handler: each entered value is clamped into
     * the container, the clamped pair is committed as the pressed element's
     * position, and the focused entry's menu is then updated with no values,
     * so its inputs show NaN and it is not left-aligned. Input that is not
     * a number does nothing; reading the bounds fails while the owner has no
     * element, committing fails while nothing was ever pressed, and the
     * update fails while no entry is focused.
     */
    method CoordinateEntry(owner: DragNBarElement, xIn: Option<real>, yIn: Option<real>,
                           containerWidth: int, containerHeight: int, outerWidth: int, outerHeight: int,
                           menuWidth: int)
      returns (entered: Option<(real, real)>, notified: Option<PercentPos>, ok: bool)
      requires Valid() && owner in elements && owner.menu.coordinatesCreated
      requires containerWidth > 0 && containerHeight > 0
      modifies this`placements, FocusedMenu()`left, FocusedMenu()`top, FocusedMenu()`shownX, FocusedMenu()`shownY
      modifies FocusedMenu()`leftAligned
      ensures Valid()
      ensures (xIn.None? || yIn.None?) ==> entered.None? && ok && unchanged(this) && unchanged(Menus())
      ensures xIn.Some? && yIn.Some? ==> (entered.Some? <==> owner.element.Some?)
      ensures ok <==> xIn.None? || yIn.None? || (owner.element.Some? && dragged.Some? && focusedElement.Some?)
      ensures xIn.Some? && yIn.Some? && owner.element.None? ==> unchanged(this)
      ensures entered.Some? ==>
        var (x, y) := entered.value;
        var (maxX, maxY) := ((containerWidth - outerWidth) as real, (containerHeight - outerHeight) as real);
        && xIn.Some? && yIn.Some? && owner.element.Some?
        && x <= maxX && (0.0 <= maxX ==> 0.0 <= x) && (0.0 <= xIn.value <= maxX ==> x == xIn.value)
        && y <= maxY && (0.0 <= maxY ==> 0.0 <= y) && (0.0 <= yIn.value <= maxY ==> y == yIn.value)
        && (xIn.value > maxX ==> x == maxX) && (yIn.value > maxY ==> y == maxY)
        && (xIn.value < 0.0 <= maxX ==> x == 0.0) && (yIn.value < 0.0 <= maxY ==> y == 0.0)
        && (xIn.value < 0.0 && maxX < 0.0 ==> x == maxX) && (yIn.value < 0.0 && maxY < 0.0 ==> y == maxY)
      ensures entered.Some? && dragged.Some? ==>
        && placements == old(placements)[dragged.value := PercentPos(ToPercent(entered.value.0, containerWidth), ToPercent(entered.value.1, containerHeight))]
        && notified == (if hasStopMovingCallback then Some(placements[dragged.value]) else None)
      ensures entered.Some? && dragged.None? ==> placements == old(placements) && notified.None?
      ensures ok && entered.Some? ==>
        var m := focusedElement.value.menu;
        && (m.hasCoordinates ==> m.shownX.None? && m.shownY.None?) && !m.leftAligned
      ensures !ok ==> unchanged(Menus())
    {
      entered, notified, ok := None, None, true;
      if xIn.None? || yIn.None? {
        return;
      }
      // The bounds read the owner's element, which throws while there is none.
      if owner.element.None? {
        ok := false;
        return;
      }
      var maxX, maxY := (containerWidth - outerWidth) as real, (containerHeight - outerHeight) as real;
      var x := Clamp(xIn.value, maxX);
      var y := Clamp(yIn.value, maxY);
      entered := Some((x, y));
      notified, ok := CommitPicked(x, y, containerWidth, containerHeight, menuWidth);
    }

    /**
     * The second half of the picker's handler: `(x, y)` becomes the pressed
     * element's position, then the focused entry's menu is updated with no
     * values.
     */
    method CommitPicked(x: real, y: real, containerWidth: int, containerHeight: int, menuWidth: int)
      returns (notified: Option<PercentPos>, ok: bool)
      requires Valid() && containerWidth > 0 && containerHeight > 0
      modifies this`placements, FocusedMenu()`left, FocusedMenu()`top, FocusedMenu()`shownX, FocusedMenu()`shownY
      modifies FocusedMenu()`leftAligned
      ensures Valid()
      ensures ok <==> dragged.Some? && focusedElement.Some?
      ensures dragged.Some? ==>
        && placements == old(placements)[dragged.value := PercentPos(ToPercent(x, containerWidth), ToPercent(y, containerHeight))]
        && notified == (if hasStopMovingCallback then Some(placements[dragged.value]) else None)
      ensures dragged.None? ==> placements == old(placements) && notified.None?
      ensures ok ==>
        var m := focusedElement.value.menu;
        && (m.hasCoordinates ==> m.shownX.None? && m.shownY.None?) && !m.leftAligned
      ensures !ok ==> unchanged(Menus())
    {
      notified, ok := StopMoving(x, y, containerWidth, containerHeight);
      if !ok {
        return;
      }
      ok := UpdateCoordinates(None, None, None, None, menuWidth, containerWidth);
    }
  }

  /**
   * The end of `focus`: the entry's menu is moved to the element's page
   * offset, shows its position and is attached.
   */
  method ShowMenuAt(e: DragNBarElement, g: Geometry, menuWidth: int, containerWidth: int)
    modifies e.menu`attached, e.menu`left, e.menu`top, e.menu`shownX, e.menu`shownY, e.menu`leftAligned
    ensures Shown(e.menu, g, menuWidth, containerWidth)
  {
    e.UpdateCoordinates(Some(g.offsetLeft), Some(g.offsetTop), Some(g.positionLeft), Some(g.positionTop),
                        menuWidth, containerWidth);
    e.ShowContextMenu();
  }

  /** An integer shown through Math.round is shown as itself. */
  lemma WholeRound(k: int)
    ensures JsRound(k as real) == k
  {
  }

  /**
   * `add($h, "a")`, `add($h2, "b")`, `focus($h2)`, `add($h, "b")` and then
   * `focus($h)` with the blur test as written: the entry registered under
   * "b" is still focused-looking when the one under "a" is focused, so two
   * menus are attached.
   */
  method RebindScenario(g: Geometry) returns (d: DragNBar)
    ensures d.Registry() && |d.elements| == 2
    ensures d.elements[0].menu.attached && d.elements[1].menu.attached
  {
    d := Rebound(g);
    var blurred, ok := d.FocusByElement(Handle(1), g, 0, 0);
  }

  /**
   * The state before the last step: the entry under "b" is focused, and
   * its element is now the one the entry under "a" was registered with.
   */
  method Rebound(g: Geometry) returns (d: DragNBar)
    ensures fresh(d) && d.Valid() && |d.elements| == 2
    ensures fresh(d.elements[0].menu) && fresh(d.elements[1].menu)
    ensures d.focusedElement == Some(d.elements[1]) && d.elements[1].menu.attached
    ensures d.elements[1].element == Some(Handle(1)) && d.Target(Handle(1)) == Some(d.elements[0])
  {
    d := SecondFocused(g);
    var again := d.Add(Handle(1), SubContentId("b"));
    assert d.handles == [Some(Handle(1)), Some(Handle(1))];
  }

  /** Then `focus($h2)`: the entry under "b" is focused and its menu attached. */
  method SecondFocused(g: Geometry) returns (d: DragNBar)
    ensures fresh(d) && d.Valid() && |d.elements| == 2
    ensures fresh(d.elements[0].menu) && fresh(d.elements[1].menu)
    ensures d.Ids() == [SubContentId("a"), SubContentId("b")]
    ensures d.handles == [Some(Handle(1)), Some(Handle(2))]
    ensures d.focusedElement == Some(d.elements[1]) && d.elements[1].menu.attached
  {
    d := TwoEntries();
    var blurred, ok := d.Focus(Handle(2), g, 0, 0);
  }

  /** `add($h, "a")` and `add($h2, "b")` on a fresh editor. */
  method TwoEntries() returns (d: DragNBar)
    ensures fresh(d) && d.Valid() && |d.elements| == 2 && d.focusedElement.None?
    ensures fresh(d.elements[0].menu) && fresh(d.elements[1].menu)
    ensures d.Ids() == [SubContentId("a"), SubContentId("b")]
    ensures d.handles == [Some(Handle(1)), Some(Handle(2))]
  {
    d := new DragNBar(false, map[]);
    var a := d.Add(Handle(1), SubContentId("a"));
    var b := d.Add(Handle(2), SubContentId("b"));
  }
}
