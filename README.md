# DragNBar editor model

DragNBar is the editor toolbar of H5P content types such as presentations
and interactive videos. It has two parts. A toolbar's buttons create new
elements, which are dragged onto a canvas. Elements already on the canvas
can be focused, dragged and placed. Each focused element shows a context
menu holding a coordinate picker and a list of buttons. The repository
contains two generations of this code, and this project models each in its
own modules:

- **First generation** (`drag-n-bar.js`, `context-menu.js`): the modules
  `LegacyDragNBar` and `LegacyContextMenu`. There is one shared context menu,
  shown and hidden as a whole. The move callback reads CSS positions with
  `parseInt`. The coordinate picker turns entered container coordinates into
  page coordinates and runs the release callback with snapping suspended. That
  callback never reads the coordinates it is given, so an entry re-commits the
  element's current CSS position (see "## Findings").
- **Second generation** (`scripts/drag-n-bar.js`, `scripts/context-menu.js`,
  `scripts/drag-n-bar-element.js`): the modules `Editor`, `EditorContextMenu`
  and `EditorElement`. A registry of entries pairs a sub-content id with a
  re-bindable element and a menu of its own. At most one entry is focused, and
  only the focused entry's menu is attached (see "## Findings" for the rebind
  that breaks this in the code as written).
  The move callback reads CSS positions with `Math.round(parseFloat(..))`. The
  coordinate picker clamps entered values into the container.
- `Common` holds what both generations share. This covers JavaScript's
  `Math.round` and `parseInt`, grid snapping, the conversion between pixels
  and percent, first-match lookup and the menu's button list.

The drag-and-drop and resize collaborators are not part of this model. What
they and the DOM measure comes in as method parameters: pointer coordinates,
CSS values, offsets, sizes and the grab offset. Their state that the
callbacks read and write is modelled as fields: `snap`, `min`, `max`,
`adjust` and `dragged`. DOM nodes are `Handle` values. A menu's children are
a sequence of `MenuNode` tokens.

A JavaScript `TypeError` is modelled as an `ok` result of false. The rest of
the state is left as the statements before the throw left it. The cases are:

- dereferencing a lookup that found nothing;
- `focusedElement.updateCoordinates` while nothing is focused (scripts/drag-n-bar.js:397);
- `.blur()` on the previously focused entry when it has no element (scripts/drag-n-bar.js:331);
- `.detach()` on an entry without an element (scripts/drag-n-bar-element.js:143);
- reading the CSS of an absent element;
- the position write through drag-and-drop's `$element` before anything was pressed (scripts/drag-n-bar.js:247, drag-n-bar.js:217);
- reading the bounds after they were deleted.

Integers stand for whole pixels and `real` for percentages and raw CSS
values. `undefined` and `NaN` are `None`.

## Model

| member | source | states |
|---|---|---|
| Common.JsRound | scripts/context-menu.js:172-173 | `Math.round` gives the integer within half a unit of v, ties taken upward |
| Common.JsTrunc | drag-n-bar.js:67-69 | `parseInt` of a length truncates towards zero: the result has v's sign and lies within one unit of v, on the side of zero |
| Common.Snap | scripts/drag-n-bar.js:90-93 | `Math.round(v/snap)*snap` is a multiple of the step, at most half a step from v |
| Common.SnapOnGrid | scripts/drag-n-bar.js:90-93 | a coordinate already on the grid is not moved by snapping |
| Common.SnapIdempotent | scripts/drag-n-bar.js:90-93 | snapping an already snapped coordinate changes nothing |
| Common.DropPosition | scripts/drag-n-bar.js:103-116 | a new element released above the canvas goes to half the upper bounds, which lies inside non-negative bounds, and fails without bounds; any other element keeps its left/top |
| Common.ToPercent | scripts/drag-n-bar.js:243-247 | the percentage p satisfies p * size = px * 100 |
| Common.PercentRoundTrip | scripts/drag-n-bar.js:243-247 | converting a stored percentage back with p*size/100 recovers the pixel value exactly |
| Common.PixelRoundTrip | scripts/drag-n-bar.js:243-247 | the reverse round trip, from percent to pixels and back, is exact too |
| Common.FirstIndex | scripts/drag-n-bar.js:352-358 | `grep(..)[0]` finds nothing exactly when no entry matches, and otherwise the first matching index |
| Common.FirstIndexAt | scripts/drag-n-bar.js:367-372 | a match with no earlier match is the index the lookup returns |
| Common.FirstIndexAppend | scripts/drag-n-bar.js:281-284 | after a push a lookup still finds an earlier match; otherwise it finds the pushed entry exactly when that one matches |
| Common.FirstIndexUpdate | scripts/drag-n-bar.js:277-280 | after a rebind of entry i to x, a lookup of x finds something: entry i or the earlier match it found before |
| Common.RemoveAt | scripts/context-menu.js:247-249 | `splice(i, 1)` drops entry i, leaving the prefix and shifting the suffix down by one |
| Common.PresentMembers | scripts/drag-n-bar-element.js:125-130 | the elements that blurring every entry reaches are exactly the entries' present elements |
| Common.ButtonIndex | scripts/context-menu.js:244 | `indexOf` is -1 for a name string and for an absent button object, and otherwise the first position of that button |
| Common.ButtonNodes | scripts/context-menu.js:221-223 | rendering yields one node per button |
| Common.ButtonNodesAt | scripts/context-menu.js:221-223 | the k-th rendered node carries the k-th button's name and event, so the order is the list order |
| Common.Without | scripts/context-menu.js:225 | moving a node out of the children removes it and keeps every other child |
| LegacyContextMenu.ContextMenu.constructor | context-menu.js:15-33 | a new menu is visible, lists exactly [edit, delete] and has coordinates unless disabled, with the picker rendered ahead of the two buttons |
| LegacyContextMenu.ContextMenu.AddCoordinates | context-menu.js:42-62 | does nothing when coordinates are off or the picker exists; otherwise appends the picker, whose inputs show 0 |
| LegacyContextMenu.ContextMenu.UpdateCoordinates | context-menu.js:90-102 | the menu moves to left/top; the inputs show the rounded x and y only when coordinates are on; buttons and children stay |
| LegacyContextMenu.ContextMenu.AddToMenu | context-menu.js:109-121 | exactly one node for the button is appended to the menu |
| LegacyContextMenu.ContextMenu.UpdateContextMenu | context-menu.js:135-150 | every child goes; the picker comes back only on its first creation; then one node per button follows, in order |
| LegacyContextMenu.ContextMenu.AddMenuButtons | context-menu.js:147-149 | the render loop appends the button nodes of the list, in order, after the existing children |
| LegacyContextMenu.ContextMenu.AddButton | context-menu.js:157-160 | one button is appended at the end; the re-rendered children are the picker, only when this render creates it, then one node per button; visibility, position and the coordinates setting stay, and the inputs show 0 only for a new picker |
| LegacyContextMenu.ContextMenu.RemoveButton | context-menu.js:166-176 | a name string leaves the list unchanged; an entry object found by `indexOf` is spliced out; the children are re-rendered as for `addButton`, and visibility, position and the coordinates setting stay |
| LegacyContextMenu.ContextMenu.ToggleCoordinates | context-menu.js:182-190 | without an argument `hasCoordinates` flips, with one it is set; the children are a picker only when this render creates it, then the button nodes; the buttons, visibility and position stay |
| LegacyContextMenu.ContextMenu.Hide | context-menu.js:195-197 | the menu becomes invisible |
| LegacyContextMenu.ContextMenu.Show | context-menu.js:202-204 | the menu becomes visible |
| LegacyContextMenu.PageCoordinates | context-menu.js:72-73 | the page position is the entered container position plus the grab offset, the container's page offset, the scroll offsets and the left padding; `ContainerCoordinates` takes it back to exactly the entered position |
| LegacyDragNBar.DragNBar.constructor | drag-n-bar.js:18-31 | snapping starts at 10, no element is new or pressed, and the shared menu is visible with the default buttons |
| LegacyDragNBar.DragNBar.KeyDown | drag-n-bar.js:106-109 | Ctrl makes `snap` undefined; any other key leaves it |
| LegacyDragNBar.DragNBar.KeyUp | drag-n-bar.js:110-113 | releasing Ctrl restores `snap` to 10; any other key leaves it |
| LegacyDragNBar.DragNBar.Focus | drag-n-bar.js:270-281 | `$element` becomes the element; the menu is visible at the element's page offset and, while coordinates are on, shows its rounded position; its buttons, children and coordinates setting stay |
| LegacyDragNBar.DragNBar.Blur | drag-n-bar.js:288-292 | the one shared menu is hidden |
| LegacyDragNBar.DragNBar.UpdateCoordinates | drag-n-bar.js:304-306 | forwards to the menu, which moves and shows the rounded position and keeps its visibility and buttons |
| LegacyDragNBar.DragNBar.Click | drag-n-bar.js:114-122 | a click after a press only consumes `pressed`; otherwise it hides the menu |
| LegacyDragNBar.DragNBar.Add | drag-n-bar.js:241-258 | `tabindex` becomes 1 only when the element has none, and the element gets the press and focus handlers |
| LegacyDragNBar.DragNBar.DndPress | drag-n-bar.js:253-255 | drag-and-drop records the pressed element and its grab offset |
| LegacyDragNBar.DragNBar.AddButtonPress | drag-n-bar.js:182-193 | a non-primary press changes nothing; a primary press marks the created element new and pressed, makes the overflow visible, shows the menu at it as `focus` does and records the press; bounds, snapping, positions, `tabindex`, handlers and the menu's buttons and children stay |
| LegacyDragNBar.DragNBar.ElementMouseDown | drag-n-bar.js:246-255 | a non-primary press changes nothing; a primary press sets `pressed` and shows the menu at the element as `focus` does, and records the press unless another handler cancelled it; everything else stays |
| LegacyDragNBar.DragNBar.StartMoving | drag-n-bar.js:47-64 | the bounds are min (0,0) and max = container minus outer size; a new element also gets the (10,10) bias and min.y lowered by the toolbar height; returns true |
| LegacyDragNBar.DragNBar.Move | drag-n-bar.js:66-80 | with snapping on, the menu moves to grid multiples; the inputs show the truncated CSS position; a new element whose top is at least 0 latches min.y to 0 |
| LegacyDragNBar.DragNBar.StopMoving | drag-n-bar.js:213-223 | the pressed element stores left/top as percent of the container, which converts back to the pixels exactly; the host's callback gets exactly those values |
| LegacyDragNBar.DragNBar.Release | drag-n-bar.js:82-104 | succeeds exactly when there is an element, a pressed element and a drop position, which a drag session always has; then the pressed element is stored at DropPosition of its truncated CSS, is no longer new, the menu is shown at it and the bounds go; a failure leaves positions, flags, bounds and the menu as they were |
| LegacyDragNBar.DragNBar.Commit | drag-n-bar.js:98-103 | fails, changing nothing, exactly when nothing was ever pressed; otherwise the pressed element is stored at (l, t) in percent, which converts back to (l, t) exactly, is no longer new, the menu is shown at it and the bounds go |
| LegacyDragNBar.DragNBar.CoordinatesMouseDown | context-menu.js:57-59 | a press on the picker, while it is among the menu's children, counts as a press for the next body click |
| LegacyDragNBar.DragNBar.CoordinateEntry | context-menu.js:64-78 | non-numeric input does nothing; otherwise the callback gets the entry's page coordinates with `snap` undefined, and then does what `Release` does: the element goes to DropPosition of its truncated CSS whatever was entered, and the call fails exactly when the release does; `snap` is back afterwards unless it failed |
| LegacyDragNBar.DragNBar.CommitEntry | context-menu.js:64-78 | the corrected handler: the pressed element is stored at the entered container coordinates, recovered from the page coordinates, which the stored percentages convert back to exactly; it fails exactly without an element or a pressed element, and `snap` is back afterwards unless it failed |
| LegacyDragNBar.EntryIgnored | context-menu.js:70-75 | entering (0, 0) for an element whose CSS puts it at (50, 50) in a 100 by 100 container stores (50%, 50%), while (0, 0) is 0% |
| EditorContextMenu.ContextMenu.constructor | scripts/context-menu.js:15-74 | a new menu is detached, lists exactly [edit, delete] and has coordinates unless disabled; its box of buttons follows the picker |
| EditorContextMenu.ContextMenu.AddCoordinates | scripts/context-menu.js:83-103 | does nothing when coordinates are off or the picker exists; otherwise the picker is appended with inputs showing 0 |
| EditorContextMenu.ContextMenu.UpdateCoordinates | scripts/context-menu.js:163-175 | an absent left/top leaves that CSS property; the inputs show the rounded x and y, or NaN for an absent value, only when coordinates are on |
| EditorContextMenu.ContextMenu.AddToMenu | scripts/context-menu.js:182-195 | exactly one node for the button is appended to the box of buttons |
| EditorContextMenu.ContextMenu.UpdateContextMenu | scripts/context-menu.js:209-226 | the box holds one node per button, in list order, and sits after the picker; an existing picker survives the render |
| EditorContextMenu.ContextMenu.AddMenuButtons | scripts/context-menu.js:221-223 | the render loop appends the list's nodes, in order, to the box |
| EditorContextMenu.ContextMenu.MoveBoxToEnd | scripts/context-menu.js:225 | appending the box puts it last, after the picker, whichever order they had |
| EditorContextMenu.RenderShape | scripts/context-menu.js:225 | taking the box out of a render's children leaves the picker alone, if there is one |
| EditorContextMenu.ContextMenu.AddButton | scripts/context-menu.js:233-236 | one button is appended at the end and the box is re-rendered in list order; the picker, the inputs, placement, alignment and attachment stay |
| EditorContextMenu.ContextMenu.RemoveButton | scripts/context-menu.js:242-252 | a name string leaves the list unchanged; an entry object found by `indexOf` is spliced out; the box is re-rendered; the picker, the inputs, placement, alignment and attachment stay |
| EditorContextMenu.ContextMenu.ToggleCoordinates | scripts/context-menu.js:258-266 | without an argument `hasCoordinates` flips, with one it is set; the picker is created once, showing 0, and then kept before the box; the buttons, placement, alignment and attachment stay |
| EditorContextMenu.ContextMenu.Attach | scripts/context-menu.js:271-273 | the menu is in the page |
| EditorContextMenu.ContextMenu.Detach | scripts/context-menu.js:278-280 | the menu is out of the page |
| EditorContextMenu.ContextMenu.SetLeftAligned | scripts/drag-n-bar-element.js:110 | the `left-aligned` class is set as given |
| EditorContextMenu.Clamp | scripts/context-menu.js:121-135 | an entered value ends up at most max, at least 0 when max is non-negative, and unchanged when already inside [0, max] |
| EditorElement.DragNBarElement.constructor | scripts/drag-n-bar-element.js:20-42 | the element is the factory's product when there is a factory, else the given element, possibly absent; the id is the one given; the menu is new and detached |
| EditorElement.DragNBarElement.AddButton | scripts/drag-n-bar-element.js:53-55 | one node is appended to the menu's box, outside the button list |
| EditorElement.DragNBarElement.SetElement | scripts/drag-n-bar-element.js:69-71 | `getElement` then returns the new element, and nothing else changes |
| EditorElement.DragNBarElement.ShowContextMenu | scripts/drag-n-bar-element.js:76-78 | the menu is attached |
| EditorElement.DragNBarElement.HideContextMenu | scripts/drag-n-bar-element.js:83-85 | the menu is detached |
| EditorElement.DragNBarElement.UpdateCoordinates | scripts/drag-n-bar-element.js:95-99 | the four values reach the menu, and the alignment follows from the same left |
| EditorElement.DragNBarElement.ResizeContextMenu | scripts/drag-n-bar-element.js:106-111 | left-aligned exactly when left + menu width reaches the container width; an absent left never does |
| EditorElement.DragNBarElement.Blur | scripts/drag-n-bar-element.js:125-130 | the element is blurred only if present, and the menu is always detached |
| EditorElement.DragNBarElement.RemoveElement | scripts/drag-n-bar-element.js:142-145 | the element is detached and the menu hidden, keeping the element reference; without an element it fails first |
| Editor.DragNBar.constructor | scripts/drag-n-bar.js:18-40 | the registry is empty, nothing is focused and snapping starts at 10 |
| Editor.DragNBar.GetDragNBarElement | scripts/drag-n-bar.js:352-359 | returns the first entry whose element is the given one, or nothing |
| Editor.DragNBar.GetElementFromSubContentId | scripts/drag-n-bar.js:367-373 | returns the first entry with the given id, or nothing |
| Editor.DragNBar.Add | scripts/drag-n-bar.js:267-308 | a known id rebinds the first entry with it and returns it, keeping the registry's length; an unknown id appends exactly one fresh entry and returns it; `tabindex` is set to 1 only when absent |
| Editor.DragNBar.Rebind | scripts/drag-n-bar.js:277-280 | only the found entry's element changes |
| Editor.DragNBar.Append | scripts/drag-n-bar.js:281-284 | one new entry with the id, the element and the default buttons is appended; it installs its own press handler |
| Editor.DragNBar.RemoveElement | scripts/drag-n-bar.js:315-318 | the element is looked up as an id, so with string ids nothing is found; the call succeeds exactly when the entry found has an element, which it then detaches with its menu hidden; no other entry or menu changes, and a failure changes nothing |
| Editor.DragNBar.BlurFocused | scripts/drag-n-bar.js:329-333 | the corrected blur: the previously focused entry is blurred and its menu hidden unless it is the entry picked for the element, and one without an element throws; afterwards only the picked entry's menu may be attached |
| Editor.DragNBar.ShowFocus | scripts/drag-n-bar.js:335-344 | the focused entry becomes the first entry with the element, and its menu is shown there; with no such entry the call fails |
| Editor.DragNBar.ShowOwnMenu | scripts/drag-n-bar.js:341-344 | the entry's menu is shown at the element, and when no menu but that entry's was attached, none is afterwards |
| Editor.DragNBar.OwnMenu | scripts/drag-n-bar-element.js:28 | every entry makes a menu of its own, so no other entry has an entry's menu |
| Editor.DragNBar.Focus | scripts/drag-n-bar.js:326-345 | the previously focused entry is blurred unless it is the entry picked for the element; the first entry with the element becomes the focused one and its menu, the only attached one, is shown at the element; it fails when nothing matches, and changes nothing when the old entry has no element to blur |
| Editor.DragNBar.SingleMenu | scripts/drag-n-bar.js:326-345 | single focus: no two entries have their menus attached at once |
| Editor.DragNBar.BlurByElement | scripts/drag-n-bar.js:329-333 | the blur as written: the old entry is blurred exactly when its element differs from the one being focused, and throws when it has none; otherwise no menu changes |
| Editor.DragNBar.FocusByElement | scripts/drag-n-bar.js:326-345 | `focus` as written: the blur follows the element test, the first entry with the element is shown at it; when the old entry holds the element but another entry comes first, both menus end up attached |
| Editor.DragNBar.OtherMenu | scripts/drag-n-bar.js:330-344 | the menu hidden for the old entry is not the menu shown for the new element |
| Editor.DragNBar.BlurAll | scripts/drag-n-bar.js:380-385 | every entry's menu is detached and nothing is focused; every present element is blurred, in order; a second call changes nothing |
| Editor.DragNBar.BlurEach | scripts/drag-n-bar.js:381-383 | the loop detaches each entry's menu and blurs the present elements, in registry order |
| Editor.DragNBar.BodyClick | scripts/drag-n-bar.js:141-153 | a click after a press only clears `pressed`; any other click runs blurAll |
| Editor.DragNBar.KeyDown | scripts/drag-n-bar.js:133-136 | Ctrl makes `snap` undefined; any other key leaves it |
| Editor.DragNBar.KeyUp | scripts/drag-n-bar.js:137-140 | releasing Ctrl restores `snap` to 10; any other key leaves it |
| Editor.DragNBar.UpdateCoordinates | scripts/drag-n-bar.js:396-398 | the focused entry's menu takes the values and the alignment that follows from left; no other menu changes, and without a focused entry the call fails and nothing changes |
| Editor.DragNBar.DndPress | scripts/drag-n-bar.js:299-302 | drag-and-drop records the pressed element and its grab offset |
| Editor.DragNBar.StartMoving | scripts/drag-n-bar.js:67-84 | the bounds are min (0,0) and max = container minus outer size; a new element also gets the (10,10) bias and min.y lowered by the toolbar height; returns true |
| Editor.DragNBar.Move | scripts/drag-n-bar.js:86-100 | with snapping on, the focused menu moves to grid multiples and is left-aligned exactly when its left plus the menu width reaches the container width; the inputs show the rounded CSS position; a new element whose top is at least 0 latches min.y to 0; without a focused entry it fails and no menu changes |
| Editor.DragNBar.StopMoving | scripts/drag-n-bar.js:243-253 | the pressed element stores left/top as percent of the container, which converts back to the pixels exactly; the host's callback gets exactly those values |
| Editor.DragNBar.Release | scripts/drag-n-bar.js:102-124 | the element is placed at DropPosition of its rounded CSS and is no longer new whenever it can be placed, even when the refocus then throws; it is focused by the corrected `Focus` and the bounds are deleted; the overflow is reset after a new element; within a drag session it fails exactly when that focus fails, and one that cannot place the element changes no position, no menu and not the new-element flag |
| Editor.DragNBar.Place | scripts/drag-n-bar.js:103-118 | the overflow is reset after a new element, and the element is placed at its drop position; it fails only without an element, position or pressed element |
| Editor.DragNBar.Refocus | scripts/drag-n-bar.js:119-123 | the element is no longer new and is focused by the corrected `Focus`, which changes only the old and the new focused menus; a successful refocus deletes the bounds, and a failed one keeps them |
| Editor.DragNBar.DropBounds | scripts/drag-n-bar.js:122-123 | the bounds are gone |
| Editor.DragNBar.AddButtonPress | scripts/drag-n-bar.js:209-222 | a non-primary press changes nothing; a primary press appends a wrapper entry with the button as id and no element, marks the element new and pressed, and focuses the created element by the corrected `Focus` and presses it; a factory that registers the element makes the focus fail only when the old entry has no element to blur, and one that does not makes it fail unless the element was registered before |
| Editor.DragNBar.MarkNew | scripts/drag-n-bar.js:214-218 | the new-element, pressed and overflow flags are set |
| Editor.DragNBar.ToolbarPress | scripts/drag-n-bar.js:214-221 | the wrapper is appended first; the created element is then focused by the corrected `Focus` and pressed; when registered by the factory it is found, and the press fails only when the old entry has no element to blur |
| Editor.DragNBar.CreateAndPress | scripts/drag-n-bar.js:219-221 | the factory's element becomes `$element`, is found when the factory registered it, is focused by the corrected `Focus` and then pressed if the focus succeeded |
| Editor.DragNBar.Register | scripts/drag-n-bar.js:219 | a registering factory rebinds the first entry with its id, or appends a fresh one with it, so the element is in the registry; one that does not leaves the registry alone; either way the element becomes `$element` |
| Editor.DragNBar.PushWrapper | scripts/drag-n-bar.js:216-217 | exactly one entry is appended: new, with the button as id and without an element; no element's lookup changes, and no id's lookup changes except to the wrapper |
| Editor.DragNBar.FocusAndPress | scripts/drag-n-bar.js:299-302 | the element is focused by the corrected `Focus`, and drag-and-drop presses it only if the focus succeeded and the press was not cancelled; no entry changes |
| Editor.DragNBar.ElementMouseDown | scripts/drag-n-bar.js:293-302 | the entry's own handler sets `pressed` for any button; a primary press also focuses by the corrected `Focus`, keeping single focus, then drags unless cancelled or unless the focus failed; any other press changes no menu |
| Editor.DragNBar.ElementFocusEvent | scripts/drag-n-bar.js:303-305 | a focus event on an element focuses it by the corrected `Focus`, keeping single focus, and fails exactly when that does |
| Editor.DragNBar.CoordinatesMouseDown | scripts/context-menu.js:98-100 | a press on a picker counts as a press for the next body click |
| Editor.DragNBar.MenuButtonClick | scripts/context-menu.js:191-194 | a click on a menu button counts as a press and fires that button's event |
| Editor.DragNBar.CoordinateEntry | scripts/context-menu.js:105-152 | non-numeric input does nothing; a numeric entry is taken exactly when the owner has an element, and each value is clamped into [0, container minus outer size], to 0 below when that range is non-empty; the pair is committed once by stopMoving; the focused menu then shows NaN and is not left-aligned; it fails exactly without an owner element, a pressed element or a focused entry, and then no menu changes |
| Editor.DragNBar.CommitPicked | scripts/context-menu.js:138-149 | the clamped pair is stored on the pressed element by stopMoving, then the focused menu is updated with no values, showing NaN and not left-aligned; fails exactly without a pressed element or a focused entry, and then no menu changes |
| Editor.ShowMenuAt | scripts/drag-n-bar.js:341-344 | the entry's menu is at the element's page offset, shows its rounded position and is attached |
| Editor.RebindScenario | scripts/drag-n-bar.js:267-345 | `add($h, "a")`, `add($h2, "b")`, `focus($h2)`, `add($h, "b")`, then `focus($h)` as written leaves both entries' menus attached |
| Editor.Rebound | scripts/drag-n-bar.js:277-280 | after the rebind, the focused entry under "b" holds `$h`, while the lookup of `$h` finds the entry under "a" |
| Editor.SecondFocused | scripts/drag-n-bar.js:326-345 | after `focus($h2)` the entry under "b" is focused and its menu attached |
| Editor.TwoEntries | scripts/drag-n-bar.js:267-308 | two `add` calls with new ids register two entries, in order, with their elements and nothing focused |

## Findings

| source | as written | input that shows it | evidently intended | confidence | as-written member | corrected member |
|---|---|---|---|---|---|---|
| scripts/drag-n-bar.js:330 | `focus` skips the blur when the focused entry's element is the one being focused, comparing elements, while the entry it then shows is the first with that element (scripts/drag-n-bar.js:339-344); after a rebind (scripts/drag-n-bar.js:279) these are different entries | `add($h, "a")`, `add($h2, "b")`, `focus($h2)`, `add($h, "b")`, `focus($h)`: the menus of both entries are attached | blur the previously focused entry unless it is the entry about to be shown, so only one menu is ever attached | not executed | Editor.DragNBar.FocusByElement, Editor.RebindScenario | Editor.DragNBar.Focus |
| context-menu.js:64-78 | the picker builds page coordinates for the stop callback, which never reads its argument (drag-n-bar.js:82-104) and re-commits the element's CSS position | entering (0, 0) for an element whose CSS is (50, 50) in a 100 by 100 container stores (50%, 50%) | place the element at the entered container coordinates | not executed | LegacyDragNBar.DragNBar.CoordinateEntry, LegacyDragNBar.EntryIgnored | LegacyDragNBar.DragNBar.CommitEntry |

The rest of the model uses the corrected `Focus`: every second-generation
operation that focuses an element calls it. The first-generation picker is
modelled both ways, and no other member calls either.

## Left out

- View mode: the constructor installs the callbacks and listeners only in editor mode, and the model is the editor.
- `H5P.DragNResize`, including its resize listeners and its deferred refocus (scripts/drag-n-bar.js:54-65, drag-n-bar.js:34-45). Resizing is outside the files modelled.
- `H5P.DragNDrop` itself. Its pointer tracking is reduced to what the callbacks read and write, and its `press` is reduced to recording the element and grab offset.
- Toolbar rendering (`attach`, the "more" list and its animation) and `setContainer`. These are layout, and they change no state the callbacks read.
- scripts/drag-n-bar-form-manager.js and the `$form` dialog argument. These are sub-form layout driven by transitions and timers.
- DOM effects: classes, `appendTo`, CSS writes other than the stored position, and `element.focus()` (scripts/drag-n-bar-element.js:135-137). They are modelled only as the fields they leave behind.
- `removeFromMenu`: its selector names a class the buttons never carry, so it removes nothing. No caller in the modelled files uses it.
- The input-selection timeout after Enter in the picker. It only selects the input's text.
- The start coordinates `startX`/`startY` that the start callback saves. Nothing reads them.
- `Number()` and `parseInt` of typed input. These are an `Option` parameter; None stands for NaN.
- Object identity: entries and menus are Dafny objects. Ids, elements and buttons are values, and a DOM element's identity is its `Handle`.
- Editor.DragNBar.StopMoving: requires a container whose width and height are positive. A zero size would make the JavaScript percentages infinite or NaN.
- Editor.DragNBar.Release: requires a container whose width and height are positive. A zero size would make the JavaScript percentages infinite or NaN.
- Editor.DragNBar.Place: requires a container whose width and height are positive. A zero size would make the JavaScript percentages infinite or NaN.
- Editor.DragNBar.CoordinateEntry: requires a container whose width and height are positive. A zero size would make the JavaScript percentages infinite or NaN.
- LegacyDragNBar.DragNBar.StopMoving: requires a container whose width and height are positive. A zero size would make the JavaScript percentages infinite or NaN.
- LegacyDragNBar.DragNBar.Release: requires a container whose width and height are positive. A zero size would make the JavaScript percentages infinite or NaN.
- LegacyDragNBar.DragNBar.CoordinateEntry: requires a container whose width and height are positive. A zero size would make the JavaScript percentages infinite or NaN.
- Editor.DragNBar.BlurFocused: is the corrected blur test, comparing entries; the source's test at scripts/drag-n-bar.js:330 compares elements, which `BlurByElement` models. So after a rebind it blurs the entry the source keeps.
- Editor.DragNBar.Release: focuses through the corrected `Focus`, so the second attached menu of the first "## Findings" row is not reproduced.
- Editor.DragNBar.Refocus: focuses through the corrected `Focus`, so the second attached menu of the first "## Findings" row is not reproduced.
- Editor.DragNBar.AddButtonPress: focuses through the corrected `Focus`, so the second attached menu of the first "## Findings" row is not reproduced.
- Editor.DragNBar.ToolbarPress: focuses through the corrected `Focus`, so the second attached menu of the first "## Findings" row is not reproduced.
- Editor.DragNBar.CreateAndPress: focuses through the corrected `Focus`, so the second attached menu of the first "## Findings" row is not reproduced.
- Editor.DragNBar.FocusAndPress: focuses through the corrected `Focus`, so the second attached menu of the first "## Findings" row is not reproduced.
- Editor.DragNBar.ElementMouseDown: focuses through the corrected `Focus`, so the second attached menu of the first "## Findings" row is not reproduced.
- Editor.DragNBar.ElementFocusEvent: focuses through the corrected `Focus`, so the second attached menu of the first "## Findings" row is not reproduced.
- Editor.DragNBar.CommitPicked: requires a container whose width and height are positive. A zero size would make the JavaScript percentages infinite or NaN.
- LegacyDragNBar.DragNBar.Commit: requires a container whose width and height are positive. A zero size would make the JavaScript percentages infinite or NaN.
- LegacyDragNBar.DragNBar.CommitEntry: requires a container whose width and height are positive. A zero size would make the JavaScript percentages infinite or NaN.
- Editor.DragNBar.Move: requires bounds to exist. Drag-and-drop calls the move callback only after its start callback has set them.
- LegacyDragNBar.DragNBar.Move: requires bounds to exist. Drag-and-drop calls the move callback only after its start callback has set them.
- Editor.DragNBar.Add: sets the `tabindex` and the handlers before updating the registry, where the source does it after. Neither step reads what the other writes, so the final state is the same.
- Editor.DragNBar.AddButtonPress: sets the `newElement` and `pressed` flags and the container's overflow together, after the element is focused and pressed. The source sets the flags before the push and the overflow after it. No step of the press reads them, and a press that throws leaves them set all the same, so the final state is the same.
- Editor.DragNBar.AddButtonPress: models the factory's effect on the registry as `registersAs`, the id under which the host's `createElement` may call `add`. Any other effect of the factory is not modelled.
- LegacyDragNBar.DragNBar.CommitEntry: places the element at the entered coordinates as they are, with no clamping into the container. The first-generation picker has none.
- Editor.DragNBar.FocusByElement: requires only the registry invariants, not single focus, because it models the code as written, which breaks single focus. Editor.DragNBar.BlurByElement likewise.
- EditorElement.DragNBarElement.SetElement: keeps the entry's `detached` flag, as the source does. The flag records what `removeElement` did to the element the entry held, so an entry rebound after a removal still reports its new element as detached.
- Floating point: CSS values and percentages are exact reals. Rounding of binary fractions is not modelled.

The subsections below note where the code itself goes against what one
might expect. The model follows the code in each case.

### First generation coordinate entry

The first-generation picker hands page coordinates to drag-and-drop's
stop callback (context-menu.js:70-75), but that callback takes no notice
of its argument (drag-n-bar.js:82-104). It places the element where its
CSS already puts it, whatever was entered. `CoordinateEntry` models this
as written, `EntryIgnored` shows it on one input, and `CommitEntry` is the
handler that places the element at the entered position.

### First generation re-rendering

After the first render, `updateContextMenu` removes the coordinate picker
and never adds it back (context-menu.js:139-144, because `$coordinates`
stays set). So after `addButton`, `removeButton` or `toggleCoordinates`,
the first-generation menu holds only button nodes. The contracts of those
members state this. The second generation keeps the picker outside the box
it clears.

### Second generation toolbar press

A toolbar press registers a wrapper under the button object. The wrapper
has no element. The press then focuses the created element by looking it up
among the entries' elements. Unless the factory registered that element,
the lookup finds nothing and `focus` throws, so nothing is pressed. The
model follows the code here, with `ok` false. The overflow and the two
flags stay set.
