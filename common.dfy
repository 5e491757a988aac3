/**
 * Values and arithmetic shared by both generations of the drag-and-bar
 * editor: DOM handles, the JavaScript rounding operators the callbacks use,
 * grid snapping and the pixel/percent conversion of a committed position.
 */
module Common {

  datatype Option<T> = None | Some(value: T)

  /** An integer pixel point, as kept in the drag-and-drop bounds. */
  datatype Point = Point(x: int, y: int)

  /** A position stored as percentages of the container. */
  datatype PercentPos = PercentPos(left: real, top: real)

  /** The identity of a jQuery-wrapped DOM node. */
  datatype Handle = Handle(id: nat)

  /** What `$element.offset()` and `$element.position()` report. */
  datatype Geometry = Geometry(offsetLeft: real, offsetTop: real, positionLeft: real, positionTop: real)

  /** The snap step the editor installs, and restores on Ctrl keyup. */
  const DefaultSnap: int := 10

  /** The key code of the Ctrl key. */
  const CtrlKey: int := 17

  /** The mouse button `event.which` reports for a primary press. */
  const PrimaryButton: int := 1

  /** The insertion bias added to a new element's drag offset. */
  const NewElementAdjust: int := 10

  /**
   * JavaScript's `Math.round`: the nearest integer, a half rounded up
   * (towards positive infinity, so `Math.round(-2.5)` is -2).
   */
  function JsRound(v: real): (r: int)
    ensures v - 0.5 < r as real <= v + 0.5
  {
    (v + 0.5).Floor
  }

  /**
   * `parseInt` of a CSS length such as "-12.7px": the integer part,
   * truncated towards zero.
   */
  function JsTrunc(v: real): (r: int)
    ensures 0.0 <= v ==> 0 <= r && r as real <= v < r as real + 1.0
    ensures v < 0.0 ==> r <= 0 && r as real - 1.0 < v <= r as real
  {
    if v >= 0.0 then v.Floor else -((-v).Floor)
  }

  /** `Math.round(v / step) * step`: the nearest multiple of `step`, ties upward. */
  function Snap(v: int, step: int): (r: int)
    requires step > 0
    ensures r % step == 0
    ensures v - step < 2 * r - v <= v + step
  {
    var q := JsRound(v as real / step as real);
    ScaleRounding(v, step, q);
    MultipleMod(q, step);
    q * step
  }

  /** Multiplying the rounding bounds on `w / s` through by `s`. */
  lemma ScaleBounds(w: real, s: real, k: real)
    requires s > 0.0
    requires w / s - 0.5 < k <= w / s + 0.5
    ensures w - 0.5 * s < k * s <= w + 0.5 * s
  {
    var lo, hi := w / s - 0.5, w / s + 0.5;
    assert lo < k <= hi;
    assert lo * s < k * s;
    assert k * s <= hi * s;
    assert lo * s == w - 0.5 * s;
    assert hi * s == w + 0.5 * s;
  }

  /** The rounding bounds on `v / step`, carried over to `q * step`. */
  lemma ScaleRounding(v: int, step: int, q: int)
    requires step > 0
    requires v as real / step as real - 0.5 < q as real <= v as real / step as real + 0.5
    ensures v - step < 2 * (q * step) - v <= v + step
  {
    ScaleBounds(v as real, step as real, q as real);
    assert (q * step) as real == q as real * step as real;
  }

  lemma MulAtLeast(e: int, step: int)
    requires step > 0 && e >= 1
    ensures step * e >= step
    decreases e
  {
    if e > 1 {
      MulAtLeast(e - 1, step);
      assert step * e == step * (e - 1) + step;
    }
  }

  lemma MultipleMod(q: int, step: int)
    requires step > 0
    ensures (q * step) % step == 0
  {
    var m := q * step;
    var d, r := m / step, m % step;
    assert m == step * d + r && 0 <= r < step;
    var e := q - d;
    assert step * e == r by { assert step * e == step * q - step * d; }
    if e >= 1 { MulAtLeast(e, step); }
  }

  /** Snapping a value that is already on the grid leaves it where it is. */
  lemma SnapOnGrid(v: int, step: int)
    requires step > 0 && v % step == 0
    ensures Snap(v, step) == v
  {
    var k := v / step;
    assert v == k * step;
    assert (k * step) as real == k as real * step as real;
    assert v as real / step as real == k as real;
    assert JsRound(k as real) == k;
  }

  /** Snapping twice is snapping once. */
  lemma SnapIdempotent(v: int, step: int)
    requires step > 0
    ensures Snap(Snap(v, step), step) == Snap(v, step)
  {
    SnapOnGrid(Snap(v, step), step);
  }

  /**
   * Where the release callback puts the element: a new element dropped
   * above the canvas goes to the middle of the bounds, any other one stays
   * at its CSS left/top as read in whole pixels. None when the bounds it needs are gone.
   */
  function DropPosition(isNew: bool, left: int, top: int, max: Option<Point>): (r: Option<(real, real)>)
    ensures !(isNew && top < 0) ==> r == Some((left as real, top as real))
    ensures isNew && top < 0 ==> (r.Some? <==> max.Some?)
    ensures isNew && top < 0 && r.Some? ==>
      && 2.0 * r.value.0 == max.value.x as real && 2.0 * r.value.1 == max.value.y as real
      && (0 <= max.value.x ==> 0.0 <= r.value.0 <= max.value.x as real)
      && (0 <= max.value.y ==> 0.0 <= r.value.1 <= max.value.y as real)
  {
    if isNew && top < 0 then
      match max
      case None => None
      case Some(m) => Some((m.x as real / 2.0, m.y as real / 2.0))
    else Some((left as real, top as real))
  }

  /** `px / (size / 100)`: a pixel offset as a percentage of the container size. */
  function ToPercent(px: real, size: int): (p: real)
    requires size > 0
    ensures p * size as real == px * 100.0
  {
    px / (size as real / 100.0)
  }

  /** The inverse conversion, a percentage of the container back to pixels. */
  function ToPixels(p: real, size: int): real
  {
    p * size as real / 100.0
  }

  /** Converting pixels to percent and back recovers the pixels exactly. */
  lemma PercentRoundTrip(px: real, size: int)
    requires size > 0
    ensures ToPixels(ToPercent(px, size), size) == px
  {
    var p := ToPercent(px, size);
    assert p * size as real == px * 100.0;
  }

  /** Converting percent to pixels and back recovers the percentage exactly. */
  lemma PixelRoundTrip(p: real, size: int)
    requires size > 0
    ensures ToPercent(ToPixels(p, size), size) == p
  {
    var q := ToPercent(ToPixels(p, size), size);
    assert q * size as real == p * size as real;
  }

  /**
   * The index of the first occurrence of `x` in `s`, or None: the shape of
   * `jQuery.grep(list, matches)[0]` and of `Array.prototype.indexOf`.
   */
  function FirstIndex<T(==)>(s: seq<T>, x: T): (r: Option<nat>)
    ensures r.None? <==> x !in s
    ensures r.Some? ==> r.value < |s| && s[r.value] == x && x !in s[..r.value]
  {
    if |s| == 0 then None
    else if s[0] == x then Some(0)
    else match FirstIndex(s[1..], x)
      case None => None
      case Some(i) =>
        assert s[1..][..i] == s[1..i + 1];
        Some(i + 1)
  }

  /** Removes the entry at index `i`, as `splice(i, 1)` does. */
  function RemoveAt<T>(s: seq<T>, i: nat): (r: seq<T>)
    requires i < |s|
    ensures |r| == |s| - 1
    ensures forall k :: 0 <= k < i ==> r[k] == s[k]
    ensures forall k :: i <= k < |r| ==> r[k] == s[k + 1]
  {
    s[..i] + s[i + 1..]
  }

  /** `s[i] == x` with no earlier occurrence makes `i` the first index of `x`. */
  lemma FirstIndexAt<T>(s: seq<T>, x: T, i: nat)
    requires i < |s| && s[i] == x && x !in s[..i]
    ensures FirstIndex(s, x) == Some(i)
  {
  }

  /**
   * Appending `y` keeps an earlier first occurrence of `x`; otherwise `x`
   * first occurs at the end when it is `y`, and not at all when it is not.
   */
  lemma FirstIndexAppend<T>(s: seq<T>, y: T, x: T)
    ensures FirstIndex(s + [y], x) == if x in s then FirstIndex(s, x) else if x == y then Some(|s|) else None
  {
    if x in s {
      var i := FirstIndex(s, x).value;
      assert (s + [y])[..i] == s[..i];
      FirstIndexAt(s + [y], x, i);
    } else if x == y {
      assert (s + [y])[..|s|] == s;
      FirstIndexAt(s + [y], x, |s|);
    }
  }

  /**
   * Once index `i` holds `x`, the first occurrence of `x` is at `i` or is
   * the earlier one it had before.
   */
  lemma FirstIndexUpdate<T>(s: seq<T>, i: nat, x: T)
    requires i < |s|
    ensures FirstIndex(s[i := x], x).Some?
    ensures FirstIndex(s[i := x], x).value == i || FirstIndex(s[i := x], x) == FirstIndex(s, x)
  {
    var t := s[i := x];
    assert t[..i] == s[..i];
    match FirstIndex(s, x)
    case Some(j) =>
      if j < i {
        assert t[..j] == s[..j];
        FirstIndexAt(t, x, j);
      } else {
        assert s[..i] == s[..j][..i];
        FirstIndexAt(t, x, i);
      }
    case None =>
      FirstIndexAt(t, x, i);
  }

  /** The values of the present entries of `s`, in order. */
  function Present(s: seq<Option<Handle>>): (r: seq<Handle>)
    ensures |r| <= |s|
  {
    if |s| == 0 then []
    else Present(s[..|s| - 1]) + (if s[|s| - 1].Some? then [s[|s| - 1].value] else [])
  }

  /** `Present` keeps exactly the handles that are present. */
  lemma {:induction false} PresentMembers(s: seq<Option<Handle>>)
    ensures forall x :: x in Present(s) <==> Some(x) in s
  {
    if |s| > 0 {
      var init, last := s[..|s| - 1], s[|s| - 1];
      assert s == init + [last];
      PresentMembers(init);
    }
  }

  /** A context-menu button: its name (and title) and the event a click fires. */
  datatype MenuButton = MenuButton(buttonName: string, eventName: string)

  /** The buttons every context menu starts with. */
  function DefaultButtons(): seq<MenuButton>
  {
    [MenuButton("edit", "contextMenuEdit"), MenuButton("delete", "contextMenuDelete")]
  }

  /**
   * What `removeButton` receives: the name string its callers pass, or an
   * entry object taken from the button list itself.
   */
  datatype ButtonArg = NameArg(name: string) | EntryArg(entry: MenuButton)

  /**
   * `buttons.indexOf(arg)`: strict equality never holds between a string
   * and a button object, so a name is never found; an entry is found at its
   * first occurrence.
   */
  function ButtonIndex(buttons: seq<MenuButton>, arg: ButtonArg): (r: int)
    ensures -1 <= r < |buttons|
    ensures r == -1 <==> arg.NameArg? || arg.entry !in buttons
    ensures r >= 0 ==> arg.EntryArg? && buttons[r] == arg.entry && arg.entry !in buttons[..r]
  {
    match arg
    case NameArg(_) => -1
    case EntryArg(b) =>
      match FirstIndex(buttons, b)
      case None => -1
      case Some(i) => i
  }

  /** A DOM child of a context menu. */
  datatype MenuNode = CoordinatePicker | ButtonBox | ButtonNode(buttonName: string, eventName: string)

  /** The nodes `addToMenu` creates for a list of buttons, in list order. */
  function ButtonNodes(buttons: seq<MenuButton>): (r: seq<MenuNode>)
    ensures |r| == |buttons|
  {
    if |buttons| == 0 then []
    else
      var init := buttons[..|buttons| - 1];
      var b := buttons[|buttons| - 1];
      ButtonNodes(init) + [ButtonNode(b.buttonName, b.eventName)]
  }

  /** The `i`-th node is the `i`-th button's. */
  lemma {:induction false} ButtonNodesAt(buttons: seq<MenuButton>, i: nat)
    requires i < |buttons|
    ensures ButtonNodes(buttons)[i] == ButtonNode(buttons[i].buttonName, buttons[i].eventName)
  {
    if i < |buttons| - 1 {
      ButtonNodesAt(buttons[..|buttons| - 1], i);
    }
  }

  /** The children left after `node` is moved out (jQuery keeps a node in one place). */
  function Without(s: seq<MenuNode>, node: MenuNode): (r: seq<MenuNode>)
    ensures node !in r
    ensures forall n :: n != node ==> (n in r <==> n in s)
    ensures node !in s ==> r == s
  {
    if |s| == 0 then []
    else if s[0] == node then Without(s[1..], node)
    else [s[0]] + Without(s[1..], node)
  }
}
