/** The window manager: it redraws and presents only the bounding box of what changed, and the
    framebuffer is nevertheless what a full redraw would show. */
module Compositor {
  import opened Desktop
  import opened Graphics
  import opened Wrappers

  // ---- what the mouse does to the windows ----

  datatype Desk = Desk(windows: seq<Window>, count: int, dragging: Option<nat>, offX: int, offY: int)

  /** In-use windows are well formed and their layers are distinct numbers below the counter. */
  ghost predicate Layered(ws: seq<Window>, count: int)
  {
    && |ws| == MAX_WINDOWS && 0 <= count
    && (forall i :: 0 <= i < |ws| && ws[i].inUse ==> Formed(ws[i]) && 0 <= ws[i].layer < count)
    && (forall i, j :: 0 <= i < j < |ws| && ws[i].inUse && ws[j].inUse ==> ws[i].layer != ws[j].layer)
  }

  /** The title bar is on a screen of the given size, and the window can be dragged there without leaving it. */
  predicate Placed(w: Window, screenW: int, screenH: int)
  {
    0 <= w.x && w.x + w.width <= screenW && TITLEBAR_H <= w.y <= screenH && w.height + TITLEBAR_H <= screenH
  }

  ghost predicate DeskOk(d: Desk, screenW: int, screenH: int)
  {
    && Layered(d.windows, d.count)
    && (forall i :: 0 <= i < |d.windows| && d.windows[i].inUse ==> Placed(d.windows[i], screenW, screenH))
    && (d.dragging.Some? ==> d.dragging.value < |d.windows| && d.windows[d.dragging.value].inUse)
  }

  /** A point of the title bar that is not on the close button. */
  ghost function Grips(x: int, y: int): Window -> bool
  {
    (w: Window) => OnTitlebar(w, x, y) && !OnClose(w, x, y)
  }

  ghost function HitTest(ws: seq<Window>, x: int, y: int): Option<nat>
  {
    Highest(ws, |ws|, Grips(x, y))
  }

  /** The hit test picks the window painted last among those whose title bar, outside the close button,
      holds the point. */
  lemma HitIsLastPainted(ws: seq<Window>, order: seq<nat>, x: int, y: int)
    requires IsPaintOrder(ws, order)
    ensures HitTest(ws, x, y) == LastOf(ws, order, Grips(x, y))
  {
    LastIsHighest(ws, order, Grips(x, y));
  }

  /** A press on a title bar raises its window and starts a drag; a release ends it. */
  ghost function Pressed(d: Desk, mx: int, my: int, leftDown: bool, leftWasDown: bool): Desk
  {
    if leftDown && !leftWasDown then
      HighestIs(d.windows, |d.windows|, Grips(mx, my));
      match HitTest(d.windows, mx, my)
      case None => d
      case Some(i) =>
        var w := d.windows[i];
        Desk(d.windows[i := w.(layer := d.count)], d.count + 1, Some(i), mx - w.x, my - w.y)
    else if !leftDown then d.(dragging := None)
    else d
  }

  function DraggedX(w: Window, x: int, screenW: int): int
  {
    var x' := if x < 0 then 0 else x;
    if x' + w.width > screenW then screenW - w.width else x'
  }

  function DraggedY(w: Window, y: int, screenH: int): int
  {
    var y' := if y < TITLEBAR_H then TITLEBAR_H else y;
    if y' + w.height > screenH then screenH - w.height else y'
  }

  /** A dragged window follows the mouse and stops at the edges of the screen. */
  function Dragged(d: Desk, mx: int, my: int, screenW: int, screenH: int): Desk
  {
    if d.dragging.Some? && d.dragging.value < |d.windows| then
      var w := d.windows[d.dragging.value];
      d.(windows := d.windows[d.dragging.value :=
          w.(x := DraggedX(w, mx - d.offX, screenW), y := DraggedY(w, my - d.offY, screenH))])
    else d
  }

  lemma RaiseKeepsLayers(ws: seq<Window>, count: int, i: nat)
    requires Layered(ws, count) && i < |ws| && ws[i].inUse
    ensures Layered(ws[i := ws[i].(layer := count)], count + 1)
  {
    hide TextFits;
    assert Formed(ws[i].(layer := count));
  }

  /** A raised window covers every other one: the pixels it paints now show it. */
  lemma RaisedIsOnTop(ws: seq<Window>, count: int, i: nat, px: int, py: int)
    requires Layered(ws, count) && i < |ws| && ws[i].inUse && WindowPixel(ws[i], px, py).Some?
    ensures Some(Stacked(ws[i := ws[i].(layer := count)], BACKGROUND, px, py)) == WindowPixel(ws[i], px, py)
  {
    hide Formed;
    var ws' := ws[i := ws[i].(layer := count)];
    assert WindowPixel(ws'[i], px, py) == WindowPixel(ws[i], px, py) by { LayerIsNotSeen(ws[i], count, px, py); }
    assert Paints(px, py)(ws'[i]);
    HighestIs(ws', |ws'|, Paints(px, py));
  }

  lemma LayerIsNotSeen(w: Window, layer: int, px: int, py: int)
    ensures WindowPixel(w.(layer := layer), px, py) == WindowPixel(w, px, py)
  {
  }

  lemma PressKeepsDesk(d: Desk, mx: int, my: int, leftDown: bool, leftWasDown: bool, screenW: int, screenH: int)
    requires DeskOk(d, screenW, screenH)
    ensures DeskOk(Pressed(d, mx, my, leftDown, leftWasDown), screenW, screenH)
  {
    hide Formed;
    HighestIs(d.windows, |d.windows|, Grips(mx, my));
    if leftDown && !leftWasDown && HitTest(d.windows, mx, my).Some? {
      RaiseKeepsLayers(d.windows, d.count, HitTest(d.windows, mx, my).value);
    }
  }

  lemma DragKeepsDesk(d: Desk, mx: int, my: int, screenW: int, screenH: int)
    requires DeskOk(d, screenW, screenH)
    ensures DeskOk(Dragged(d, mx, my, screenW, screenH), screenW, screenH)
  {
    hide TextFits;
    if d.dragging.Some? {
      var i := d.dragging.value;
      var w := Dragged(d, mx, my, screenW, screenH).windows[i];
      assert Formed(d.windows[i]) && Placed(d.windows[i], screenW, screenH);
      assert Formed(w) && Placed(w, screenW, screenH);
    }
  }

  // ---- dragging, in terms of what the user sees ----

  /** The title bar, 24 pixels high, without the close box of 16 by 16 at its right end. */
  lemma GripsIs(w: Window, x: int, y: int)
    ensures Grips(x, y)(w)
            <==> && w.x <= x < w.x + w.width && w.y - 24 <= y < w.y
                 && !(w.x + w.width - 20 <= x < w.x + w.width - 4 && w.y - 20 <= y < w.y - 4)
  {
  }

  /** A window at `corner` keeps the mouse where it was gripped, `off` from its corner, unless one side of the
      range from `lo` to `hi` stops it. */
  predicate Sticks(corner: int, mouse: int, off: int, lo: int, hi: int)
  {
    || (lo <= corner <= hi && mouse - corner == off)
    || (corner == lo && mouse - corner < off)
    || (corner == hi && mouse - corner > off)
  }

  /** What a frame does with the mouse. With the button up nothing is held and nothing moves. A press takes hold
      of the topmost window whose title bar is under the mouse and raises it, or changes nothing. As long as
      the button stays down the window held sticks to the mouse, within the screen, and no other moves. */
  ghost predicate MouseLaw(d: Desk, d': Desk, mx: int, my: int, leftDown: bool, leftWasDown: bool,
                           screenW: int, screenH: int)
  {
    && |d'.windows| == |d.windows|
    && (!leftDown ==> d'.dragging.None? && d'.windows == d.windows && d'.count == d.count)
    && (leftDown && !leftWasDown && d.dragging.None? ==>
          (forall j :: 0 <= j < |d.windows| && d.windows[j].inUse ==> !Grips(mx, my)(d.windows[j])) ==> d' == d)
    && (leftDown && !leftWasDown ==>
          (exists j :: 0 <= j < |d.windows| && d.windows[j].inUse && Grips(mx, my)(d.windows[j])) ==>
          && d'.dragging.Some? && d'.dragging.value < |d.windows|
          && var w := d.windows[d'.dragging.value];
             && w.inUse && Grips(mx, my)(w) && d'.offX == mx - w.x && d'.offY == my - w.y
             && (forall j :: 0 <= j < |d.windows| && d.windows[j].inUse && Grips(mx, my)(d.windows[j]) ==>
                   d.windows[j].layer <= w.layer)
             && d'.windows[d'.dragging.value].layer == d.count && d'.count == d.count + 1)
    && (leftDown && leftWasDown ==>
          && d'.dragging == d.dragging && d'.offX == d.offX && d'.offY == d.offY && d'.count == d.count
          && (d.dragging.None? ==> d' == d)
          && forall j :: 0 <= j < |d.windows| ==> d'.windows[j].layer == d.windows[j].layer)
    && (leftDown && d'.dragging.Some? ==>
          && d'.dragging.value < |d'.windows|
          && var w, w' := d.windows[d'.dragging.value], d'.windows[d'.dragging.value];
             && w' == w.(x := w'.x, y := w'.y, layer := w'.layer)
             && Sticks(w'.x, mx, d'.offX, 0, screenW - w.width)
             && Sticks(w'.y, my, d'.offY, 24, screenH - w.height)
             && forall j :: 0 <= j < |d.windows| && j != d'.dragging.value ==> d'.windows[j] == d.windows[j])
  }

  lemma MouseLawHolds(d: Desk, mx: int, my: int, leftDown: bool, leftWasDown: bool, screenW: int, screenH: int)
    requires DeskOk(d, screenW, screenH)
    ensures MouseLaw(d, Dragged(Pressed(d, mx, my, leftDown, leftWasDown), mx, my, screenW, screenH),
                     mx, my, leftDown, leftWasDown, screenW, screenH)
  {
    hide Formed, Grips, Layered;
    HighestIs(d.windows, |d.windows|, Grips(mx, my));
    PressKeepsDesk(d, mx, my, leftDown, leftWasDown, screenW, screenH);
  }

  // ---- sorting by layer ----

  lemma InsertKeepsOrder(ws: seq<Window>, i: nat, order: seq<nat>, j: nat, count: int)
    requires Layered(ws, count) && i < |ws| && IsOrderOf(ws, i, order) && ws[i].inUse && j <= |order|
    requires forall k :: j <= k < |order| ==> ws[order[k]].layer > ws[i].layer
    requires j > 0 ==> ws[order[j - 1]].layer <= ws[i].layer
    ensures IsOrderOf(ws, i + 1, order[..j] + [i] + order[j..])
  {
    hide Formed;
    var order' := order[..j] + [i] + order[j..];
    forall k | 0 <= k < j ensures ws[order[k]].layer < ws[i].layer {
      assert ws[order[k]].layer <= ws[order[j - 1]].layer;
    }
    InsertedMembers(order, i, j);
    InsertedSorted(ws, i, order, j);
  }

  lemma InsertedIs(order: seq<nat>, order': seq<nat>, i: nat, j: nat)
    requires j <= |order| && |order'| == |order| + 1 && order'[j] == i
    requires forall k :: 0 <= k < j ==> order'[k] == order[k]
    requires forall k :: j <= k < |order| ==> order'[k + 1] == order[k]
    ensures order' == order[..j] + [i] + order[j..]
  {
    assert forall k :: j < k < |order'| ==> order'[k] == order[k - 1];
  }

  lemma InsertedMembers(order: seq<nat>, i: nat, j: nat)
    requires j <= |order|
    ensures forall m :: m in order[..j] + [i] + order[j..] <==> m == i || m in order
  {
    var order' := order[..j] + [i] + order[j..];
    forall m | m in order ensures m in order' {
      var k :| 0 <= k < |order| && order[k] == m;
      assert order'[if k < j then k else k + 1] == m;
    }
    assert order'[j] == i;
  }

  lemma InsertedSorted(ws: seq<Window>, i: nat, order: seq<nat>, j: nat)
    requires i < |ws| && j <= |order| && forall k :: 0 <= k < |order| ==> order[k] < |ws|
    requires forall a, b :: 0 <= a < b < |order| ==> ws[order[a]].layer < ws[order[b]].layer
    requires forall k :: 0 <= k < j ==> ws[order[k]].layer < ws[i].layer
    requires forall k :: j <= k < |order| ==> ws[order[k]].layer > ws[i].layer
    ensures var order' := order[..j] + [i] + order[j..];
            && (forall k :: 0 <= k < |order'| ==> order'[k] < |ws|)
            && forall a, b :: 0 <= a < b < |order'| ==> ws[order'[a]].layer < ws[order'[b]].layer
  {
    var order' := order[..j] + [i] + order[j..];
    assert forall k :: 0 <= k < |order'| ==>
        order'[k] == if k < j then order[k] else if k == j then i else order[k - 1];
  }

  lemma OrderInRange(ws: seq<Window>, i: nat, order: seq<nat>)
    requires i <= |ws| && IsOrderOf(ws, i, order)
    ensures forall k :: 0 <= k < |order| ==> order[k] < i
  {
  }

  lemma OrderOfNone(ws: seq<Window>)
    ensures IsOrderOf(ws, 0, [])
  {
  }

  lemma OrderSkips(ws: seq<Window>, i: nat, order: seq<nat>)
    requires i < |ws| && IsOrderOf(ws, i, order) && !ws[i].inUse
    ensures IsOrderOf(ws, i + 1, order)
  {
  }

  lemma OrderIsShort(ws: seq<Window>, i: nat, order: seq<nat>)
    requires i <= |ws| && IsOrderOf(ws, i, order)
    ensures |order| <= i
  {
    DistinctBelow(order, i);
  }

  lemma {:induction false} DistinctBelow(s: seq<nat>, n: nat)
    requires forall k :: 0 <= k < |s| ==> s[k] < n
    requires forall j, k :: 0 <= j < k < |s| ==> s[j] != s[k]
    ensures |s| <= n
    decreases n
  {
    if s != [] {
      assert s[0] < n;
      if k :| 0 <= k < |s| && s[k] == n - 1 {
        DistinctBelow(s[..k] + s[k + 1..], n - 1);
      } else {
        DistinctBelow(s, n - 1);
      }
    }
  }

  /** The colours of a window laid over a pixel do not depend on the state of the others. */
  lemma PaintedNext(ws: seq<Window>, order: seq<nat>, k: nat, under: Color, px: int, py: int)
    requires forall j :: 0 <= j < |order| ==> order[j] < |ws|
    requires k < |order|
    ensures Painted(ws, order[..k + 1], under, px, py)
            == Over(WindowPixel(ws[order[k]], px, py), Painted(ws, order[..k], under, px, py))
  {
    hide WindowPixel;
    assert order[..k + 1][..k] == order[..k];
  }

  ghost predicate SameExtents(v: Window, w: Window)
  {
    forall px, py :: InExtents(v, px, py) <==> InExtents(w, px, py)
  }

  /** Outside a box that holds two versions of a window. */
  lemma OutsideTwice(b: Box, v: Window, w: Window, px: int, py: int)
    requires !Holds(GrowWindow(GrowWindow(b, v), w), px, py)
    ensures !Holds(b, px, py) && !InExtents(v, px, py) && !InExtents(w, px, py)
  {
  }

  lemma OutsideWindow(b: Box, v: Window, px: int, py: int)
    requires !Holds(GrowWindow(b, v), px, py)
    ensures !Holds(b, px, py) && !InExtents(v, px, py)
  {
  }

  lemma OutsideCursor(b: Box, x: int, y: int, x': int, y': int, px: int, py: int)
    requires x != x' || y != y'
    requires !Holds(CursorBox(b, x, y, x', y'), px, py)
    ensures !Holds(b, px, py)
    ensures !InRect(x - 2, y - 2, CURSOR_W + 4, CURSOR_H + 4, px, py)
    ensures !InRect(x' - 2, y' - 2, CURSOR_W + 4, CURSOR_H + 4, px, py)
  {
  }

  /** The box that the next frame repaints. */
  ghost function FrameBoxOf(d: Desk, b: Box, lastMx: int, lastMy: int, lastLeft: bool, mx: int, my: int, leftDown: bool,
                            screenW: int, screenH: int): Box
  {
    var pressed := PressBox(d, b, mx, my, leftDown, lastLeft);
    var dragged := DragBox(Pressed(d, mx, my, leftDown, lastLeft), pressed, mx, my, screenW, screenH);
    CursorBox(dragged, lastMx, lastMy, mx, my)
  }

  /** It holds all that was marked before. */
  lemma FrameBoxHolds(d: Desk, b: Box, lastMx: int, lastMy: int, lastLeft: bool, mx: int, my: int, leftDown: bool,
                      screenW: int, screenH: int, px: int, py: int)
    requires Holds(b, px, py)
    ensures Holds(FrameBoxOf(d, b, lastMx, lastMy, lastLeft, mx, my, leftDown, screenW, screenH), px, py)
  {
    hide HitTest, Pressed, Dragged, PressBox, DragBox, CursorBox;
    var pressed := PressBox(d, b, mx, my, leftDown, lastLeft);
    var d1 := Pressed(d, mx, my, leftDown, lastLeft);
    PressBoxHolds(d, b, mx, my, leftDown, lastLeft, px, py);
    DragBoxHolds(d1, pressed, mx, my, screenW, screenH, px, py);
    CursorBoxHolds(DragBox(d1, pressed, mx, my, screenW, screenH), lastMx, lastMy, mx, my, px, py);
  }

  lemma PressBoxHolds(d: Desk, b: Box, mx: int, my: int, leftDown: bool, leftWasDown: bool, px: int, py: int)
    requires Holds(b, px, py)
    ensures Holds(PressBox(d, b, mx, my, leftDown, leftWasDown), px, py)
  {
    hide HitTest;
  }

  lemma DragBoxHolds(d: Desk, b: Box, mx: int, my: int, screenW: int, screenH: int, px: int, py: int)
    requires Holds(b, px, py)
    ensures Holds(DragBox(d, b, mx, my, screenW, screenH), px, py)
  {
    hide Dragged;
  }

  lemma CursorBoxHolds(b: Box, lastMx: int, lastMy: int, mx: int, my: int, px: int, py: int)
    requires Holds(b, px, py)
    ensures Holds(CursorBox(b, lastMx, lastMy, mx, my), px, py)
  {
  }

  /** The colour of a pixel once a window is on top of all others. */
  function NewColor(w: Window, mx: int, my: int, before: Color, px: int, py: int): Color
  {
    if WindowPixel(w, px, py).Some? then Over(CursorPixel(mx, my, px, py), WindowPixel(w, px, py).value) else before
  }

  lemma NewWindowColor(ws: seq<Window>, count: int, i: nat, w: Window, mx: int, my: int, px: int, py: int)
    requires Layered(ws, count) && i < |ws| && !ws[i].inUse && w.inUse && w.layer == count
    ensures Shown(ws[i := w], mx, my, px, py) == NewColor(w, mx, my, Shown(ws, mx, my, px, py), px, py)
  {
    hide Formed, WindowPixel;
    if WindowPixel(w, px, py).Some? {
      var ws' := ws[i := w];
      assert ws'[i] == w && Paints(px, py)(ws'[i]);
      HighestIs(ws', |ws'|, Paints(px, py));
    } else {
      ReplacedElsewhere(ws, i, w, mx, my, px, py);
    }
  }

  lemma RaiseKeepsExtents(w: Window, layer: int)
    ensures SameExtents(w, w.(layer := layer))
  {
  }

  /** A pixel outside the boxes of a window before and after a change shows the same. */
  lemma ChangedElsewhere(ws: seq<Window>, i: nat, w: Window, mx: int, my: int, px: int, py: int)
    requires i < |ws| && Formed(ws[i]) && Formed(w) && !InExtents(ws[i], px, py) && !InExtents(w, px, py)
    ensures Shown(ws[i := w], mx, my, px, py) == Shown(ws, mx, my, px, py)
  {
    hide Formed, Shown, WindowPixel, InExtents;
    if WindowPixel(ws[i], px, py).Some? { WindowInExtents(ws[i], px, py); }
    if WindowPixel(w, px, py).Some? { WindowInExtents(w, px, py); }
    ReplacedElsewhere(ws, i, w, mx, my, px, py);
  }

  function Min(a: int, b: int): int { if a < b then a else b }

  function Max(a: int, b: int): int { if a > b then a else b }

  // ---- the dirty box ----

  /** The bounding box of what is marked, if anything is. */
  datatype Box = Clean | Box(x0: int, y0: int, x1: int, y1: int)

  predicate Holds(b: Box, px: int, py: int)
  {
    b.Box? && b.x0 <= px < b.x1 && b.y0 <= py < b.y1
  }

  /** The smallest box around a box and a rectangle. */
  function Grow(b: Box, x: int, y: int, w: int, h: int): Box
  {
    if b.Clean? then Box(x, y, x + w, y + h)
    else Box(Min(b.x0, x), Min(b.y0, y), Max(b.x1, x + w), Max(b.y1, y + h))
  }

  function GrowWindow(b: Box, w: Window): Box
  {
    Grow(b, w.x - 2, w.y - TITLEBAR_H - 2, w.width + 4, w.height + TITLEBAR_H + 4)
  }

  lemma GrowHolds(b: Box, x: int, y: int, w: int, h: int, px: int, py: int)
    requires Holds(b, px, py) || InRect(x, y, w, h, px, py)
    ensures Holds(Grow(b, x, y, w, h), px, py)
  {
  }

  /** What a press marks: the window raised. */
  ghost function PressBox(d: Desk, b: Box, mx: int, my: int, leftDown: bool, leftWasDown: bool): Box
  {
    HighestIs(d.windows, |d.windows|, Grips(mx, my));
    if leftDown && !leftWasDown && HitTest(d.windows, mx, my).Some?
    then GrowWindow(b, d.windows[HitTest(d.windows, mx, my).value]) else b
  }

  /** What a drag marks: where a window was and where it is, when it moves. */
  function DragBox(d: Desk, b: Box, mx: int, my: int, screenW: int, screenH: int): Box
  {
    if d.dragging.Some? && d.dragging.value < |d.windows| then
      var v := d.windows[d.dragging.value];
      var w := Dragged(d, mx, my, screenW, screenH).windows[d.dragging.value];
      if v.x != w.x || v.y != w.y then GrowWindow(GrowWindow(b, v), w) else b
    else b
  }

  /** What the cursor marks: where it was and where it is, when it moves. */
  function CursorBox(b: Box, lastMx: int, lastMy: int, mx: int, my: int): Box
  {
    if mx != lastMx || my != lastMy
    then Grow(Grow(b, lastMx - 2, lastMy - 2, CURSOR_W + 4, CURSOR_H + 4), mx - 2, my - 2, CURSOR_W + 4, CURSOR_H + 4)
    else b
  }

  lemma FormedParts(w: Window)
    requires Formed(w)
    ensures w.width >= 0 && w.height >= 0 && |w.content| == w.width * w.height
  {
  }

  lemma FormedInUse(ws: seq<Window>, count: int, i: nat)
    requires Layered(ws, count) && i < |ws| && ws[i].inUse
    ensures Formed(ws[i]) && forall x, y :: Formed(ws[i].(x := x, y := y))
  {
    hide TextFits;
  }

  /** A window's new contents are seen only where its contents are. */
  lemma ContentElsewhere(w: Window, content: seq<Color>, px: int, py: int)
    ensures InRect(w.x, w.y, w.width, w.height, px, py) || SameAt(w, w.(content := content), px, py)
  {
  }

  lemma ShownIs(ws: seq<Window>, mx: int, my: int, px: int, py: int)
    ensures Shown(ws, mx, my, px, py) == Over(CursorPixel(mx, my, px, py), Stacked(ws, BACKGROUND, px, py))
  {
  }

  /** A new window: at most 31 characters of title, contents in the background colour. */
  function Fresh(title: seq<Glyph>, x: int, y: int, w: int, h: int, layer: int): Window
    requires w >= 0 && h >= 0
  {
    AreaIsNat(w, h);
    Window(x, y, w, h, if |title| < 31 then title else title[..31], seq(w * h, _ => BACKGROUND), layer, true)
  }

  /** A new window is where it was asked for, in use, with contents all in the background colour. */
  lemma NewWindowIs(title: seq<Glyph>, x: int, y: int, w: int, h: int, layer: int)
    requires w >= 0 && h >= 0
    ensures var win := Fresh(title, x, y, w, h, layer);
            && win.x == x && win.y == y && win.width == w && win.height == h && win.layer == layer && win.inUse
            && |win.content| == w * h && (forall k :: 0 <= k < |win.content| ==> win.content[k] == 0xFF16091F)
            && win.title <= title && |win.title| == (if |title| <= 31 then |title| else 31)
  {
  }

  lemma AreaIsNat(w: int, h: int)
    requires w >= 0 && h >= 0
    ensures w * h >= 0
  {
  }

  lemma FreshIs(title: seq<Glyph>, x: int, y: int, w: int, h: int, layer: int)
    requires w >= 0 && h >= 0
    ensures Fresh(title, x, y, w, h, layer).inUse && Fresh(title, x, y, w, h, layer).layer == layer
  {
  }

  /** What happens to the window manager: a timer tick with the mouse's state; a task that redraws the
      contents of its window and marks them and `above` rows over them; a new window with a mark. */
  datatype Event =
    | Tick(mx: int, my: int, leftDown: bool)
    | Content(slot: nat, content: seq<Color>, above: nat)
    | Create(title: seq<Glyph>, x: int, y: int, w: int, h: int, rx: int, ry: int, rw: int, rh: int)

  /** A new window can be shown, and the mark holds every pixel of the screen that it paints. */
  ghost predicate Marked(e: Event, screenW: int, screenH: int)
  {
    e.Create? ==>
      && e.w >= 0 && e.h >= 0
      && var made := Fresh(e.title, e.x, e.y, e.w, e.h, 0);
      && Formed(made) && Placed(made, screenW, screenH)
      && forall px, py :: InRect(0, 0, screenW, screenH, px, py) && WindowPixel(made, px, py).Some? ==>
           InRect(e.rx, e.ry, e.rw, e.rh, px, py)
  }

  lemma MarkedAnyLayer(e: Event, layer: int, screenW: int, screenH: int)
    requires e.Create? && Marked(e, screenW, screenH)
    ensures e.w >= 0 && e.h >= 0
    ensures var made := Fresh(e.title, e.x, e.y, e.w, e.h, layer);
            && Formed(made) && Placed(made, screenW, screenH)
            && forall px, py :: InRect(0, 0, screenW, screenH, px, py) && WindowPixel(made, px, py).Some? ==>
                 InRect(e.rx, e.ry, e.rw, e.rh, px, py)
  {
    hide TextFits, WindowPixel;
    var made := Fresh(e.title, e.x, e.y, e.w, e.h, 0);
    assert Fresh(e.title, e.x, e.y, e.w, e.h, layer) == made.(layer := layer);
    forall px, py ensures WindowPixel(made.(layer := layer), px, py) == WindowPixel(made, px, py) {
      LayerIsNotSeen(made, layer, px, py);
    }
  }

  lemma TitleOnScreen(w: Window, screenW: int, screenH: int, stride: int)
    requires Formed(w) && Placed(w, screenW, screenH) && screenW <= stride
    ensures TextFits(w.title, -(w.x + 6), -(w.y - TITLEBAR_H + 4), stride - (w.x + 6), screenH - (w.y - TITLEBAR_H + 4))
  {
    hide InkFits, TextWidth;
    forall k | 0 <= k < |w.title|
      ensures InkFits(w.title[k], -(w.x + 6) - TextWidth(w.title[..k]), -(w.y - TITLEBAR_H + 4),
                      stride - (w.x + 6) - TextWidth(w.title[..k]), screenH - (w.y - TITLEBAR_H + 4))
    {
      var t: int := TextWidth(w.title[..k]);
      InkFitsWider(w.title[k], -6 - t, -4, w.width - 6 - t, TITLEBAR_H - 4,
                   -(w.x + 6) - t, -(w.y - TITLEBAR_H + 4), stride - (w.x + 6) - t, screenH - (w.y - TITLEBAR_H + 4));
    }
  }

  lemma InkFitsWider(g: Glyph, x0: int, y0: int, x1: int, y1: int, x0': int, y0': int, x1': int, y1': int)
    requires InkFits(g, x0, y0, x1, y1) && x0' <= x0 && y0' <= y0 && x1 <= x1' && y1 <= y1'
    ensures InkFits(g, x0', y0', x1', y1')
  {
  }

  class WindowManager {
    const screen: Screen
    const windows: array<Window>
    var windowCount: int
    var haveDirty: bool
    var dx0: int
    var dy0: int
    var dx1: int
    var dy1: int
    var dragging: Option<nat>
    var dragOffsetX: int
    var dragOffsetY: int
    var lastMx: int
    var lastMy: int
    var lastLeft: bool

    ghost function Model(): Desk
      reads this, windows
    {
      Desk(windows[..], windowCount, dragging, dragOffsetX, dragOffsetY)
    }

    ghost predicate Valid()
      reads this, windows
    {
      screen.Valid() && DeskOk(Model(), screen.width, screen.height)
    }

    lemma EightWindows()
      requires Valid()
      ensures windows.Length == MAX_WINDOWS
    {
    }

    constructor (screen: Screen)
      requires screen.Valid()
      ensures Valid() && this.screen == screen && fresh(windows) && windowCount == 0 && !haveDirty && dragging.None?
      ensures forall i :: 0 <= i < windows.Length ==> !windows[i].inUse
    {
      this.screen := screen;
      windows := new Window[MAX_WINDOWS](_ => Window(0, 0, 0, 0, [], [], 0, false));
      windowCount, haveDirty, dx0, dy0, dx1, dy1 := 0, false, 0, 0, 0, 0;
      dragging, dragOffsetX, dragOffsetY := None, 0, 0;
      lastMx, lastMy, lastLeft := 0, 0, false;
    }

    function DirtyBox(): Box
      reads this`haveDirty, this`dx0, this`dy0, this`dx1, this`dy1
    {
      if haveDirty then Box(dx0, dy0, dx1, dy1) else Clean
    }

    predicate Dirty(px: int, py: int)
      reads this`haveDirty, this`dx0, this`dy0, this`dx1, this`dy1
    {
      Holds(DirtyBox(), px, py)
    }

    /** What the screen should show on a pixel now. */
    ghost function Target(px: int, py: int): Color
      reads this`lastMx, this`lastMy, windows
    {
      Shown(windows[..], lastMx, lastMy, px, py)
    }

    /** The framebuffer shows the windows and the cursor. */
    ghost predicate AllShown()
      requires screen.Valid()
      reads this, windows, screen.front
    {
      forall px, py :: screen.OnScreen(px, py) ==> screen.front[py, px] == Target(px, py)
    }

    /** The framebuffer shows the windows and the cursor on every pixel that is not marked. */
    ghost predicate InSync()
      requires screen.Valid()
      reads this, windows, screen.front
    {
      forall px, py :: screen.OnScreen(px, py) && !Dirty(px, py) ==> screen.front[py, px] == Target(px, py)
    }

    // ---- marking ----

    /** Extend the dirty box to hold a rectangle. */
    method AddDirty(x: int, y: int, w: int, h: int)
      modifies this`haveDirty, this`dx0, this`dy0, this`dx1, this`dy1
      ensures DirtyBox() == Grow(old(DirtyBox()), x, y, w, h)
    {
      var x1, y1 := x + w, y + h;
      if !haveDirty {
        dx0, dy0, dx1, dy1, haveDirty := x, y, x1, y1, true;
      } else {
        if x < dx0 { dx0 := x; }
        if y < dy0 { dy0 := y; }
        if x1 > dx1 { dx1 := x1; }
        if y1 > dy1 { dy1 := y1; }
      }
    }

    method AddDirtyWindow(i: nat)
      requires i < windows.Length
      modifies this`haveDirty, this`dx0, this`dy0, this`dx1, this`dy1
      ensures DirtyBox() == GrowWindow(old(DirtyBox()), windows[i])
    {
      AddDirty(windows[i].x - 2, windows[i].y - TITLEBAR_H - 2, windows[i].width + 4,
          windows[i].height + TITLEBAR_H + 4);
    }

    // ---- hit test ----

    method TitlebarHitTest(x: int, y: int) returns (best: Option<nat>)
      requires Valid()
      ensures best == HitTest(windows[..], x, y)
    {
      hide Formed, Placed;
      best := None;
      ghost var ws := windows[..];
      var i := 0;
      while i < MAX_WINDOWS
        invariant 0 <= i <= MAX_WINDOWS && best == Highest(ws, i, Grips(x, y))
      {
        HighestIs(ws, i, Grips(x, y));
        var win := windows[i];
        assert win == ws[i];
        i := i + 1;
        if !win.inUse { continue; }
        if x < win.x || x >= win.x + win.width { continue; }
        if y < win.y - TITLEBAR_H || y >= win.y { continue; }
        var closeX0 := win.x + win.width - TITLEBAR_H + 4;
        if x >= closeX0 && x < closeX0 + (TITLEBAR_H - 8)
           && y >= win.y - TITLEBAR_H + 4 && y < win.y - TITLEBAR_H + 4 + (TITLEBAR_H - 8) { continue; }
        assert Grips(x, y)(win);
        if best.None? || win.layer > windows[best.value].layer { best := Some(i - 1); }
      }
    }

    // ---- drawing ----

    /** Insert window `i` into the sorted first `n` places of `order`. */
    method InsertByLayer(order: array<nat>, n: nat, i: nat)
      requires windows.Length == MAX_WINDOWS && Layered(windows[..], windowCount)
      requires i < MAX_WINDOWS && windows[i].inUse && n < order.Length && IsOrderOf(windows[..], i, order[..n])
      modifies order
      ensures IsOrderOf(windows[..], i + 1, order[..n + 1])
    {
      hide Layered, IsOrderOf;
      ghost var sorted, ws := order[..n], windows[..];
      OrderInRange(ws, i, sorted);
      var j := n;
      while j > 0 && windows[order[j - 1]].layer > windows[i].layer
        invariant 0 <= j <= n
        invariant forall k :: 0 <= k < j ==> order[k] == sorted[k]
        invariant forall k :: j <= k < n ==> order[k + 1] == sorted[k]
        invariant forall k :: j <= k < n ==> ws[sorted[k]].layer > ws[i].layer
      {
        assert order[j - 1] == sorted[j - 1];
        order[j] := order[j - 1];
        j := j - 1;
      }
      order[j] := i;
      if j > 0 { assert order[j - 1] == sorted[j - 1]; }
      InsertKeepsOrder(ws, i, sorted, j, windowCount);
      InsertedIs(sorted, order[..n + 1], i, j);
    }

    method SortByLayer() returns (order: array<nat>, n: nat)
      requires Valid()
      ensures n <= order.Length && IsPaintOrder(windows[..], order[..n])
    {
      hide Formed, Placed, HitTest, Shown, IsOrderOf;
      assert Layered(windows[..], windowCount);
      order := new nat[MAX_WINDOWS](_ => 0);
      n := 0;
      OrderOfNone(windows[..]);
      assert order[..0] == [];
      var i := 0;
      while i < MAX_WINDOWS
        invariant 0 <= i <= MAX_WINDOWS && n <= i && IsOrderOf(windows[..], i, order[..n])
        invariant fresh(order) && order.Length == MAX_WINDOWS
      {
        if windows[i].inUse {
          InsertByLayer(order, n, i);
          n := n + 1;
        } else {
          OrderSkips(windows[..], i, order[..n]);
        }
        i := i + 1;
        OrderIsShort(windows[..], i, order[..n]);
      }
    }

    method DrawWindow(w: Window)
      requires screen.Valid() && Formed(w) && Placed(w, screen.width, screen.height)
      modifies screen.back
      ensures forall px, py :: screen.OnScreen(px, py) && screen.InClip(px, py) ==>
                screen.back[py, px] == Over(WindowPixel(w, px, py), old(screen.back[py, px]))
    {
      hide Formed, TextFits, TextPixel, ContentPixel;
      FormedParts(w);
      TitleOnScreen(w, screen.width, screen.height, screen.stride);
      // the strip with the title
      screen.FillRect(w.x, w.y - TITLEBAR_H, w.width, TITLEBAR_H, TITLEBAR);
      screen.DrawString(w.x + 6, w.y - TITLEBAR_H + 4, w.title);
      // the box that closes the window
      screen.FillRect(w.x + w.width - TITLEBAR_H + 4, w.y - TITLEBAR_H + 4, TITLEBAR_H - 8, TITLEBAR_H - 8, CLOSE);
      // what the application shows
      screen.Blit(w.x, w.y, w.content, w.width, w.height);
      // one pixel all around
      screen.DrawRect(w.x - 1, w.y - TITLEBAR_H - 1, w.width + 2, w.height + TITLEBAR_H + 2, 1, BORDER);
    }

    /** Draw all windows, the lowest layer first; inside the clip the result is the stack of windows. */
    method Draw()
      requires Valid()
      modifies screen.back
      ensures forall px, py :: screen.OnScreen(px, py) && screen.InClip(px, py) ==>
                screen.back[py, px] == Stacked(windows[..], old(screen.back[py, px]), px, py)
    {
      hide Formed, Placed, WindowPixel, Stacked;
      ghost var ws := windows[..];
      var order, n := SortByLayer();
      ghost var sorted := order[..n];
      var k := 0;
      while k < n
        invariant 0 <= k <= n && order[..n] == sorted
        invariant forall px, py :: screen.OnScreen(px, py) && screen.InClip(px, py) ==>
                    screen.back[py, px] == Painted(ws, sorted[..k], old(screen.back[py, px]), px, py)
      {
        label L:
        assert order[k] == sorted[k];
        DrawWindow(windows[order[k]]);
        forall px, py | screen.OnScreen(px, py) && screen.InClip(px, py)
          ensures screen.back[py, px] == Painted(ws, sorted[..k + 1], old(screen.back[py, px]), px, py)
        {
          PaintedNext(ws, sorted, k, old(screen.back[py, px]), px, py);
        }
        k := k + 1;
      }
      assert sorted[..n] == sorted;
      forall px, py | screen.OnScreen(px, py) && screen.InClip(px, py)
        ensures screen.back[py, px] == Stacked(ws, old(screen.back[py, px]), px, py)
      {
        PaintingStacks(ws, sorted, old(screen.back[py, px]), px, py);
      }
    }

    // ---- changes ----

    /** Replace one window by another version of it and mark both boxes. */
    method ReplaceMarked(i: nat, w: Window)
      requires screen.Valid() && i < windows.Length && Formed(windows[i]) && Formed(w)
      modifies windows, this`haveDirty, this`dx0, this`dy0, this`dx1, this`dy1
      ensures windows[..] == old(windows[..])[i := w]
      ensures DirtyBox() == GrowWindow(GrowWindow(old(DirtyBox()), old(windows[i])), w)
      ensures forall px, py :: !Dirty(px, py) ==> !old(Dirty(px, py)) && Target(px, py) == old(Target(px, py))
    {
      hide Formed, Shown, Grow;
      ghost var ws, box := windows[..], DirtyBox();
      AddDirtyWindow(i);
      windows[i] := w;
      AddDirtyWindow(i);
      assert windows[..] == ws[i := w];
      forall px, py | !Dirty(px, py) ensures !old(Dirty(px, py)) && Target(px, py) == old(Target(px, py)) {
        OutsideTwice(box, ws[i], w, px, py);
        ChangedElsewhere(ws, i, w, lastMx, lastMy, px, py);
      }
    }

    method BringToFront(i: nat)
      requires Valid() && i < windows.Length && windows[i].inUse
      modifies windows, this`windowCount
      ensures Valid() && windowCount == old(windowCount) + 1
      ensures windows[..] == old(windows[..])[i := old(windows[i]).(layer := old(windowCount))]
    {
      hide TextFits;
      RaiseKeepsLayers(windows[..], windowCount, i);
      ghost var ws := windows[..];
      windows[i] := windows[i].(layer := windowCount);
      assert windows[..] == ws[i := ws[i].(layer := windowCount)];
      windowCount := windowCount + 1;
    }

    /** Raise a window and mark it. */
    method Raise(i: nat)
      requires Valid() && i < windows.Length && windows[i].inUse
      modifies windows, this`windowCount, this`haveDirty, this`dx0, this`dy0, this`dx1, this`dy1
      ensures Valid() && windowCount == old(windowCount) + 1
      ensures windows[..] == old(windows[..])[i := old(windows[i]).(layer := old(windowCount))]
      ensures DirtyBox() == GrowWindow(old(DirtyBox()), old(windows[i]))
      ensures forall px, py :: !Dirty(px, py) ==> !old(Dirty(px, py)) && Target(px, py) == old(Target(px, py))
    {
      hide Shown, InExtents, TextFits, WindowPixel, Grow;
      ghost var ws, box := windows[..], DirtyBox();
      BringToFront(i);
      AddDirtyWindow(i);
      RaiseKeepsExtents(ws[i], windows[i].layer);
      assert Formed(ws[i]) && Formed(windows[i]);
      forall px, py | !Dirty(px, py) ensures !old(Dirty(px, py)) && Target(px, py) == old(Target(px, py)) {
        OutsideWindow(box, ws[i], px, py);
        ChangedElsewhere(ws, i, windows[i], lastMx, lastMy, px, py);
      }
    }

    /** The mouse buttons: raise and grip a window, or let go, and move the window gripped. */
    method HandleButtons(mx: int, my: int, leftDown: bool)
      requires Valid()
      modifies windows, this`windowCount, this`dragging, this`dragOffsetX, this`dragOffsetY, this`lastLeft,
               this`haveDirty, this`dx0, this`dy0, this`dx1, this`dy1
      ensures Valid() && lastLeft == leftDown
      ensures var d := Pressed(old(Model()), mx, my, leftDown, old(lastLeft));
              && Model() == Dragged(d, mx, my, screen.width, screen.height)
              && DirtyBox() == DragBox(d, PressBox(old(Model()), old(DirtyBox()), mx, my, leftDown, old(lastLeft)),
                                       mx, my, screen.width, screen.height)
      ensures MouseLaw(old(Model()), Model(), mx, my, leftDown, old(lastLeft), screen.width, screen.height)
      ensures forall px, py :: !Dirty(px, py) ==> !old(Dirty(px, py)) && Target(px, py) == old(Target(px, py))
    {
      hide Shown, InExtents, TextFits, Highest, Layered, Grow, Holds, MouseLaw;
      MouseLawHolds(Model(), mx, my, leftDown, lastLeft, screen.width, screen.height);
      ghost var d := Model();
      PressKeepsDesk(d, mx, my, leftDown, lastLeft, screen.width, screen.height);
      DragKeepsDesk(Pressed(d, mx, my, leftDown, lastLeft), mx, my, screen.width, screen.height);
      var leftWasDown := lastLeft;
      lastLeft := leftDown;
      if leftDown && !leftWasDown {
        var hit := TitlebarHitTest(mx, my);
        HighestIs(d.windows, |d.windows|, Grips(mx, my));
        if hit.Some? {
          dragging := hit;
          dragOffsetX := mx - windows[hit.value].x;
          dragOffsetY := my - windows[hit.value].y;
          Raise(hit.value);
        }
      } else if !leftDown {
        dragging := None;
      }
      assert Model() == Pressed(d, mx, my, leftDown, leftWasDown);
      assert DirtyBox() == PressBox(d, old(DirtyBox()), mx, my, leftDown, leftWasDown);
      DragWindow(mx, my);
    }

    method DragWindow(mx: int, my: int)
      requires Valid()
      modifies windows, this`haveDirty, this`dx0, this`dy0, this`dx1, this`dy1
      ensures Valid() && Model() == Dragged(old(Model()), mx, my, screen.width, screen.height)
      ensures DirtyBox() == DragBox(old(Model()), old(DirtyBox()), mx, my, screen.width, screen.height)
      ensures forall px, py :: !Dirty(px, py) ==> !old(Dirty(px, py)) && Target(px, py) == old(Target(px, py))
    {
      hide Shown, InExtents, TextFits, Layered, Grow, Holds;
      ghost var d := Model();
      DragKeepsDesk(d, mx, my, screen.width, screen.height);
      if dragging.Some? {
        var i := dragging.value;
        var win := windows[i];
        var newX, newY := mx - dragOffsetX, my - dragOffsetY;
        if newX < 0 { newX := 0; }
        if newY < TITLEBAR_H { newY := TITLEBAR_H; }
        if newX + win.width > screen.width { newX := screen.width - win.width; }
        if newY + win.height > screen.height { newY := screen.height - win.height; }
        FormedInUse(d.windows, d.count, i);
        if newX != win.x || newY != win.y {
          ReplaceMarked(i, win.(x := newX, y := newY));
        } else {
          assert windows[..] == d.windows[i := win.(x := newX, y := newY)];
        }
      }
    }

    /** Follow the mouse: mark where the cursor was and where it is. */
    method HandleCursor(mx: int, my: int)
      requires Valid()
      modifies this`lastMx, this`lastMy, this`haveDirty, this`dx0, this`dy0, this`dx1, this`dy1
      ensures lastMx == mx && lastMy == my
      ensures DirtyBox() == CursorBox(old(DirtyBox()), old(lastMx), old(lastMy), mx, my)
      ensures forall px, py :: !Dirty(px, py) ==> !old(Dirty(px, py)) && Target(px, py) == old(Target(px, py))
    {
      hide Shown, Grow;
      ghost var box := DirtyBox();
      if mx != lastMx || my != lastMy {
        AddDirty(lastMx - 2, lastMy - 2, CURSOR_W + 4, CURSOR_H + 4);
        AddDirty(mx - 2, my - 2, CURSOR_W + 4, CURSOR_H + 4);
        lastMx, lastMy := mx, my;
        forall px, py | !Dirty(px, py) ensures !old(Dirty(px, py)) && Target(px, py) == old(Target(px, py)) {
          OutsideCursor(box, old(lastMx), old(lastMy), mx, my, px, py);
          CursorElsewhere(windows[..], old(lastMx), old(lastMy), mx, my, px, py);
        }
      }
    }

    /** Redraw and present the dirty box: exactly its pixels of the framebuffer become what they should be. */
    method Repaint(mx: int, my: int)
      requires Valid() && mx == lastMx && my == lastMy
      modifies screen, screen.back, screen.front, this`haveDirty, this`dx0, this`dy0, this`dx1, this`dy1
      ensures !haveDirty
      ensures forall px, py :: screen.OnScreen(px, py) ==>
                screen.front[py, px] == if old(Dirty(px, py)) then Target(px, py) else old(screen.front[py, px])
    {
      hide Stacked, DeskOk, CursorPixel;
      if haveDirty {
        if dx0 < 0 { dx0 := 0; }
        if dy0 < 0 { dy0 := 0; }
        if dx1 > screen.width { dx1 := screen.width; }
        if dy1 > screen.height { dy1 := screen.height; }
        var rx, ry, rw, rh := dx0, dy0, dx1 - dx0, dy1 - dy0;
        haveDirty := false;
        screen.SetClip(rx, ry, rw, rh);
        screen.FillRect(rx, ry, rw, rh, BACKGROUND);
        Draw();
        screen.DrawCursor(mx, my);
        screen.ResetClip();
        screen.PresentRect(rx, ry, rw, rh);
      }
    }

    /** The box that a frame repaints. */
    ghost function FrameBox(mx: int, my: int, leftDown: bool): Box
      reads this, windows
    {
      FrameBoxOf(Model(), DirtyBox(), lastMx, lastMy, lastLeft, mx, my, leftDown, screen.width, screen.height)
    }

    /** One frame: exactly its box is brought up to date. From a state in sync, everything is. */
    method Frame(mx: int, my: int, leftDown: bool)
      requires Valid()
      modifies this, windows, screen, screen.back, screen.front
      ensures Valid() && !haveDirty && lastMx == mx && lastMy == my && lastLeft == leftDown
      ensures Model() == Dragged(Pressed(old(Model()), mx, my, leftDown, old(lastLeft)),
              mx, my, screen.width, screen.height)
      ensures MouseLaw(old(Model()), Model(), mx, my, leftDown, old(lastLeft), screen.width, screen.height)
      ensures forall px, py :: screen.OnScreen(px, py) ==>
                screen.front[py, px]
                == if Holds(old(FrameBox(mx, my, leftDown)), px, py) then Target(px, py) else old(screen.front[py, px])
      ensures AllShown() <==>
                forall px, py :: screen.OnScreen(px, py) && old(screen.front[py, px]) != old(Target(px, py)) ==>
                  Holds(old(FrameBox(mx, my, leftDown)), px, py)
      ensures old(InSync()) ==> AllShown() && InSync()
    {
      hide Target, DeskOk, Pressed, Dragged, PressBox, DragBox, CursorBox, Holds, MouseLaw;
      MouseLawHolds(Model(), mx, my, leftDown, lastLeft, screen.width, screen.height);
      HandleButtons(mx, my, leftDown);
      HandleCursor(mx, my);
      Repaint(mx, my);
    }

    /** Frames with the button held down: through all of them the window held sticks to the mouse at the place
        where it was gripped. */
    method FramesHeld(mice: seq<(int, int)>)
      requires Valid() && lastLeft && dragging.Some? && mice != []
      modifies this, windows, screen, screen.back, screen.front
      ensures Valid() && lastLeft && dragging == old(dragging)
      ensures dragOffsetX == old(dragOffsetX) && dragOffsetY == old(dragOffsetY)
      ensures dragging.value < windows.Length && old(dragging.value) < windows.Length
      ensures var w, mouse := windows[dragging.value], mice[|mice| - 1];
              && w == old(windows[dragging.value]).(x := w.x, y := w.y)
              && Sticks(w.x, mouse.0, old(dragOffsetX), 0, screen.width - w.width)
              && Sticks(w.y, mouse.1, old(dragOffsetY), 24, screen.height - w.height)
      ensures forall j :: 0 <= j < windows.Length && Some(j) != dragging ==> windows[j] == old(windows[j])
    {
      hide DeskOk, Target, Dragged, Pressed, Sticks;
      EightWindows();
      HeldIsThere();
      var i := 0;
      while i < |mice|
        invariant 0 <= i <= |mice| && Valid() && lastLeft && dragging == old(dragging)
        invariant windows.Length == MAX_WINDOWS && dragging.value < windows.Length
        invariant dragOffsetX == old(dragOffsetX) && dragOffsetY == old(dragOffsetY)
        invariant var w := windows[dragging.value];
                  && w == old(windows[dragging.value]).(x := w.x, y := w.y)
                  && (i > 0 ==> && Sticks(w.x, mice[i - 1].0, old(dragOffsetX), 0, screen.width - w.width)
                                && Sticks(w.y, mice[i - 1].1, old(dragOffsetY), 24, screen.height - w.height))
        invariant forall j :: 0 <= j < windows.Length && Some(j) != dragging ==> windows[j] == old(windows[j])
      {
        ghost var before := windows[..];
        Frame(mice[i].0, mice[i].1, true);
        assert forall j :: 0 <= j < windows.Length ==> Model().windows[j] == windows[j];
        i := i + 1;
      }
    }

    lemma HeldIsThere()
      requires Valid() && dragging.Some?
      ensures dragging.value < windows.Length
    {
    }

    /** A task redraws the contents of its window and marks them, and the title bar if it likes. */
    method ChangeContent(i: nat, content: seq<Color>, above: nat)
      requires Valid() && i < windows.Length && windows[i].inUse && |content| == |windows[i].content|
      modifies windows, this`haveDirty, this`dx0, this`dy0, this`dx1, this`dy1
      ensures Valid() && windows[..] == old(windows[..])[i := old(windows[i]).(content := content)]
      ensures old(InSync()) ==> InSync()
    {
      hide Shown, TextFits, WindowPixel, Grips;
      ghost var ws := windows[..];
      var w := windows[i];
      windows[i] := w.(content := content);
      AddDirty(w.x, w.y - above, w.width, w.height + above);
      assert Formed(ws[i]) && Placed(ws[i], screen.width, screen.height);
      assert Formed(windows[i]) && windows[..] == ws[i := windows[i]];
      if old(InSync()) {
        forall px, py | screen.OnScreen(px, py) && !Dirty(px, py)
          ensures screen.front[py, px] == Shown(windows[..], lastMx, lastMy, px, py)
        {
          ContentElsewhere(w, content, px, py);
          ReplacedElsewhere(ws, i, windows[i], lastMx, lastMy, px, py);
        }
      }
    }

    /** Make a window in the first free slot, on top. Nothing is marked. */
    method CreateWindow(title: seq<Glyph>, x: int, y: int, w: int, h: int) returns (slot: Option<nat>)
      requires Valid() && w >= 0 && h >= 0
      requires var made := Fresh(title, x, y, w, h, windowCount);
               Formed(made) && Placed(made, screen.width, screen.height)
      modifies windows, this`windowCount
      ensures Valid()
      ensures slot.None? <==> forall i :: 0 <= i < MAX_WINDOWS ==> old(windows[i].inUse)
      ensures slot.None? ==> windows[..] == old(windows[..]) && windowCount == old(windowCount)
      ensures slot.Some? ==>
                && slot.value < MAX_WINDOWS && !old(windows[slot.value].inUse) && windowCount == old(windowCount) + 1
                && windows[..] == old(windows[..])[slot.value := Fresh(title, x, y, w, h, old(windowCount))]
                && forall px, py ::
                     Target(px, py) == NewColor(windows[slot.value], lastMx, lastMy, old(Target(px, py)), px, py)
    {
      hide Shown, TextFits, WindowPixel, Grips, InExtents, Fresh;
      ghost var ws := windows[..];
      var i := 0;
      while i < MAX_WINDOWS
        invariant 0 <= i <= MAX_WINDOWS && forall j :: 0 <= j < i ==> windows[j].inUse
      {
        if !windows[i].inUse {
          var made := Fresh(title, x, y, w, h, windowCount);
          FreshIs(title, x, y, w, h, windowCount);
          windows[i] := made;
          windowCount := windowCount + 1;
          assert windows[..] == ws[i := made];
          forall px, py ensures Target(px, py) == NewColor(made, lastMx, lastMy, old(Target(px, py)), px, py) {
            NewWindowColor(ws, old(windowCount), i, made, lastMx, lastMy, px, py);
          }
          return Some(i);
        }
        i := i + 1;
      }
      return None;
    }

    /** Make a window and mark a rectangle for it. What is unmarked stays in sync exactly when every pixel
        that the window paints, and that does not show it already, is marked. */
    method CreateAndMark(title: seq<Glyph>, x: int, y: int, w: int, h: int, rx: int, ry: int, rw: int, rh: int)
        returns (slot: Option<nat>)
      requires Valid() && w >= 0 && h >= 0
      requires var made := Fresh(title, x, y, w, h, windowCount);
               Formed(made) && Placed(made, screen.width, screen.height)
      modifies windows, this`windowCount, this`haveDirty, this`dx0, this`dy0, this`dx1, this`dy1
      ensures Valid() && DirtyBox() == Grow(old(DirtyBox()), rx, ry, rw, rh)
      ensures slot.None? <==> forall i :: 0 <= i < MAX_WINDOWS ==> old(windows[i].inUse)
      ensures slot.None? ==> windows[..] == old(windows[..]) && windowCount == old(windowCount)
      ensures slot.Some? ==>
                && slot.value < MAX_WINDOWS && !old(windows[slot.value].inUse) && windowCount == old(windowCount) + 1
                && windows[..] == old(windows[..])[slot.value := Fresh(title, x, y, w, h, old(windowCount))]
                && forall px, py ::
                     Target(px, py) == NewColor(windows[slot.value], lastMx, lastMy, old(Target(px, py)), px, py)
      ensures slot.None? && old(InSync()) ==> InSync()
      ensures slot.Some? && old(InSync()) ==>
                (InSync() <==>
                   forall px, py :: screen.OnScreen(px, py) && !Dirty(px, py) ==>
                     WindowPixel(windows[slot.value], px, py).Some? ==>
                     screen.front[py, px] == Target(px, py))
    {
      hide Shown, Formed, Placed, WindowPixel, Fresh, DeskOk;
      slot := CreateWindow(title, x, y, w, h);
      AddDirty(rx, ry, rw, rh);
    }

    /** Make a window, mark a rectangle for it, and run the next frame. From a state in sync the frame shows
        everything exactly when its box holds every pixel on the screen that the new window paints and that
        did not show the new window's colour already. */
    method CreateMarkFrame(title: seq<Glyph>, x: int, y: int, w: int, h: int, rx: int, ry: int, rw: int, rh: int,
                           mx: int, my: int, leftDown: bool) returns (slot: Option<nat>)
      requires Valid() && w >= 0 && h >= 0 && InSync()
      requires var made := Fresh(title, x, y, w, h, windowCount);
               Formed(made) && Placed(made, screen.width, screen.height)
      modifies this, windows, screen, screen.back, screen.front
      ensures Valid() && !haveDirty
      ensures slot.None? <==> forall i :: 0 <= i < MAX_WINDOWS ==> old(windows[i].inUse)
      ensures slot.None? ==> AllShown()
      ensures slot.Some? ==> slot.value < MAX_WINDOWS
      ensures slot.Some? ==>
                var made := Fresh(title, x, y, w, h, old(windowCount));
                var d := old(Model()).(windows := old(windows[..])[slot.value := made], count := old(windowCount) + 1);
                var box := FrameBoxOf(d, Grow(old(DirtyBox()), rx, ry, rw, rh), old(lastMx), old(lastMy), old(lastLeft),
                                      mx, my, leftDown, screen.width, screen.height);
                (AllShown() <==>
                   forall px, py :: screen.OnScreen(px, py) && !Holds(box, px, py) ==>
                     WindowPixel(made, px, py).Some? ==>
                     old(screen.front[py, px]) == NewColor(made, old(lastMx), old(lastMy), old(Target(px, py)), px, py))
    {
      hide Target, Formed, Placed, WindowPixel, DeskOk, Fresh, FrameBoxOf, Grow, Holds;
      ghost var d := Model();
      ghost var box := DirtyBox();
      EightWindows();
      ghost var made := Fresh(title, x, y, w, h, windowCount);
      slot := CreateAndMark(title, x, y, w, h, rx, ry, rw, rh);
      ghost var marked := DirtyBox();
      ghost var frameBox := FrameBox(mx, my, leftDown);
      assert slot.Some? ==> Model() == d.(windows := d.windows[slot.value := made], count := d.count + 1);
      forall px, py | Holds(box, px, py) ensures Holds(frameBox, px, py) {
        GrowHolds(box, rx, ry, rw, rh, px, py);
        FrameBoxHolds(Model(), marked, lastMx, lastMy, lastLeft, mx, my, leftDown, screen.width, screen.height, px, py);
      }
      if slot.Some? {
        forall px, py | screen.OnScreen(px, py) && !Holds(frameBox, px, py)
          ensures screen.front[py, px] == Target(px, py) <==>
                    (WindowPixel(made, px, py).Some? ==>
                       screen.front[py, px] == NewColor(made, lastMx, lastMy, old(Target(px, py)), px, py))
        {
        }
      }
      Frame(mx, my, leftDown);
    }

    /** The start of the window manager: a full redraw. */
    method Start(mx: int, my: int, leftDown: bool)
      requires Valid()
      modifies this`lastMx, this`lastMy, this`lastLeft, screen, screen.back, screen.front
      ensures Valid() && AllShown() && InSync()
      ensures lastMx == mx && lastMy == my && lastLeft == leftDown
    {
      hide Shown, Stacked, DeskOk, CursorPixel;
      lastMx, lastMy, lastLeft := mx, my, leftDown;
      screen.ResetClip();
      screen.Clear(BACKGROUND);
      Draw();
      screen.DrawCursor(mx, my);
      screen.Present();
      forall px, py | screen.OnScreen(px, py) ensures screen.front[py, px] == Target(px, py) {
        ShownIs(windows[..], mx, my, px, py);
      }
    }

    method Handle(e: Event)
      requires Valid() && InSync() && Marked(e, screen.width, screen.height)
      modifies this, windows, screen, screen.back, screen.front
      ensures Valid() && InSync()
      ensures e.Tick? ==> !haveDirty && AllShown() && lastMx == e.mx && lastMy == e.my
    {
      hide Target, DeskOk, Formed, Placed, WindowPixel, Fresh, Marked;
      match e {
        case Tick(x, y, left) =>
          Frame(x, y, left);
        case Content(i, content, above) =>
          if i < windows.Length && windows[i].inUse && |content| == |windows[i].content| {
            ChangeContent(i, content, above);
          }
        case Create(title, x, y, w, h, rx, ry, rw, rh) =>
          MarkedAnyLayer(e, windowCount, screen.width, screen.height);
          EightWindows();
          ghost var box, layer := DirtyBox(), windowCount;
          var slot := CreateAndMark(title, x, y, w, h, rx, ry, rw, rh);
          forall px, py | InRect(rx, ry, rw, rh, px, py) ensures Dirty(px, py) {
            GrowHolds(box, rx, ry, rw, rh, px, py);
          }
          forall px, py | slot.Some? && screen.OnScreen(px, py) && !Dirty(px, py)
            ensures WindowPixel(windows[slot.value], px, py).None?
          {
            assert windows[slot.value] == windows[..][slot.value] == Fresh(title, x, y, w, h, layer);
          }
      }
    }

    /** The window manager task: a first full redraw, then its frames among the changes other tasks make. */
    method Run(mx: int, my: int, leftDown: bool, events: seq<Event>)
      requires Valid() && forall k :: 0 <= k < |events| ==> Marked(events[k], screen.width, screen.height)
      modifies this, windows, screen, screen.back, screen.front
      ensures Valid() && InSync()
      ensures !haveDirty ==> AllShown()
      ensures events != [] && events[|events| - 1].Tick? ==>
                !haveDirty && AllShown() && lastMx == events[|events| - 1].mx && lastMy == events[|events| - 1].my
    {
      hide Target, DeskOk, Marked;
      Start(mx, my, leftDown);
      var k := 0;
      while k < |events|
        invariant 0 <= k <= |events| && Valid() && InSync()
        invariant k > 0 && events[k - 1].Tick? ==>
                    !haveDirty && AllShown() && lastMx == events[k - 1].mx && lastMy == events[k - 1].my
      {
        Handle(events[k]);
        k := k + 1;
      }
    }
  }

  /** A desk on which it fails: on an empty screen of 800 by 600 the calculator's window is created and
      marked without its border; the next frame leaves the border out. */
  method CalculatorBorder() returns (wm: WindowManager)
    ensures wm.Valid() && !wm.haveDirty && wm.screen.OnScreen(399, 80)
    ensures wm.screen.front[80, 399] == BACKGROUND && wm.Target(399, 80) == BORDER && !wm.AllShown()
  {
    hide DeskOk, Shown, Formed, Placed, WindowPixel, Fresh, Pressed, Dragged, FrameBoxOf, CursorPixel;
    var screen := new Screen(800, 600, 800);
    wm := new WindowManager(screen);
    wm.Start(0, 0, false);
    label Started:
    CalculatorWindow(wm.windowCount);
    NoCursorThere();
    EmptyDesk(wm.windows[..], 0, 0, 399, 80);
    wm.EightWindows();
    var slot := wm.CreateAndMark([], 400, 80, 176, 240, 400, 56, 176, 264);
    assert !old@Started(wm.windows[0].inUse);
    StillFrame(wm.Model(), wm.DirtyBox(), 0, 0, 800, 600);
    assert wm.Target(399, 80) == BORDER;
    wm.Frame(0, 0, false);
  }

  lemma NoCursorThere()
    ensures CursorPixel(0, 0, 399, 80).None?
  {
  }

  /** A frame without a button or a move of the mouse changes no window and marks nothing. */
  lemma StillFrame(d: Desk, b: Box, mx: int, my: int, screenW: int, screenH: int)
    requires d.dragging.None?
    ensures Dragged(Pressed(d, mx, my, false, false), mx, my, screenW, screenH) == d
    ensures FrameBoxOf(d, b, mx, my, false, mx, my, false, screenW, screenH) == b
  {
  }

  lemma EmptyDesk(ws: seq<Window>, mx: int, my: int, px: int, py: int)
    requires forall i :: 0 <= i < |ws| ==> !ws[i].inUse
    requires CursorPixel(mx, my, px, py).None?
    ensures Shown(ws, mx, my, px, py) == BACKGROUND
  {
    hide WindowPixel;
    HighestIs(ws, |ws|, Paints(px, py));
  }

  lemma CalculatorWindow(layer: int)
    ensures var w := Fresh([], 400, 80, 176, 240, layer);
            Formed(w) && Placed(w, 800, 600) && WindowPixel(w, 399, 80) == Some(BORDER)
  {
  }
}
