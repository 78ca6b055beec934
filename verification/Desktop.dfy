/** What the screen should show: windows stacked by layer over a background, the cursor on top.
    Defined pixel by pixel, without reference to any order of painting. */
module Desktop {
  import opened Wrappers
  import opened Arithmetic

  type Color = nat

  const TITLEBAR_H := 24
  const CURSOR_W := 14
  const CURSOR_H := 14
  const MAX_WINDOWS := 8
  const NARROWEST := 18

  const BACKGROUND := 0xFF16091F
  const TITLEBAR := 0xFF4C2A85
  const CLOSE := 0xFFFF8FA3
  const BORDER := 0xFF9D7BEA
  const BLACK := 0xFF000000
  const WHITE := 0xFFFFFFFF

  predicate InRect(x: int, y: int, w: int, h: int, px: int, py: int)
  {
    x <= px < x + w && y <= py < y + h
  }

  /** A rectangle of w by h pixels, from its corner on. */
  lemma RectIs(x: int, y: int, w: int, h: int, dx: int, dy: int)
    ensures InRect(x, y, w, h, x + dx, y + dy) <==> 0 <= dx < w && 0 <= dy < h
  {
  }

  /** A glyph paints its ink, given relative to the pen, and moves the pen to the right. */
  datatype Glyph = Glyph(advance: nat, ink: map<(int, int), Color>)

  /** A window; (x, y) is the corner of its contents, below the title bar. */
  datatype Window = Window(x: int, y: int, width: int, height: int,
      title: seq<Glyph>, content: seq<Color>, layer: int, inUse: bool)

  function TextWidth(t: seq<Glyph>): nat
  {
    if t == [] then 0 else TextWidth(t[..|t| - 1]) + t[|t| - 1].advance
  }

  /** The colour a text started at (x, y) leaves on a pixel; later glyphs cover earlier ones. */
  function TextPixel(t: seq<Glyph>, x: int, y: int, px: int, py: int): Option<Color>
  {
    if t == [] then None
    else
      var prefix := t[..|t| - 1];
      var d := (px - (x + TextWidth(prefix)), py - y);
      if d in t[|t| - 1].ink then Some(t[|t| - 1].ink[d]) else TextPixel(prefix, x, y, px, py)
  }

  /** One more glyph is painted over the others, where they end. */
  lemma TextGrows(t: seq<Glyph>, g: Glyph, x: int, y: int, px: int, py: int)
    ensures TextWidth(t + [g]) == TextWidth(t) + g.advance && TextWidth([]) == 0
    ensures TextPixel([], x, y, px, py) == None
    ensures var d := (px - x - TextWidth(t), py - y);
            TextPixel(t + [g], x, y, px, py)
            == if d in g.ink then Some(g.ink[d]) else TextPixel(t, x, y, px, py)
  {
    assert (t + [g])[..|t|] == t;
    assert (px - (x + TextWidth(t)), py - y) == (px - x - TextWidth(t), py - y);
  }

  /** All ink of a text lies inside a box given relative to its start. */
  predicate TextFits(t: seq<Glyph>, x0: int, y0: int, x1: int, y1: int)
  {
    forall k :: 0 <= k < |t| ==> InkFits(t[k], x0 - TextWidth(t[..k]), y0, x1 - TextWidth(t[..k]), y1)
  }

  predicate InkFits(g: Glyph, x0: int, y0: int, x1: int, y1: int)
  {
    forall d :: d in g.ink ==> x0 <= d.0 < x1 && y0 <= d.1 < y1
  }

  lemma {:induction false} TextPixelFits(t: seq<Glyph>, x0: int, y0: int, x1: int, y1: int, x: int, y: int,
      px: int, py: int)
    requires TextFits(t, x0, y0, x1, y1) && TextPixel(t, x, y, px, py).Some?
    ensures x + x0 <= px < x + x1 && y + y0 <= py < y + y1
  {
    hide TextWidth, TextFits, InkFits;
    var prefix := t[..|t| - 1];
    var d := (px - (x + TextWidth(prefix)), py - y);
    PrefixFits(t, x0, y0, x1, y1);
    if d in t[|t| - 1].ink {
      InkInside(t[|t| - 1], x0 - TextWidth(prefix), y0, x1 - TextWidth(prefix), y1, d);
    } else {
      TextPixelFits(prefix, x0, y0, x1, y1, x, y, px, py);
    }
  }

  lemma PrefixFits(t: seq<Glyph>, x0: int, y0: int, x1: int, y1: int)
    requires t != [] && TextFits(t, x0, y0, x1, y1)
    ensures var prefix := t[..|t| - 1];
            && TextFits(prefix, x0, y0, x1, y1)
            && InkFits(t[|t| - 1], x0 - TextWidth(prefix), y0, x1 - TextWidth(prefix), y1)
  {
    hide TextWidth, InkFits;
    var prefix := t[..|t| - 1];
    assert forall k :: 0 <= k < |prefix| ==> prefix[..k] == t[..k];
  }

  lemma InkInside(g: Glyph, x0: int, y0: int, x1: int, y1: int, d: (int, int))
    requires InkFits(g, x0, y0, x1, y1) && d in g.ink
    ensures x0 <= d.0 < x1 && y0 <= d.1 < y1
  {
  }

  // ---- one window ----

  /** The contents fill the window, the title stays inside its title bar and the close button inside
      the box that is marked for a change of the window. */
  predicate Formed(w: Window)
  {
    && w.width >= NARROWEST && w.height >= 0 && |w.content| == w.width * w.height
    && TextFits(w.title, -6, -4, w.width - 6, TITLEBAR_H - 4)
  }

  predicate OnBorder(w: Window, px: int, py: int)
  {
    var x, y, width, height := w.x - 1, w.y - TITLEBAR_H - 1, w.width + 2, w.height + TITLEBAR_H + 2;
    InRect(x, y, width, height, px, py) && (px == x || px == x + width - 1 || py == y || py == y + height - 1)
  }

  predicate OnClose(w: Window, px: int, py: int)
  {
    InRect(w.x + w.width - TITLEBAR_H + 4, w.y - TITLEBAR_H + 4, TITLEBAR_H - 8, TITLEBAR_H - 8, px, py)
  }

  predicate OnTitlebar(w: Window, px: int, py: int)
  {
    InRect(w.x, w.y - TITLEBAR_H, w.width, TITLEBAR_H, px, py)
  }

  function ContentPixel(content: seq<Color>, stride: int, dx: int, dy: int): Color
  {
    if 0 <= dy * stride + dx < |content| then content[dy * stride + dx] else 0
  }

  /** The colour a window shows on a pixel, None where it is absent. */
  function WindowPixel(w: Window, px: int, py: int): Option<Color>
  {
    if OnBorder(w, px, py) then Some(BORDER)
    else if InRect(w.x, w.y, w.width, w.height, px, py) then Some(ContentPixel(w.content, w.width, px - w.x, py - w.y))
    else if OnClose(w, px, py) then Some(CLOSE)
    else
      var text := TextPixel(w.title, w.x + 6, w.y - TITLEBAR_H + 4, px, py);
      if text.Some? then text
      else if OnTitlebar(w, px, py) then Some(TITLEBAR)
      else None
  }

  /** The box that add_dirty_window marks. */
  predicate InExtents(w: Window, px: int, py: int)
  {
    InRect(w.x - 2, w.y - TITLEBAR_H - 2, w.width + 4, w.height + TITLEBAR_H + 4, px, py)
  }

  /** A window paints nothing outside the box that is marked when it changes. */
  lemma WindowInExtents(w: Window, px: int, py: int)
    requires Formed(w) && WindowPixel(w, px, py).Some?
    ensures InExtents(w, px, py)
  {
    var text := TextPixel(w.title, w.x + 6, w.y - TITLEBAR_H + 4, px, py);
    if text.Some? {
      TextPixelFits(w.title, -6, -4, w.width - 6, TITLEBAR_H - 4, w.x + 6, w.y - TITLEBAR_H + 4, px, py);
    }
  }

  /** A narrower window would leave its close button outside that box. */
  lemma NarrowWindowEscapes(w: Window)
    requires 0 <= w.width < NARROWEST && w.height >= 0
    ensures WindowPixel(w, w.x + w.width - 20, w.y - 20) == Some(CLOSE) && !InExtents(w, w.x + w.width - 20, w.y - 20)
  {
  }

  /** The parts of a window, by distance from the corner of its contents: a border of one pixel around all, the
      contents, above them a title bar of 24 rows with a close button of 16 by 16 near its right end, and on the
      rest of it the title. */
  lemma WindowParts(w: Window, dx: int, dy: int)
    requires Formed(w)
    ensures var pixel := WindowPixel(w, w.x + dx, w.y + dy);
            if -1 <= dx <= w.width && -25 <= dy <= w.height
               && (dx == -1 || dx == w.width || dy == -25 || dy == w.height) then pixel == Some(0xFF9D7BEA)
            else if 0 <= dx < w.width && 0 <= dy < w.height
            then 0 <= dy * w.width + dx < |w.content| && pixel == Some(w.content[dy * w.width + dx])
            else if w.width - 20 <= dx < w.width - 4 && -20 <= dy < -4 then pixel == Some(0xFFFF8FA3)
            else if 0 <= dx < w.width && -24 <= dy < 0 then
              var text := TextPixel(w.title, 6, -20, dx, dy);
              pixel == Some(if text.Some? then text.value else 0xFF4C2A85)
            else pixel == None
  {
    hide TextFits, TextPixel;
    TextMoves(w.title, 6, -20, dx, dy, w.x, w.y);
    if TextPixel(w.title, w.x + 6, w.y - 20, w.x + dx, w.y + dy).Some? {
      TextPixelFits(w.title, -6, -4, w.width - 6, TITLEBAR_H - 4, w.x + 6, w.y - 20, w.x + dx, w.y + dy);
    }
    if 0 <= dy < w.height && 0 <= dx < w.width { InBuffer(dy, dx, w.width, w.height); }
  }

  /** Text is painted relative to its start. */
  lemma {:induction false} TextMoves(t: seq<Glyph>, x: int, y: int, px: int, py: int, dx: int, dy: int)
    ensures TextPixel(t, x + dx, y + dy, px + dx, py + dy) == TextPixel(t, x, y, px, py)
  {
    if t != [] { TextMoves(t[..|t| - 1], x, y, px, py, dx, dy); }
  }

  // ---- the stack of windows ----

  /** The in-use window of highest layer, among the first `n`, that satisfies `at`. */
  ghost function Highest(ws: seq<Window>, n: nat, at: Window -> bool): Option<nat>
    requires n <= |ws|
  {
    if n == 0 then None
    else
      var best := Highest(ws, n - 1, at);
      if ws[n - 1].inUse && at(ws[n - 1]) && (best.None? || best.value >= n || ws[best.value].layer < ws[n - 1].layer)
      then Some(n - 1) else best
  }

  lemma {:induction false} HighestIs(ws: seq<Window>, n: nat, at: Window -> bool)
    requires n <= |ws|
    ensures match Highest(ws, n, at)
            case None => forall j :: 0 <= j < n && ws[j].inUse ==> !at(ws[j])
            case Some(i) =>
              && i < n && ws[i].inUse && at(ws[i])
              && forall j :: 0 <= j < n && ws[j].inUse && at(ws[j]) ==> ws[j].layer <= ws[i].layer
  {
    if n > 0 { HighestIs(ws, n - 1, at); }
  }

  ghost function Paints(px: int, py: int): Window -> bool
  {
    (w: Window) => WindowPixel(w, px, py).Some?
  }

  /** The colour of the cursor at (mx, my): a white triangle on a black one. */
  function CursorPixel(mx: int, my: int, px: int, py: int): Option<Color>
  {
    if 0 <= py - my < 12 && mx <= px < mx + 12 - (py - my) then Some(WHITE)
    else if 0 <= py - my + 1 < 13 && mx - 1 <= px < mx - 1 + 13 - (py - my + 1) + 2 then Some(BLACK)
    else None
  }

  function Over(top: Option<Color>, under: Color): Color
  {
    if top.Some? then top.value else under
  }

  /** What the windows show on a pixel: the topmost window there, or what lies under them all. */
  ghost function Stacked(ws: seq<Window>, under: Color, px: int, py: int): Color
  {
    HighestIs(ws, |ws|, Paints(px, py));
    var top := Highest(ws, |ws|, Paints(px, py));
    if top.Some? then Over(WindowPixel(ws[top.value], px, py), under) else under
  }

  /** What the screen should show. */
  ghost function Shown(ws: seq<Window>, mx: int, my: int, px: int, py: int): Color
  {
    Over(CursorPixel(mx, my, px, py), Stacked(ws, BACKGROUND, px, py))
  }

  /** Away from both places of the cursor its move changes nothing. */
  lemma CursorElsewhere(ws: seq<Window>, mx: int, my: int, mx': int, my': int, px: int, py: int)
    requires !InRect(mx - 2, my - 2, CURSOR_W + 4, CURSOR_H + 4, px, py)
    requires !InRect(mx' - 2, my' - 2, CURSOR_W + 4, CURSOR_H + 4, px, py)
    ensures Shown(ws, mx, my, px, py) == Shown(ws, mx', my', px, py)
  {
    hide Stacked;
  }

  /** The cursor covers every window: a white triangle of twelve rows, each a pixel shorter than the one above,
      with its corner at the mouse, and around it a black rim of a pixel. */
  lemma CursorOnTop(ws: seq<Window>, mx: int, my: int, dx: int, dy: int)
    ensures 0 <= dy < 12 && 0 <= dx < 12 - dy ==> Shown(ws, mx, my, mx + dx, my + dy) == 0xFFFFFFFF
    ensures !(0 <= dy < 12 && 0 <= dx < 12 - dy) && -1 <= dy < 12 && -1 <= dx < 13 - dy ==>
              Shown(ws, mx, my, mx + dx, my + dy) == 0xFF000000
    ensures !(-1 <= dy < 12 && -1 <= dx < 13 - dy) ==>
              Shown(ws, mx, my, mx + dx, my + dy) == Stacked(ws, BACKGROUND, mx + dx, my + dy)
  {
    hide Stacked;
  }

  /** Where there is neither cursor nor window the background shows. */
  lemma NothingThere(ws: seq<Window>, mx: int, my: int, px: int, py: int)
    requires CursorPixel(mx, my, px, py).None?
    requires forall i :: 0 <= i < |ws| && ws[i].inUse ==> WindowPixel(ws[i], px, py).None?
    ensures Shown(ws, mx, my, px, py) == 0xFF16091F
  {
    hide WindowPixel;
    HighestIs(ws, |ws|, Paints(px, py));
  }

  // ---- what a change of the windows leaves alone ----

  /** A pixel cannot tell two windows apart: neither is there, or they show the same at the same layer. */
  predicate SameAt(v: Window, w: Window, px: int, py: int)
  {
    || ((!v.inUse || WindowPixel(v, px, py).None?) && (!w.inUse || WindowPixel(w, px, py).None?))
    || (v.inUse == w.inUse && v.layer == w.layer && WindowPixel(v, px, py) == WindowPixel(w, px, py))
  }

  lemma {:induction false} SameHighest(ws: seq<Window>, ws': seq<Window>, n: nat, px: int, py: int)
    requires n <= |ws| == |ws'| && forall i :: 0 <= i < |ws| ==> SameAt(ws[i], ws'[i], px, py)
    ensures Highest(ws, n, Paints(px, py)) == Highest(ws', n, Paints(px, py))
  {
    hide WindowPixel;
    if n > 0 {
      SameHighest(ws, ws', n - 1, px, py);
      HighestIs(ws, n - 1, Paints(px, py));
    }
  }

  lemma SameStacked(ws: seq<Window>, ws': seq<Window>, px: int, py: int)
    requires |ws| == |ws'| && forall i :: 0 <= i < |ws| ==> SameAt(ws[i], ws'[i], px, py)
    ensures Stacked(ws, BACKGROUND, px, py) == Stacked(ws', BACKGROUND, px, py)
  {
    hide WindowPixel;
    SameHighest(ws, ws', |ws|, px, py);
    HighestIs(ws, |ws|, Paints(px, py));
  }

  /** Replacing one window changes nothing on the pixels where neither version is. */
  lemma ReplacedElsewhere(ws: seq<Window>, i: nat, w: Window, mx: int, my: int, px: int, py: int)
    requires i < |ws| && SameAt(ws[i], w, px, py)
    ensures Shown(ws[i := w], mx, my, px, py) == Shown(ws, mx, my, px, py)
  {
    hide WindowPixel, Stacked;
    SameStacked(ws, ws[i := w], px, py);
  }

  // ---- painting from the bottom up ----

  /** The in-use windows among the first `i`, from the lowest layer up. */
  ghost predicate IsOrderOf(ws: seq<Window>, i: nat, order: seq<nat>)
    requires i <= |ws|
  {
    && (forall k :: 0 <= k < |order| ==> order[k] < i && ws[order[k]].inUse)
    && (forall j, k :: 0 <= j < k < |order| ==> ws[order[j]].layer < ws[order[k]].layer)
    && (forall m :: 0 <= m < i && ws[m].inUse ==> m in order)
  }

  /** The in-use windows, each once, from the lowest layer up. */
  ghost predicate IsPaintOrder(ws: seq<Window>, order: seq<nat>)
  {
    IsOrderOf(ws, |ws|, order)
  }

  /** The last window of an order that satisfies `at`. */
  ghost function LastOf(ws: seq<Window>, order: seq<nat>, at: Window -> bool): Option<nat>
    requires forall k :: 0 <= k < |order| ==> order[k] < |ws|
  {
    if order == [] then None
    else if at(ws[order[|order| - 1]]) then Some(order[|order| - 1])
    else LastOf(ws, order[..|order| - 1], at)
  }

  lemma {:induction false} LastOfIs(ws: seq<Window>, order: seq<nat>, at: Window -> bool)
    requires forall k :: 0 <= k < |order| ==> order[k] < |ws|
    ensures match LastOf(ws, order, at)
            case None => forall k :: 0 <= k < |order| ==> !at(ws[order[k]])
            case Some(i) =>
              exists k :: 0 <= k < |order| && order[k] == i && at(ws[i])
                          && forall j :: k < j < |order| ==> !at(ws[order[j]])
  {
    if order != [] && !at(ws[order[|order| - 1]]) {
      var prefix := order[..|order| - 1];
      LastOfIs(ws, prefix, at);
      if LastOf(ws, prefix, at).Some? {
        var k :| 0 <= k < |prefix| && prefix[k] == LastOf(ws, prefix, at).value
                 && forall j :: k < j < |prefix| ==> !at(ws[prefix[j]]);
        assert order[k] == prefix[k];
      }
    }
  }

  /** The last painted window that satisfies a condition is the one of highest layer that does. */
  lemma LastIsHighest(ws: seq<Window>, order: seq<nat>, at: Window -> bool)
    requires IsPaintOrder(ws, order)
    ensures LastOf(ws, order, at) == Highest(ws, |ws|, at)
  {
    LastOfIs(ws, order, at);
    HighestIs(ws, |ws|, at);
    if Highest(ws, |ws|, at).Some? {
      var i := Highest(ws, |ws|, at).value;
      var k :| 0 <= k < |order| && order[k] == i;
    }
  }

  /** The colour of a pixel after painting windows in the given order over `under`. */
  ghost function Painted(ws: seq<Window>, order: seq<nat>, under: Color, px: int, py: int): Color
    requires forall k :: 0 <= k < |order| ==> order[k] < |ws|
  {
    if order == [] then under
    else Over(WindowPixel(ws[order[|order| - 1]], px, py), Painted(ws, order[..|order| - 1], under, px, py))
  }

  lemma {:induction false} PaintedIsLast(ws: seq<Window>, order: seq<nat>, under: Color, px: int, py: int)
    requires forall k :: 0 <= k < |order| ==> order[k] < |ws|
    ensures Painted(ws, order, under, px, py)
            == match LastOf(ws, order, Paints(px, py))
               case None => under
               case Some(i) => Over(if i < |ws| then WindowPixel(ws[i], px, py) else None, under)
  {
    hide WindowPixel;
    if order != [] { PaintedIsLast(ws, order[..|order| - 1], under, px, py); }
  }

  /** Painting all windows from the bottom up leaves on each pixel what the topmost window shows. */
  lemma PaintingStacks(ws: seq<Window>, order: seq<nat>, under: Color, px: int, py: int)
    requires IsPaintOrder(ws, order)
    ensures Painted(ws, order, under, px, py) == Stacked(ws, under, px, py)
  {
    hide WindowPixel;
    PaintedIsLast(ws, order, under, px, py);
    LastIsHighest(ws, order, Paints(px, py));
    HighestIs(ws, |ws|, Paints(px, py));
  }
}
