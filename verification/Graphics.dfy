/** The drawing routines: a back buffer painted through a clip rectangle and copied to the framebuffer. */
module Graphics {
  import opened Desktop
  import opened Arithmetic

  class Screen {
    const width: int
    const height: int
    /** Pixels per row of both buffers, fb_pitch / 4. */
    const stride: int
    const back: array2<Color>
    const front: array2<Color>
    var clipX0: int
    var clipY0: int
    var clipX1: int
    var clipY1: int

    ghost predicate Valid()
    {
      && 0 <= width <= stride && 0 <= height
      && back.Length0 == front.Length0 == height && back.Length1 == front.Length1 == stride
      && back != front
    }

    constructor (width: int, height: int, stride: int)
      requires 0 <= width <= stride && 0 <= height
      ensures Valid() && this.width == width && this.height == height && this.stride == stride
      ensures fresh(back) && fresh(front)
    {
      this.width, this.height, this.stride := width, height, stride;
      back := new Color[height, stride]((_, _) => 0);
      front := new Color[height, stride]((_, _) => 0);
      clipX0, clipY0, clipX1, clipY1 := 0, 0, width, height;
    }

    predicate OnScreen(px: int, py: int)
    {
      0 <= px < width && 0 <= py < height
    }

    predicate InClip(px: int, py: int)
      reads this
    {
      clipX0 <= px < clipX1 && clipY0 <= py < clipY1
    }

    method SetClip(x: int, y: int, w: int, h: int)
      modifies this
      ensures forall px, py :: InClip(px, py) <==> InRect(x, y, w, h, px, py)
    {
      clipX0, clipY0, clipX1, clipY1 := x, y, x + w, y + h;
    }

    method ResetClip()
      modifies this
      ensures forall px, py :: InClip(px, py) <==> OnScreen(px, py)
    {
      clipX0, clipY0, clipX1, clipY1 := 0, 0, width, height;
    }

    /** The pixel loops of FillRect, on a box that lies on the screen. */
    method FillBox(x0: int, y0: int, cols: int, rows: int, color: Color)
      requires Valid() && 0 <= x0 && 0 <= cols && x0 + cols <= width && 0 <= y0 && 0 <= rows && y0 + rows <= height
      modifies back
      ensures forall r, c :: 0 <= r < height && 0 <= c < stride ==>
                back[r, c] == if InRect(x0, y0, cols, rows, c, r) then color else old(back[r, c])
    {
      var row := 0;
      while row < rows
        invariant 0 <= row <= rows
        invariant forall r, c :: 0 <= r < height && 0 <= c < stride ==>
                    back[r, c] == if InRect(x0, y0, cols, row, c, r) then color else old(back[r, c])
      {
        var col := 0;
        while col < cols
          invariant 0 <= col <= cols
          invariant forall r, c :: 0 <= r < height && 0 <= c < stride ==>
                      back[r, c] ==
                        if InRect(x0, y0, cols, row, c, r) || InRect(x0, y0 + row, col, 1, c, r) then color
                        else old(back[r, c])
        {
          back[y0 + row, x0 + col] := color;
          col := col + 1;
        }
        row := row + 1;
      }
    }

    method FillRect(x: int, y: int, w: int, h: int, color: Color)
      requires Valid()
      modifies back
      ensures forall r, c :: 0 <= r < height && 0 <= c < stride ==>
                back[r, c] ==
                  if OnScreen(c, r) && InClip(c, r) && InRect(x, y, w, h, c, r) then color else old(back[r, c])
    {
      var x0, y0, x1, y1 := x, y, x + w, y + h;
      // nothing off the screen
      if x0 < 0 { x0 := 0; }
      if y0 < 0 { y0 := 0; }
      if x1 > width { x1 := width; }
      if y1 > height { y1 := height; }
      // nothing outside the clip
      if x0 < clipX0 { x0 := clipX0; }
      if y0 < clipY0 { y0 := clipY0; }
      if x1 > clipX1 { x1 := clipX1; }
      if y1 > clipY1 { y1 := clipY1; }
      var cols, rows := x1 - x0, y1 - y0;
      assert forall px, py ::
          InRect(x0, y0, cols, rows, px, py) <==> OnScreen(px, py) && InClip(px, py) && InRect(x, y, w, h, px, py);
      if cols <= 0 || rows <= 0 { return; }
      FillBox(x0, y0, cols, rows, color);
    }

    /** The outline of a rectangle. */
    method DrawRect(x: int, y: int, w: int, h: int, thickness: int, color: Color)
      requires Valid()
      modifies back
      ensures forall r, c :: 0 <= r < height && 0 <= c < stride ==>
                back[r, c] == if OnScreen(c, r) && InClip(c, r) && (
                                   InRect(x, y, w, thickness, c, r) || InRect(x, y + h - thickness, w, thickness, c, r)
                                || InRect(x, y, thickness, h, c, r) || InRect(x + w - thickness, y, thickness, h, c, r))
                              then color else old(back[r, c])
    {
      FillRect(x, y, w, thickness, color);
      FillRect(x, y + h - thickness, w, thickness, color);
      FillRect(x, y, thickness, h, color);
      FillRect(x + w - thickness, y, thickness, h, color);
    }

    method Blit(dstX: int, dstY: int, src: seq<Color>, w: int, h: int)
      requires Valid() && w >= 0 && h >= 0 && |src| == w * h
      modifies back
      ensures forall r, c :: 0 <= r < height && 0 <= c < stride ==>
                back[r, c] == if OnScreen(c, r) && InClip(c, r) && InRect(dstX, dstY, w, h, c, r)
                              then ContentPixel(src, w, c - dstX, r - dstY) else old(back[r, c])
    {
      var row := 0;
      while row < h
        invariant 0 <= row <= h
        invariant forall r, c :: 0 <= r < height && 0 <= c < stride ==>
                    back[r, c] == if OnScreen(c, r) && InClip(c, r) && InRect(dstX, dstY, w, row, c, r)
                                  then ContentPixel(src, w, c - dstX, r - dstY) else old(back[r, c])
      {
        var py := dstY + row;
        if py < 0 || py >= height || py < clipY0 || py >= clipY1 {
          row := row + 1;
          continue;
        }
        var col := 0;
        while col < w
          invariant 0 <= col <= w
          invariant forall r, c :: 0 <= r < height && 0 <= c < stride ==>
                      back[r, c] == if OnScreen(c, r) && InClip(c, r)
                          && (InRect(dstX, dstY, w, row, c, r) || InRect(dstX, py, col, 1, c, r))
                                    then ContentPixel(src, w, c - dstX, r - dstY) else old(back[r, c])
        {
          var px := dstX + col;
          if px < 0 || px >= width || px < clipX0 || px >= clipX1 {
            col := col + 1;
            continue;
          }
          InBuffer(row, col, w, h);
          back[py, px] := src[row * w + col];
          col := col + 1;
        }
        row := row + 1;
      }
    }

    /** Paint one glyph at the pen; glyphs do not look at the clip rectangle. */
    method DrawGlyph(g: Glyph, x: int, y: int) returns (advance: nat)
      requires Valid() && InkFits(g, -x, -y, stride - x, height - y)
      modifies back
      ensures advance == g.advance
      ensures forall r, c :: 0 <= r < height && 0 <= c < stride ==>
                back[r, c] == if (c - x, r - y) in g.ink then g.ink[(c - x, r - y)] else old(back[r, c])
    {
      forall r, c | 0 <= r < height && 0 <= c < stride && (c - x, r - y) in g.ink {
        back[r, c] := g.ink[(c - x, r - y)];
      }
      advance := g.advance;
    }

    method DrawString(x: int, y: int, str: seq<Glyph>)
      requires Valid() && TextFits(str, -x, -y, stride - x, height - y)
      modifies back
      ensures forall r, c :: 0 <= r < height && 0 <= c < stride ==>
                back[r, c] == Over(TextPixel(str, x, y, c, r), old(back[r, c]))
    {
      var curX, i := x, 0;
      while i < |str|
        invariant 0 <= i <= |str| && curX == x + TextWidth(str[..i])
        invariant forall r, c :: 0 <= r < height && 0 <= c < stride ==>
                    back[r, c] == Over(TextPixel(str[..i], x, y, c, r), old(back[r, c]))
      {
        assert str[..i + 1][..i] == str[..i];
        var advance := DrawGlyph(str[i], curX, y);
        curX := curX + advance;
        i := i + 1;
      }
      assert str[..|str|] == str;
    }

    method Clear(color: Color)
      requires Valid()
      modifies back
      ensures forall r, c :: 0 <= r < height && 0 <= c < stride ==>
              back[r, c] == if c < width then color else old(back[r, c])
    {
      var y := 0;
      while y < height
        invariant 0 <= y <= height
        invariant forall r, c :: 0 <= r < height && 0 <= c < stride ==>
                    back[r, c] == if r < y && c < width then color else old(back[r, c])
      {
        var x := 0;
        while x < width
          invariant 0 <= x <= width
          invariant forall r, c :: 0 <= r < height && 0 <= c < stride ==>
                      back[r, c] == if (r < y && c < width) || (r == y && c < x) then color else old(back[r, c])
        {
          back[y, x] := color;
          x := x + 1;
        }
        y := y + 1;
      }
    }

    /** Copy the whole back buffer to the framebuffer. */
    method Present()
      requires Valid()
      modifies front
      ensures forall r, c :: 0 <= r < height && 0 <= c < stride ==> front[r, c] == back[r, c]
    {
      var row := 0;
      while row < height
        invariant 0 <= row <= height
        invariant forall r, c :: 0 <= r < row && 0 <= c < stride ==> front[r, c] == back[r, c]
      {
        forall c | 0 <= c < stride { front[row, c] := back[row, c]; }
        row := row + 1;
      }
    }

    /** Copy only a region. */
    method PresentRect(x: int, y: int, w: int, h: int)
      requires Valid()
      modifies front
      ensures forall r, c :: 0 <= r < height && 0 <= c < stride ==>
                front[r, c] == if OnScreen(c, r) && InRect(x, y, w, h, c, r) then back[r, c] else old(front[r, c])
    {
      var x, y, w, h := x, y, w, h;
      if x < 0 { w := w + x; x := 0; }
      if y < 0 { h := h + y; y := 0; }
      if x + w > width { w := width - x; }
      if y + h > height { h := height - y; }
      if w <= 0 || h <= 0 { return; }
      var row := 0;
      while row < h
        invariant 0 <= row <= h
        invariant forall r, c :: 0 <= r < height && 0 <= c < stride ==>
                    front[r, c] == if InRect(x, y, w, row, c, r) then back[r, c] else old(front[r, c])
      {
        var col := 0;
        while col < w
          invariant 0 <= col <= w
          invariant forall r, c :: 0 <= r < height && 0 <= c < stride ==>
                      front[r, c] ==
                        if InRect(x, y, w, row, c, r) || InRect(x, y + row, col, 1, c, r) then back[r, c]
                        else old(front[r, c])
        {
          front[y + row, x + col] := back[y + row, x + col];
          col := col + 1;
        }
        row := row + 1;
      }
    }

    method DrawCursor(mx: int, my: int)
      requires Valid()
      modifies back
      ensures forall r, c :: 0 <= r < height && 0 <= c < stride ==>
                back[r, c] ==
                  if OnScreen(c, r) && InClip(c, r) then Over(CursorPixel(mx, my, c, r), old(back[r, c]))
                  else old(back[r, c])
    {
      var r := 0;
      while r < 13
        invariant 0 <= r <= 13
        invariant forall y, x :: 0 <= y < height && 0 <= x < stride ==>
                    back[y, x] ==
                      if OnScreen(x, y) && InClip(x, y) && InShadow(mx, my, r, x, y) then BLACK else old(back[y, x])
      {
        var len := 13 - r;
        FillRect(mx - 1, my + r - 1, len + 2, 1, BLACK);
        r := r + 1;
      }
      label Shadowed:
      r := 0;
      while r < 12
        invariant 0 <= r <= 12
        invariant forall y, x :: 0 <= y < height && 0 <= x < stride ==>
                    back[y, x] ==
                      if OnScreen(x, y) && InClip(x, y) && InArrow(mx, my, r, x, y) then WHITE
                      else old@Shadowed(back[y, x])
      {
        var len := 12 - r;
        FillRect(mx, my + r, len, 1, WHITE);
        r := r + 1;
      }
    }
  }

  /** The first rows of the black triangle, and of the white one. */
  predicate InShadow(mx: int, my: int, rows: int, px: int, py: int)
  {
    0 <= py - my + 1 < rows && mx - 1 <= px < mx - 1 + 13 - (py - my + 1) + 2
  }

  predicate InArrow(mx: int, my: int, rows: int, px: int, py: int)
  {
    0 <= py - my < rows && mx <= px < mx + 12 - (py - my)
  }
}
