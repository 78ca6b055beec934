/** The eyes that follow the mouse: where the pupils are placed, and the picture drawn. */
module Eyes {
  import opened IntSqrt
  import opened Arithmetic

  const EYE_R := 22
  const PUPIL_R := 7
  const MAX_MOVE := 13 // EYE_R - PUPIL_R - 2

  const SKIN := 0xFFFFCCCC
  const WHITE := 0xFFFFFFFF
  const BLACK := 0x00000000

  /** How far a pupil moves along one axis for a mouse at distance `dist`, off by `d` on that axis. */
  function Move(d: int, dist: nat): int
  {
    if dist > MAX_MOVE then Quotient(d * MAX_MOVE, dist) else if dist > 0 then d else 0
  }

  /** A pupil moves towards the mouse, never past it and alike to both sides. Within 13 pixels it is at the mouse;
      further away it lies in the mouse's direction at 13 pixels, short of that by less than a pixel. */
  lemma MoveFollows(d: int, dist: nat)
    requires dist > 0
    ensures if d >= 0 then 0 <= Move(d, dist) else Move(d, dist) <= 0
    ensures Move(-d, dist) == -Move(d, dist)
    ensures dist <= 13 ==> Move(d, dist) == d
    ensures dist > 13 && d >= 0 ==> 13 * d - dist < Move(d, dist) * dist <= 13 * d
  {
    if dist > 13 { QuotientBounds(if d >= 0 then d * 13 else -d * 13, dist); }
  }

  lemma QuotientBounds(a: int, b: int)
    requires a >= 0 && b > 0
    ensures a - b < Quotient(a, b) * b <= a && Quotient(a, b) >= 0 && Quotient(-a, b) == -Quotient(a, b)
  {
    assert a == a / b * b + a % b;
    MulMono(0, a, 1);
  }

  /** With the mouse within 13 pixels of the eye's centre the pupil's centre is at the mouse. */
  lemma NearMouse(dx: int, dy: int, dist: nat)
    requires IsRoot(dist, Norm(dx, dy)) && Norm(dx, dy) <= 169
    ensures Move(dx, dist) == dx && Move(dy, dist) == dy
  {
    hide Norm, Quotient;
    SmallRoot(dist, Norm(dx, dy));
    if dist == 0 { OnlyZero(dx, dy); }
  }

  lemma SmallRoot(dist: nat, n: nat)
    requires IsRoot(dist, n) && n <= 169
    ensures dist <= 13 && (dist == 0 ==> n == 0)
  {
    if dist >= 14 {
      MulMono(14, dist, dist);
    }
  }

  lemma OnlyZero(dx: int, dy: int)
    requires Norm(dx, dy) == 0
    ensures dx == 0 && dy == 0
  {
    SquareNat(dx);
    SquareNat(dy);
    if dx != 0 { PositiveSquare(dx); }
    if dy != 0 { PositiveSquare(dy); }
  }

  lemma PositiveSquare(x: int)
    requires x != 0
    ensures x * x > 0
  {
  }

  function Norm(x: int, y: int): nat
  {
    SquareNat(x);
    SquareNat(y);
    x * x + y * y
  }

  lemma SquareNat(x: int)
    ensures x * x >= 0
  {
  }

  /** Truncation only shortens: (q b)^2 <= a^2. */
  lemma QuotientShortens(a: int, b: int)
    requires b > 0
    ensures var q := Quotient(a, b); (q * b) * (q * b) <= a * a
  {
    if a >= 0 {
      QuotientSquare(a, b);
    } else {
      QuotientSquare(-a, b);
      Opposite(-a / b, b);
      Negated(-a / b * b);
      Negated(a);
    }
  }

  lemma QuotientSquare(m: nat, b: int)
    requires b > 0
    ensures (m / b * b) * (m / b * b) <= m * m
  {
    var q := m / b;
    assert m == q * b + m % b;
    MulMono(0, q, b);
    SquareMono(q * b, m);
  }

  lemma Opposite(q: int, b: int)
    ensures -q * b == -(q * b)
  {
  }

  lemma Negated(x: int)
    ensures (-x) * (-x) == x * x
  {
  }

  /** A far mouse moves the pupil by at most 13 (dist + 1) / dist. */
  lemma FarMove(dx: int, dy: int, dist: nat)
    requires IsRoot(dist, Norm(dx, dy)) && dist > MAX_MOVE
    ensures Norm(Move(dx, dist), Move(dy, dist)) <= 195
  {
    hide IsRoot, Quotient;
    var x, y := Move(dx, dist), Move(dy, dist);
    FarAxis(dx, dist);
    FarAxis(dy, dist);
    Distribute(x * x, y * y, dist * dist);
    FarBound(Norm(x, y), Norm(dx, dy), dist);
  }

  lemma FarAxis(d: int, dist: nat)
    requires dist > MAX_MOVE
    ensures (Move(d, dist) * Move(d, dist)) * (dist * dist) <= 169 * (d * d)
  {
    hide Quotient;
    QuotientShortens(d * MAX_MOVE, dist);
    ScaledSquare(Move(d, dist), dist);
  }

  lemma Distribute(a: int, b: int, k: int)
    ensures (a + b) * k == a * k + b * k
  {
  }

  lemma ScaledSquare(x: int, k: int)
    ensures (x * k) * (x * k) == (x * x) * (k * k)
  {
  }

  lemma FarBound(n: nat, s: nat, dist: nat)
    requires IsRoot(dist, s) && dist > MAX_MOVE && n * (dist * dist) <= 169 * s
    ensures n <= 195
  {
    var d2 := dist * dist;
    assert (dist + 1) * (dist + 1) == d2 + 2 * dist + 1;
    assert d2 >= 14 * dist by { MulMono(14, dist, dist); }
    assert 169 * s <= 169 * (d2 + 2 * dist);
    assert 169 * (2 * dist) <= 26 * d2 by { assert 338 * dist <= 26 * (14 * dist); }
    assert n * d2 <= 195 * d2;
    if n > 195 { MulMono(196, n, d2); }
  }

  /** The pupil's centre stays within 15 pixels, in fact sqrt(195), of the eye's centre. */
  lemma PupilStaysNear(dx: int, dy: int, dist: nat)
    requires IsRoot(dist, Norm(dx, dy))
    ensures Norm(Move(dx, dist), Move(dy, dist)) <= 195 < 15 * 15
  {
    if dist > MAX_MOVE {
      FarMove(dx, dy, dist);
    } else {
      SquareMono(dist + 1, 14);
    }
  }

  /** (ax ux + ay uy)^2 <= |a|^2 |u|^2, by Lagrange's identity. */
  lemma CauchySchwarz(ax: int, ay: int, ux: int, uy: int)
    ensures (ax * ux + ay * uy) * (ax * ux + ay * uy) <= Norm(ax, ay) * Norm(ux, uy)
  {
    Lagrange(ax, ay, ux, uy);
    SquareNat(ax * uy - ay * ux);
  }

  lemma Lagrange(ax: int, ay: int, ux: int, uy: int)
    ensures (ax * ux + ay * uy) * (ax * ux + ay * uy) + (ax * uy - ay * ux) * (ax * uy - ay * ux)
            == (ax * ax + ay * ay) * (ux * ux + uy * uy)
  {
    var p, q, r, s := ax * ux, ay * uy, ax * uy, ay * ux;
    assert p * q == r * s;
    assert (p + q) * (p + q) + (r - s) * (r - s) == p * p + q * q + r * r + s * s;
    ScaledSquare(ax, ux);
    ScaledSquare(ay, uy);
    ScaledSquare(ax, uy);
    ScaledSquare(ay, ux);
  }

  predicate InDisc(cx: int, cy: int, r: nat, x: int, y: int)
  {
    Norm(x - cx, y - cy) <= r * r
  }

  lemma DiscIs(cx: int, cy: int, r: nat, x: int, y: int)
    ensures InDisc(cx, cy, r, x, y) <==> (x - cx) * (x - cx) + (y - cy) * (y - cy) <= r * r
  {
  }

  /** Every pixel of the pupil lies inside the eye, at least a pixel away from its rim. */
  lemma PupilInsideEye(cx: int, cy: int, dx: int, dy: int, dist: nat, x: int, y: int)
    requires IsRoot(dist, Norm(dx, dy)) && InDisc(cx + Move(dx, dist), cy + Move(dy, dist), PUPIL_R, x, y)
    ensures InDisc(cx, cy, EYE_R - 1, x, y) && InDisc(cx, cy, EYE_R, x, y)
  {
    hide Move, IsRoot;
    var ax, ay := Move(dx, dist), Move(dy, dist);
    PupilStaysNear(dx, dy, dist);
    Triangle(ax, ay, x - (cx + ax), y - (cy + ay));
    assert ax + (x - (cx + ax)) == x - cx && ay + (y - (cy + ay)) == y - cy;
  }

  lemma Triangle(ax: int, ay: int, ux: int, uy: int)
    requires Norm(ax, ay) <= 195 && Norm(ux, uy) <= 49
    ensures Norm(ax + ux, ay + uy) <= 438
  {
    CauchySchwarz(ax, ay, ux, uy);
    DotBound(ax * ux + ay * uy, Norm(ax, ay), Norm(ux, uy));
    SquareOfSum(ax, ux);
    SquareOfSum(ay, uy);
  }

  lemma DotBound(dot: int, n: nat, m: nat)
    requires dot * dot <= n * m && n <= 195 && m <= 49
    ensures dot <= 97
  {
    MulMono(n, 195, m);
    assert 195 * m <= 9555;
    AtMost(dot);
  }

  lemma AtMost(dot: int)
    ensures dot * dot <= 9555 ==> dot <= 97
  {
    if dot >= 98 { SquareMono(98, dot); }
  }

  lemma AbsBound(a: int, r: nat)
    ensures a * a <= r * r ==> -(r as int) <= a <= r
  {
    assert (r + 1) * (r + 1) == r * r + 2 * r + 1;
    if a > r { SquareMono(r + 1, a); }
    if -a > r { SquareMono(r + 1, -a); Negated(a); }
  }

  lemma SquareOfSum(a: int, u: int)
    ensures (a + u) * (a + u) == a * a + u * u + 2 * (a * u)
  {
  }

  /** A pixel of a disc is no further from the centre than the radius on either axis. */
  lemma DiscInBox(cx: int, cy: int, r: nat, x: int, y: int)
    requires InDisc(cx, cy, r, x, y)
    ensures cx - r <= x <= cx + r && cy - r <= y <= cy + r
  {
    AxisInBox(x - cx, y - cy, r);
    AxisInBox(y - cy, x - cx, r);
  }

  lemma AxisInBox(a: int, b: int, r: nat)
    requires a * a + b * b <= r * r
    ensures -(r as int) <= a <= r
  {
    SquareNat(b);
    AbsBound(a, r);
  }

  // ---- the picture ----

  /** The pixel (x, y) of a window's buffer whose rows hold `w` pixels. */
  function At(buffer: seq<nat>, w: nat, x: int, y: int): nat
  {
    if 0 <= y * w + x < |buffer| then buffer[y * w + x] else 0
  }

  /** Rows of `w` pixels, one after the other. */
  lemma AtIs(buffer: seq<nat>, w: nat, h: nat, x: int, y: int)
    requires |buffer| == w * h && 0 <= x < w && 0 <= y < h
    ensures 0 <= y * w + x < |buffer| && At(buffer, w, x, y) == buffer[y * w + x]
  {
    InBuffer(y, x, w, h);
  }

  lemma AtUpdate(s: seq<nat>, w: nat, h: nat, x0: int, y0: int, c: nat, x: int, y: int)
    requires |s| == w * h && 0 <= x0 < w && 0 <= y0 < h && 0 <= x < w && 0 <= y < h && 0 <= y0 * w + x0 < |s|
    ensures At(s[y0 * w + x0 := c], w, x, y) == if x == x0 && y == y0 then c else At(s, w, x, y)
  {
    InBuffer(y, x, w, h);
    RowAbove(w, x, y, x0, y0);
    RowAbove(w, x0, y0, x, y);
  }

  lemma RowAbove(w: nat, x: int, y: int, x0: int, y0: int)
    requires 0 <= x < w && 0 <= x0 < w
    ensures y < y0 ==> y * w + x < y0 * w + x0
  {
    if y < y0 {
      MulMono(y + 1, y0, w);
      assert (y + 1) * w == y * w + w;
    }
  }

  /** The pixels of a buffer in which the rows before `y` and, in row y, the columns before `x` of a disc are filled. */
  ghost predicate Filled(now: seq<nat>, before: seq<nat>, w: nat, h: nat, cx: int, cy: int, r: nat, color: nat,
      y: int, x: int)
  {
    |now| == |before| == w * h &&
    forall a, b :: 0 <= a < w && 0 <= b < h ==>
      At(now, w, a, b) == if InDisc(cx, cy, r, a, b) && (b < y || (b == y && a < x)) then color else At(before, w, a, b)
  }

  lemma FillNext(now: seq<nat>, before: seq<nat>, w: nat, h: nat, cx: int, cy: int, r: nat, color: nat, y: int, x: int)
    requires Filled(now, before, w, h, cx, cy, r, color, y, x) && 0 <= x < w && 0 <= y < h && 0 <= y * w + x < |now|
    ensures var next := if InDisc(cx, cy, r, x, y) then now[y * w + x := color] else now;
            Filled(next, before, w, h, cx, cy, r, color, y, x + 1)
  {
    hide At, InDisc;
    forall a, b | 0 <= a < w && 0 <= b < h
      ensures At(now[y * w + x := color], w, a, b) == if a == x && b == y then color else At(now, w, a, b)
    {
      AtUpdate(now, w, h, x, y, color, a, b);
    }
  }

  /** Past the disc's box nothing is left to fill in a row. */
  lemma RowDone(now: seq<nat>, before: seq<nat>, w: nat, h: nat, cx: int, cy: int, r: nat, color: nat, y: int,
      x: int, x': int)
    requires Filled(now, before, w, h, cx, cy, r, color, y, x) && (x >= w || x > cx + r) && (x' <= 0 || x' <= cx - r)
    ensures Filled(now, before, w, h, cx, cy, r, color, y + 1, x')
  {
    hide At, InDisc;
    forall a, b | 0 <= a < w && 0 <= b < h && InDisc(cx, cy, r, a, b) ensures (x' <= a || a < 0) && (a < x || x >= w) {
      DiscInBox(cx, cy, r, a, b);
    }
  }

  /** Fill a disc, clipped to the window. */
  method FillCircle(buffer: array<nat>, w: nat, h: nat, cx: int, cy: int, r: nat, color: nat)
    requires buffer.Length == w * h
    modifies buffer
    ensures forall x, y :: 0 <= x < w && 0 <= y < h ==>
              At(buffer[..], w, x, y) == if InDisc(cx, cy, r, x, y) then color else At(old(buffer[..]), w, x, y)
  {
    hide InDisc, At, Filled;
    ghost var before := buffer[..];
    var x0 := if cx - r < 0 then 0 else cx - r;
    var y0 := if cy - r < 0 then 0 else cy - r;
    var x1 := if cx + r + 1 > w then w else cx + r + 1;
    var y1 := if cy + r + 1 > h then h else cy + r + 1;
    NothingFilled(before, w, h, cx, cy, r, color, y0, x0);
    var y := y0;
    while y < y1
      invariant y0 <= y && Filled(buffer[..], before, w, h, cx, cy, r, color, y, x0)
    {
      var dy := y - cy;
      var x := x0;
      while x < x1
        invariant x0 <= x && Filled(buffer[..], before, w, h, cx, cy, r, color, y, x)
      {
        var dx := x - cx;
        InBuffer(y, x, w, h);
        FillNext(buffer[..], before, w, h, cx, cy, r, color, y, x);
        DiscIs(cx, cy, r, x, y);
        if dx * dx + dy * dy <= r * r {
          buffer[y * w + x] := color;
        }
        x := x + 1;
      }
      RowDone(buffer[..], before, w, h, cx, cy, r, color, y, x, x0);
      y := y + 1;
    }
    AllFilled(buffer[..], before, w, h, cx, cy, r, color, y, x0);
  }

  lemma NothingFilled(now: seq<nat>, w: nat, h: nat, cx: int, cy: int, r: nat, color: nat, y: int, x: int)
    requires |now| == w * h && (y <= 0 || y <= cy - r) && (x <= 0 || x <= cx - r)
    ensures Filled(now, now, w, h, cx, cy, r, color, y, x)
  {
    hide At, InDisc;
    forall a, b | InDisc(cx, cy, r, a, b) ensures cx - r <= a && cy - r <= b { DiscInBox(cx, cy, r, a, b); }
  }

  lemma AllFilled(now: seq<nat>, before: seq<nat>, w: nat, h: nat, cx: int, cy: int, r: nat, color: nat, y: int, x: int)
    requires Filled(now, before, w, h, cx, cy, r, color, y, x) && (y >= h || y > cy + r)
    ensures forall a, b :: 0 <= a < w && 0 <= b < h ==>
              At(now, w, a, b) == if InDisc(cx, cy, r, a, b) then color else At(before, w, a, b)
  {
    hide At, InDisc;
    forall a, b | InDisc(cx, cy, r, a, b) ensures b <= cy + r { DiscInBox(cx, cy, r, a, b); }
  }

  /** Where a pupil goes for a mouse off by (dx, dy) from the centre of its eye. */
  method PlacePupil(dx: int, dy: int) returns (mx: int, my: int, dist: nat)
    requires Norm(dx, dy) <= INT_MAX
    ensures IsRoot(dist, Norm(dx, dy)) && mx == Move(dx, dist) && my == Move(dy, dist)
  {
    hide IsRoot;
    mx, my := 0, 0;
    SquareNat(dx);
    SquareNat(dy);
    dist := FloorSqrt(dx * dx + dy * dy);
    if dist > 0 {
      if dist > MAX_MOVE {
        mx := Quotient(dx * MAX_MOVE, dist);
        my := Quotient(dy * MAX_MOVE, dist);
      } else {
        mx := dx;
        my := dy;
      }
    }
  }

  /** Draw both eyes looking at the mouse, given relative to the window. The black pixels are those of the
      pupils, and each pupil lies in the white of its own eye. */
  method DrawEyes(buffer: array<nat>, w: nat, h: nat, mouseX: int, mouseY: int) returns (left: nat, right: nat)
    requires buffer.Length == w * h
    requires Norm(mouseX - w / 4, mouseY - h / 2) <= INT_MAX && Norm(mouseX - w * 3 / 4, mouseY - h / 2) <= INT_MAX
    modifies buffer
    ensures IsRoot(left, Norm(mouseX - w / 4, mouseY - h / 2))
    ensures IsRoot(right, Norm(mouseX - w * 3 / 4, mouseY - h / 2))
    ensures forall x, y :: 0 <= x < w && 0 <= y < h ==>
              At(buffer[..], w, x, y)
              == if InDisc(w / 4 + Move(mouseX - w / 4, left), h / 2 + Move(mouseY - h / 2, left), 7, x, y)
                    || InDisc(w * 3 / 4 + Move(mouseX - w * 3 / 4, right),
                       h / 2 + Move(mouseY - h / 2, right), 7, x, y)
                 then 0x00000000
                 else if InDisc(w / 4, h / 2, 22, x, y) || InDisc(w * 3 / 4, h / 2, 22, x, y) then 0xFFFFFFFF
                 else 0xFFFFCCCC
  {
    hide InDisc, At, IsRoot, Move, Norm;
    var leftCx, rightCx, eyeCy := w / 4, w * 3 / 4, h / 2;
    FillAll(buffer, w, h, SKIN);
    FillCircle(buffer, w, h, leftCx, eyeCy, EYE_R, WHITE);
    FillCircle(buffer, w, h, rightCx, eyeCy, EYE_R, WHITE);
    var lx, ly, rx, ry;
    lx, ly, left := PlacePupil(mouseX - leftCx, mouseY - eyeCy);
    rx, ry, right := PlacePupil(mouseX - rightCx, mouseY - eyeCy);
    FillCircle(buffer, w, h, leftCx + lx, eyeCy + ly, PUPIL_R, BLACK);
    FillCircle(buffer, w, h, rightCx + rx, eyeCy + ry, PUPIL_R, BLACK);
  }

  method FillAll(buffer: array<nat>, w: nat, h: nat, color: nat)
    requires buffer.Length == w * h
    modifies buffer
    ensures forall x, y :: 0 <= x < w && 0 <= y < h ==> At(buffer[..], w, x, y) == color
  {
    var i := 0;
    while i < w * h
      invariant 0 <= i <= w * h && forall k :: 0 <= k < i ==> buffer[k] == color
    {
      buffer[i] := color;
      i := i + 1;
    }
    forall x, y | 0 <= x < w && 0 <= y < h ensures At(buffer[..], w, x, y) == color {
      InBuffer(y, x, w, h);
    }
  }
}
