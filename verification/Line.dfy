/** Line drawing of drivers/vga/framebuffer.c. */
module Line {
  import opened Common

  datatype Point = Point(x: int, y: int)

  function Abs(a: int): (r: int)
    ensures r >= 0
  {
    if a < 0 then -a else a
  }

  /** `n` pixels from `from` in the direction of `to`. */
  function Along(from: int, to: int, n: int): int {
    if from < to then from + n else from - n
  }

  /** C division by two, towards zero. */
  function Half(a: int): (h: int)
    ensures a >= 0 ==> 2 * h <= a <= 2 * h + 1
    ensures a <= 0 ==> 2 * h - 1 <= a <= 2 * h
  {
    if a >= 0 then a / 2 else -((-a) / 2)
  }

  /** The line from `a` to `b`: the number of steps along its major axis. */
  function Steps(a: Point, b: Point): nat {
    Max(Abs(b.x - a.x), Abs(b.y - a.y))
  }

  function Cross(a: Point, b: Point, p: Point): int {
    (p.y - a.y) * (b.x - a.x) - (p.x - a.x) * (b.y - a.y)
  }

  ghost predicate Opened(p: Point) {
    true
  }

  /** `p` is at most half a pixel off the ideal line along the minor axis: there the distance is
      the cross product over the major extent.  Only where Opened(p) is mentioned does the
      verifier look at the products. */
  ghost predicate HalfPixel(a: Point, b: Point, p: Point) {
    forall q {:trigger Opened(q)} | Opened(q) :: q == p ==> 2 * Abs(Cross(a, b, q)) <= Steps(a, b)
  }

  /** `p` is `i` steps along the major axis and half a pixel off at most. */
  ghost predicate Near(a: Point, b: Point, p: Point, i: nat) {
    && HalfPixel(a, b, p) && (a == b ==> p == a)
    && if Abs(b.x - a.x) > Abs(b.y - a.y) then p.x == Along(a.x, b.x, i) else p.y == Along(a.y, b.y, i)
  }

  /** After as many steps as the major extent only the end point is near. */
  lemma NearEnd(a: Point, b: Point, p: Point)
    requires Near(a, b, p, Steps(a, b))
    ensures p == b
  {
    assert Opened(p);
    var dx, dy := b.x - a.x, b.y - a.y;
    if Abs(dx) > Abs(dy) {
      assert p.x == b.x;
      Factor(p.y - a.y, dy, dx);
      SmallProduct(p.y - b.y, dx);
    } else if dy != 0 {
      assert p.y == b.y;
      Factor(p.x - a.x, dx, dy);
      SmallProduct(p.x - b.x, dy);
    }
  }

  lemma Factor(u: int, v: int, d: int)
    ensures u * d - d * v == (u - v) * d
  {
  }

  lemma SmallProduct(k: int, d: int)
    requires d != 0 && 2 * Abs(k * d) <= Abs(d)
    ensures k == 0
  {
    assert Abs(k * d) == Abs(k) * Abs(d);
    assert k != 0 ==> Abs(k) * Abs(d) >= 1 * Abs(d);
  }

  /** `d` added up `k` times. */
  function Times(k: nat, d: int): int {
    if k == 0 then 0 else Times(k - 1, d) + d
  }

  lemma {:induction false} TimesIs(k: nat, d: int)
    ensures Times(k, d) == k * d
    decreases k
  {
    if k > 0 {
      TimesIs(k - 1, d);
      assert k * d == (k - 1) * d + d;
    }
  }

  /** The state of the loop after `i` steps along the major axis and `m` along the minor one. */
  ghost predicate Tracks(a: Point, b: Point, p: Point, err: int, i: nat, m: nat) {
    var dx, dy := Abs(b.x - a.x), Abs(b.y - a.y);
    m <= i &&
    if dx > dy then
      && p == Point(Along(a.x, b.x, i), Along(a.y, b.y, m))
      && 0 <= err < dx && err == Half(dx) - Times(i, dy) + Times(m, dx)
    else
      && p == Point(Along(a.x, b.x, m), Along(a.y, b.y, i))
      && (dy == 0 || -dy < err) && err <= 0 && err == Half(-dy) + Times(i, dx) - Times(m, dy)
  }

  /** The steps along the minor axis, of extent `d`, that go with `i` steps along the major one, of
      extent `s`: the number nearest to i * d / s, and of two that are equally near the smaller. */
  function MinorSteps(s: nat, d: nat, i: nat): nat {
    if s == 0 then 0 else (2 * (i * d) + s - 1) / (2 * s)
  }

  /** The pixel of the line `i` steps along its major axis. */
  function Pixel(a: Point, b: Point, i: nat): Point {
    var dx, dy := Abs(b.x - a.x), Abs(b.y - a.y);
    if dx > dy then Point(Along(a.x, b.x, i), Along(a.y, b.y, MinorSteps(dx, dy, i)))
    else Point(Along(a.x, b.x, MinorSteps(dy, dx, i)), Along(a.y, b.y, i))
  }

  lemma QuotientIs(n: nat, k: nat, q: nat)
    requires k > 0 && q * k <= n < q * k + k
    ensures n / k == q
  {
    var r := n - q * k;
    assert n / k * k + n % k == q * k + r;
    SameQuotient(n / k, q, k, r - n % k);
  }

  lemma SameQuotient(p: int, q: int, k: int, r: int)
    requires k > 0 && (p - q) * k == r && -k < r < k
    ensures p == q
  {
    SmallMultiple(p - q, k);
  }

  lemma SmallMultiple(x: int, k: int)
    requires k > 0 && -k < x * k < k
    ensures x == 0
  {
    assert x >= 1 ==> x * k >= k;
    assert x <= -1 ==> x * k <= (-1) * k;
  }

  /** Just that number of minor steps is half a step off the line at most, and less on the far side. */
  lemma MinorStepsIs(s: nat, d: nat, i: nat, m: nat)
    requires s > 0
    ensures m == MinorSteps(s, d, i) <==> 2 * (m * s) < 2 * (i * d) + s <= 2 * (m * s) + 2 * s
  {
    var n: nat, k: nat := 2 * (i * d) + s - 1, 2 * s;
    assert m * k == 2 * (m * s);
    assert n / k * k + n % k == n;
    if 2 * (m * s) < 2 * (i * d) + s <= 2 * (m * s) + 2 * s {
      QuotientIs(n, k, m);
    }
  }

  lemma TracksPixel(a: Point, b: Point, p: Point, err: int, i: nat, m: nat)
    requires Tracks(a, b, p, err, i, m) && i <= Steps(a, b)
    ensures p == Pixel(a, b, i)
  {
    var dx, dy := Abs(b.x - a.x), Abs(b.y - a.y);
    if dx > dy {
      TimesIs(i, dy);
      TimesIs(m, dx);
      MinorStepsIs(dx, dy, i, m);
    } else if dy > 0 {
      TimesIs(i, dx);
      TimesIs(m, dy);
      MinorStepsIs(dy, dx, i, m);
    }
  }

  /** Pixel and distance of a point plotted. */
  ghost predicate Plots(a: Point, b: Point, p: Point, i: nat) {
    forall q {:trigger Opened(q)} | Opened(q) :: q == p ==> q == Pixel(a, b, i) && Near(a, b, q, i)
  }

  lemma CrossTurns(sx: int, sy: int, m: int, i: int, dx: int, dy: int)
    requires (sx == 1 || sx == -1) && (sy == 1 || sy == -1)
    ensures Abs((sy * m) * (sx * dx) - (sx * i) * (sy * dy)) == Abs(m * dx - i * dy)
  {
    assert (sy * m) * (sx * dx) - (sx * i) * (sy * dy) == (sx * sy) * (m * dx - i * dy);
  }

  lemma CrossAlong(a: Point, b: Point, i: int, m: int)
    ensures Abs(Cross(a, b, Point(Along(a.x, b.x, i), Along(a.y, b.y, m)))) == Abs(m * Abs(b.x - a.x) - i * Abs(b.y - a.y))
  {
    CrossTurns(if a.x < b.x then 1 else -1, if a.y < b.y then 1 else -1, m, i, Abs(b.x - a.x), Abs(b.y - a.y));
  }

  lemma TracksNear(a: Point, b: Point, p: Point, err: int, i: nat, m: nat)
    requires Tracks(a, b, p, err, i, m) && i <= Steps(a, b)
    ensures Near(a, b, p, i)
  {
    var dx, dy := Abs(b.x - a.x), Abs(b.y - a.y);
    if dx > dy {
      TimesIs(i, dy);
      TimesIs(m, dx);
      CrossAlong(a, b, i, m);
    } else {
      TimesIs(i, dx);
      TimesIs(m, dy);
      CrossAlong(a, b, m, i);
    }
  }

  /** One round of the loop: along the major axis always a step, along the minor one as the
      error says; the error stays within the major extent. */
  lemma TracksNext(a: Point, b: Point, p: Point, err: int, i: nat, m: nat)
    requires Tracks(a, b, p, err, i, m) && a != b
    ensures var dx, dy := Abs(b.x - a.x), Abs(b.y - a.y);
            var right, down := err > -dx, err < dy;
            Tracks(a, b,
                   Point(if right then Along(a.x, b.x, 1) - a.x + p.x else p.x, if down then Along(a.y, b.y, 1) - a.y + p.y else p.y),
                   err - (if right then dy else 0) + (if down then dx else 0),
                   i + 1, if right && down then m + 1 else m)
  {
  }

  /** The end point is reached after all the steps and no earlier. */
  lemma Arrived(a: Point, b: Point, i: nat)
    requires Near(a, b, b, i)
    ensures i == Steps(a, b)
  {
  }

  /** The loop's invariant, sealed. */
  ghost predicate InLoop(a: Point, b: Point, p: Point, err: int, i: nat, m: nat) {
    forall q {:trigger Opened(q)} | Opened(q) :: q == p ==> Tracks(a, b, q, err, i, m) && i <= Steps(a, b)
  }

  /** The lower half of the loop of framebuffer_draw_line. */
  method Advance(a: Point, b: Point, x: int, y: int, error: int, ghost i: nat, ghost m: nat)
    returns (x1: int, y1: int, err: int, ghost m1: nat)
    requires InLoop(a, b, Point(x, y), error, i, m) && i < Steps(a, b)
    ensures InLoop(a, b, Point(x1, y1), err, i + 1, m1)
  {
    assert Opened(Point(x, y));
    var dx, dy := Abs(b.x - a.x), Abs(b.y - a.y);
    var sx, sy := if a.x < b.x then 1 else -1, if a.y < b.y then 1 else -1;
    TracksNext(a, b, Point(x, y), error, i, m);
    x1, y1, err := x, y, error;
    var e2 := err;
    m1 := if e2 > -dx && e2 < dy then m + 1 else m;
    if e2 > -dx {
      err := err - dy;
      x1 := x1 + sx;
    }
    if e2 < dy {
      err := err + dx;
      y1 := y1 + sy;
    }
  }

  lemma PlotsHere(a: Point, b: Point, p: Point, err: int, i: nat, m: nat)
    requires InLoop(a, b, p, err, i, m)
    ensures Plots(a, b, p, i) && i <= Steps(a, b) && (p == b <==> i == Steps(a, b)) && (i == 0 ==> p == a)
  {
    assert Opened(p);
    TracksNear(a, b, p, err, i, m);
    TracksPixel(a, b, p, err, i, m);
    if i == Steps(a, b) {
      NearEnd(a, b, p);
    }
    if p == b {
      Arrived(a, b, i);
    }
  }

  lemma PlotsAll(a: Point, b: Point, plotted: seq<Point>)
    requires forall j {:trigger plotted[j]} | 0 <= j < |plotted| :: Plots(a, b, plotted[j], j)
    ensures forall j {:trigger plotted[j]} | 0 <= j < |plotted| :: plotted[j] == Pixel(a, b, j) && Near(a, b, plotted[j], j)
  {
    forall j {:trigger plotted[j]} | 0 <= j < |plotted| ensures plotted[j] == Pixel(a, b, j) && Near(a, b, plotted[j], j) {
      assert Opened(plotted[j]);
    }
  }

  lemma StartsLoop(a: Point, b: Point)
    ensures InLoop(a, b, a, Half(if Abs(b.x - a.x) > Abs(b.y - a.y) then Abs(b.x - a.x) else -Abs(b.y - a.y)), 0, 0)
  {
  }

  class Framebuffer {
    const width: nat
    const height: nat
    const pixels: array2<nat>

    ghost predicate Valid() {
      pixels.Length0 == height && pixels.Length1 == width
    }

    constructor (width: nat, height: nat)
      ensures Valid() && this.width == width && this.height == height
    {
      this.width, this.height := width, height;
      pixels := new nat[height, width]((_, _) => 0);
    }

    /** framebuffer_put_pixel: points outside the screen are dropped. */
    method PutPixel(x: int, y: int, color: nat)
      requires Valid()
      modifies pixels
      ensures forall r, c {:trigger pixels[r, c]} | 0 <= r < height && 0 <= c < width ::
                pixels[r, c] == if r == y && c == x then color else old(pixels[r, c])
    {
      if x < 0 || x >= width || y < 0 || y >= height {
        return;
      }
      pixels[y, x] := color;
    }

    /** framebuffer_draw_line: the points plotted are one more than the steps of the major axis,
        the last one is the end point, and each is the pixel of its step, which is within half a
        pixel of the line. */
    method DrawLine(a: Point, b: Point, color: nat) returns (ghost plotted: seq<Point>)
      requires Valid()
      modifies pixels
      ensures |plotted| == Steps(a, b) + 1 && plotted[0] == a && plotted[Steps(a, b)] == b
      ensures forall i {:trigger plotted[i]} | 0 <= i < |plotted| :: plotted[i] == Pixel(a, b, i) && Near(a, b, plotted[i], i)
      ensures forall r, c {:trigger pixels[r, c]} | 0 <= r < height && 0 <= c < width ::
                pixels[r, c] == if Point(c, r) in plotted then color else old(pixels[r, c])
    {
      var x1, y1 := a.x, a.y;
      var dx, dy := Abs(b.x - x1), Abs(b.y - y1);
      var err := Half(if dx > dy then dx else -dy);
      plotted := [];
      ghost var i: nat, m: nat := 0, 0;
      StartsLoop(a, b);
      while true
        invariant |plotted| == i && InLoop(a, b, Point(x1, y1), err, i, m) && i <= Steps(a, b)
        invariant i > 0 ==> plotted[0] == a
        invariant forall j {:trigger plotted[j]} | 0 <= j < i :: Plots(a, b, plotted[j], j)
        invariant forall r, c {:trigger pixels[r, c]} | 0 <= r < height && 0 <= c < width ::
                    pixels[r, c] == if Point(c, r) in plotted then color else old(pixels[r, c])
        decreases Steps(a, b) - i
      {
        PutPixel(x1, y1, color);
        PlotsHere(a, b, Point(x1, y1), err, i, m);
        plotted := plotted + [Point(x1, y1)];
        if x1 == b.x && y1 == b.y {
          break;
        }
        x1, y1, err, m := Advance(a, b, x1, y1, err, i, m);
        i := i + 1;
      }
      PlotsAll(a, b, plotted);
    }
  }

  /** The line from (0, 0) to (2, 1), whose second point could be either of two. */
  method Tie(screen: Framebuffer) returns (ghost plotted: seq<Point>)
    requires screen.Valid()
    modifies screen.pixels
    ensures plotted == [Point(0, 0), Point(1, 0), Point(2, 1)]
  {
    plotted := screen.DrawLine(Point(0, 0), Point(2, 1), 1);
    assert plotted[1] == Pixel(Point(0, 0), Point(2, 1), 1);
  }
}
