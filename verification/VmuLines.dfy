/** Lines on the memory-unit screen, `launcher/vmu_pixels.py`. */
module VmuLines {
  import opened Words

  const W: nat := 48
  const H: nat := 32

  type Screen = s: seq<nat> | |s| == W * H witness seq(W * H, _ => 0)

  function Max(x: int, y: int): int { if x < y then y else x }

  // ----- The ideal line, rounded

  /** num / den to the nearest integer, halves upwards. */
  function Round(num: int, den: int): int
    requires den > 0
  {
    (2 * num + den) / (2 * den)
  }

  /** How far along each axis the k-th dot is from the start: one per dot on the longer axis, and
      the rounded ideal line on the other. */
  function Along(dx: nat, dy: nat, k: nat): (int, int) {
    if dx == 0 && dy == 0 then (0, 0)
    else if dx >= dy then (k, Round(k * dy, dx))
    else (Round(k * dx, dy), k)
  }

  function Toward(from: int, to: int, n: int): int { if from < to then from + n else from - n }

  function LinePoint(x1: int, y1: int, x2: int, y2: int, k: nat): (int, int) {
    var (a, b) := Along(Abs(x2 - x1), Abs(y2 - y1), k);
    (Toward(x1, x2, a), Toward(y1, y2, b))
  }

  function LastDot(x1: int, y1: int, x2: int, y2: int): nat { Max(Abs(x2 - x1), Abs(y2 - y1)) }

  // ----- Rounding

  /** Rounding is what stays within half a unit, and below it by less than that. */
  lemma RoundExact(num: int, den: int, q: int)
    requires den > 0
    ensures q == Round(num, den) <==> -den < 2 * (q * den - num) <= den
  {
    var n, d := 2 * num + den, 2 * den;
    var r := n - d * q;
    assert r == den - 2 * (q * den - num) by {
      assert d * q == 2 * (q * den);
    }
    if 0 <= r < d {
      DivModUnique(n, d, q, r);
    }
  }

  lemma NextMultiple(k: nat, d: nat)
    ensures (k + 1) * d == k * d + d
  {
  }

  // ----- One turn of the loop

  /** The running error of the loop after a steps along x and b along y. */
  function ErrorAt(dx: nat, dy: nat, a: int, b: int): int { b * dx - a * dy + dx - dy }

  /** The loop's two tests move on to the next dot of the rounded line. */
  lemma NextDot(dx: nat, dy: nat, k: nat)
    requires k < Max(dx, dy)
    ensures var (a, b) := Along(dx, dy, k); var e2 := 2 * ErrorAt(dx, dy, a, b);
            Along(dx, dy, k + 1) == (a + if e2 + dy >= 0 then 1 else 0, b + if e2 <= dx then 1 else 0)
  {
    var (a, b) := Along(dx, dy, k);
    var e2 := 2 * ErrorAt(dx, dy, a, b);
    NextMultiple(k, dy);
    NextMultiple(k, dx);
    if dx >= dy {
      RoundExact(k * dy, dx, b);
      OneMore(b, dx);
      RoundExact((k + 1) * dy, dx, b + if e2 <= dx then 1 else 0);
    } else {
      RoundExact(k * dx, dy, a);
      OneMore(a, dy);
      RoundExact((k + 1) * dx, dy, a + if e2 + dy >= 0 then 1 else 0);
    }
  }

  lemma OneMore(b: int, d: nat)
    ensures (b + 1) * d == b * d + d
  {
  }

  /** The line starts at its first end point and reaches the other one with its last dot only. */
  lemma EndPoints(x1: int, y1: int, x2: int, y2: int, k: nat)
    requires k <= LastDot(x1, y1, x2, y2)
    ensures LinePoint(x1, y1, x2, y2, 0) == (x1, y1)
    ensures LinePoint(x1, y1, x2, y2, k) == (x2, y2) <==> k == LastDot(x1, y1, x2, y2)
  {
    var dx, dy := Abs(x2 - x1), Abs(y2 - y1);
    if dx > 0 || dy > 0 {
      var long, short := Max(dx, dy), if dx >= dy then dy else dx;
      RoundExact(0, long, 0);
      assert 0 * short == 0;
      RoundExact(long * short, long, short);
      assert short * long == long * short;
    }
  }

  /** Each dot is at most one pixel per axis from the one before. */
  lemma Connected(x1: int, y1: int, x2: int, y2: int, k: nat)
    requires k < LastDot(x1, y1, x2, y2)
    ensures var (x, y) := LinePoint(x1, y1, x2, y2, k); var (x', y') := LinePoint(x1, y1, x2, y2, k + 1);
            Abs(x' - x) <= 1 && Abs(y' - y) <= 1 && Max(Abs(x' - x), Abs(y' - y)) == 1
  {
    hide Along, ErrorAt;
    var dx, dy := Abs(x2 - x1), Abs(y2 - y1);
    NextDot(dx, dy, k);
    Moves(dx, dy, k);
  }

  lemma Moves(dx: nat, dy: nat, k: nat)
    requires k < Max(dx, dy)
    ensures Along(dx, dy, k + 1) != Along(dx, dy, k)
  {
  }

  /** On the shorter axis every dot is within half a pixel of the ideal line:
      |b - k * dy / dx| <= 1/2, multiplied out. */
  lemma WithinHalfAPixel(dx: nat, dy: nat, k: nat)
    ensures dx >= dy ==> Abs(2 * (Along(dx, dy, k).1 * dx - k * dy)) <= dx && (dx > 0 ==> Along(dx, dy, k).0 == k)
    ensures dx < dy ==> Abs(2 * (Along(dx, dy, k).0 * dy - k * dx)) <= dy && Along(dx, dy, k).1 == k
  {
    if dx >= dy && dx > 0 {
      RoundExact(k * dy, dx, Round(k * dy, dx));
    } else if dx < dy {
      RoundExact(k * dx, dy, Round(k * dx, dy));
    }
  }

  // ----- What gets painted

  function Paint(s: Screen, x: int, y: int, color: nat): Screen {
    if 0 <= x < W && 0 <= y < H then s[y * W + x := if color != 0 then 1 else 0] else s
  }

  /** The screen after the first n dots. */
  function Painted(s: Screen, x1: int, y1: int, x2: int, y2: int, color: nat, n: nat): Screen {
    if n == 0 then s
    else
      var (x, y) := LinePoint(x1, y1, x2, y2, n - 1);
      Paint(Painted(s, x1, y1, x2, y2, color, n - 1), x, y, color)
  }

  /** Exactly the pixels of the line that are on the screen take the colour; lines may leave it. */
  lemma {:induction false} PixelsExact(s: Screen, x1: int, y1: int, x2: int, y2: int, color: nat, n: nat, x: int, y: int)
    requires 0 <= x < W && 0 <= y < H
    ensures var hit := exists k :: 0 <= k < n && LinePoint(x1, y1, x2, y2, k) == (x, y);
            Painted(s, x1, y1, x2, y2, color, n)[y * W + x] == if hit then if color != 0 then 1 else 0 else s[y * W + x]
  {
    hide LinePoint;
    if n > 0 {
      PixelsExact(s, x1, y1, x2, y2, color, n - 1, x, y);
      var (px, py) := LinePoint(x1, y1, x2, y2, n - 1);
      if 0 <= px < W {
        PixelsDiffer(x, y, px, py);
      }
    }
  }

  lemma PixelsDiffer(x: int, y: int, px: int, py: int)
    requires 0 <= x < W && 0 <= px < W
    ensures y * W + x == py * W + px <==> x == px && y == py
  {
  }

  class LCD {
    const p: array<nat>

    ghost predicate Valid() { p.Length == W * H }

    constructor ()
      ensures Valid() && fresh(p) && p[..] == seq(W * H, _ => 0)
    {
      p := new nat[W * H](_ => 0);
      new;
      assert p[..] == seq(W * H, _ => 0);
    }

    method Dot(x: int, y: int, color: nat)
      requires Valid()
      modifies p
      ensures p[..] == Paint(old(p[..]), x, y, color)
    {
      if 0 <= x < W && 0 <= y < H {
        p[y * W + x] := if color != 0 then 1 else 0;
      }
    }

    /** Bresenham's loop draws the rounded ideal line, end points included, dot by dot. */
    method Line(x1: int, y1: int, x2: int, y2: int, color: nat) returns (ghost dots: nat)
      requires Valid()
      modifies p
      ensures dots == LastDot(x1, y1, x2, y2) + 1
      ensures p[..] == Painted(old(p[..]), x1, y1, x2, y2, color, dots)
    {
      hide Along, Paint, ErrorAt;
      var dx, dy := Abs(x2 - x1), -Abs(y2 - y1);
      var sx := if x1 < x2 then 1 else -1;
      var sy := if y1 < y2 then 1 else -1;
      var error := dx + dy;
      var x, y := x1, y1;
      ghost var k := 0;
      EndPoints(x1, y1, x2, y2, 0);
      StartsAtZero(dx, -dy);
      while true
        invariant 0 <= k <= LastDot(x1, y1, x2, y2)
        invariant (x, y) == LinePoint(x1, y1, x2, y2, k)
        invariant error == ErrorAt(dx, -dy, Along(dx, -dy, k).0, Along(dx, -dy, k).1)
        invariant p[..] == Painted(old(p[..]), x1, y1, x2, y2, color, k)
        decreases LastDot(x1, y1, x2, y2) - k
      {
        Dot(x, y, color);
        EndPoints(x1, y1, x2, y2, k);
        if x == x2 && y == y2 {
          break;
        }
        NextDot(dx, -dy, k);
        ErrorMoves(dx, -dy, Along(dx, -dy, k).0, Along(dx, -dy, k).1);
        var e2 := 2 * error;
        if e2 >= dy {
          error := error + dy;
          x := x + sx;
        }
        if e2 <= dx {
          error := error + dx;
          y := y + sy;
        }
        k := k + 1;
      }
      dots := k + 1;
    }
  }

  lemma StartsAtZero(dx: nat, dy: nat)
    ensures ErrorAt(dx, dy, Along(dx, dy, 0).0, Along(dx, dy, 0).1) == dx - dy
  {
    if dx > 0 || dy > 0 {
      var long := Max(dx, dy);
      RoundExact(0, long, 0);
    }
  }

  lemma ErrorMoves(dx: nat, dy: nat, a: int, b: int)
    ensures ErrorAt(dx, dy, a + 1, b) == ErrorAt(dx, dy, a, b) - dy
    ensures ErrorAt(dx, dy, a, b + 1) == ErrorAt(dx, dy, a, b) + dx
    ensures ErrorAt(dx, dy, a + 1, b + 1) == ErrorAt(dx, dy, a, b) - dy + dx
  {
    OneMore(a, dy);
    OneMore(b, dx);
  }
}
