/**
 * Integer rectangles (SDL_Rect) and the three point-in-rectangle tests the
 * screens use, plus an overlap test with SDL_HasIntersection's meaning.
 */
module Geometry {

  datatype Rect = Rect(x: int, y: int, w: int, h: int)

  /** `x < px < x + w` and likewise vertically: every edge excluded
      (the RSA form fields, the riddle monitors of two of the puzzle screens). */
  predicate InsideOpen(r: Rect, px: int, py: int)
  {
    r.x < px < r.x + r.w && r.y < py < r.y + r.h
  }

  /** `[x, x + w) x [y, y + h)` (the monitor area of the puzzle module). */
  predicate InsideHalfOpen(r: Rect, px: int, py: int)
  {
    r.x <= px < r.x + r.w && r.y <= py < r.y + r.h
  }

  /** Every edge included (menu buttons, the leaderboard's Back button). */
  predicate InsideClosed(r: Rect, px: int, py: int)
  {
    r.x <= px <= r.x + r.w && r.y <= py <= r.y + r.h
  }

  predicate IsEmpty(r: Rect)
  {
    r.w <= 0 || r.h <= 0
  }

  /** Two non-empty rectangles overlap when they share an interior point on
      both axes; an empty rectangle overlaps nothing. */
  predicate Overlaps(a: Rect, b: Rect)
  {
    && !IsEmpty(a) && !IsEmpty(b)
    && a.x < b.x + b.w && b.x < a.x + a.w
    && a.y < b.y + b.h && b.y < a.y + a.h
  }

  function Translate(r: Rect, dx: int, dy: int): (t: Rect)
    ensures t.w == r.w && t.h == r.h
  {
    Rect(r.x + dx, r.y + dy, r.w, r.h)
  }
}
