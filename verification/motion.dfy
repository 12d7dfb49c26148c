/**
  Per-tick motion of one square: advance by the velocity, then reflect off
  the field walls. A crossed wall snaps the square flush against it and the
  velocity component is set to point away from that wall (absolute-value
  reflection, not negation). The far-wall test runs after the near-wall
  one, so it wins when both fire.
 */
module Motion {
  import opened Entities

  /**
    One axis of the reflection: position p with velocity v, a wall at lo and
    one at lo + len, and a square of side w. The four cases below cover every
    input.
   */
  function Bounce(p: real, v: real, lo: real, len: real, w: real): (r: (real, real))
    // no wall touched: plain motion
    ensures lo <= p + v && p + v + w <= lo + len ==> r == (p + v, v)
    // near wall crossed and the square fits: flush at lo, moving inward
    ensures p + v < lo && w <= len ==> r == (lo, Abs(v))
    // far wall crossed: flush at the far wall, moving inward
    ensures p + v + w > lo + len ==> r == (lo + len - w, -Abs(v))
    // near wall crossed by a square wider than the field: the far-wall snap wins
    ensures p + v < lo && w > len ==> r == (lo + len - w, -Abs(v))
  {
    var q := p + v;
    var (q1, v1) := if q < lo then (lo, Abs(v)) else (q, v);
    if q1 + w > lo + len then (lo + len - w, -Abs(v1)) else (q1, v1)
  }

  /** A square that fits along an axis ends inside it, at the same speed. */
  lemma BounceContains(p: real, v: real, lo: real, len: real, w: real)
    requires w <= len
    ensures var r := Bounce(p, v, lo, len, w);
            lo <= r.0 && r.0 + w <= lo + len && Abs(r.1) == Abs(v)
  {
  }

  /**
    Motion of one square in the field. Size, colour and name are untouched;
    each velocity component keeps its magnitude; a square no larger than the
    field ends inside it, and a wall snap leaves the velocity pointing inward.
   */
  function MoveSquare(f: Field, s: Square): (r: Square)
    ensures r.w == s.w && r.initW == s.initW && r.col == s.col && r.name == s.name
    ensures Abs(r.vx) == Abs(s.vx) && Abs(r.vy) == Abs(s.vy)
    ensures s.w <= f.w ==> f.x <= r.x && r.x + r.w <= f.x + f.w
    ensures s.w <= f.h ==> f.y <= r.y && r.y + r.w <= f.y + f.h
    ensures s.x + s.vx < f.x && s.w <= f.w ==> r.x == f.x && 0.0 <= r.vx
    ensures s.y + s.vy < f.y && s.w <= f.h ==> r.y == f.y && 0.0 <= r.vy
    ensures s.x + s.vx + s.w > f.x + f.w ==> r.x == f.x + f.w - s.w && r.vx <= 0.0
    ensures s.y + s.vy + s.w > f.y + f.h ==> r.y == f.y + f.h - s.w && r.vy <= 0.0
    ensures f.x <= s.x + s.vx && s.x + s.vx + s.w <= f.x + f.w ==> r.x == s.x + s.vx && r.vx == s.vx
    ensures f.y <= s.y + s.vy && s.y + s.vy + s.w <= f.y + f.h ==> r.y == s.y + s.vy && r.vy == s.vy
  {
    var (x, vx) := Bounce(s.x, s.vx, f.x, f.w, s.w);
    var (y, vy) := Bounce(s.y, s.vy, f.y, f.h, s.w);
    s.(x := x, y := y, vx := vx, vy := vy)
  }
}
