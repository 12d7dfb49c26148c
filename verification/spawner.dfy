/**
  The pickup spawner. The random source is replaced by the draws it would
  have produced: a colour index (an integer in 0..2) and two reals u, v in
  [0, 1) that place the centre.
 */
module Spawner {
  import opened Entities

  /** Ticks between spawns, counted after the tick counter is incremented. */
  const SpawnInterval: nat := 360

  /** The random draws one spawn consumes. */
  datatype Draw = Draw(colourIndex: int, u: real, v: real)

  /** The ranges the random source guarantees. */
  predicate ValidDraw(d: Draw) {
    0 <= d.colourIndex < 3 && 0.0 <= d.u < 1.0 && 0.0 <= d.v < 1.0
  }

  /** Index 0 is Red, 1 is Green and anything else is Gray. */
  function PickupColour(n: int): (c: Colour)
    ensures n == 0 <==> c == Red
    ensures n == 1 <==> c == Green
  {
    if n == 0 then Red
    else if n == 1 then Green
    else Gray
  }

  /** Every colour is produced by exactly one index in 0..2. */
  lemma PickupColourOnto(c: Colour)
    ensures exists n :: 0 <= n < 3 && PickupColour(n) == c
    ensures forall n, m :: 0 <= n < 3 && 0 <= m < 3 && PickupColour(n) == c && PickupColour(m) == c ==> n == m
  {
    match c
    case Red => assert PickupColour(0) == c;
    case Green => assert PickupColour(1) == c;
    case Gray => assert PickupColour(2) == c;
  }

  /** The offset a draw u in [0, 1) selects within a span: strictly below its end. */
  function Offset(u: real, span: real): (o: real)
    ensures 0.0 <= u < 1.0 && 0.0 < span ==> 0.0 <= o < span
  {
    u * span
  }

  /**
    A new pickup of radius 10. Given draws in range and a field wider and
    taller than the pickup's diameter, the centre lies in the field shrunk by
    the radius, strictly short of the far edges.
   */
  function SpawnPickup(f: Field, d: Draw): (p: Pickup)
    ensures p.r == PickupRadius
    ensures p.col == PickupColour(d.colourIndex)
    ensures 0.0 <= d.u < 1.0 && 2.0 * PickupRadius < f.w ==> f.x + p.r <= p.x < f.x + f.w - p.r
    ensures 0.0 <= d.v < 1.0 && 2.0 * PickupRadius < f.h ==> f.y + p.r <= p.y < f.y + f.h - p.r
  {
    var r := PickupRadius;
    Pickup(f.x + r + Offset(d.u, f.w - 2.0 * r), f.y + r + Offset(d.v, f.h - 2.0 * r), r,
           PickupColour(d.colourIndex))
  }

  /** A spawn is due when the already-incremented counter is a multiple of the interval. */
  predicate SpawnDue(ticks: nat) {
    ticks % SpawnInterval == 0
  }

  /**
    The spawn phase of a tick, given the incremented counter: when due, the
    list is cleared and exactly one new pickup is appended; otherwise the
    list is left alone.
   */
  function SpawnStep(f: Field, ticks: nat, ps: seq<Pickup>, d: Draw): (r: seq<Pickup>)
    ensures SpawnDue(ticks) ==> r == [SpawnPickup(f, d)]
    ensures !SpawnDue(ticks) ==> r == ps
  {
    if SpawnDue(ticks) then
      var cleared := if |ps| != 0 then [] else ps;
      cleared + [SpawnPickup(f, d)]
    else ps
  }

  /** Counting from a fresh round, the first spawn is on tick 360, not tick 1. */
  lemma FirstSpawnAt360()
    ensures forall t: nat :: 1 <= t < 360 ==> !SpawnDue(t)
    ensures SpawnDue(360)
  {
  }
}
