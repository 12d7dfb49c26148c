/**
  Concrete rounds on the default 700 x 440 field at (50, 120).
 */
module Scenarios {
  import opened Entities
  import opened Geometry
  import opened Motion
  import opened Spawner
  import opened Collision
  import opened Round

  const DefaultField: Field := Field(50.0, 120.0, 700.0, 440.0)

  /** A square moving right at 100 per tick meets the right wall at 750 and turns back. */
  lemma WallBounceScenario()
    ensures var s := Square(630.0, 180.0, 60.0, 60.0, 100.0, 0.0, Red, "Red");
            var r := MoveSquare(DefaultField, s);
            r.x == 690.0 && r.vx == -100.0 && r.y == 180.0 && r.vy == 0.0
  {
  }

  /** On a LightGreen field only the Red square shrinks, 60 to 48, and velocities swap. */
  lemma VulnerableCollisionScenario()
    ensures var a := Square(300.0, 300.0, 60.0, 60.0, 3.2, 2.6, Red, "Red");
            var b := Square(330.0, 310.0, 60.0, 60.0, -3.0, -2.8, Green, "Green");
            var r := ResolveSquares(a, b, LightGreen);
            r.0.w == 48.0 && r.1.w == 60.0 && r.0.vx == -3.0 && r.1.vx == 3.2
            && r.0.vy == -2.8 && r.1.vy == 2.6
  {
  }

  /** Five collisions on a Gray field take both squares from 60 to 0: the verdict is "Pair". */
  lemma MutualShrinkScenario()
    ensures var a := Square(300.0, 300.0, 60.0, 60.0, 3.2, 2.6, Red, "Red");
            var b := Square(300.0, 300.0, 60.0, 60.0, -3.0, -2.8, Green, "Green");
            var r1 := ResolveSquares(a, b, TGray);
            var r2 := ResolveSquares(r1.0, r1.1, TGray);
            var r3 := ResolveSquares(r2.0, r2.1, TGray);
            var r4 := ResolveSquares(r3.0, r3.1, TGray);
            var r5 := ResolveSquares(r4.0, r4.1, TGray);
            && Judge(r4.0, r4.1) == None
            && r5.0.w == 0.0 && r5.1.w == 0.0
            && Judge(r5.0, r5.1) == Some(PairLabel)
  {
  }

  /** Tick 359 to 360 with a pickup present: the old pickup is replaced by exactly one new one. */
  lemma PeriodicSpawnScenario(g: Game, d: Draw)
    requires g.ticks == 359 && |g.pickups| == 1
    ensures AdvanceAndSpawn(g, d).pickups == [SpawnPickup(g.field, d)]
  {
  }

  /** The first tick of a fresh round spawns nothing: the counter becomes 1, not a multiple of 360. */
  lemma NoSpawnOnFirstTickScenario(g: Game, d: Draw)
    ensures AdvanceAndSpawn(ResetGameState(g), d).pickups == []
  {
  }
}
