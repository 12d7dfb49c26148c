/**
  The round controller: the game state and the one-tick update, run as five
  phases in a fixed order (advance the counter and maybe spawn, move both
  squares, consume pickups, resolve the square-square collision, check for
  a loser), plus the round reset.
 */
module Round {
  import opened Entities
  import opened Geometry
  import opened Motion
  import opened Spawner
  import opened Collision

  /** The four screens of the program; the round advances only on GameScreen. */
  datatype Screen = MenuScreen | ExitConfirmScreen | GameScreen | GameOverScreen

  /** The whole program state that the update touches. */
  datatype Game = Game(screen: Screen, field: Field, tint: Tint, sq1: Square, sq2: Square,
                       pickups: seq<Pickup>, ticks: nat, winner: string)

  /** Side length of both squares at the start of a round. */
  const InitSize: real := 60.0

  /** Label announced when both squares are gone in the same tick. */
  const PairLabel: string := "Pair"

  // ---------------------------------------------------------------------
  // Invariant of a round at tick boundaries
  // ---------------------------------------------------------------------

  /** The field is large enough for the reset layout (and so for a pickup). */
  predicate FieldOk(f: Field) {
    140.0 <= f.w && 140.0 <= f.h
  }

  /** A square fits in the field and has not grown beyond its initial size. */
  predicate SquareOk(f: Field, s: Square) {
    && 0.0 < s.initW && s.initW <= f.w && s.initW <= f.h
    && s.w <= s.initW
    && f.x <= s.x && s.x + s.w <= f.x + f.w
    && f.y <= s.y && s.y + s.w <= f.y + f.h
  }

  /** A pickup has radius 10 and its centre is in the field shrunk by the radius. */
  predicate PickupOk(f: Field, p: Pickup) {
    && p.r == PickupRadius
    && f.x + p.r <= p.x < f.x + f.w - p.r
    && f.y + p.r <= p.y < f.y + f.h - p.r
  }

  predicate RoundInv(g: Game) {
    && FieldOk(g.field)
    && SquareOk(g.field, g.sq1) && SquareOk(g.field, g.sq2)
    && |g.pickups| <= 1
    && forall i :: 0 <= i < |g.pickups| ==> PickupOk(g.field, g.pickups[i])
  }

  // ---------------------------------------------------------------------
  // The phases of one tick
  // ---------------------------------------------------------------------

  /**
    Phase 1: increment the counter; when the new value is a multiple of 360
    the pickup list is replaced by one fresh pickup.
   */
  function AdvanceAndSpawn(g: Game, d: Draw): (r: Game)
    ensures r.ticks == g.ticks + 1
    ensures SpawnDue(r.ticks) ==> r.pickups == [SpawnPickup(g.field, d)]
    ensures !SpawnDue(r.ticks) ==> r.pickups == g.pickups
    ensures r.(ticks := g.ticks, pickups := g.pickups) == g
  {
    var t := g.ticks + 1;
    g.(ticks := t, pickups := SpawnStep(g.field, t, g.pickups, d))
  }

  /** Phase 2: both squares move and reflect off the walls. */
  function MoveBoth(g: Game): (r: Game)
    ensures SquareOk(g.field, g.sq1) ==> SquareOk(r.field, r.sq1)
    ensures SquareOk(g.field, g.sq2) ==> SquareOk(r.field, r.sq2)
    ensures r.sq1.w == g.sq1.w && r.sq2.w == g.sq2.w
    ensures r.(sq1 := g.sq1, sq2 := g.sq2) == g
  {
    g.(sq1 := MoveSquare(g.field, g.sq1), sq2 := MoveSquare(g.field, g.sq2))
  }

  /**
    Phase 3: every pickup either square touches is removed and retints the
    field; the others stay, in order.
   */
  function ConsumeStep(g: Game): (r: Game)
    ensures forall p :: p in r.pickups <==> p in g.pickups && !Eaten(g.sq1, g.sq2, p)
    ensures |r.pickups| <= |g.pickups|
    ensures (forall i :: 0 <= i < |g.pickups| ==> !Eaten(g.sq1, g.sq2, g.pickups[i])) ==>
              r.tint == g.tint && r.pickups == g.pickups
    ensures r.(pickups := g.pickups, tint := g.tint) == g
  {
    var eaten := p => Eaten(g.sq1, g.sq2, p);
    NothingEatenKeepsAll(eaten, g.pickups);
    g.(pickups := Survivors(eaten, g.pickups), tint := LastEatenTint(eaten, g.pickups, g.tint))
  }

  /** Phase 4: the square-square response under the current tint. */
  function CollideStep(g: Game): (r: Game)
    ensures !AabbOverlap(g.sq1, g.sq2) ==> r == g
    ensures r.sq1.w == g.sq1.w || r.sq1.w == g.sq1.w - Step(g.sq1)
    ensures r.sq2.w == g.sq2.w || r.sq2.w == g.sq2.w - Step(g.sq2)
    ensures r.sq1.(w := g.sq1.w, vx := g.sq1.vx, vy := g.sq1.vy) == g.sq1
    ensures r.sq2.(w := g.sq2.w, vx := g.sq2.vx, vy := g.sq2.vy) == g.sq2
    ensures r.(sq1 := g.sq1, sq2 := g.sq2) == g
  {
    var (a, b) := ResolveSquares(g.sq1, g.sq2, g.tint);
    g.(sq1 := a, sq2 := b)
  }

  /**
    The loser test: no verdict while both squares have positive size;
    "Pair" when both are gone, otherwise the name of the survivor.
   */
  function Judge(a: Square, b: Square): (r: Option<string>)
    ensures r == None <==> 0.0 < a.w && 0.0 < b.w
    ensures a.w <= 0.0 && b.w <= 0.0 ==> r == Some(PairLabel)
    ensures a.w <= 0.0 < b.w ==> r == Some(b.name)
    ensures b.w <= 0.0 < a.w ==> r == Some(a.name)
  {
    if a.w <= 0.0 || b.w <= 0.0 then
      if a.w <= 0.0 && b.w <= 0.0 then Some(PairLabel)
      else if a.w <= 0.0 then Some(b.name)
      else Some(a.name)
    else None
  }

  /**
    Phase 5: while both squares have positive size nothing changes; once a
    size is zero or less the round is over, and only the screen and the
    winner label change.
   */
  function CheckDeath(g: Game): (r: Game)
    ensures 0.0 < g.sq1.w && 0.0 < g.sq2.w ==> r == g
    ensures g.sq1.w <= 0.0 || g.sq2.w <= 0.0 ==>
              r.screen == GameOverScreen && r.(screen := g.screen, winner := g.winner) == g
    ensures g.sq1.w <= 0.0 && g.sq2.w <= 0.0 ==> r.winner == PairLabel
    ensures g.sq1.w <= 0.0 < g.sq2.w ==> r.winner == g.sq2.name
    ensures g.sq2.w <= 0.0 < g.sq1.w ==> r.winner == g.sq1.name
  {
    match Judge(g.sq1, g.sq2)
    case None => g
    case Some(w) => g.(winner := w, screen := GameOverScreen)
  }

  /** One tick of the round, the phases in the order the source runs them. */
  function UpdateGameLogic(g: Game, d: Draw): (r: Game)
    ensures r.field == g.field && r.ticks == g.ticks + 1
    ensures r.sq1.initW == g.sq1.initW && r.sq1.col == g.sq1.col && r.sq1.name == g.sq1.name
    ensures r.sq2.initW == g.sq2.initW && r.sq2.col == g.sq2.col && r.sq2.name == g.sq2.name
    ensures r.screen == g.screen || r.screen == GameOverScreen
  {
    CheckDeath(CollideStep(ConsumeStep(MoveBoth(AdvanceAndSpawn(g, d)))))
  }

  // ---------------------------------------------------------------------
  // Properties of one tick
  // ---------------------------------------------------------------------

  /**
    A tick keeps both squares inside the field and no larger than their
    initial size, and keeps at most one pickup, inside the field.
   */
  lemma TickKeepsRoundInv(g: Game, d: Draw)
    requires RoundInv(g) && ValidDraw(d)
    ensures RoundInv(UpdateGameLogic(g, d))
  {
    var g1 := AdvanceAndSpawn(g, d);
    SpawnKeepsRoundInv(g, d);
    var g2 := MoveBoth(g1);
    MoveKeepsRoundInv(g1);
    var g3 := ConsumeStep(g2);
    ConsumeKeepsRoundInv(g2);
    var g4 := CollideStep(g3);
    CollideKeepsRoundInv(g3);
    CheckDeathKeepsRoundInv(g4);
  }

  lemma SpawnKeepsRoundInv(g: Game, d: Draw)
    requires RoundInv(g) && ValidDraw(d)
    ensures RoundInv(AdvanceAndSpawn(g, d))
  {
    var r := AdvanceAndSpawn(g, d);
    if SpawnDue(r.ticks) {
      assert PickupOk(g.field, SpawnPickup(g.field, d));
    }
  }

  lemma MoveKeepsRoundInv(g: Game)
    requires RoundInv(g)
    ensures RoundInv(MoveBoth(g))
  {
  }

  lemma ConsumeKeepsRoundInv(g: Game)
    requires RoundInv(g)
    ensures RoundInv(ConsumeStep(g))
  {
    var r := ConsumeStep(g);
    forall i | 0 <= i < |r.pickups|
      ensures PickupOk(g.field, r.pickups[i])
    {
      assert r.pickups[i] in g.pickups;
    }
  }

  lemma CollideKeepsRoundInv(g: Game)
    requires RoundInv(g)
    ensures RoundInv(CollideStep(g))
  {
    var r := CollideStep(g);
    assert r.field == g.field && r.pickups == g.pickups;
  }

  lemma CheckDeathKeepsRoundInv(g: Game)
    requires RoundInv(g)
    ensures RoundInv(CheckDeath(g))
  {
  }

  /**
    The pickup list after a tick: on a spawn tick it holds at most the one
    fresh pickup, otherwise only pickups that were already there.
   */
  lemma TickPickups(g: Game, d: Draw)
    ensures var r := UpdateGameLogic(g, d);
            && (SpawnDue(g.ticks + 1) ==> r.pickups == [] || r.pickups == [SpawnPickup(g.field, d)])
            && (!SpawnDue(g.ticks + 1) ==> forall p :: p in r.pickups ==> p in g.pickups)
  {
    var g3 := ConsumeStep(MoveBoth(AdvanceAndSpawn(g, d)));
    var r := UpdateGameLogic(g, d);
    assert r.pickups == g3.pickups;
    if SpawnDue(g.ticks + 1) {
      var sp := SpawnPickup(g.field, d);
      assert forall p :: p in g3.pickups ==> p == sp;
      if g3.pickups != [] {
        assert g3.pickups[0] == sp;
        assert |g3.pickups| == 1;
      }
    }
  }

  /**
    Each square's size after a tick is its old size or one shrink step less;
    a square of positive size therefore stays above minus one step.
   */
  lemma TickShrinksByOneStepAtMost(g: Game, d: Draw)
    ensures var r := UpdateGameLogic(g, d);
            && (r.sq1.w == g.sq1.w || r.sq1.w == g.sq1.w - Step(g.sq1))
            && (r.sq2.w == g.sq2.w || r.sq2.w == g.sq2.w - Step(g.sq2))
  {
    var g1 := AdvanceAndSpawn(g, d);
    assert g1.sq1 == g.sq1 && g1.sq2 == g.sq2;
    var g2 := MoveBoth(g1);
    var g3 := ConsumeStep(g2);
    assert g3.sq1 == g2.sq1 && g3.sq2 == g2.sq2;
    assert Step(g3.sq1) == Step(g.sq1) && Step(g3.sq2) == Step(g.sq2);
    var g4 := CollideStep(g3);
    var r := CheckDeath(g4);
    assert r.sq1 == g4.sq1 && r.sq2 == g4.sq2;
  }

  /**
    The verdict of a tick: the round ends exactly when a square has
    non-positive size, and the label names the survivor or "Pair".
   */
  lemma TickWinner(g: Game, d: Draw)
    ensures var r := UpdateGameLogic(g, d);
            && (0.0 < r.sq1.w && 0.0 < r.sq2.w ==> r.screen == g.screen && r.winner == g.winner)
            && (r.sq1.w <= 0.0 && r.sq2.w <= 0.0 ==> r.screen == GameOverScreen && r.winner == PairLabel)
            && (r.sq1.w <= 0.0 < r.sq2.w ==> r.screen == GameOverScreen && r.winner == r.sq2.name)
            && (r.sq2.w <= 0.0 < r.sq1.w ==> r.screen == GameOverScreen && r.winner == r.sq1.name)
  {
    var g4 := CollideStep(ConsumeStep(MoveBoth(AdvanceAndSpawn(g, d))));
    assert UpdateGameLogic(g, d) == CheckDeath(g4);
  }

  // ---------------------------------------------------------------------
  // Reset and many ticks
  // ---------------------------------------------------------------------

  /**
    A fresh round: Red at (fx+80, fy+60) moving (3.2, 2.6), Green at
    (fx+fw-140, fy+fh-140) moving (-3.0, -2.8), both of size 60, no pickups,
    counter 0, gray tint, no winner. Screen and field are kept.
   */
  function ResetGameState(g: Game): (r: Game)
    ensures FieldOk(g.field) ==> RoundInv(r)
    ensures r.screen == g.screen && r.field == g.field
    ensures r.pickups == [] && r.ticks == 0 && r.tint == TGray && r.winner == ""
    ensures r.sq1.w == r.sq1.initW && r.sq2.w == r.sq2.initW
    ensures r.sq1.col == Red && r.sq2.col == Green
  {
    var f := g.field;
    g.(sq1 := Square(f.x + 80.0, f.y + 60.0, InitSize, InitSize, 3.2, 2.6, Red, "Red"),
       sq2 := Square(f.x + f.w - 140.0, f.y + f.h - 140.0, InitSize, InitSize, -3.0, -2.8, Green, "Green"),
       pickups := [], ticks := 0, tint := TGray, winner := "")
  }

  /** Size w is what remains of w0 after k shrink steps. */
  predicate LostSteps(w0: real, w: real, step: real, k: nat) {
    w == w0 - k as real * step
  }

  /** Adds the step taken by one tick (from w0 to w1) to the j steps counted after it. */
  function StepCount(w0: real, w1: real, w: real, step: real, j: nat): (k: nat)
    requires w1 == w0 || w1 == w0 - step
    requires LostSteps(w1, w, step, j)
    ensures LostSteps(w0, w, step, k)
    ensures k <= j + 1
  {
    if w1 == w0 then j
    else
      assert (j + 1) as real * step == j as real * step + step;
      j + 1
  }

  /** The logic applied once per draw, regardless of the screen. */
  function RunLogic(g: Game, ds: seq<Draw>): (r: Game)
    ensures r.field == g.field && r.ticks == g.ticks + |ds|
    decreases |ds|
  {
    if |ds| == 0 then g else RunLogic(UpdateGameLogic(g, ds[0]), ds[1..])
  }

  /** The round invariant holds after any number of ticks with valid draws. */
  lemma {:induction false} RunLogicKeepsRoundInv(g: Game, ds: seq<Draw>)
    requires RoundInv(g)
    requires forall i :: 0 <= i < |ds| ==> ValidDraw(ds[i])
    ensures RoundInv(RunLogic(g, ds))
    decreases |ds|
  {
    if |ds| > 0 {
      TickKeepsRoundInv(g, ds[0]);
      RunLogicKeepsRoundInv(UpdateGameLogic(g, ds[0]), ds[1..]);
    }
  }

  /**
    Sizes move in whole shrink steps: after n ticks each square has lost
    some number k <= n of steps of a fifth of its initial size.
   */
  lemma {:induction false} RunLogicShrinksInSteps(g: Game, ds: seq<Draw>) returns (k1: nat, k2: nat)
    requires 0.0 <= g.sq1.initW && 0.0 <= g.sq2.initW
    ensures var r := RunLogic(g, ds);
            && r.sq1.initW == g.sq1.initW && r.sq2.initW == g.sq2.initW
            && LostSteps(g.sq1.w, r.sq1.w, Step(g.sq1), k1) && k1 <= |ds|
            && LostSteps(g.sq2.w, r.sq2.w, Step(g.sq2), k2) && k2 <= |ds|
    decreases |ds|
  {
    if |ds| == 0 {
      k1, k2 := 0, 0;
    } else {
      var g1 := UpdateGameLogic(g, ds[0]);
      TickShrinksByOneStepAtMost(g, ds[0]);
      var j1, j2 := RunLogicShrinksInSteps(g1, ds[1..]);
      var r := RunLogic(g1, ds[1..]);
      assert RunLogic(g, ds) == r;
      assert Step(g1.sq1) == Step(g.sq1) && Step(g1.sq2) == Step(g.sq2);
      k1 := StepCount(g.sq1.w, g1.sq1.w, r.sq1.w, Step(g.sq1), j1);
      k2 := StepCount(g.sq2.w, g1.sq2.w, r.sq2.w, Step(g.sq2), j2);
    }
  }
}
