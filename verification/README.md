# Cubes: a verified model of the simulation core

Cubes is a small autonomous arcade game. Two coloured squares, Red and Green,
bounce around a rectangular field. Every 360 ticks a circular pickup appears.
When a square touches a pickup, the pickup is consumed and the field takes its
tint. When the squares overlap, they swap velocities. The square whose colour
does not match the tint loses a fifth of its initial size. The round ends when
a square reaches size zero or less.

This project models that core in Dafny:

- `Entities`: colours, tints, squares, pickups and the field.
- `Geometry`: the clamp, the square–square overlap test and the square–circle overlap test.
- `Motion`: the per-tick motion of a square, with wall reflection.
- `Spawner`: the periodic pickup spawner.
- `Collision`: pickup consumption, and the square–square response with its shrink rule.
- `Round`: the tick as five phases in the source's order, the round reset, and many ticks in a row.
- `Screens`: the per-frame screen state machine, the button hit test and the starting state.
- `Scenarios`: concrete rounds on the default 700 × 440 field.

Coordinates are `real`, so float rounding is not modelled. The shrink ratio is
`0.2`. Colours are enumerations: `Red | Green | Gray` for squares and pickups,
and `TGray | LightRed | LightGreen` for the tint. The random source is replaced
by the values it would return. A `Draw` holds a colour index in 0..2 and two
reals `u, v` in [0, 1) that place the pickup's centre. Input polling is
replaced by an `Input` value: left button held, cursor position, Escape held.
`os.Exit(0)` becomes the `Exit` outcome of a frame.

The model follows the code in these easily misread details:

- Squares whose edges only touch count as overlapping. The separating tests use
  strict `<` (`Geometry.TouchingSquaresOverlap`).
- The tick counter is incremented before the spawn test. The first spawn is
  therefore on tick 360, not on the first tick (`Spawner.FirstSpawnAt360`,
  `Scenarios.NoSpawnOnFirstTickScenario`).
- A pickup's centre lies in a half-open range, `fx + 10 <= x < fx + fw - 10`,
  because `u < 1`.
- The screens are those of the program: menu, exit confirmation, game and game
  over. Buttons are tested one after the other, not with else-if. Escape is
  read only on the game screen. When Escape is held in the same frame as the
  tick that ends the round, the program goes to the menu, not to game over.
- A "click" is the left button being held during the frame, so holding it over
  a button acts on every frame.
- When neither square is vulnerable, both shrink. A comment in the source says
  otherwise, but this case cannot happen with one Red and one Green square.

## Model

| member | source | states |
|---|---|---|
| Entities.TintFor | main.go:193-199 | the tint left by a consumed pickup favours exactly that pickup's colour |
| Entities.TintRoundTrip | main.go:213-221 | the colour a tint favours is the one whose pickups leave that tint, so the two maps are mutually inverse |
| Geometry.Clamp | main.go:299-307 | for a <= b the result lies in [a, b]; it equals v when v is already in range; it is always one of v, a, b |
| Geometry.ClampIsNearest | main.go:299-307 | within a non-empty interval the clamped value is a nearest point to v |
| Geometry.AabbOverlap | main.go:309-311 | for sizes >= 0, the four separating tests fail exactly when the closed projections of the squares meet on both axes |
| Geometry.AabbOverlapSymmetric | main.go:309-311 | the square–square overlap test is symmetric |
| Geometry.TouchingSquaresOverlap | main.go:309-311 | for sizes >= 0, squares on the same row (a.y == b.y) whose edges only touch (a.x + a.w == b.x) are reported as overlapping |
| Geometry.AabbOverlapIffCommonPoint | main.go:309-311 | for sizes >= 0, two squares overlap iff some point lies in both closed squares |
| Geometry.OverlapsSquareCircle | main.go:290-297 | for size >= 0, a yes from the closest-point test means some point of the square lies within the circle |
| Geometry.CentreInsideOverlaps | main.go:290-297 | a circle whose centre lies inside the square always overlaps it |
| Geometry.ClosestPointIsNearest | main.go:291-295 | no point of the square is nearer to the circle's centre than the clamped point |
| Geometry.OverlapsIffSomePointInCircle | main.go:290-297 | for size >= 0, the closest-point test holds iff some point of the square lies within the circle |
| Motion.Bounce | main.go:249-271 | one axis of motion: unchanged velocity when no wall is crossed; flush at the near wall with velocity \|v\|; flush at the far wall with velocity -\|v\|; the far-wall snap wins when both fire |
| Motion.BounceContains | main.go:249-271 | a square no wider than the field ends inside it, with the same speed |
| Motion.MoveSquare | main.go:249-271 | size, colour and name are unchanged; speeds are kept; the square ends inside the field when W <= fieldW, fieldH; VX >= 0 after a left snap and VX <= 0 after a right snap (same for Y) |
| Spawner.PickupColour | main.go:274-282 | index 0 gives Red, index 1 gives Green, anything else gives Gray |
| Spawner.PickupColourOnto | main.go:275-282 | each colour comes from exactly one index in 0..2 |
| Spawner.SpawnPickup | main.go:283-287 | radius 10; for u, v in [0, 1) the centre satisfies fx + r <= x < fx + fw - r, and the same for y |
| Spawner.SpawnStep | main.go:178-183 | when due, the list becomes exactly one fresh pickup; otherwise it is unchanged |
| Spawner.FirstSpawnAt360 | main.go:176-178 | no spawn on counter values 1..359; a spawn on 360 |
| Collision.Survivors | main.go:190-204 | a pickup survives iff the consumption test (either square overlaps it) rejects it; survivors are a subsequence of the list (order kept) |
| Collision.SurvivorsAppend | main.go:190-204 | consumption distributes over concatenation, so it never reorders |
| Collision.LastEatenTint | main.go:191-200 | tint unchanged when nothing is consumed; otherwise the tint of the last consumed pickup in list order |
| Collision.ConsumePickups | main.go:190-204 | the source's loop computes exactly the survivors and the last-consumed tint |
| Collision.Vulnerable | main.go:213-223 | a square is vulnerable iff the tint is not the one its own colour's pickups leave |
| Collision.Shrink | main.go:227-232 | one shrink step takes exactly a fifth of the initial size off the current size, never grows a square of non-negative initial size, and changes nothing else |
| Collision.ResolveSquares | main.go:207-234 | no overlap: nothing changes; overlap: velocities swapped and positions kept; only the vulnerable square shrinks when exactly one is vulnerable, otherwise both; each size drops by one step or not at all, and never grows |
| Collision.SwapKeepsVelocities | main.go:207-211 | the multiset of the four velocity components is unchanged by the response |
| Collision.ShrinkLaw | main.go:213-233 | Red/Green pair: Gray tint shrinks both, LightRed only Green, LightGreen only Red |
| Collision.SwapKeepsSpeeds | main.go:208-211 | the multiset of velocity magnitudes is unchanged by the response |
| Round.AdvanceAndSpawn | main.go:176-183 | the counter goes up by one; the pickups become [fresh pickup] exactly when the new counter is a multiple of 360; nothing else changes |
| Round.MoveBoth | main.go:185-187 | both squares stay inside the field and keep their sizes; nothing else changes |
| Round.ConsumeStep | main.go:189-204 | a pickup is kept iff neither moved square touches it; nothing consumed means tint and list are unchanged; nothing else changes |
| Collision.NothingEatenKeepsAll | main.go:190-204 | when no pickup is touched the survivor list is the whole list |
| Round.CollideStep | main.go:206-234 | no overlap means no change; each size drops by one step or not at all; only sizes and velocities of the squares change |
| Round.Judge | main.go:236-244 | no verdict iff both sizes are positive; "Pair" when both are <= 0; otherwise the survivor's name |
| Round.CheckDeath | main.go:236-246 | while both sizes are positive nothing changes; once a size is <= 0 the screen becomes game over and the winner is "Pair" when both are <= 0, otherwise the name of the square with positive size; nothing else changes |
| Round.UpdateGameLogic | main.go:174-247 | the field and square identities are kept; the counter goes up by one; the screen stays or becomes game over |
| Round.TickKeepsRoundInv | main.go:174-247 | a tick keeps squares inside the field and no larger than initially, and keeps at most one pickup, inside the field |
| Round.SpawnKeepsRoundInv | main.go:176-183 | the spawn phase keeps the round invariant for valid draws |
| Round.MoveKeepsRoundInv | main.go:185-187 | the motion phase keeps the round invariant |
| Round.ConsumeKeepsRoundInv | main.go:189-204 | the consumption phase keeps the round invariant |
| Round.CollideKeepsRoundInv | main.go:206-234 | the collision phase keeps the round invariant |
| Round.CheckDeathKeepsRoundInv | main.go:236-246 | the death check keeps the round invariant |
| Round.TickPickups | main.go:176-204 | after a spawn tick the list is empty or the one fresh pickup; otherwise it holds only old pickups |
| Round.TickShrinksByOneStepAtMost | main.go:213-233 | each size after a tick is the old size or one shrink step less |
| Round.TickWinner | main.go:236-246 | the screen becomes game over exactly when a size is <= 0, with "Pair" or the survivor's name; otherwise screen and winner are unchanged |
| Round.ResetGameState | main.go:115-124 | a fresh round satisfies the round invariant on any field of at least 140 × 140; no pickups, counter 0, gray tint, full-size Red and Green squares |
| Round.RunLogic | main.go:174-247 | n ticks advance the counter by n and keep the field |
| Round.RunLogicKeepsRoundInv | main.go:174-247 | the round invariant holds after any number of ticks with valid draws |
| Round.RunLogicShrinksInSteps | main.go:213-233 | after n ticks each size has dropped by k <= n whole steps of a fifth of the initial size |
| Screens.Contains | main.go:54-56 | a point hits a button iff it lies within half the button's width and half its height of the button's centre |
| Screens.ContainsIsInclusive | main.go:54-56 | the button hit test includes the rectangle's edges |
| Screens.ScreenButtonsDisjoint | main.go:100-105 | buttons on the same screen do not overlap, so a frame fires at most one of them |
| Screens.NewGame | main.go:97-113 | the program starts on the menu, with a 700 × 440 field at (50, 120), in a state satisfying the frame invariant |
| Screens.Update | main.go:131-169 | a frame quits iff Yes is clicked on the exit confirmation; the field never changes (the other transitions are the click lemmas below and Screens.GameFrame) |
| Screens.StartClick | main.go:132-141 | Start on the menu gives the game screen with a fresh round |
| Screens.ExitClick | main.go:132-141 | Exit on the menu gives the exit confirmation with the round untouched |
| Screens.BackClick | main.go:142-151 | Go back on the exit confirmation gives the menu with the round untouched |
| Screens.RetryClick | main.go:159-168 | Start again after game over gives the game screen with a fresh round |
| Screens.ToMenuClick | main.go:159-168 | To menu after game over gives the menu with the round untouched |
| Screens.LogicRunsOnlyInGame | main.go:131-169 | off the game screen a frame leaves the round alone or replaces it with a fresh one |
| Screens.GameOverIsStable | main.go:159-168 | on the game-over screen a frame without a click changes nothing |
| Screens.GameFrame | main.go:152-158 | on the game screen the round ticks once; Escape in the same frame overrides game over with the menu |
| Screens.ResetKeepsFrameInv | main.go:115-124 | Start and Start again produce states that satisfy the frame invariant |
| Screens.TickKeepsFrameInv | main.go:152-158 | a tick from the game screen keeps the frame invariant, with or without Escape |
| Screens.FrameInvAfterTick | main.go:236-246 | a state whose sizes dropped by at most one step from a positive size, and whose screen is game over when a size is <= 0, satisfies the frame invariant |
| Screens.UpdateKeepsFrameInv | main.go:126-172 | every frame keeps the frame invariant: containment, sizes in (-step, initW], at most one pickup, and the game screen only while both sizes are positive |
| Screens.RunFramesKeepsFrameInv | main.go:126-172 | the frame invariant holds after any sequence of frames with valid draws |
| Scenarios.WallBounceScenario | main.go:263-266 | a square at x = 630 moving right at 100 snaps to 690 and turns to -100 |
| Scenarios.VulnerableCollisionScenario | main.go:207-233 | on LightGreen, Red goes from 60 to 48, Green stays at 60, velocities swap |
| Scenarios.MutualShrinkScenario | main.go:226-244 | five Gray collisions take both squares from 60 to 0; the verdict is "Pair" only after the fifth |
| Scenarios.PeriodicSpawnScenario | main.go:176-183 | going from tick 359 to 360 replaces the existing pickup with exactly one new pickup |
| Scenarios.NoSpawnOnFirstTickScenario | main.go:176-183 | the first tick of a fresh round spawns nothing |

## Left out

- Rendering (`Draw`, `drawButton`, `drawModal`, `drawSquare`, `Layout`, the FPS text): these are foreign graphics and font calls with no behaviour to state.
- `main`, window setup, `rand.Seed` and the process exit: these are process plumbing. Quitting is modelled only as the `Exit` outcome.
- The random source: its results are parameters. Validity (index in 0..2, u and v in [0, 1)) is assumed by the invariant lemmas.
- IEEE float64 rounding: coordinates are exact reals. For example, `60 * 0.2` is exactly 12 here.
- `colorsEqual` and the RGBA constants: colour comparison is enum equality.
- Button labels are kept as data, but the text is never used in the logic.
- The tick counter is an unbounded natural number. Go's 64-bit counter would need 2^63 ticks to wrap.
- The field is a parameter. The invariant lemmas assume it is at least 140 × 140, which the reset layout needs. The program's own field is 700 × 440.
