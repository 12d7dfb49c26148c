/**
  The per-frame screen state machine. Raw input polling is replaced by an
  Input value: whether the left mouse button is held, the cursor position,
  and whether Escape is held. Quitting the process becomes the Exit outcome.
 */
module Screens {
  import opened Entities
  import opened Spawner
  import opened Round

  const WindowW: int := 800
  const WindowH: int := 600

  /** A clickable rectangle with integer corners. */
  datatype Button = Button(minX: int, minY: int, maxX: int, maxY: int, text: string)

  function IAbs(v: int): nat {
    if v < 0 then -v else v
  }

  /**
    Hit test of a button; the rectangle's edges belong to it. Equivalently,
    the point is within half the button's width and half its height of the
    button's centre.
   */
  predicate Contains(b: Button, x: int, y: int): (r: bool)
    ensures r <==> IAbs(2 * x - b.minX - b.maxX) <= b.maxX - b.minX
                   && IAbs(2 * y - b.minY - b.maxY) <= b.maxY - b.minY
  {
    x >= b.minX && x <= b.maxX && y >= b.minY && y <= b.maxY
  }

  /** The edges are inclusive: both corners of a button are hits, one pixel beyond is not. */
  lemma ContainsIsInclusive(b: Button)
    requires b.minX <= b.maxX && b.minY <= b.maxY
    ensures Contains(b, b.minX, b.minY) && Contains(b, b.maxX, b.maxY)
    ensures !Contains(b, b.maxX + 1, b.minY) && !Contains(b, b.minX, b.minY - 1)
  {
  }

  const BtnStart: Button := Button(WindowW / 2 - 100, 120, WindowW / 2 + 100, 170, "Start")
  const BtnExit: Button := Button(WindowW / 2 - 100, 190, WindowW / 2 + 100, 240, "Exit")
  const BtnBack: Button := Button(WindowW / 2 - 120, 320, WindowW / 2 - 10, 370, "Go back")
  const BtnYes: Button := Button(WindowW / 2 + 10, 320, WindowW / 2 + 120, 370, "Yes")
  const BtnRetry: Button := Button(WindowW / 2 - 120, 360, WindowW / 2 - 10, 410, "Start again")
  const BtnMenu: Button := Button(WindowW / 2 + 10, 360, WindowW / 2 + 120, 410, "To menu")

  /**
    The buttons that share a screen do not overlap, so the source's
    back-to-back tests fire at most one of them per frame.
   */
  lemma ScreenButtonsDisjoint(x: int, y: int)
    ensures !(Contains(BtnStart, x, y) && Contains(BtnExit, x, y))
    ensures !(Contains(BtnBack, x, y) && Contains(BtnYes, x, y))
    ensures !(Contains(BtnRetry, x, y) && Contains(BtnMenu, x, y))
  {
  }

  /** What the program polls once per frame. */
  datatype Input = Input(pressed: bool, mx: int, my: int, escape: bool)

  /** A frame either continues with a new state or ends the process. */
  datatype Outcome = Continue(game: Game) | Exit

  predicate Clicked(i: Input, b: Button) {
    i.pressed && Contains(b, i.mx, i.my)
  }

  /** The starting state: the menu, a 700 x 440 field at (50, 120), a fresh round. */
  function NewGame(): (g: Game)
    ensures g.screen == MenuScreen
    ensures g.field == Field(50.0, 120.0, 700.0, 440.0)
    ensures FrameInv(g)
  {
    var fx, fy := 50.0, 120.0;
    var fw := (WindowW as real) - 2.0 * fx;
    var fh := (WindowH - fy.Floor - 40) as real;
    var f := Field(fx, fy, fw, fh);
    var sq := Square(0.0, 0.0, 0.0, 0.0, 0.0, 0.0, Red, "");
    ResetGameState(Game(MenuScreen, f, TGray, sq, sq, [], 0, ""))
  }

  /**
    One frame. Menu: Start begins a fresh round, Exit asks to confirm.
    Confirm: Go back returns to the menu, Yes quits. Game: one tick of the
    round, then Escape returns to the menu. Game over: Start again begins a
    fresh round, To menu returns to the menu. The button tests run one after
    the other, as in the source.
   */
  function Update(g: Game, i: Input, d: Draw): (r: Outcome)
    ensures r == Exit <==> g.screen == ExitConfirmScreen && Clicked(i, BtnYes)
    ensures r.Continue? ==> r.game.field == g.field
  {
    match g.screen
    case MenuScreen =>
      var g1 := if Clicked(i, BtnStart) then ResetGameState(g.(screen := GameScreen)) else g;
      var g2 := if Clicked(i, BtnExit) then g1.(screen := ExitConfirmScreen) else g1;
      Continue(g2)
    case ExitConfirmScreen =>
      var g1 := if Clicked(i, BtnBack) then g.(screen := MenuScreen) else g;
      if Clicked(i, BtnYes) then Exit else Continue(g1)
    case GameScreen =>
      var g1 := UpdateGameLogic(g, d);
      Continue(if i.escape then g1.(screen := MenuScreen) else g1)
    case GameOverScreen =>
      var g1 := if Clicked(i, BtnRetry) then ResetGameState(g).(screen := GameScreen) else g;
      var g2 := if Clicked(i, BtnMenu) then g1.(screen := MenuScreen) else g1;
      Continue(g2)
  }

  /** Start on the menu begins a fresh round on the game screen. */
  lemma StartClick(g: Game, i: Input, d: Draw)
    requires g.screen == MenuScreen && Clicked(i, BtnStart)
    ensures Update(g, i, d) == Continue(ResetGameState(g.(screen := GameScreen)))
  {
  }

  /** Exit on the menu asks for confirmation and leaves the round alone. */
  lemma ExitClick(g: Game, i: Input, d: Draw)
    requires g.screen == MenuScreen && Clicked(i, BtnExit)
    ensures Update(g, i, d) == Continue(g.(screen := ExitConfirmScreen))
  {
  }

  /** Go back on the exit confirmation returns to the menu. */
  lemma BackClick(g: Game, i: Input, d: Draw)
    requires g.screen == ExitConfirmScreen && Clicked(i, BtnBack)
    ensures Update(g, i, d) == Continue(g.(screen := MenuScreen))
  {
  }

  /** Start again after game over begins a fresh round on the game screen. */
  lemma RetryClick(g: Game, i: Input, d: Draw)
    requires g.screen == GameOverScreen && Clicked(i, BtnRetry)
    ensures Update(g, i, d) == Continue(ResetGameState(g).(screen := GameScreen))
  {
  }

  /** To menu after game over returns to the menu and leaves the round alone. */
  lemma ToMenuClick(g: Game, i: Input, d: Draw)
    requires g.screen == GameOverScreen && Clicked(i, BtnMenu)
    ensures Update(g, i, d) == Continue(g.(screen := MenuScreen))
  {
  }

  /** The part of the state that belongs to the round. */
  function RoundPart(g: Game): (Tint, Square, Square, seq<Pickup>, nat, string) {
    (g.tint, g.sq1, g.sq2, g.pickups, g.ticks, g.winner)
  }

  /**
    The round advances only on the game screen: on any other screen a frame
    either leaves the round alone or replaces it by a fresh one.
   */
  lemma LogicRunsOnlyInGame(g: Game, i: Input, d: Draw)
    requires g.screen != GameScreen
    ensures var r := Update(g, i, d);
            r.Continue? ==> RoundPart(r.game) == RoundPart(g)
                            || RoundPart(r.game) == RoundPart(ResetGameState(g))
  {
  }

  /** After game over, frames without a click change nothing at all. */
  lemma GameOverIsStable(g: Game, i: Input, d: Draw)
    requires g.screen == GameOverScreen && !i.pressed
    ensures Update(g, i, d) == Continue(g)
  {
  }

  /**
    On the game screen the round ticks once; Escape in the same frame sends
    the program to the menu even when that tick ended the round.
   */
  lemma GameFrame(g: Game, i: Input, d: Draw)
    requires g.screen == GameScreen
    ensures var r := Update(g, i, d);
            && r.Continue?
            && RoundPart(r.game) == RoundPart(UpdateGameLogic(g, d))
            && (i.escape ==> r.game.screen == MenuScreen)
            && (!i.escape ==> r.game.screen == UpdateGameLogic(g, d).screen)
  {
  }

  /** Invariant of every state the program reaches between frames. */
  predicate FrameInv(g: Game) {
    && RoundInv(g)
    && -Step(g.sq1) < g.sq1.w && -Step(g.sq2) < g.sq2.w
    && (g.screen == GameScreen ==> 0.0 < g.sq1.w && 0.0 < g.sq2.w)
  }

  /** Start and Start again both produce a state satisfying the frame invariant. */
  lemma ResetKeepsFrameInv(g: Game, s: Screen)
    requires FieldOk(g.field)
    ensures FrameInv(ResetGameState(g).(screen := s))
    ensures FrameInv(ResetGameState(g.(screen := s)))
  {
  }

  /**
    Every frame keeps the frame invariant: squares inside the field, no
    larger than initially and above minus one shrink step, at most one
    pickup, and the game screen only while both squares have positive size.
   */
  lemma UpdateKeepsFrameInv(g: Game, i: Input, d: Draw)
    requires FrameInv(g) && ValidDraw(d)
    ensures var r := Update(g, i, d);
            r.Continue? ==> FrameInv(r.game)
  {
    if g.screen == GameScreen {
      TickKeepsFrameInv(g, d);
      GameFrame(g, i, d);
      var g1 := UpdateGameLogic(g, d);
      assert Update(g, i, d) == Continue(if i.escape then g1.(screen := MenuScreen) else g1);
    } else {
      ResetKeepsFrameInv(g, GameScreen);
      ResetKeepsFrameInv(g, MenuScreen);
      ResetKeepsFrameInv(g, ExitConfirmScreen);
    }
  }

  /** A tick from the game screen lands in a state satisfying the frame invariant. */
  lemma TickKeepsFrameInv(g: Game, d: Draw)
    requires FrameInv(g) && ValidDraw(d) && g.screen == GameScreen
    ensures FrameInv(UpdateGameLogic(g, d))
    ensures FrameInv(UpdateGameLogic(g, d).(screen := MenuScreen))
  {
    TickKeepsRoundInv(g, d);
    TickShrinksByOneStepAtMost(g, d);
    TickWinner(g, d);
    FrameInvAfterTick(g, UpdateGameLogic(g, d));
  }

  /** The frame invariant follows from what a tick is known to do to sizes and the screen. */
  lemma FrameInvAfterTick(g: Game, g1: Game)
    requires FrameInv(g) && g.screen == GameScreen && RoundInv(g1)
    requires g1.sq1.initW == g.sq1.initW && g1.sq2.initW == g.sq2.initW
    requires g1.sq1.w == g.sq1.w || g1.sq1.w == g.sq1.w - Step(g.sq1)
    requires g1.sq2.w == g.sq2.w || g1.sq2.w == g.sq2.w - Step(g.sq2)
    requires 0.0 < g1.sq1.w && 0.0 < g1.sq2.w ==> g1.screen == g.screen
    requires g1.sq1.w <= 0.0 || g1.sq2.w <= 0.0 ==> g1.screen == GameOverScreen
    ensures FrameInv(g1) && FrameInv(g1.(screen := MenuScreen))
  {
  }

  /** The program driven by a sequence of frames, stopping at Exit. */
  function RunFrames(g: Game, frames: seq<(Input, Draw)>): (r: Outcome)
    ensures |frames| == 0 ==> r == Continue(g)
    decreases |frames|
  {
    if |frames| == 0 then Continue(g)
    else
      match Update(g, frames[0].0, frames[0].1)
      case Exit => Exit
      case Continue(g1) => RunFrames(g1, frames[1..])
  }

  /** The frame invariant holds in every state reached from one that satisfies it. */
  lemma {:induction false} RunFramesKeepsFrameInv(g: Game, frames: seq<(Input, Draw)>)
    requires FrameInv(g)
    requires forall k :: 0 <= k < |frames| ==> ValidDraw(frames[k].1)
    ensures var r := RunFrames(g, frames);
            r.Continue? ==> FrameInv(r.game)
    decreases |frames|
  {
    if |frames| > 0 {
      UpdateKeepsFrameInv(g, frames[0].0, frames[0].1);
      match Update(g, frames[0].0, frames[0].1)
      case Exit =>
      case Continue(g1) =>
        RunFramesKeepsFrameInv(g1, frames[1..]);
    }
  }
}
