/** The per-frame control logic of the main loop: the animation and hint
    flags toggled by key presses, the frame counter that paces generations,
    and the cell edit chosen from the mouse buttons. The grid operations a
    frame triggers are returned as effects, in the order the loop runs them. */
module Controller {
  import opened Pointer

  const MAX_FPS: int := 60
  /** Frames between two generations while the animation runs. */
  const ANIMATION_FRAME_DELAY: int := MAX_FPS / 4

  /** The loop's own variables. */
  datatype Controls = Controls(animationOn: bool, showHint: bool, timer: int)

  /** What the host reports for one frame: the keys pressed this frame, the
      mouse buttons held, and the pointer's position in world coordinates. */
  datatype Input = Input(space: bool, keyH: bool, keyR: bool, keyC: bool,
                         leftDown: bool, rightDown: bool, pointerX: real, pointerY: real)

  datatype Edit = NoEdit | SetTo(x: int, y: int, alive: bool)

  /** What a frame does to the grid, in the loop's order: random init, clear,
      one generation, then the edit under the pointer. */
  datatype Effects = Effects(randomise: bool, clear: bool, step: bool, edit: Edit)

  /** The variables as the loop starts: animating, hint shown, counter at zero. */
  const Initial: Controls := Controls(true, true, 0)

  /** A frame with no key pressed and no mouse button held. */
  const Idle: Input := Input(false, false, false, false, false, false, 0.0, 0.0)

  /** The cell under the pointer, as the loop computes it: each world
      coordinate is cut to an `int` and divided by the cell size. */
  function PointedCell(input: Input): (int, int)
  {
    (CellCoordinateAsWritten(input.pointerX), CellCoordinateAsWritten(input.pointerY))
  }

  /** One pass of the main loop. */
  function Frame(c: Controls, input: Input): (r: (Controls, Effects))
    // Space toggles the animation and H the hint; no other input touches them.
    ensures r.0.animationOn == (c.animationOn != input.space)
    ensures r.0.showHint == (c.showHint != input.keyH)
    // A generation is computed only when animating and the delay has elapsed;
    // the counter is then reset and advanced by this frame to 1.
    ensures r.1.step <==> r.0.animationOn && c.timer >= ANIMATION_FRAME_DELAY
    ensures r.1.step ==> r.0.timer == 1
    // Otherwise the counter advances while animating and is frozen while paused.
    ensures !r.1.step && r.0.animationOn ==> r.0.timer == c.timer + 1
    ensures !r.0.animationOn ==> r.0.timer == c.timer
    ensures r.1.randomise == input.keyR && r.1.clear == input.keyC
  {
    var animationOn := if input.space then !c.animationOn else c.animationOn;
    var showHint := if input.keyH then !c.showHint else c.showHint;
    var step := animationOn && c.timer >= ANIMATION_FRAME_DELAY;
    var timer := if step then 0 else c.timer;
    var (x, y) := PointedCell(input);
    var edit :=
      if input.leftDown then SetTo(x, y, true)
      else if input.rightDown then SetTo(x, y, false)
      else NoEdit;
    (Controls(animationOn, showHint, timer + if animationOn then 1 else 0),
     Effects(input.keyR, input.keyC, step, edit))
  }

  /** The left button adds the cell under the pointer, the right one removes
      it, and when both are held the left one wins. */
  lemma EditPriority(c: Controls, input: Input)
    ensures input.leftDown ==> Frame(c, input).1.edit == SetTo(PointedCell(input).0, PointedCell(input).1, true)
    ensures !input.leftDown && input.rightDown ==> Frame(c, input).1.edit == SetTo(PointedCell(input).0, PointedCell(input).1, false)
    ensures !input.leftDown && !input.rightDown ==> Frame(c, input).1.edit == NoEdit
  {
  }

  /** An edit names a cell of a width x height grid exactly when the pointer
      is over that grid's area in the world or less than one cell to the left
      of it or above it: that margin is mapped onto the first column or row. */
  lemma EditOnGrid(c: Controls, input: Input, width: nat, height: nat)
    requires Frame(c, input).1.edit.SetTo? && 0 < width && 0 < height
    ensures var e := Frame(c, input).1.edit;
            (0 <= e.x < width && 0 <= e.y < height)
            <==> (-(CELL_SIZE as real) < input.pointerX < (CELL_SIZE * width) as real
                  && -(CELL_SIZE as real) < input.pointerY < (CELL_SIZE * height) as real)
  {
    AsWrittenOnGrid(input.pointerX, width);
    AsWrittenOnGrid(input.pointerY, height);
  }

  /** The counter never leaves 0..ANIMATION_FRAME_DELAY, whatever the input,
      so it cannot overflow. */
  lemma TimerBounded(c: Controls, input: Input)
    requires 0 <= c.timer <= ANIMATION_FRAME_DELAY
    ensures 0 <= Frame(c, input).0.timer <= ANIMATION_FRAME_DELAY
  {
  }

  /** The frames of `inputs` in order: the variables afterwards and the
      number of generations computed. At most one generation is computed per
      frame, and a counter that starts within 0..ANIMATION_FRAME_DELAY stays
      there whatever the keys and buttons do. */
  function Run(c: Controls, inputs: seq<Input>): (r: (Controls, nat))
    ensures r.1 <= |inputs|
    ensures 0 <= c.timer <= ANIMATION_FRAME_DELAY ==> 0 <= r.0.timer <= ANIMATION_FRAME_DELAY
    ensures !c.animationOn && (forall i | 0 <= i < |inputs| :: !inputs[i].space) ==> r.1 == 0
    decreases |inputs|
  {
    if inputs == [] then (c, 0)
    else
      var (c', effects) := Frame(c, inputs[0]);
      var (last, steps) := Run(c', inputs[1..]);
      (last, steps + if effects.step then 1 else 0)
  }

  /** n frames without input: the variables afterwards and the number of
      generations computed. */
  function RunIdle(c: Controls, n: nat): (r: (Controls, nat))
    ensures r.1 <= n
    decreases n
  {
    if n == 0 then (c, 0)
    else
      var (c', effects) := Frame(c, Idle);
      var (last, steps) := RunIdle(c', n - 1);
      (last, steps + if effects.step then 1 else 0)
  }

  /** Running n idle frames is running a list of n idle inputs. */
  lemma {:induction false} RunIdleIsRun(c: Controls, n: nat)
    ensures RunIdle(c, n) == Run(c, seq(n, _ => Idle))
    decreases n
  {
    if n > 0 {
      RunIdleIsRun(Frame(c, Idle).0, n - 1);
      assert seq(n, _ => Idle)[1..] == seq(n - 1, _ => Idle);
    }
  }

  /** Running n + 1 idle frames is running n of them and then one more. */
  lemma {:induction false} RunIdleLast(c: Controls, n: nat)
    ensures RunIdle(c, n + 1)
         == var (c', steps) := RunIdle(c, n);
            var (last, effects) := Frame(c', Idle);
            (last, steps + if effects.step then 1 else 0)
    decreases n
  {
    if n > 0 {
      RunIdleLast(Frame(c, Idle).0, n - 1);
    }
  }

  /** While paused and idle nothing changes: no generation is ever computed
      and the counter stays frozen. */
  lemma {:induction false} PausedStaysPaused(c: Controls, n: nat)
    requires !c.animationOn
    ensures RunIdle(c, n) == (c, 0)
    decreases n
  {
    if n > 0 {
      PausedStaysPaused(c, n - 1);
    }
  }

  /** While animating and idle, the counter counts up one per frame and no
      generation is computed before it reaches the delay. */
  lemma {:induction false} CountsUpToDelay(c: Controls, n: nat)
    requires c.animationOn && 0 <= c.timer && c.timer + n <= ANIMATION_FRAME_DELAY
    ensures RunIdle(c, n) == (c.(timer := c.timer + n), 0)
    decreases n
  {
    if n > 0 {
      CountsUpToDelay(c.(timer := c.timer + 1), n - 1);
    }
  }

  /** Cadence: right after a generation the counter is 1, and the next
      generation comes exactly ANIMATION_FRAME_DELAY idle frames later, which
      leaves the counter at 1 again. */
  lemma Cadence(c: Controls)
    requires c.animationOn && c.timer == 1
    ensures RunIdle(c, ANIMATION_FRAME_DELAY - 1) == (c.(timer := ANIMATION_FRAME_DELAY), 0)
    ensures RunIdle(c, ANIMATION_FRAME_DELAY) == (c, 1)
  {
    CountsUpToDelay(c, ANIMATION_FRAME_DELAY - 1);
    RunIdleLast(c, ANIMATION_FRAME_DELAY - 1);
  }

  /** From the loop's start, the first generation comes in the frame after
      ANIMATION_FRAME_DELAY idle frames. */
  lemma FirstGeneration()
    ensures RunIdle(Initial, ANIMATION_FRAME_DELAY) == (Initial.(timer := ANIMATION_FRAME_DELAY), 0)
    ensures RunIdle(Initial, ANIMATION_FRAME_DELAY + 1) == (Initial.(timer := 1), 1)
  {
    CountsUpToDelay(Initial, ANIMATION_FRAME_DELAY);
    RunIdleLast(Initial, ANIMATION_FRAME_DELAY);
  }
}
