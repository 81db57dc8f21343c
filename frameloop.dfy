/** One pass of the main loop applied to the grid: the controller decides the
    effects, and the grid runs them in the loop's order. */
module FrameLoop {
  import opened Life
  import opened LifeGrid
  import opened Controller

  /** The current generation after a frame's effects: random init (from
      `bits`), clear, one generation, then the edit under the pointer. */
  function ApplyEffects(s: seq<bool>, width: nat, height: nat, effects: Effects, bits: seq<bool>): (r: seq<bool>)
    requires |s| == width * height && |bits| == width * height
    ensures |r| == |s|
    ensures effects == Effects(false, false, false, NoEdit) ==> r == s
    ensures effects.clear && !effects.step && effects.edit == NoEdit ==> AllDead(r)
  {
    var s1 := if effects.randomise then bits else s;
    var s2 := if effects.clear then Dead(width * height) else s1;
    var s3 := if effects.step then NextGeneration(s2, width, height) else s2;
    match effects.edit
    case NoEdit => s3
    case SetTo(x, y, v) => WithCell(s3, width, height, x, y, v)
  }

  /** Runs one frame on grid g; `bits` stands for the random cell values an R
      key press would draw. */
  method RunFrame(g: Grid, c: Controls, input: Input, bits: seq<bool>) returns (next: Controls)
    requires g.Valid() && |bits| == g.width * g.height
    modifies g, g.state, g.stateBuffer
    ensures g.Valid()
    ensures next == Frame(c, input).0
    ensures g.state[..] == ApplyEffects(old(g.state[..]), g.width, g.height, Frame(c, input).1, bits)
  {
    var effects;
    next, effects := Frame(c, input).0, Frame(c, input).1;
    if effects.randomise {
      g.InitRandom(bits);
    }
    if effects.clear {
      g.InitEmpty();
    }
    if effects.step {
      g.UpdateGrid();
    }
    match effects.edit
    case NoEdit =>
    case SetTo(x, y, v) =>
      g.SetCell(x, y, v);
  }

  /** A paused loop without input leaves the grid and its own variables as
      they are, frame after frame: an edit made while paused survives. */
  lemma PausedIdleFrame(s: seq<bool>, width: nat, height: nat, c: Controls, bits: seq<bool>)
    requires |s| == width * height && |bits| == width * height
    requires !c.animationOn
    ensures Frame(c, Idle).0 == c
    ensures ApplyEffects(s, width, height, Frame(c, Idle).1, bits) == s
  {
  }
}
