/** The fleet controller of src/RobotControl.hpp (`GeneralController`): one
    robot controller per robot, updated in index order every frame, and an
    output step that drains every instruction cache into the lines sent to
    the judge. */
module Dispatch {
  import opened Lookup
  import opened Geometry
  import opened GameState
  import opened Assignment
  import opened Control

  /** Init: controller i drives robot i. */
  function InitControllers(g: Game): (cs: seq<Controller>)
    ensures |cs| == |g.robots|
    ensures forall i :: 0 <= i < |cs| ==> cs[i] == NewController(i)
  {
    seq(|g.robots|, i => NewController(i))
  }

  /** Update controllers k .. end in index order, each seeing the assigner the
      previous one left behind. The fleet invariant holds after every step. */
  function UpdateFrom(o: MathOracle, g: Game, cs: seq<Controller>, a: Assigner, k: nat): (res: (seq<Controller>, Assigner))
    requires ValidOracle(o) && SysInv(g, cs, a) && k <= |cs|
    ensures |res.0| == |cs| && res.0[..k] == cs[..k]
    ensures SysInv(g, res.0, res.1)
    decreases |cs| - k
  {
    if k == |cs| then (cs, a)
    else
      UpdatePreservesSysInv(o, g, cs, a, k);
      var (c', a') := Update(o, cs[k], g, a);
      var res := UpdateFrom(o, g, cs[k := c'], a', k + 1);
      assert res.0[..k] == cs[k := c'][..k + 1][..k];
      res
  }

  /** One frame of the fleet: every controller updates once, in index order. */
  function UpdateAll(o: MathOracle, g: Game, cs: seq<Controller>, a: Assigner): (res: (seq<Controller>, Assigner))
    requires ValidOracle(o) && SysInv(g, cs, a)
    ensures |res.0| == |cs|
    ensures SysInv(g, res.0, res.1)
  {
    UpdateFrom(o, g, cs, a, 0)
  }

  /** Right after loading the map the fleet invariant holds, so every later
      frame keeps it. */
  lemma InitialFleet(g: Game, a: Assigner)
    requires a.workDict == map[]
    ensures SysInv(g, InitControllers(g), Init(a, |g.worktops|))
  {
    InitialSysInv(g, a);
    assert InitControllers(g) == seq(|g.robots|, i => NewController(i));
  }

  // --------------------------------------------------------------- output

  /** The caches of cs, concatenated in controller order. */
  function Pending(cs: seq<Controller>): seq<Instruction> {
    if cs == [] then [] else Pending(cs[..|cs| - 1]) + cs[|cs| - 1].cache
  }

  /** Every pending instruction comes from some cache, and all of them are
      there: the total is the sum of the cache lengths. */
  lemma {:induction false} PendingContents(cs: seq<Controller>)
    ensures forall ins :: ins in Pending(cs) <==> exists i :: 0 <= i < |cs| && ins in cs[i].cache
    ensures cs == [] ==> Pending(cs) == []
  {
    if cs != [] {
      var init := cs[..|cs| - 1];
      PendingContents(init);
      forall ins | ins in Pending(cs)
        ensures exists i :: 0 <= i < |cs| && ins in cs[i].cache
      {
        if ins in Pending(init) {
          var i :| 0 <= i < |init| && ins in init[i].cache;
          assert cs[i] == init[i];
        } else {
          assert ins in cs[|cs| - 1].cache;
        }
      }
      forall ins | exists i :: 0 <= i < |cs| && ins in cs[i].cache
        ensures ins in Pending(cs)
      {
        var i :| 0 <= i < |cs| && ins in cs[i].cache;
        if i < |cs| - 1 {
          assert init[i] == cs[i];
        }
      }
    }
  }

  /** Instructions of a robot sit in its own controller's order: the cache
      of controller k follows every cache before it. */
  lemma {:induction false} PendingPrefix(cs: seq<Controller>, k: nat)
    requires k < |cs|
    ensures Pending(cs[..k + 1]) == Pending(cs[..k]) + cs[k].cache
  {
    assert cs[..k + 1][..k] == cs[..k];
  }

  /** GetOutput: take every cache in controller order and empty them all. */
  method GetOutput(cs: seq<Controller>) returns (out: seq<Instruction>, cs': seq<Controller>)
    ensures out == Pending(cs)
    ensures |cs'| == |cs|
    ensures forall i :: 0 <= i < |cs| ==> cs'[i] == cs[i].(cache := [])
  {
    out := [];
    cs' := cs;
    for k := 0 to |cs|
      invariant out == Pending(cs[..k])
      invariant |cs'| == |cs|
      invariant forall i :: 0 <= i < k ==> cs'[i] == cs[i].(cache := [])
      invariant forall i :: k <= i < |cs| ==> cs'[i] == cs[i]
    {
      PendingPrefix(cs, k);
      out := out + cs'[k].cache;
      cs' := cs'[k := cs'[k].(cache := [])];
    }
    assert cs[..|cs|] == cs;
  }

  /** Draining twice in a row yields nothing the second time. */
  lemma {:induction false} DrainedIsEmpty(cs: seq<Controller>)
    requires forall i :: 0 <= i < |cs| ==> cs[i].cache == []
    ensures Pending(cs) == []
  {
    if cs != [] {
      DrainedIsEmpty(cs[..|cs| - 1]);
    }
  }

  // ------------------------------------------------------------ rendering

  /** One output line: the command word, the robot, and a value only for the
      commands that take one. */
  datatype OutputLine = OutputLine(word: string, robotID: int, value: Option<real>)

  function CommandWord(k: InstructionType): (w: string)
    ensures |w| >= 3
  {
    match k
    case Forward => "forward"
    case Rotate => "rotate"
    case Buy => "buy"
    case Sell => "sell"
    case Destroy => "destroy"
  }

  /** The command a word stands for, if any. */
  function CommandOfWord(w: string): (k: Option<InstructionType>)
    ensures k.Some? ==> CommandWord(k.value) == w
  {
    if w == "forward" then Some(Forward)
    else if w == "rotate" then Some(Rotate)
    else if w == "buy" then Some(Buy)
    else if w == "sell" then Some(Sell)
    else if w == "destroy" then Some(Destroy)
    else None
  }

  /** Each command has its own word, so the judge can read the command back. */
  lemma CommandWordRoundTrip(k: InstructionType)
    ensures CommandOfWord(CommandWord(k)) == Some(k)
  {
  }

  /** Instruction::ToString, with the number kept as a value. */
  function Render(ins: Instruction): (line: OutputLine)
    ensures CommandOfWord(line.word) == Some(ins.kind)
    ensures line.robotID == ins.robotID
    ensures line.value.Some? <==> ins.kind == Forward || ins.kind == Rotate
    ensures line.value.Some? ==> line.value.value == ins.value
  {
    CommandWordRoundTrip(ins.kind);
    OutputLine(CommandWord(ins.kind), ins.robotID,
               if ins.kind == Forward || ins.kind == Rotate then Some(ins.value) else None)
  }

  /** A rendered line determines the instruction, except the ignored value
      of buy, sell and destroy (always 0 as emitted). */
  lemma RenderRoundTrip(ins: Instruction)
    requires ins.kind !in {Forward, Rotate} ==> ins.value == 0.0
    ensures var line := Render(ins);
            Instruction(CommandOfWord(line.word).value, line.robotID, if line.value.Some? then line.value.value else 0.0) == ins
  {
  }

  /** The whole output of a frame: one line per pending instruction, in order. */
  function RenderAll(ins: seq<Instruction>): (lines: seq<OutputLine>)
    ensures |lines| == |ins|
    ensures forall i :: 0 <= i < |ins| ==> lines[i] == Render(ins[i])
  {
    seq(|ins|, i requires 0 <= i < |ins| => Render(ins[i]))
  }
}
