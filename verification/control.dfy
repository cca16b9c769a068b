/** The per-robot controller of src/RobotControl.hpp (`RobotController`): a
    small state machine with the states Assign, Pathfind and Avoid that reacts
    to events by claiming and releasing tasks in the shared assigner and by
    appending instructions to its own cache. The controller holds no game:
    the snapshot and the assigner are passed in, and the assigner comes back
    out of every step. */
module Control {
  import opened Geometry
  import opened Settings
  import opened Entities
  import opened GameState
  import opened Scoring
  import opened Assignment

  datatype InstructionType = Forward | Rotate | Buy | Sell | Destroy

  /** One command for the judge; `value` matters for Forward and Rotate only. */
  datatype Instruction = Instruction(kind: InstructionType, robotID: int, value: real)

  datatype RobotState = Assign | Pathfind | Avoid

  datatype Event = GetTarget(target: int) | Blocked | Unblocked | Done | Abandon

  /** State, robot index, current target station (-1 for none) and the
      instructions emitted since the last flush. */
  datatype Controller = Controller(state: RobotState, robotIndex: int, target: int, cache: seq<Instruction>)

  /** Top speed the steering law ever asks for. */
  const SpeedCap: real := 6.0

  /** A fresh controller starts in Assign, without a target and with an
      empty cache. */
  function NewController(i: int): (c: Controller)
    ensures c.state == Assign && c.robotIndex == i && c.target == -1 && c.cache == []
  {
    Controller(Assign, i, -1, [])
  }

  /** What every step may rely on: the robot exists and, while travelling, the
      target is a station of the map. */
  predicate Ready(g: Game, c: Controller) {
    && ValidRobot(g, c.robotIndex)
    && (c.state == Pathfind ==> ValidWorktop(g, c.target))
  }

  function RobotOf(g: Game, c: Controller): Robot
    requires ValidRobot(g, c.robotIndex)
  {
    g.robots[c.robotIndex]
  }

  // ------------------------------------------------------------ actions

  /** End the task, successful or not: release the claim and forget the target. */
  function TerminateTask(c: Controller, a: Assigner): (res: (Controller, Assigner))
    ensures res.0.target == -1
    ensures res.0.state == c.state && res.0.robotIndex == c.robotIndex && res.0.cache == c.cache
    ensures c.robotIndex !in res.1.workDict
    ensures forall j :: j != c.robotIndex ==>
              (j in res.1.workDict <==> j in a.workDict) && (j in a.workDict ==> res.1.workDict[j] == a.workDict[j])
    ensures c.robotIndex in a.workDict ==> res.1.available == a.available + {a.workDict[c.robotIndex]}
    ensures res.1 == TaskOver(a, c.robotIndex)
  {
    (c.(target := -1), TaskOver(a, c.robotIndex))
  }

  /** Throw away the carried item, if there is one. */
  function AbandonItem(g: Game, c: Controller): (c': Controller)
    requires ValidRobot(g, c.robotIndex)
    ensures c'.state == c.state && c'.robotIndex == c.robotIndex && c'.target == c.target
    ensures RobotOf(g, c).carryingItemType != 0 ==>
              c'.cache == c.cache + [Instruction(Destroy, c.robotIndex, 0.0)]
    ensures RobotOf(g, c).carryingItemType == 0 ==> c'.cache == c.cache
  {
    if RobotOf(g, c).carryingItemType != 0 then
      c.(cache := c.cache + [Instruction(Destroy, c.robotIndex, 0.0)])
    else c
  }

  /** Trade at the target: an empty-handed robot buys; a robot whose item the
      target accepts sells then buys; otherwise nothing is emitted. */
  function TradeInstructions(g: Game, c: Controller): (c': Controller)
    requires ValidRobot(g, c.robotIndex)
    requires RobotOf(g, c).carryingItemType != 0 ==> ValidWorktop(g, c.target)
    ensures c'.state == c.state && c'.robotIndex == c.robotIndex && c'.target == c.target
    ensures var buy, sell := Instruction(Buy, c.robotIndex, 0.0), Instruction(Sell, c.robotIndex, 0.0);
            var t := RobotOf(g, c).carryingItemType;
            && (t == 0 ==> c'.cache == c.cache + [buy])
            && (t != 0 && ItemAcceptable(g.worktops[c.target], t) ==> c'.cache == c.cache + [sell, buy])
            && (t != 0 && !ItemAcceptable(g.worktops[c.target], t) ==> c'.cache == c.cache)
  {
    var t := RobotOf(g, c).carryingItemType;
    if t == 0 then
      c.(cache := c.cache + [Instruction(Buy, c.robotIndex, 0.0)])
    else if ItemAcceptable(g.worktops[c.target], t) then
      c.(cache := c.cache + [Instruction(Sell, c.robotIndex, 0.0), Instruction(Buy, c.robotIndex, 0.0)])
    else c
  }

  // ------------------------------------------------------------ steering

  datatype Guidance = Guidance(omega: real, speed: real)

  /** How far the robot must turn to face `target` (positive: the target lies
      clockwise). */
  function HeadingError(o: MathOracle, r: Robot, target: Point): real
    requires ValidOracle(o)
  {
    AngleDiff(r.orientation, Direction(o, r.position, target))
  }

  /** A product with a positive factor keeps the sign of the other factor. */
  lemma ScaledSign(x: real, k: real)
    requires k > 0.0
    ensures x * k >= 0.0 <==> x >= 0.0
    ensures x * k == 0.0 <==> x == 0.0
  {
    if x < 0.0 {
      assert x * k < 0.0;
    } else if x > 0.0 {
      assert x * k > 0.0;
    }
  }

  /** The steering law of GuideTo: turn rate from the square root of heading
      error times angular acceleration, speed from the braking distance capped
      at 6; a heading error above pi/3 stops the robot and turns it at full
      rate. The turn is always towards the target. */
  function Guide(o: MathOracle, r: Robot, target: Point): (gd: Guidance)
    requires ValidOracle(o)
    ensures 0.0 <= gd.speed <= SpeedCap
    ensures var theta := HeadingError(o, r, target);
            && (theta > 0.0 ==> gd.omega <= 0.0)
            && (theta < 0.0 ==> gd.omega >= 0.0)
            && (theta == 0.0 ==> gd.omega == 0.0)
    ensures var theta := HeadingError(o, r, target);
            Abs(theta) > Pi / 3.0 ==>
              gd.speed == 0.0 && (gd.omega == -Pi || gd.omega == Pi)
    ensures r.position == target ==> gd.speed == 0.0
  {
    var theta := HeadingError(o, r, target);
    var beta := AngularAcceleration(r);
    var tpal := theta * beta;
    ScaledSign(theta, beta);
    var omega :=
      if Abs(tpal) > PalstanceThreshold then (if tpal >= 0.0 then -o.sqrt(tpal) else o.sqrt(-tpal))
      else (if tpal >= 0.0 then -tpal else tpal);
    var dist := Magnitude(o, FromTo(r.position, target));
    var theoMax := o.sqrt(2.0 * Acceleration(r) * dist);
    var maxSpeed := if theoMax < SpeedCap then theoMax else SpeedCap;
    if Abs(theta) > Pi / 3.0 then Guidance(if tpal >= 0.0 then -Pi else Pi, 0.0)
    else Guidance(omega, maxSpeed)
  }

  /** Facing a station, the steering error is the scorer's robot-to-station
      angle. */
  lemma HeadingMatchesScorer(o: MathOracle, r: Robot, w: Worktop)
    requires ValidOracle(o)
    ensures HeadingError(o, r, w.position) == RobotWorktopAngleDiff(o, r, w)
  {
  }

  /** ContinueMoving: steer towards the target station by appending exactly one
      rotate and then one forward instruction. */
  function ContinueMoving(o: MathOracle, g: Game, c: Controller): (c': Controller)
    requires ValidOracle(o)
    requires ValidRobot(g, c.robotIndex) && ValidWorktop(g, c.target)
    ensures c'.state == c.state && c'.robotIndex == c.robotIndex && c'.target == c.target
    ensures |c'.cache| == |c.cache| + 2 && c'.cache[..|c.cache|] == c.cache
    ensures var gd := Guide(o, RobotOf(g, c), g.worktops[c.target].position);
            && c'.cache[|c.cache|] == Instruction(Rotate, c.robotIndex, gd.omega)
            && c'.cache[|c.cache| + 1] == Instruction(Forward, c.robotIndex, gd.speed)
  {
    var gd := Guide(o, RobotOf(g, c), g.worktops[c.target].position);
    c.(cache := c.cache + [Instruction(Rotate, c.robotIndex, gd.omega), Instruction(Forward, c.robotIndex, gd.speed)])
  }

  /** Some station would do business with the robot as it is now. */
  predicate NotStucked(g: Game, r: Robot) {
    exists i :: 0 <= i < |g.worktops| && Interactable(g.worktops[i], r)
  }

  /** Whole-domain reading of NotStucked: an empty-handed robot is stuck
      exactly when no station has an output ready, a loaded robot exactly
      when no station accepts its item. */
  lemma StuckCases(g: Game, r: Robot)
    ensures r.carryingItemType == 0 ==>
              (NotStucked(g, r) <==> exists i :: 0 <= i < |g.worktops| && g.worktops[i].productionStatus)
    ensures r.carryingItemType != 0 ==>
              (NotStucked(g, r) <==> exists i :: 0 <= i < |g.worktops| && ItemAcceptable(g.worktops[i], r.carryingItemType))
  {
    forall i | 0 <= i < |g.worktops|
      ensures Interactable(g.worktops[i], r) <==>
                if r.carryingItemType == 0 then g.worktops[i].productionStatus
                else ItemAcceptable(g.worktops[i], r.carryingItemType)
    {
      InteractableCases(g.worktops[i], r);
    }
  }

  /** The time coefficient lies in the band that makes a fresh task not worth
      taking. */
  predicate Marginal(r: Robot) {
    TimeCoefFloor < r.timeValueCoefficient < TimeCoefThreshold
  }

  // ----------------------------------------------------- state machine

  /** The reaction table. Assign takes a target (to Pathfind) or abandons
      (release, destroy, stay in Assign). Pathfind releases on Blocked without
      leaving the state, abandons like Assign, and on Done trades, releases and
      returns to Assign. Every other pair is ignored. */
  function React(c: Controller, e: Event, g: Game, a: Assigner): (res: (Controller, Assigner))
    requires Ready(g, c)
    ensures res.0.robotIndex == c.robotIndex
    ensures c.state != Avoid ==> res.0.state != Avoid
    ensures c.state == Avoid ==> res == (c, a)
  {
    match (c.state, e)
    case (Assign, GetTarget(t)) =>
      (c.(target := t, state := Pathfind), a)
    case (Assign, Abandon) =>
      var (c1, a1) := TerminateTask(c, a);
      (AbandonItem(g, c1).(state := Assign), a1)
    case (Pathfind, Blocked) =>
      TerminateTask(c, a)
    case (Pathfind, Abandon) =>
      var (c1, a1) := TerminateTask(c, a);
      (AbandonItem(g, c1).(state := Assign), a1)
    case (Pathfind, Done) =>
      var (c1, a1) := TerminateTask(TradeInstructions(g, c), a);
      (c1.(state := Assign), a1)
    case _ =>
      (c, a)
  }

  /** One frame of one controller. Assign asks the assigner for the best
      station; it drops a task found while the robot's coefficient is
      marginal and otherwise starts travelling. Pathfind trades on arrival and
      otherwise steers, giving up when no station is interactable and the
      coefficient is below the threshold. Avoid does nothing. The obstacle
      test of the source always answers "not blocked", so it does not appear. */
  function Update(o: MathOracle, c: Controller, g: Game, a: Assigner): (res: (Controller, Assigner))
    requires ValidOracle(o) && Ready(g, c)
    ensures res.0.robotIndex == c.robotIndex
  {
    var r := RobotOf(g, c);
    match c.state
    case Assign =>
      var (task, a1) := PickTask(a, c.robotIndex, EstimateWorktops(o, g, c.robotIndex));
      if task.worktopID == -1 then (c, a1)
      else if Marginal(r) then React(c, Abandon, g, a1)
      else React(c, GetTarget(task.worktopID), g, a1)
    case Pathfind =>
      if r.worktopID == c.target then React(c, Done, g, a)
      else
        var c1 := ContinueMoving(o, g, c);
        if !NotStucked(g, r) && r.timeValueCoefficient < TimeCoefThreshold then React(c1, Abandon, g, a)
        else (c1, a)
    case Avoid =>
      (c, a)
  }

  // --------------------------------------------------------- transitions

  /** Assign without any unclaimed station: nothing changes. */
  lemma AssignNoTask(o: MathOracle, c: Controller, g: Game, a: Assigner)
    requires ValidOracle(o) && Ready(g, c) && c.state == Assign
    requires forall m :: 0 <= m < |g.worktops| ==> m !in a.available
    ensures Update(o, c, g, a) == (c, a)
  {
  }

  /** Assign with a marginal coefficient: the task just claimed is released
      at once, the assigner is back where it was, one destroy is emitted iff
      the robot carries something, and the controller stays in Assign. */
  lemma AssignMarginal(o: MathOracle, c: Controller, g: Game, a: Assigner)
    requires ValidOracle(o) && Ready(g, c) && c.state == Assign
    requires c.robotIndex !in a.workDict
    requires exists m :: 0 <= m < |g.worktops| && m in a.available
    requires Marginal(RobotOf(g, c))
    ensures var (c', a') := Update(o, c, g, a);
            && a' == a
            && c'.state == Assign && c'.target == -1 && c'.robotIndex == c.robotIndex
            && (RobotOf(g, c).carryingItemType != 0 <==> c'.cache == c.cache + [Instruction(Destroy, c.robotIndex, 0.0)])
            && (RobotOf(g, c).carryingItemType == 0 <==> c'.cache == c.cache)
  {
    var scores := EstimateWorktops(o, g, c.robotIndex);
    assert PickTask(a, c.robotIndex, scores).0.worktopID != -1;
    assert Update(o, c, g, a) == React(c, Abandon, g, PickTask(a, c.robotIndex, scores).1);
    AbandonClaimJustTaken(c, g, a, scores);
  }

  /** Abandoning right after a claim: the claim is given back, so the
      assigner is as before, and one destroy is emitted iff the robot carries
      something. */
  lemma AbandonClaimJustTaken(c: Controller, g: Game, a: Assigner, scores: seq<real>)
    requires Ready(g, c) && c.state == Assign
    requires c.robotIndex !in a.workDict
    requires PickTask(a, c.robotIndex, scores).0.worktopID != -1
    ensures var (c', a') := React(c, Abandon, g, PickTask(a, c.robotIndex, scores).1);
            && a' == a
            && c'.state == Assign && c'.target == -1 && c'.robotIndex == c.robotIndex
            && (RobotOf(g, c).carryingItemType != 0 <==> c'.cache == c.cache + [Instruction(Destroy, c.robotIndex, 0.0)])
            && (RobotOf(g, c).carryingItemType == 0 <==> c'.cache == c.cache)
  {
    ClaimThenRelease(a, c.robotIndex, scores);
  }

  /** Assign with a task and a coefficient outside the marginal band: the
      controller travels to the best unclaimed station, which is now claimed. */
  lemma AssignAccept(o: MathOracle, c: Controller, g: Game, a: Assigner)
    requires ValidOracle(o) && Ready(g, c) && c.state == Assign
    requires exists m :: 0 <= m < |g.worktops| && m in a.available
    requires !Marginal(RobotOf(g, c))
    ensures var scores := EstimateWorktops(o, g, c.robotIndex);
            var (c', a') := Update(o, c, g, a);
            && c'.state == Pathfind && c'.cache == c.cache
            && IsBestBelow(a.available, scores, c'.target, |scores|)
            && a'.available == a.available - {c'.target}
            && a'.workDict == a.workDict[c.robotIndex := c'.target]
  {
  }

  /** Pathfind at the target: trade instructions, release, back to Assign. */
  lemma PathfindArrived(o: MathOracle, c: Controller, g: Game, a: Assigner)
    requires ValidOracle(o) && Ready(g, c) && c.state == Pathfind
    requires RobotOf(g, c).worktopID == c.target
    ensures var (c', a') := Update(o, c, g, a);
            && c'.state == Assign && c'.target == -1
            && c'.cache == TradeInstructions(g, c).cache
            && a' == TaskOver(a, c.robotIndex)
  {
  }

  /** Pathfind away from the target: one rotate and one forward are emitted;
      the controller gives up (release, destroy if loaded, Assign) exactly when
      no station is interactable and the coefficient is below the threshold. */
  lemma PathfindMoving(o: MathOracle, c: Controller, g: Game, a: Assigner)
    requires ValidOracle(o) && Ready(g, c) && c.state == Pathfind
    requires RobotOf(g, c).worktopID != c.target
    ensures var (c', a') := Update(o, c, g, a);
            var r := RobotOf(g, c);
            var gd := Guide(o, r, g.worktops[c.target].position);
            var moves := c.cache + [Instruction(Rotate, c.robotIndex, gd.omega), Instruction(Forward, c.robotIndex, gd.speed)];
            var quit := !NotStucked(g, r) && r.timeValueCoefficient < TimeCoefThreshold;
            && (quit ==> c'.state == Assign && c'.target == -1 && a' == TaskOver(a, c.robotIndex)
                         && c'.cache == moves + (if r.carryingItemType != 0 then [Instruction(Destroy, c.robotIndex, 0.0)] else []))
            && (!quit ==> c' == c.(cache := moves) && a' == a)
  {
  }

  /** Nothing ever enters Avoid: no reaction and no update leads there from
      another state. */
  lemma NoTransitionToAvoid(o: MathOracle, c: Controller, e: Event, g: Game, a: Assigner)
    requires ValidOracle(o) && Ready(g, c) && c.state != Avoid
    ensures React(c, e, g, a).0.state != Avoid
    ensures Update(o, c, g, a).0.state != Avoid
  {
  }

  /** Blocked in Pathfind releases the task but keeps the state (the source
      leaves obstacle handling unwritten). The result is a Pathfind
      controller without a target, which is not Ready: its next update would
      index the stations at -1. Only the obstacle test always answering "not
      blocked" keeps this state out of reach. */
  lemma BlockedKeepsPathfind(c: Controller, g: Game, a: Assigner)
    requires Ready(g, c) && c.state == Pathfind
    ensures React(c, Blocked, g, a).0.state == Pathfind
    ensures React(c, Blocked, g, a).0.target == -1
    ensures React(c, Blocked, g, a).1 == TaskOver(a, c.robotIndex)
    ensures !Ready(g, React(c, Blocked, g, a).0)
  {
  }

  // ------------------------------------------------------------ invariant

  /** Controller i is consistent with the assigner: in Assign it has no target
      and no claim; in Pathfind it claims exactly its target station. */
  ghost predicate ControllerInv(g: Game, c: Controller, a: Assigner, i: int) {
    && c.robotIndex == i
    && c.state != Avoid
    && (c.state == Assign ==> c.target == -1 && i !in a.workDict)
    && (c.state == Pathfind ==> ValidWorktop(g, c.target) && i in a.workDict && a.workDict[i] == c.target)
  }

  /** The whole fleet: one controller per robot, claims only by robots, and
      the assigner's pool invariant over the stations of the map. */
  ghost predicate SysInv(g: Game, cs: seq<Controller>, a: Assigner) {
    && |cs| == |g.robots|
    && (forall i :: 0 <= i < |cs| ==> ControllerInv(g, cs[i], a, i))
    && (forall r :: r in a.workDict ==> 0 <= r < |cs|)
    && PoolInv(a, |g.worktops|)
  }

  /** The assigner changed only in robot i's claim. */
  ghost predicate OthersKept(a: Assigner, a': Assigner, i: int) {
    forall j :: j != i ==> (j in a'.workDict <==> j in a.workDict) && (j in a.workDict ==> a'.workDict[j] == a.workDict[j])
  }

  /** A step that keeps controller i consistent, touches only robot i's
      claim and keeps the pool invariant keeps the fleet invariant. */
  lemma FleetFromLocal(g: Game, cs: seq<Controller>, a: Assigner, i: int, c': Controller, a': Assigner)
    requires SysInv(g, cs, a) && 0 <= i < |cs|
    requires ControllerInv(g, c', a', i) && OthersKept(a, a', i) && PoolInv(a', |g.worktops|)
    requires forall r :: r in a'.workDict ==> r == i || r in a.workDict
    ensures SysInv(g, cs[i := c'], a')
  {
  }

  /** Assign step, local view: see FleetFromLocal. */
  lemma AssignStepLocal(o: MathOracle, g: Game, c: Controller, a: Assigner, i: int)
    requires ValidOracle(o) && ValidRobot(g, i) && c.state == Assign
    requires ControllerInv(g, c, a, i) && PoolInv(a, |g.worktops|)
    ensures var (c', a') := Update(o, c, g, a);
            && ControllerInv(g, c', a', i) && OthersKept(a, a', i) && PoolInv(a', |g.worktops|)
            && (forall r :: r in a'.workDict ==> r == i || r in a.workDict)
  {
    var scores := EstimateWorktops(o, g, i);
    var (task, a1) := PickTask(a, i, scores);
    if task.worktopID == -1 {
      assert Update(o, c, g, a) == (c, a);
    } else if Marginal(RobotOf(g, c)) {
      AssignMarginalLocal(g, c, a, i, scores);
      assert Update(o, c, g, a) == React(c, Abandon, g, a1);
    } else {
      AssignAcceptLocal(g, c, a, i, scores);
      assert Update(o, c, g, a) == React(c, GetTarget(task.worktopID), g, a1);
    }
  }

  /** Assign step that finds a task while the coefficient is marginal: the
      claim is taken and given straight back. */
  lemma AssignMarginalLocal(g: Game, c: Controller, a: Assigner, i: int, scores: seq<real>)
    requires ValidRobot(g, i) && c.state == Assign && |scores| == |g.worktops|
    requires ControllerInv(g, c, a, i) && PoolInv(a, |g.worktops|)
    requires PickTask(a, i, scores).0.worktopID != -1
    ensures var (c', a') := React(c, Abandon, g, PickTask(a, i, scores).1);
            && ControllerInv(g, c', a', i) && a' == a
  {
    ClaimThenRelease(a, i, scores);
  }

  /** Assign step that accepts a task: the robot claims its target. */
  lemma AssignAcceptLocal(g: Game, c: Controller, a: Assigner, i: int, scores: seq<real>)
    requires ValidRobot(g, i) && c.state == Assign && |scores| == |g.worktops|
    requires ControllerInv(g, c, a, i) && PoolInv(a, |g.worktops|)
    requires PickTask(a, i, scores).0.worktopID != -1
    ensures var (task, a1) := PickTask(a, i, scores);
            var (c', a') := React(c, GetTarget(task.worktopID), g, a1);
            && ControllerInv(g, c', a', i) && OthersKept(a, a', i) && PoolInv(a', |g.worktops|)
            && (forall r :: r in a'.workDict ==> r == i || r in a.workDict)
  {
    PickTaskPreservesPool(a, i, scores);
  }

  /** Pathfind step, local view: see FleetFromLocal. */
  lemma PathfindStepLocal(o: MathOracle, g: Game, c: Controller, a: Assigner, i: int)
    requires ValidOracle(o) && ValidRobot(g, i) && c.state == Pathfind
    requires ControllerInv(g, c, a, i) && PoolInv(a, |g.worktops|)
    ensures var (c', a') := Update(o, c, g, a);
            && ControllerInv(g, c', a', i) && OthersKept(a, a', i) && PoolInv(a', |g.worktops|)
            && (forall r :: r in a'.workDict ==> r == i || r in a.workDict)
  {
    TaskOverPreservesPool(a, i, |g.worktops|);
  }

  /** One controller's update keeps the fleet invariant. */
  lemma UpdatePreservesSysInv(o: MathOracle, g: Game, cs: seq<Controller>, a: Assigner, i: int)
    requires ValidOracle(o) && SysInv(g, cs, a) && 0 <= i < |cs|
    ensures Ready(g, cs[i])
    ensures var (c', a') := Update(o, cs[i], g, a);
            SysInv(g, cs[i := c'], a')
  {
    var (c', a') := Update(o, cs[i], g, a);
    if cs[i].state == Assign {
      AssignStepLocal(o, g, cs[i], a, i);
    } else {
      PathfindStepLocal(o, g, cs[i], a, i);
    }
    FleetFromLocal(g, cs, a, i, c', a');
  }

  /** Initially every robot is in Assign and nothing is claimed. */
  lemma InitialSysInv(g: Game, a: Assigner)
    requires a.workDict == map[]
    ensures SysInv(g, seq(|g.robots|, i => NewController(i)), Init(a, |g.worktops|))
  {
    InitEstablishesPool(a, |g.worktops|);
  }
}
