/** The look-ahead scorer of src/Algorithm.hpp at depth 0: for one robot, one
    score per station, each computed on its own copy of the snapshot. */
module Scoring {
  import opened Geometry
  import opened Settings
  import opened Catalog
  import opened Entities
  import opened GameState

  /** Heading error of a robot towards a station, written out as the source
      does instead of calling AngleDiff; it is the same quantity. */
  function RobotWorktopAngleDiff(o: MathOracle, r: Robot, w: Worktop): (d: real)
    requires ValidOracle(o)
    ensures d == AngleDiff(r.orientation, Direction(o, r.position, w.position))
    ensures -Pi <= r.orientation <= Pi ==> -Pi <= d <= Pi
  {
    var r2w := Orientation(o, FromTo(r.position, w.position));
    var angleDiff := r.orientation - r2w;
    if Abs(angleDiff) > Pi then
      if angleDiff < 0.0 then angleDiff + 2.0 * Pi else angleDiff - 2.0 * Pi
    else
      angleDiff
  }

  /** Sum of the realised values of the carried items, accumulated in robot
      order. */
  function SumItemPrices(rs: seq<Robot>): real {
    if rs == [] then 0.0
    else SumItemPrices(rs[..|rs| - 1]) + RobotItemPrice(rs[|rs| - 1])
  }

  /** Replacing one robot changes the sum by the difference of the two item
      values. */
  lemma {:induction false} SumItemPricesUpdate(rs: seq<Robot>, i: int, r: Robot)
    requires 0 <= i < |rs|
    ensures SumItemPrices(rs[i := r]) == SumItemPrices(rs) - RobotItemPrice(rs[i]) + RobotItemPrice(r)
    decreases |rs|
  {
    var last := |rs| - 1;
    var rs' := rs[i := r];
    assert rs'[..last] == if i == last then rs[..last] else rs[..last][i := r];
    if i < last {
      SumItemPricesUpdate(rs[..last], i, r);
    }
  }

  /** A robot with an empty hand or non-negative coefficients adds a
      non-negative value; with everybody empty-handed the sum is 0. */
  lemma {:induction false} SumItemPricesBounds(rs: seq<Robot>)
    ensures (forall i :: 0 <= i < |rs| ==> rs[i].carryingItemType == 0) ==> SumItemPrices(rs) == 0.0
    ensures (forall i :: 0 <= i < |rs| ==>
               rs[i].timeValueCoefficient >= 0.0 && rs[i].collisionValueCoefficient >= 0.0) ==>
              SumItemPrices(rs) >= 0.0
    decreases |rs|
  {
    if rs != [] {
      var last := |rs| - 1;
      SumItemPricesBounds(rs[..last]);
      var r := rs[last];
      if 1 <= r.carryingItemType <= 7 && r.timeValueCoefficient >= 0.0 && r.collisionValueCoefficient >= 0.0 {
        assert r.timeValueCoefficient * r.collisionValueCoefficient >= 0.0;
      }
    }
  }

  /** Terminal valuation of a snapshot: money, minus the opportunity cost of
      the elapsed frames, plus what the robots carry. */
  function Estimate(g: Game): (e: real)
    ensures (forall i :: 0 <= i < |g.robots| ==> g.robots[i].carryingItemType == 0) ==>
              e == g.money as real - g.curFrame as real * CostPerFrame
    ensures (forall i :: 0 <= i < |g.robots| ==>
               g.robots[i].timeValueCoefficient >= 0.0 && g.robots[i].collisionValueCoefficient >= 0.0) ==>
              e >= g.money as real - g.curFrame as real * CostPerFrame
  {
    SumItemPricesBounds(g.robots);
    var res := 0.0 - g.curFrame as real * CostPerFrame;
    res + g.money as real + SumItemPrices(g.robots)
  }

  /** How a trade moves the valuation: by the change in money and the change
      in the trading robot's item value. A sale alone therefore loses the
      sold item's value, because it credits nothing. */
  lemma TradeEstimate(g: Game, ri: int, wi: int)
    requires ValidRobot(g, ri) && ValidWorktop(g, wi)
    ensures var g' := TryDoTrade(g, ri, wi);
            Estimate(g') == Estimate(g) + (g'.money - g.money) as real
                            - RobotItemPrice(g.robots[ri]) + RobotItemPrice(g'.robots[ri])
  {
    var g' := TryDoTrade(g, ri, wi);
    assert g'.robots == g.robots[ri := g'.robots[ri]];
    SumItemPricesUpdate(g.robots, ri, g'.robots[ri]);
  }

  /** Estimated frames for robot `ri` to reach station `wi`: travel time at the
      assumed cruise speed plus turning time at the assumed turn rate, added
      (not maximised) and truncated to a whole number of frames. */
  function EstimateFrameCost(o: MathOracle, g: Game, ri: int, wi: int): (frames: int)
    requires ValidOracle(o)
    requires ValidRobot(g, ri) && ValidWorktop(g, wi)
    ensures frames >= 0
    ensures var r, w := g.robots[ri], g.worktops[wi];
            var estimate := Distance(o, r.position, w.position) / (AssumedRobotVelocity * TimePerFrame)
                            + Abs(RobotWorktopAngleDiff(o, r, w)) / (AssumedRobotPalstance * TimePerFrame);
            frames as real <= estimate < frames as real + 1.0
  {
    var r := g.robots[ri];
    var w := g.worktops[wi];
    var travel := Distance(o, r.position, w.position) / (AssumedRobotVelocity * TimePerFrame);
    var turn := Abs(RobotWorktopAngleDiff(o, r, w)) / (AssumedRobotPalstance * TimePerFrame);
    TruncToInt(travel + turn)
  }

  /** The private copy of the snapshot after the estimated travel time:
      stations advanced, clock moved on by the same number of frames. */
  function Project(o: MathOracle, g: Game, ri: int, wi: int): (g': Game)
    requires ValidOracle(o)
    requires ValidRobot(g, ri) && ValidWorktop(g, wi)
    ensures g'.curFrame == g.curFrame + EstimateFrameCost(o, g, ri, wi) >= g.curFrame
    ensures g'.money == g.money && g'.robots == g.robots
    ensures g'.worktops == UpdateWorktops(g, EstimateFrameCost(o, g, ri, wi)).worktops
  {
    var frames := EstimateFrameCost(o, g, ri, wi);
    var after := UpdateWorktops(g, frames);
    after.(curFrame := after.curFrame + frames)
  }

  /** Score of a station nobody can interact with: a fixed penalty far below
      any real outcome, plus the distance. */
  const UninteractableBase: real := -(TotalFrames as real) * CostPerFrame + UninteractablePenalty * 2.0

  /** Score of sending robot `ri` to station `wi` (search depth 0). */
  function ScoreStation(o: MathOracle, g: Game, ri: int, wi: int): real
    requires ValidOracle(o)
    requires ValidRobot(g, ri) && ValidWorktop(g, wi)
  {
    var statusAfter := Project(o, g, ri, wi);
    var robotAfter := statusAfter.robots[ri];
    var worktopAfter := statusAfter.worktops[wi];
    if Interactable(worktopAfter, robotAfter) then
      Estimate(ApplySelection(o, statusAfter, ri, wi))
    else
      UninteractableBase + Distance(o, robotAfter.position, worktopAfter.position)
  }

  /** One score per station, in station order; entry i is computed from the
      input snapshot and station i alone, so no entry sees another's copy. */
  function EstimateWorktops(o: MathOracle, g: Game, ri: int): (scores: seq<real>)
    requires ValidOracle(o)
    requires ValidRobot(g, ri)
    ensures |scores| == |g.worktops|
    ensures forall i :: 0 <= i < |scores| ==> scores[i] == ScoreStation(o, g, ri, i)
  {
    seq(|g.worktops|, i requires 0 <= i < |g.worktops| => ScoreStation(o, g, ri, i))
  }

  /** Moving a robot and trading changes the valuation by the money moved
      and the change in that robot's item value. */
  lemma SelectionEstimate(o: MathOracle, g: Game, ri: int, wi: int)
    requires ValidOracle(o)
    requires ValidRobot(g, ri) && ValidWorktop(g, wi)
    ensures var after := ApplySelection(o, g, ri, wi);
            Estimate(after) == Estimate(g) + (after.money - g.money) as real
                               - RobotItemPrice(g.robots[ri]) + RobotItemPrice(after.robots[ri])
  {
    var m := MoveRobotTo(o, g, ri, wi);
    TradeEstimate(m, ri, wi);
    SumItemPricesUpdate(g.robots, ri, m.robots[ri]);
  }

  /** Interactable branch: the score is the valuation of the projected copy
      after the robot has been placed on the station and has traded; that
      copy's clock is later than the input's by the frame estimate. */
  lemma ScoreWhenInteractable(o: MathOracle, g: Game, ri: int, wi: int)
    requires ValidOracle(o)
    requires ValidRobot(g, ri) && ValidWorktop(g, wi)
    requires Interactable(AdvanceStation(g.worktops[wi], EstimateFrameCost(o, g, ri, wi)), g.robots[ri])
    ensures var p := Project(o, g, ri, wi);
            var after := ApplySelection(o, p, ri, wi);
            && ScoreStation(o, g, ri, wi) == Estimate(after)
            && after.curFrame == g.curFrame + EstimateFrameCost(o, g, ri, wi)
            && after.robots[ri].position == g.worktops[wi].position
            && Estimate(after) == Estimate(p) + (after.money - g.money) as real
                                  - RobotItemPrice(g.robots[ri]) + RobotItemPrice(after.robots[ri])
  {
    var p := Project(o, g, ri, wi);
    SelectionEstimate(o, p, ri, wi);
  }

  /** Non-interactable branch: the score is the fixed penalty plus the
      distance, so it is below -100,000,000 + distance. */
  lemma ScoreWhenNotInteractable(o: MathOracle, g: Game, ri: int, wi: int)
    requires ValidOracle(o)
    requires ValidRobot(g, ri) && ValidWorktop(g, wi)
    requires !Interactable(AdvanceStation(g.worktops[wi], EstimateFrameCost(o, g, ri, wi)), g.robots[ri])
    ensures var d := Distance(o, g.robots[ri].position, g.worktops[wi].position);
            ScoreStation(o, g, ri, wi) == UninteractableBase + d
            && ScoreStation(o, g, ri, wi) < -100000000.0 + d
  {
  }

  /** Among stations the robot cannot interact with, the farther one scores
      higher: the distance is added to the penalty, not subtracted. */
  lemma FartherUninteractableScoresHigher(o: MathOracle, g: Game, ri: int, i: int, j: int)
    requires ValidOracle(o)
    requires ValidRobot(g, ri) && ValidWorktop(g, i) && ValidWorktop(g, j)
    requires !Interactable(AdvanceStation(g.worktops[i], EstimateFrameCost(o, g, ri, i)), g.robots[ri])
    requires !Interactable(AdvanceStation(g.worktops[j], EstimateFrameCost(o, g, ri, j)), g.robots[ri])
    requires Distance(o, g.robots[ri].position, g.worktops[i].position)
             < Distance(o, g.robots[ri].position, g.worktops[j].position)
    ensures ScoreStation(o, g, ri, i) < ScoreStation(o, g, ri, j)
  {
    ScoreWhenNotInteractable(o, g, ri, i);
    ScoreWhenNotInteractable(o, g, ri, j);
  }
}
