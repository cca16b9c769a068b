/** The world snapshot of src/Structure.hpp (`Game`): frame counter, money,
    robots and stations, with the time-advance and trade rules used by the
    look-ahead scorer. Snapshots are values, so a "copy of the game" is just
    the same value. The task assigner the source hangs off the game is kept
    separately (module Assignment). */
module GameState {
  import opened Geometry
  import opened Catalog
  import opened Entities

  datatype Game = Game(curFrame: int, money: int, robots: seq<Robot>, worktops: seq<Worktop>)

  predicate ValidRobot(g: Game, ri: int) {
    0 <= ri < |g.robots|
  }

  predicate ValidWorktop(g: Game, wi: int) {
    0 <= wi < |g.worktops|
  }

  /** The C++ `(int)` conversion of a double: truncation toward zero. */
  function TruncToInt(x: real): (n: int)
    ensures x >= 0.0 ==> n >= 0 && n as real <= x < n as real + 1.0
    ensures x < 0.0 ==> n <= 0 && n as real - 1.0 < x <= n as real
  {
    if x >= 0.0 then x.Floor else -((-x).Floor)
  }

  /** Advance every station by `frames` frames; nothing but the stations
      changes, and each station advances on its own. */
  function UpdateWorktops(g: Game, frames: int): (g': Game)
    ensures g'.curFrame == g.curFrame && g'.money == g.money && g'.robots == g.robots
    ensures |g'.worktops| == |g.worktops|
    ensures forall i :: 0 <= i < |g.worktops| ==> g'.worktops[i] == AdvanceStation(g.worktops[i], frames)
  {
    g.(worktops := seq(|g.worktops|, i requires 0 <= i < |g.worktops| => AdvanceStation(g.worktops[i], frames)))
  }

  /** The parties of one trade: a station, a robot and the treasury. */
  datatype Deal = Deal(worktop: Worktop, robot: Robot, money: int)

  /** Sell half of a trade. The credit is the robot's item price read after
      the robot has handed the item over, so it is always 0: the sale moves
      the item but no money. */
  function SellHalf(d: Deal): (d': Deal)
    ensures ItemAcceptable(d.worktop, d.robot.carryingItemType) ==>
              && d'.worktop == AcceptItem(d.worktop, d.robot.carryingItemType)
              && d'.robot == RobotSellItem(d.robot)
              && d'.money == d.money
    ensures !ItemAcceptable(d.worktop, d.robot.carryingItemType) ==> d' == d
  {
    if ItemAcceptable(d.worktop, d.robot.carryingItemType) then
      var w' := AcceptItem(d.worktop, d.robot.carryingItemType);
      var r' := RobotSellItem(d.robot);
      Deal(w', r', d.money + TruncToInt(RobotItemPrice(r')))
    else
      d
  }

  /** Condition of the buy half: an output is ready, the treasury holds
      strictly more than its price, and the robot is empty-handed. */
  predicate CanBuy(d: Deal) {
    d.worktop.productionStatus && d.money as real > WorktopItemPrice(d.worktop) && d.robot.carryingItemType == 0
  }

  /** Buy half of a trade: the robot takes the output with fresh
      coefficients and the treasury pays the whole-number part of the price;
      it never drops to 0 or below. */
  function BuyHalf(d: Deal): (d': Deal)
    ensures CanBuy(d) ==>
              && d'.robot == RobotBuyItem(d.robot, d.worktop.producingItemType)
              && d'.worktop == WorktopSellItem(d.worktop)
              && d'.money == d.money - TruncToInt(WorktopItemPrice(d.worktop))
              && 0 < d'.money <= d.money
    ensures !CanBuy(d) ==> d' == d
  {
    if CanBuy(d) then
      var w' := WorktopSellItem(d.worktop);
      var r' := RobotBuyItem(d.robot, w'.producingItemType);
      Deal(w', r', d.money - TruncToInt(WorktopItemPrice(w')))
    else
      d
  }

  /** Robot `ri` trades with station `wi`: first the sell half, then the buy
      half on the result. Only that robot, that station and the money change. */
  function TryDoTrade(g: Game, ri: int, wi: int): (g': Game)
    requires ValidRobot(g, ri) && ValidWorktop(g, wi)
    ensures g'.curFrame == g.curFrame
    ensures |g'.robots| == |g.robots| && |g'.worktops| == |g.worktops|
    ensures forall j :: 0 <= j < |g.robots| && j != ri ==> g'.robots[j] == g.robots[j]
    ensures forall j :: 0 <= j < |g.worktops| && j != wi ==> g'.worktops[j] == g.worktops[j]
    ensures g'.robots[ri].position == g.robots[ri].position
    ensures g'.robots[ri].worktopID == g.robots[ri].worktopID
    ensures g'.worktops[wi].position == g.worktops[wi].position
  {
    var d := BuyHalf(SellHalf(Deal(g.worktops[wi], g.robots[ri], g.money)));
    g.(money := d.money, robots := g.robots[ri := d.robot], worktops := g.worktops[wi := d.worktop])
  }

  /** The combined effect of a trade in terms of the state before it. The
      sale happens iff the station accepts the carried item; the purchase
      happens iff an output is ready, the money exceeds its price, and the
      robot is empty-handed after the sale; both may happen in one call. */
  lemma TradeOutcome(g: Game, ri: int, wi: int)
    requires ValidRobot(g, ri) && ValidWorktop(g, wi)
    ensures var w, r, g' := g.worktops[wi], g.robots[ri], TryDoTrade(g, ri, wi);
            var sold := ItemAcceptable(w, r.carryingItemType);
            var bought := w.productionStatus && g.money as real > WorktopItemPrice(w)
                          && (sold || r.carryingItemType == 0);
            && (bought ==> && g'.robots[ri].carryingItemType == w.producingItemType
                           && g'.robots[ri].timeValueCoefficient == 1.0
                           && g'.robots[ri].collisionValueCoefficient == 1.0
                           && g'.money == g.money - TruncToInt(WorktopItemPrice(w))
                           && !g'.worktops[wi].productionStatus)
            && (!bought ==> g'.money == g.money
                            && g'.worktops[wi].productionStatus == w.productionStatus)
            && (sold && !bought ==> g'.robots[ri].carryingItemType == 0)
            && (!sold && !bought ==> g' == g)
            && (sold ==> g'.worktops[wi].materialStatus == {}
                         || r.carryingItemType in g'.worktops[wi].materialStatus)
  {
    var w, r := g.worktops[wi], g.robots[ri];
    var d0 := Deal(w, r, g.money);
    var d1 := SellHalf(d0);
    assert d1.money == g.money;
    assert d1.worktop.productionStatus == w.productionStatus;
    assert d1.worktop.producingItemType == w.producingItemType;
    assert d1.robot.carryingItemType == 0 <==> ItemAcceptable(w, r.carryingItemType) || r.carryingItemType == 0;
    assert CanBuy(d1) <==> w.productionStatus && g.money as real > WorktopItemPrice(w)
                           && (ItemAcceptable(w, r.carryingItemType) || r.carryingItemType == 0);
    if !ItemAcceptable(w, r.carryingItemType) && !CanBuy(d1) {
      assert g.robots[ri := r] == g.robots;
      assert g.worktops[wi := w] == g.worktops;
    }
  }

  /** A sink station (kind 8 or 9) with its output flag set "sells" item 0:
      an empty-handed robot stays empty-handed, pays nothing, and the flag is
      cleared. */
  lemma SinkTradeBuysNothing(g: Game, ri: int, wi: int)
    requires ValidRobot(g, ri) && ValidWorktop(g, wi)
    requires g.worktops[wi].producingItemType == 0 && g.worktops[wi].productionStatus
    requires g.robots[ri].carryingItemType == 0 && g.money > 0
    ensures TryDoTrade(g, ri, wi).robots[ri].carryingItemType == 0
    ensures TryDoTrade(g, ri, wi).money == g.money
    ensures !TryDoTrade(g, ri, wi).worktops[wi].productionStatus
  {
    TradeOutcome(g, ri, wi);
  }

  /** Robot `ri` turns to face station `wi` and is placed on it; its cargo
      and coefficients stay as they are. */
  function MoveRobotTo(o: MathOracle, g: Game, ri: int, wi: int): (g': Game)
    requires ValidOracle(o)
    requires ValidRobot(g, ri) && ValidWorktop(g, wi)
    ensures g'.curFrame == g.curFrame && g'.money == g.money && g'.worktops == g.worktops
    ensures |g'.robots| == |g.robots| && g'.robots == g.robots[ri := g'.robots[ri]]
    ensures g'.robots[ri] == g.robots[ri].(orientation := g'.robots[ri].orientation,
                                           position := g.worktops[wi].position)
    ensures g'.robots[ri].orientation == Direction(o, g.robots[ri].position, g.worktops[wi].position)
  {
    var r := g.robots[ri];
    var w := g.worktops[wi];
    g.(robots := g.robots[ri := r.(orientation := Direction(o, r.position, w.position), position := w.position)])
  }

  /** The look-ahead's "robot r goes to station w": the robot is moved onto
      the station, then trades there. Where the robot stands does not affect
      the trade: the result is trading in place, then putting the robot on the
      station. */
  function ApplySelection(o: MathOracle, g: Game, ri: int, wi: int): (g': Game)
    requires ValidOracle(o)
    requires ValidRobot(g, ri) && ValidWorktop(g, wi)
    ensures g'.curFrame == g.curFrame
    ensures |g'.robots| == |g.robots| && |g'.worktops| == |g.worktops|
    ensures forall j :: 0 <= j < |g.robots| && j != ri ==> g'.robots[j] == g.robots[j]
    ensures g'.robots[ri].position == g.worktops[wi].position
    ensures g'.robots[ri].orientation == Direction(o, g.robots[ri].position, g.worktops[wi].position)
    ensures var t := TryDoTrade(g, ri, wi);
            && g'.money == t.money && g'.worktops == t.worktops
            && g'.robots[ri].carryingItemType == t.robots[ri].carryingItemType
    ensures var t := TryDoTrade(g, ri, wi);
            g' == t.(robots := t.robots[ri := t.robots[ri].(
                       orientation := Direction(o, g.robots[ri].position, g.worktops[wi].position),
                       position := g.worktops[wi].position)])
  {
    TryDoTrade(MoveRobotTo(o, g, ri, wi), ri, wi)
  }

  /** Map loading: a robot is appended at p. */
  function LoadRobot(g: Game, p: Point): (g': Game)
    ensures |g'.robots| == |g.robots| + 1 && g'.robots[..|g.robots|] == g.robots
    ensures g'.robots[|g.robots|] == NewRobot(p)
    ensures g'.worktops == g.worktops
    ensures g'.curFrame == g.curFrame && g'.money == g.money
  {
    g.(robots := g.robots + [NewRobot(p)])
  }

  /** Map loading: a station of the given kind is appended at p. */
  function LoadWorktop(g: Game, p: Point, kind: StationKind): (g': Game)
    ensures |g'.worktops| == |g.worktops| + 1 && g'.worktops[..|g.worktops|] == g.worktops
    ensures g'.worktops[|g.worktops|] == NewWorktop(p, kind)
    ensures g'.robots == g.robots
    ensures g'.curFrame == g.curFrame && g'.money == g.money
  {
    g.(worktops := g.worktops + [NewWorktop(p, kind)])
  }
}
