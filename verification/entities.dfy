/** Robots and stations ("worktops") of src/Structure.hpp, as immutable values,
    with the station's trade and production rules.

    Bitmasks of item kinds (`purchasingItemBits`, `materialStatus`) are sets of
    bit positions: bit t of the mask is set exactly when t is in the set. */
module Entities {
  import opened Lookup
  import opened Geometry
  import opened Catalog

  // ---------------------------------------------------------------- robots

  datatype Robot = Robot(
    worktopID: int,               // station the robot stands at, -1 for none
    carryingItemType: int,        // 0 when empty-handed, else an item kind
    timeValueCoefficient: real,
    collisionValueCoefficient: real,
    palstance: real,              // angular velocity, counter-clockwise positive
    velocity: Vector2d,
    orientation: real,            // heading in [-pi, pi]
    position: Point)

  /** A robot as the map loader creates it. */
  function NewRobot(p: Point): (r: Robot)
    ensures r.position == p && r.worktopID == -1 && r.carryingItemType == 0
    ensures r.timeValueCoefficient == 1.0 && r.collisionValueCoefficient == 1.0
    ensures r.palstance == 0.0 && r.velocity == Vector2d(0.0, 0.0) && r.orientation == 0.0
  {
    Robot(-1, 0, 1.0, 1.0, 0.0, Vector2d(0.0, 0.0), 0.0, p)
  }

  /** Realised value of the carried item: its base selling price decayed by
      both coefficients; 0 when empty-handed or the kind is unknown. */
  function RobotItemPrice(r: Robot): (price: real)
    ensures r.carryingItemType == 0 ==> price == 0.0
    ensures !(1 <= r.carryingItemType <= 7) ==> price == 0.0
    ensures 1 <= r.carryingItemType <= 7 ==>
              price == r.timeValueCoefficient * r.collisionValueCoefficient
                       * ItemTypeOf(r.carryingItemType).value.originalSellingPrice
  {
    if r.carryingItemType != 0 then
      match ItemTypeOf(r.carryingItemType)
      case Some(it) => r.timeValueCoefficient * r.collisionValueCoefficient * it.originalSellingPrice
      case None => 0.0
    else
      0.0
  }

  /** With both coefficients in [0, 1] the realised value lies between 0 and
      the base selling price. */
  lemma ItemPriceBounds(r: Robot)
    requires 1 <= r.carryingItemType <= 7
    requires 0.0 <= r.timeValueCoefficient <= 1.0 && 0.0 <= r.collisionValueCoefficient <= 1.0
    ensures 0.0 <= RobotItemPrice(r) <= ItemTypeOf(r.carryingItemType).value.originalSellingPrice
  {
    var tc, cc := r.timeValueCoefficient, r.collisionValueCoefficient;
    var base := ItemTypeOf(r.carryingItemType).value.originalSellingPrice;
    assert base > 0.0;
    ScaleMono(tc, 0.0, cc);
    ScaleMono(tc, cc, 1.0);
    assert tc * 0.0 == 0.0 && tc * 1.0 == tc;
    assert 0.0 <= tc * cc <= 1.0;
    ScaleMono(base, 0.0, tc * cc);
    ScaleMono(base, tc * cc, 1.0);
  }

  /** Multiplying by a non-negative factor preserves order. */
  lemma ScaleMono(k: real, x: real, y: real)
    requires k >= 0.0 && x <= y
    ensures k * x <= k * y
  {
    assert k * y - k * x == k * (y - x);
  }

  /** The robot hands its item over. */
  function RobotSellItem(r: Robot): (r': Robot)
    ensures r'.carryingItemType == 0
    ensures r' == r.(carryingItemType := 0)
  {
    r.(carryingItemType := 0)
  }

  /** The robot picks up a fresh item: both coefficients restart at 1. */
  function RobotBuyItem(r: Robot, itemType: int): (r': Robot)
    ensures r'.carryingItemType == itemType
    ensures r'.timeValueCoefficient == 1.0 && r'.collisionValueCoefficient == 1.0
    ensures r'.position == r.position && r'.orientation == r.orientation
    ensures r' == r.(carryingItemType := itemType, timeValueCoefficient := 1.0, collisionValueCoefficient := 1.0)
  {
    r.(carryingItemType := itemType, timeValueCoefficient := 1.0, collisionValueCoefficient := 1.0)
  }

  /** A freshly bought item is worth its full selling price, whatever the
      coefficients of the item the robot held before. */
  lemma FreshItemFullValue(r: Robot, itemType: int)
    requires 1 <= itemType <= 7
    ensures RobotItemPrice(RobotBuyItem(r, itemType)) == ItemTypeOf(itemType).value.originalSellingPrice
  {
  }

  // Physical quantities of a robot; they depend only on whether it carries
  // something.

  const RadiusIdle: real := 0.45
  const RadiusHolding: real := 0.53
  const AssumedDensity: real := 20.0
  const AssumedMaxTractiveForce: real := 250.0
  const AssumedMaxMoment: real := 50.0

  function Radius(r: Robot): (rad: real)
    ensures rad > 0.0
  {
    if r.carryingItemType == 0 then RadiusIdle else RadiusHolding
  }

  function Weight(r: Robot): (m: real)
    ensures m > 0.0
  {
    var rad := Radius(r);
    assert rad * rad > 0.0;
    Pi * (rad * rad) * AssumedDensity
  }

  /** Moment of inertia. */
  function J(r: Robot): (j: real)
    ensures j > 0.0
  {
    var rad := Radius(r);
    var m := Weight(r);
    assert rad * rad > 0.0;
    assert m * (rad * rad) > 0.0;
    0.5 * (m * (rad * rad))
  }

  /** A loaded robot is larger, so both heavier and harder to turn. */
  lemma HeavierWhenLoaded(idle: Robot, loaded: Robot)
    requires idle.carryingItemType == 0 && loaded.carryingItemType != 0
    ensures Radius(idle) < Radius(loaded)
    ensures Weight(idle) < Weight(loaded)
    ensures J(idle) < J(loaded)
  {
    assert Weight(idle) == Pi * (RadiusIdle * RadiusIdle) * AssumedDensity;
    assert Weight(loaded) == Pi * (RadiusHolding * RadiusHolding) * AssumedDensity;
  }

  function AngularAcceleration(r: Robot): (beta: real)
    ensures beta > 0.0
  {
    AssumedMaxMoment / J(r)
  }

  function Acceleration(r: Robot): (acc: real)
    ensures acc > 0.0
  {
    AssumedMaxTractiveForce / Weight(r)
  }

  // -------------------------------------------------------------- stations

  datatype Worktop = Worktop(
    position: Point,
    kind: StationKind,
    remainingProductionTime: int,   // -1: no timer, 0: finished, > 0: counting down
    materialStatus: set<int>,       // inputs deposited in the current cycle
    productionStatus: bool,         // an output item is ready
    purchasingItemBits: set<int>,   // inputs the kind requires
    producingItemType: int)         // item produced, 0 for none

  function Config(w: Worktop): WorktopType {
    WorktopTypeOf(w.kind)
  }

  /** The bitmask of a recipe: the OR of 1 << i over its items, left to right. */
  function RecipeBits(items: seq<int>): (bits: set<int>)
    ensures forall i :: i in bits <==> i in items
  {
    if items == [] then {}
    else RecipeBits(items[..|items| - 1]) + {items[|items| - 1]}
  }

  /** A station as the map loader creates it. A kind without inputs starts
      producing at once; the others wait for their inputs. */
  function NewWorktop(p: Point, kind: StationKind): (w: Worktop)
    ensures w.position == p && w.kind == kind
    ensures forall i :: i in w.purchasingItemBits <==> i in WorktopTypeOf(kind).purchasingItemTypes
    ensures w.producingItemType == WorktopTypeOf(kind).producingItem
    ensures w.materialStatus == {} && !w.productionStatus
    ensures kind <= 3 ==> w.purchasingItemBits == {} && w.remainingProductionTime == 50
    ensures kind >= 4 ==> w.purchasingItemBits != {} && w.remainingProductionTime == -1
  {
    var cfg := WorktopTypeOf(kind);
    var bits := RecipeBits(cfg.purchasingItemTypes);
    TablesConsistent(kind);
    assert kind >= 4 ==> cfg.purchasingItemTypes[0] in bits;
    Worktop(p, kind, if bits == {} then cfg.workCycle else -1, {}, false, bits, cfg.producingItem)
  }

  /** Price a robot pays for the station's output: the purchase price of the
      produced kind, 0 for the sinks. */
  function WorktopItemPrice(w: Worktop): (price: real)
    ensures price >= 0.0
    ensures 1 <= w.producingItemType <= 7 ==> price == ItemTypeOf(w.producingItemType).value.purchasePrice
    ensures !(1 <= w.producingItemType <= 7) ==> price == 0.0
  {
    match ItemTypeOf(w.producingItemType)
    case Some(it) => it.purchasePrice
    case None => 0.0
  }

  /** The station buys item t: t is a real item, one of its inputs, and not yet
      deposited in this cycle. */
  predicate ItemAcceptable(w: Worktop, t: int) {
    t != 0 && t in w.purchasingItemBits && t !in w.materialStatus
  }

  /** The robot can do business here: pick up a ready output with empty hands,
      or deposit what it carries. */
  predicate Interactable(w: Worktop, r: Robot) {
    (r.carryingItemType == 0 && w.productionStatus) || ItemAcceptable(w, r.carryingItemType)
  }

  /** Whole-domain reading of Interactable: an empty-handed robot can trade
      exactly when an output is ready; a loaded robot exactly when the
      station accepts its item, whatever the output flag says. */
  lemma InteractableCases(w: Worktop, r: Robot)
    ensures r.carryingItemType == 0 ==> (Interactable(w, r) <==> w.productionStatus)
    ensures r.carryingItemType != 0 ==> (Interactable(w, r) <==> ItemAcceptable(w, r.carryingItemType))
  {
  }

  /** A fresh station accepts exactly the inputs of its kind's recipe; the
      raw-material stations 1..3 accept nothing. */
  lemma FreshStationAccepts(p: Point, kind: StationKind, t: int)
    ensures ItemAcceptable(NewWorktop(p, kind), t) <==> t in WorktopTypeOf(kind).purchasingItemTypes
    ensures kind <= 3 ==> !ItemAcceptable(NewWorktop(p, kind), t)
  {
    TablesConsistent(kind);
    var items := WorktopTypeOf(kind).purchasingItemTypes;
    if t in items {
      var i :| 0 <= i < |items| && items[i] == t;
      assert 1 <= items[i] <= 7;
    }
  }

  /** Deposit item t. When the inputs are complete (or none are required) the
      cycle restarts: the timer is set to the work cycle and the inputs are
      consumed. */
  function AcceptItem(w: Worktop, t: int): (w': Worktop)
    ensures w'.position == w.position && w'.kind == w.kind
    ensures w'.productionStatus == w.productionStatus
    ensures w'.purchasingItemBits == w.purchasingItemBits && w'.producingItemType == w.producingItemType
    ensures var m := w.materialStatus + {t};
            if m == w.purchasingItemBits || w.purchasingItemBits == {} then
              w'.remainingProductionTime == Config(w).workCycle && w'.materialStatus == {}
            else
              w'.remainingProductionTime == w.remainingProductionTime && w'.materialStatus == m
  {
    var m := w.materialStatus + {t};
    if m == w.purchasingItemBits || w.purchasingItemBits == {} then
      w.(materialStatus := {}, remainingProductionTime := Config(w).workCycle)
    else
      w.(materialStatus := m)
  }

  /** Inputs deposited so far are inputs of the recipe. */
  ghost predicate MaterialWithinRecipe(w: Worktop) {
    w.materialStatus <= w.purchasingItemBits
  }

  /** Depositing an acceptable item keeps the inputs within the recipe; the
      cycle starts exactly when t was the last missing input, and otherwise t
      cannot be deposited a second time in the same cycle. */
  lemma DepositCompletesCycle(w: Worktop, t: int)
    requires MaterialWithinRecipe(w) && ItemAcceptable(w, t)
    ensures MaterialWithinRecipe(AcceptItem(w, t))
    ensures AcceptItem(w, t).materialStatus == {} <==> w.purchasingItemBits - w.materialStatus == {t}
    ensures w.purchasingItemBits - w.materialStatus == {t} ==>
              AcceptItem(w, t).remainingProductionTime == Config(w).workCycle
    ensures w.purchasingItemBits - w.materialStatus != {t} ==> !ItemAcceptable(AcceptItem(w, t), t)
  {
    var m := w.materialStatus + {t};
    if w.purchasingItemBits - w.materialStatus == {t} {
      assert m == w.purchasingItemBits;
    } else {
      assert m != w.purchasingItemBits;
      assert t in AcceptItem(w, t).materialStatus;
    }
  }

  /** A loaded robot that can deposit its item here can do so again right
      after depositing exactly when its item was the last missing input: the
      cycle then restarts with no inputs, otherwise the item is already in. */
  lemma DepositThenInteractable(w: Worktop, r: Robot)
    requires MaterialWithinRecipe(w)
    requires r.carryingItemType != 0 && Interactable(w, r)
    ensures Interactable(AcceptItem(w, r.carryingItemType), r)
            <==> w.purchasingItemBits - w.materialStatus == {r.carryingItemType}
  {
    var t := r.carryingItemType;
    DepositCompletesCycle(w, t);
    if w.purchasingItemBits - w.materialStatus == {t} {
      assert t in AcceptItem(w, t).purchasingItemBits;
    }
  }

  /** A robot takes the output. The cycle restarts if the inputs are already
      complete. */
  function WorktopSellItem(w: Worktop): (w': Worktop)
    ensures !w'.productionStatus
    ensures w'.position == w.position && w'.kind == w.kind
    ensures w'.purchasingItemBits == w.purchasingItemBits && w'.producingItemType == w.producingItemType
    ensures w.materialStatus == w.purchasingItemBits ==>
              w'.remainingProductionTime == Config(w).workCycle && w'.materialStatus == {}
    ensures w.materialStatus != w.purchasingItemBits ==>
              w'.remainingProductionTime == w.remainingProductionTime && w'.materialStatus == w.materialStatus
  {
    var w1 := w.(productionStatus := false);
    if w1.materialStatus == w1.purchasingItemBits then
      w1.(remainingProductionTime := Config(w).workCycle, materialStatus := {})
    else
      w1
  }

  /** Advance one station by `frames` frames, in three steps: count the timer
      down (stopping at 0, leaving -1 alone); a finished timer fills an empty
      output slot and goes idle; a station whose inputs equal its requirement
      and whose output slot is empty (re)starts its cycle. */
  function AdvanceStation(w: Worktop, frames: int): (w': Worktop)
    // only the timer and the output slot change
    ensures w'.position == w.position && w'.kind == w.kind
    ensures w'.materialStatus == w.materialStatus && w'.purchasingItemBits == w.purchasingItemBits
    ensures w'.producingItemType == w.producingItemType
    // the output is ready afterwards iff it was, or a running timer ran out
    ensures w'.productionStatus <==>
              w.productionStatus || (w.remainingProductionTime != -1 && w.remainingProductionTime <= frames)
    // restart rule
    ensures w.materialStatus == w.purchasingItemBits && !w'.productionStatus ==>
              w'.remainingProductionTime == Config(w).workCycle
    // countdown, when the restart rule does not apply
    ensures !(w.materialStatus == w.purchasingItemBits && !w'.productionStatus) ==>
              if w.remainingProductionTime > frames then
                w'.remainingProductionTime == w.remainingProductionTime - frames
              else if w.remainingProductionTime == -1 then
                w'.remainingProductionTime == -1
              else
                w'.remainingProductionTime == (if w.productionStatus then 0 else -1)
  {
    var t1 :=
      if w.remainingProductionTime > frames then w.remainingProductionTime - frames
      else if w.remainingProductionTime != -1 then 0
      else w.remainingProductionTime;
    var w1 := w.(remainingProductionTime := t1);
    var w2 :=
      if w1.remainingProductionTime == 0 && !w1.productionStatus then
        w1.(productionStatus := true, remainingProductionTime := -1)
      else w1;
    if w2.materialStatus == w2.purchasingItemBits && !w2.productionStatus then
      w2.(remainingProductionTime := Config(w2).workCycle)
    else
      w2
  }

  /** Taking the output keeps the deposited inputs within the recipe. */
  lemma SellKeepsRecipe(w: Worktop)
    requires MaterialWithinRecipe(w)
    ensures MaterialWithinRecipe(WorktopSellItem(w))
  {
  }

  /** Advancing the clock keeps the deposited inputs within the recipe. */
  lemma AdvanceKeepsRecipe(w: Worktop, frames: int)
    requires MaterialWithinRecipe(w)
    ensures MaterialWithinRecipe(AdvanceStation(w, frames))
  {
  }

  /** A raw-material station (no inputs) that is still counting down and has no
      output is put back to a full cycle by any advance shorter than its
      timer: the restart rule overrides the countdown. */
  lemma RawStationTimerRestarts(w: Worktop, frames: int)
    requires w.purchasingItemBits == {} && w.materialStatus == {}
    requires !w.productionStatus && w.remainingProductionTime > frames
    ensures AdvanceStation(w, frames).remainingProductionTime == Config(w).workCycle
    ensures !AdvanceStation(w, frames).productionStatus
  {
  }

  /** A fresh kind-1 station: an advance of 50 frames makes its output ready,
      an advance of 49 does not. */
  lemma KindOneReadyAfterFiftyFrames(p: Point)
    ensures AdvanceStation(NewWorktop(p, 1), 50).productionStatus
    ensures AdvanceStation(NewWorktop(p, 1), 50).remainingProductionTime == -1
    ensures !AdvanceStation(NewWorktop(p, 1), 49).productionStatus
  {
  }
}
