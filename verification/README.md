# Decision layer of a CodeCraft 2023 robot client, in Dafny

This project models the decision core of a client for the CodeCraft 2023
robot-and-factory game. Robots carry items between stations ("worktops").
Each station buys inputs and produces an output on a timer. Every frame the
client decides where each robot goes. The model covers:

- **Stations and robots** (`entities.dfy`, `catalog.dfy`). These are the item
  and station tables, and the station rules: recipe bitmask at construction,
  `ItemAcceptable`, `Interactable`, deposit, pick-up and the frame-advance
  timer. Bitmasks are sets of bit positions.
- **The game snapshot** (`game.dfy`). This covers advancing every station,
  and the integer money bookkeeping of a trade: a sell half, then a buy half.
  It also covers moving a robot onto a station, and appending loaded entities.
- **The depth-0 look-ahead scorer** (`scoring.dfy`, `geometry.dfy`,
  `settings.dfy`). This covers the angle wrap, the terminal valuation
  `Estimate`, the frame-cost estimate, and one score per station computed on a
  private copy of the snapshot.
- **The task assigner** (`assignment.dfy`). It keeps a pool of unclaimed
  station indices and a robot-to-station claim map. A robot gets the best
  unclaimed station. The source finds it with a stable descending insertion
  sort on an array, then walks the sorted indices. The model proves that this
  gives the same answer as a reference definition ("best score, lowest index
  on ties").
- **The per-robot controller** (`control.dfy`). This is the Assign / Pathfind
  / Avoid state machine: event reactions, instruction emission and the
  steering law's branch structure. A fleet invariant is proved: every
  Pathfind controller claims exactly its target, no Assign controller holds a
  claim, and the pool is conserved.
- **The fleet controller** (`dispatch.dfy`). Controllers update in index
  order, threading the assigner through. The output step drains every cache
  in controller order, and each instruction is rendered as a command line.
- **The map reader** (`mapload.dfy`). Grid characters become robots and
  stations at half-metre cell centres, in row-major order, up to the first
  "OK" line.

`sqrt` and `atan2` are fields of a `MathOracle` value passed in as a
parameter. The model assumes only that `sqrt` is non-negative with
`sqrt(0) = 0`, and that `atan2` lies in [-pi, pi]. Doubles are modelled by
reals. The `(int)` casts truncate toward zero (`GameState.TruncToInt`). The
stdin/stdout protocol is not modelled. The map reader takes its lines as a
sequence of strings. The global game and controller objects become explicit
parameters and results. The assigner, which the source hangs off the game,
is passed separately.

Consequences of the code as written, which the model follows:

- **A sale credits nothing.** The price is read after the robot has dropped
  its item.
- **The buy test is strict.** The robot buys only when money is greater than
  the price, not equal to it.
- **`TaskOver` is not a no-op for a robot without a claim.** The map lookup
  default-inserts 0, so releasing a robot that holds no claim puts station 0
  back in the pool (`Assignment.TaskOverWithoutClaimBreaksPool`).
- **Farther stations score higher when the robot cannot interact with them.**
  The distance is added to the penalty, so among such stations the farthest
  scores highest (`Scoring.FartherUninteractableScoresHigher`).
- **The restart rule also fires for raw-material stations.** It resets their
  running timer (`Entities.RawStationTimerRestarts`).
- **Sink stations 8 and 9 "sell" item 0.** A robot buying there ends up
  carrying nothing (`GameState.SinkTradeBuysNothing`).

## Model

| member | source | states |
|---|---|---|
| Catalog.ItemTypeOf | src/Structure.hpp:37-45 | an item kind is in the table exactly when it is 1..7 |
| Catalog.TablesConsistent | src/Structure.hpp:37-67 | a producing station buys exactly its product's recipe; cycles are positive; kinds 1-3 buy nothing; sinks 8 and 9 produce item 0 |
| Entities.NewRobot | src/Structure.hpp:132-151 | a loaded robot stands at its cell, at no station, empty-handed, with both coefficients 1, at rest (palstance 0, velocity (0, 0)) and heading 0 |
| Entities.RobotItemPrice | src/Structure.hpp:153-164 | value is 0 when empty-handed or the kind is unknown; otherwise time coefficient × collision coefficient × selling price |
| Entities.ItemPriceBounds | src/Structure.hpp:153-164 | with coefficients in [0,1] the value lies between 0 and the base selling price |
| Entities.RobotSellItem | src/Structure.hpp:166-168 | the robot ends empty-handed; nothing else changes |
| Entities.RobotBuyItem | src/Structure.hpp:170-174 | the robot carries the item, with both coefficients reset to 1; every other field is unchanged |
| Entities.FreshItemFullValue | src/Structure.hpp:153-174 | right after a purchase the carried item is valued at its full selling price |
| Entities.Radius | src/Structure.hpp:180-186 | the radius is positive |
| Entities.Weight | src/Structure.hpp:192-194 | the mass is positive |
| Entities.J | src/Structure.hpp:200-202 | the moment of inertia is positive |
| Entities.HeavierWhenLoaded | src/Structure.hpp:180-202 | a loaded robot has a larger radius, mass and moment of inertia than an empty-handed one |
| Entities.AngularAcceleration | src/Structure.hpp:180-210 | angular acceleration is positive |
| Entities.Acceleration | src/Structure.hpp:188-218 | linear acceleration is positive |
| Entities.RecipeBits | src/Structure.hpp:295-297 | bit i is set exactly when i is in the recipe |
| Entities.NewWorktop | src/Structure.hpp:293-302 | the recipe mask is the kind's inputs; kinds 1-3 start with timer 50 and others with -1; no material and no product |
| Entities.WorktopItemPrice | src/Structure.hpp:304-310 | the output's purchase price is taken from the item table, and is 0 for item 0 |
| Entities.ItemAcceptable | src/Structure.hpp:316-319 | a station buys item t when t is not 0, is among its inputs and is not yet deposited this cycle |
| Entities.Interactable | src/Structure.hpp:341-345 | a robot can trade when it is empty-handed and an output is ready, or when the station accepts its item |
| Entities.InteractableCases | src/Structure.hpp:341-345 | an empty-handed robot is interactable iff an output is ready; a loaded robot iff its item is acceptable, whatever the output flag |
| Entities.FreshStationAccepts | src/Structure.hpp:316-319 | a freshly loaded station accepts exactly its kind's recipe items; kinds 1-3 accept nothing |
| Entities.AcceptItem | src/Structure.hpp:325-331 | the bit is set; a complete (or empty) recipe restarts the cycle and clears the material; otherwise the timer is unchanged |
| Entities.DepositCompletesCycle | src/Structure.hpp:316-331 | an acceptable deposit keeps the material within the recipe; the cycle starts iff t was the last missing input; otherwise t is no longer acceptable |
| Entities.DepositThenInteractable | src/Structure.hpp:325-345 | after depositing its item, a loaded robot is still interactable iff that item was the last missing input |
| Entities.WorktopSellItem | src/Structure.hpp:333-339 | the product is taken; with complete material the cycle restarts, and otherwise timer and material are unchanged |
| Entities.SellKeepsRecipe | src/Structure.hpp:333-339 | taking the output keeps the deposited inputs within the recipe |
| Entities.AdvanceStation | src/Structure.hpp:491-511 | the countdown subtracts f, clamps at 0 and leaves -1 alone; the product becomes ready iff it was or a running timer reached 0; the restart rule sets the work cycle; position, kind and material never change |
| Entities.AdvanceKeepsRecipe | src/Structure.hpp:491-511 | advancing the clock keeps the deposited inputs within the recipe |
| Entities.RawStationTimerRestarts | src/Structure.hpp:505-509 | a kind 1-3 station still counting down is reset to its full cycle |
| Entities.KindOneReadyAfterFiftyFrames | src/Structure.hpp:491-504 | a fresh kind-1 station is ready after 50 frames and not after 49 |
| GameState.TruncToInt | src/Structure.hpp:525-530 | the (int) cast truncates toward zero |
| GameState.UpdateWorktops | src/Structure.hpp:491-511 | every station advances on its own; robots, money and frame are unchanged |
| GameState.SellHalf | src/Structure.hpp:522-526 | if the item is acceptable, the station takes it and the robot drops it, with money unchanged; otherwise nothing happens |
| GameState.BuyHalf | src/Structure.hpp:527-531 | if the product is ready, money > price and the robot is empty-handed, the robot takes the product, money drops by exactly the integer price and stays positive; otherwise nothing happens |
| GameState.TryDoTrade | src/Structure.hpp:519-532 | only the trading robot, the station and the money change; positions and the robot's station id stay |
| GameState.TradeOutcome | src/Structure.hpp:519-532 | combined effect: sale iff acceptable; purchase iff ready, money > price and empty-handed after the sale; both may fire; neither leaves the game unchanged |
| GameState.SinkTradeBuysNothing | src/Structure.hpp:527-531 | buying at a sink leaves the robot empty-handed and the money unchanged |
| GameState.MoveRobotTo | src/Structure.hpp:534-539 | the robot faces the station's bearing and stands on it; cargo and other robots are unchanged |
| GameState.ApplySelection | src/Structure.hpp:534-541 | the result is trading in place, then putting the robot on the station, turned to the bearing from its old position; coefficients, cargo and every other field come from the trade, and the clock and other robots are unchanged |
| GameState.LoadRobot | src/Structure.hpp:552-554 | exactly one robot is added, last, as a fresh robot at p; earlier robots and all stations are unchanged |
| GameState.LoadWorktop | src/Structure.hpp:566-568 | exactly one station is added, last, as a fresh station of the kind at p; earlier stations and all robots are unchanged |
| Geometry.Distance | src/Algorithm.hpp:19-21 | distance is non-negative and 0 between equal points |
| Geometry.Direction | src/Algorithm.hpp:54-56 | the bearing is the orientation of p1→p2 and lies in [-pi, pi] |
| Geometry.AngleDiff | src/Algorithm.hpp:61-71 | the result is a1-a2 shifted by 0 or ±2pi; it is unchanged when already within pi; its magnitude never grows; inputs in [-pi,pi] give a result in [-pi,pi] |
| Scoring.RobotWorktopAngleDiff | src/Algorithm.hpp:79-91 | the inline wrap equals AngleDiff of the heading and the bearing to the station |
| Scoring.SumItemPricesUpdate | src/Algorithm.hpp:98-100 | replacing one robot changes the sum by the difference of the item values |
| Scoring.SumItemPricesBounds | src/Algorithm.hpp:98-100 | the sum is 0 when everyone is empty-handed, and non-negative with non-negative coefficients |
| Scoring.Estimate | src/Algorithm.hpp:94-107 | the result is money − frame·88.8 when everyone is empty-handed, and at least that with non-negative coefficients |
| Scoring.TradeEstimate | src/Algorithm.hpp:94-107 | a trade moves the valuation by the money moved plus the change in the robot's item value |
| Scoring.EstimateFrameCost | src/Algorithm.hpp:115-125 | frames ≥ 0, and frames is the whole part of travel time plus turning time |
| Scoring.Project | src/Algorithm.hpp:146-149 | on the copy, stations advance by the frame estimate and the clock moves by the same amount; money and robots are unchanged |
| Scoring.EstimateWorktops | src/Algorithm.hpp:141-165 | there is one score per station, in order; entry i depends only on the input snapshot and station i |
| Scoring.ScoreStation | src/Algorithm.hpp:146-163 | the score of one station at search depth 0; its two branches are stated by ScoreWhenInteractable and ScoreWhenNotInteractable |
| Scoring.SelectionEstimate | src/Algorithm.hpp:152-158 | moving and trading changes the valuation by the money moved and the item-value change |
| Scoring.ScoreWhenInteractable | src/Algorithm.hpp:147-159 | an interactable station scores the Estimate of the projected copy after ApplySelection; that copy's clock has advanced by the frame estimate |
| Scoring.ScoreWhenNotInteractable | src/Algorithm.hpp:161-163 | the score is the fixed penalty plus the distance, below −100,000,000 + distance |
| Scoring.FartherUninteractableScoresHigher | src/Algorithm.hpp:161-163 | among uninteractable stations the farther one scores higher |
| Assignment.Init | src/Structure.hpp:638-643 | the pool is exactly {0..n-1} |
| Assignment.InsertRanked | src/Structure.hpp:405-415 | inserting t behind every entry that scores at least as much keeps the sequence ranked and a permutation |
| Assignment.GetSortedIndex | src/Structure.hpp:399-417 | the result is a permutation of 0..n-1 in non-increasing score order, with equal scores in increasing index order |
| Assignment.RankedDistinct | src/Structure.hpp:399-417 | a ranked index sequence has no duplicates |
| Assignment.BestIn | src/Structure.hpp:438-448 | the result is -1 iff no station is in the pool; otherwise it is the unique pool member ahead of all others |
| Assignment.BestUnique | src/Structure.hpp:438-446 | the best pool member is unique |
| Assignment.PickTask | src/Structure.hpp:438-448 | claims the best unclaimed station, removes only it and returns its score; with none it returns {0.0, -1} and changes nothing |
| Assignment.AssignFromScores | src/Structure.hpp:428-448 | sort-and-walk agrees with the reference choice PickTask |
| Assignment.AssignTask | src/Structure.hpp:398-449 | scoring, sorting and walking agree with PickTask on the robot's scores |
| Assignment.TaskOver | src/Structure.hpp:455-458 | the claim is erased and the claimed station returns to the pool; without a claim, station 0 returns |
| Assignment.PoolConservation | src/Structure.hpp:438-458 | under the pool invariant, pool size + claim count = n |
| Assignment.InitEstablishesPool | src/Structure.hpp:638-643 | after Init with no claims the pool invariant holds |
| Assignment.PickTaskPreservesPool | src/Structure.hpp:438-446 | claiming keeps the pool invariant for a robot without a claim |
| Assignment.TaskOverPreservesPool | src/Structure.hpp:455-458 | releasing keeps the pool invariant for a robot with a claim |
| Assignment.ClaimThenRelease | src/Structure.hpp:438-458 | releasing right after claiming restores the assigner exactly |
| Assignment.TaskOverWithoutClaimBreaksPool | src/Structure.hpp:455-457 | releasing an unclaimed robot breaks the invariant while another robot holds station 0 |
| Control.NewController | src/RobotControl.hpp:173-177 | a new controller is in Assign, with target -1 and an empty cache |
| Control.TerminateTask | src/RobotControl.hpp:290-293 | the target becomes -1 and state and cache are kept; the robot loses its claim, other robots keep theirs, and the pool gains exactly the released station |
| Control.AbandonItem | src/RobotControl.hpp:257-265 | one destroy instruction is emitted iff the robot carries an item |
| Control.TradeInstructions | src/RobotControl.hpp:318-341 | [buy] when empty-handed, [sell, buy] when the target accepts the item, otherwise nothing |
| Control.Guide | src/RobotControl.hpp:219-255 | speed is in [0, 6]; the turn is toward the target; a heading error over pi/3 gives speed 0 and turn ±pi; at the target the speed is 0 |
| Control.HeadingMatchesScorer | src/RobotControl.hpp:219-223 | the steering heading error equals the scorer's robot-to-station angle |
| Control.ContinueMoving | src/RobotControl.hpp:244-254 | exactly one rotate then one forward instruction is appended, carrying the Guide values |
| Control.NotStucked | src/RobotControl.hpp:351-359 | some station of the snapshot is interactable for the robot |
| Control.StuckCases | src/RobotControl.hpp:351-359 | an empty-handed robot is not stuck iff some station has an output ready; a loaded one iff some station accepts its item |
| Control.Marginal | src/RobotControl.hpp:381-382 | the time coefficient lies strictly between 0.79 and the threshold 0.90 |
| Control.React | src/RobotControl.hpp:404-458 | the reaction table keeps the robot index; nothing leaves Avoid or enters it |
| Control.Update | src/RobotControl.hpp:367-433 | one frame of one controller keeps its robot index |
| Control.AssignNoTask | src/RobotControl.hpp:374-377 | with no unclaimed station, controller and assigner are unchanged |
| Control.AssignMarginal | src/RobotControl.hpp:381-387 | with a marginal coefficient the assigner is restored, target is -1, state stays Assign, and one destroy is emitted iff carrying |
| Control.AssignAccept | src/RobotControl.hpp:389-407 | otherwise the best unclaimed station becomes the target and is claimed, and the state is Pathfind |
| Control.PathfindArrived | src/RobotControl.hpp:420-421 | at the target: trade instructions are emitted, the claim is released, target is -1, state is Assign |
| Control.PathfindMoving | src/RobotControl.hpp:425-431 | rotate then forward are emitted; it abandons (release, destroy if carrying, Assign) exactly when stuck below the threshold |
| Control.NoTransitionToAvoid | src/RobotControl.hpp:361-364 | no reaction or update enters Avoid |
| Control.BlockedKeepsPathfind | src/RobotControl.hpp:441-444 | Blocked releases the task but stays in Pathfind, leaving a controller without a target that is no longer Ready |
| Control.UpdatePreservesSysInv | src/RobotControl.hpp:367-458 | one controller's update keeps the fleet invariant (claims match Pathfind targets, pool conserved) |
| Control.InitialSysInv | src/RobotControl.hpp:173-177 | fresh controllers and a fresh pool satisfy the fleet invariant |
| Dispatch.InitControllers | src/RobotControl.hpp:480-484 | controller i is a fresh controller for robot i |
| Dispatch.UpdateFrom | src/RobotControl.hpp:489-495 | the sweep in index order keeps the fleet invariant and the fleet size |
| Dispatch.UpdateAll | src/RobotControl.hpp:489-495 | a full frame keeps the fleet invariant |
| Dispatch.InitialFleet | src/RobotControl.hpp:480-484 | the fleet invariant holds right after Init |
| Dispatch.PendingContents | src/RobotControl.hpp:503-507 | an instruction is pending iff it is in some controller's cache |
| Dispatch.GetOutput | src/RobotControl.hpp:501-513 | output is all caches concatenated in controller order, and every cache is emptied |
| Dispatch.DrainedIsEmpty | src/RobotControl.hpp:503-507 | after draining, a second flush yields nothing |
| Dispatch.CommandWordRoundTrip | src/RobotControl.hpp:135-154 | every command word reads back as its command |
| Dispatch.Render | src/RobotControl.hpp:133-161 | a line names the command and the robot, and has a value iff the command is forward or rotate |
| Dispatch.RenderRoundTrip | src/RobotControl.hpp:133-161 | a rendered line determines the instruction |
| Dispatch.RenderAll | src/RobotControl.hpp:508-511 | one line per instruction, in order |
| MapLoader.Classify | src/main.cpp:48-83 | 'A' is a robot, '1'..'9' a station of that kind, anything else is nothing |
| MapLoader.CellPoint | src/main.cpp:52-53 | the cell centre is (0.25 + 0.5·col, 49.75 − 0.5·row) |
| MapLoader.CellPointInjective | src/main.cpp:52-53 | distinct cells have distinct centres |
| MapLoader.CStrLen | src/main.cpp:47 | the columns scanned are those before the first NUL |
| MapLoader.FirstOK | src/main.cpp:42-46 | index of the first "OK" line, or the line count |
| MapLoader.RowMajorOrder | src/main.cpp:42-85 | a cell earlier in row-major order gets a smaller entity index |
| MapLoader.PlaceCell | src/main.cpp:48-83 | one character appends at most one entity, as Classify says |
| MapLoader.LoadRow | src/main.cpp:47-84 | one entity per robot or station character, in column order, at the index given by how many such characters come before it |
| MapLoader.LoadMap | src/main.cpp:38-87 | returns true iff an "OK" line exists; exactly the lines before it are placed, each robot and station at its row-major count; row numbers equal line indices |

## Left out

- Stdin/stdout protocol: `readUntilOK`, `LoadFrame`, the main loop and the `Refresh*` setters. This is input/output plumbing.
- `fgets` buffering: a line longer than 1024 characters would be split into several rows. The model takes whole lines.
- `Robot::PredictPosition`: it integrates with cos/sin and nothing calls it.
- The recursive look-ahead (`depth < SEARCH_DEPTH`): with search depth 0 it is never taken. As written, it dereferences an end iterator.
- Debug printing, `Sleep`, the `ostream` printers, and the decimal formatting of doubles in `Instruction::ToString`. Render keeps the number as a value.
- Floating point: rounding, NaN and infinities are not modelled. Reals stand in for doubles.
- Integer overflow of `money` and of the bit shifts: the model uses unbounded integers and sets of bit positions.
- Entities.Radius: only positivity is stated; the two radius constants are in the body, and HeavierWhenLoaded states their order.
- Entities.Weight: only positivity is stated, not the formula pi·r²·density.
- Entities.J: only positivity is stated, not the moment-of-inertia formula.
- Entities.AngularAcceleration: only positivity is stated, not moment / J.
- Entities.Acceleration: only positivity is stated, not force / weight.
- Geometry.Distance: only non-negativity, and 0 for equal points. The value comes from an uninterpreted `sqrt`.
- Control.Guide: the square-root shaping of the turn rate and the braking-distance speed are stated only through their signs and bounds, not their exact values. With `PALSTANCE_THRESHOLD = 0` the unshaped branch only ever sees a product of 0; for a positive threshold it would turn the wrong way for negative errors.
- Control.Update: the obstacle test `Blocked()` always answers false, so the Pathfind "blocked" branch is not modelled. The Blocked reaction itself is modelled in React. If that branch were ever taken, it would leave a Pathfind controller with target -1, whose next update reads station -1 (Control.BlockedKeepsPathfind states that this state is not Ready).
- The Avoid state's `Update` and `React(Unblocked)` are empty stubs, modelled as no-ops.
