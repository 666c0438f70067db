# Wildfire simulator rule engine in Dafny

This project models the discrete rule engine of a cellular wildfire
simulator written in C++. The model covers these parts:

- **Cell combustion** (`cell.dfy`, module `Cells`). Each cell has one of the
  states Empty, Fuel, Burning and Burned, and one of the fuel types Grass,
  Shrub, Tree, Water and Rock. The module covers ignition, burning down over
  time, the clamped ignition probability and the display character.
- **Suppression deposits** (`suppression.dfy`, module `Suppression`). A
  deposit holds a water level, a retardant level, a remaining time and a
  permanent firebreak flag. The module covers the combined suppression
  modifier, the max-merge of a new deposit and the decay over time.
- **The grid** (`lattice.dfy`, module `Lattice`). This covers:
  - bounds and the 8-neighbourhood;
  - the spread probability between neighbours;
  - disc-shaped water and retardant drops;
  - the firebreak line;
  - the patterned terrain.
- **The firebreak walk** (`bresenham.dfy`, module `Bresenham`). This is the
  integer line walk both firebreak operations use. It keeps the walk's
  error term and doubled extents.
- **The two-phase tick**:
  - Phase 1 (`tick.dfy`, module `Spread`) reads a snapshot of the grid. It
    draws one sample per (burning cell, burnable neighbour) edge in scan
    order and builds the will-ignite mask.
  - Phase 2 (`advance.dfy`, module `Advance`) works cell by cell. It
    ignites the marked cells, advances every cell and decays every deposit.
    A burning cell under strong suppression is put out by a second stream
    of samples, which are consumed in scan order.
- **Firefighting crews** (`crew.dfy`, module `Crews`). This covers crew
  profiles, fatigue and its availability hysteresis, tank use, refilling
  and resting.
- **The human-factors manager** (`humanfactors.dfy`, module `HumanFactors`).
  This covers the crew roster with sequential ids, the budget, suppression
  orders, the crew map overlay and evacuation zones.
- **The simulation driver** (`simulation.dfy`, module `Simulation`). This
  covers start, stop, reset and step, the statistics pass, the burn
  percentage, the scenario fills and the rock-only firebreak.

How the model represents the source:

- Doubles are modelled as `real`, and the source's `int` fields as `int`.
  Integer arithmetic is exact. The 32-bit wrap-around of the evacuation
  count is also modelled as written, and is described under Findings; the
  other `int` overflows, which need coordinates or radii near 2^15 or 2^30,
  are listed under Left out.
- The source draws random numbers from two static generators inside the
  grid update, one for spreading and one for extinguishing. Here the draws
  are explicit input sequences, consumed in the source's scan order.
- The wind factor's `atan2`/`cos` is a caller-supplied cosine per neighbour
  direction (`WindField`).
- The drops' `1 - sqrt(d2)/r` distance factor is a caller-supplied function
  of the squared distance. The source's `sqrt(d2) <= r` test is the
  integer test `d2 <= r*r` inside the same scanning box.
- Every operation returns a new value instead of mutating in place. The
  loops of the source are kept as methods with loop invariants where they
  carry the algorithm: the statistics pass, the drop scan and the firebreak
  walk.

Behaviour of the source worth knowing before reading the model:

- **Wind direction.** The header comment says a wind direction of 90
  degrees points east. The code compares it with `atan2(dy, dx)` of the
  spread direction, which measures from the +x axis. So 90 degrees
  strengthens spread towards +y, which is the next row down. The model
  takes the cosine as an input, so either reading can be supplied.
- **Extinguish draws.** Only a burning cell whose decayed suppression
  modifier exceeds 0.5 takes an extinguish draw (src/Grid.cpp:218-229);
  other cells consume no sample. A draw below modifier × dt × 2 puts the
  fire out. `Advance.ExtinguishNeedsSuppression` and
  `Advance.SuppressionExtinguishes` state the two directions.
- **Firebreak deposits.** Cutting a firebreak only sets the firebreak
  flag and replaces the cell (src/Grid.cpp:290-293). Water, retardant and the remaining time are
  kept, and `Lattice.CreateFirebreak` states that.
- **Extinguished cells.** Phase 2 extinguishes a cell by setting its state
  only (src/Grid.cpp:226). The burn time, temperature and density stay as
  they were, and `Advance.Extinguish` keeps this.
- **Burning temperature.** Ignition sets the temperature to 300
  (src/Cell.cpp:20), but the update formula `300·(1 − progress) + 20` starts from 320
  (src/Cell.cpp:43-45). So an update shorter than a fifteenth of the burn
  duration leaves a newly ignited cell hotter than ignition made it. The
  model follows the code: `Cells.IgnitedCellWarms` states the rise, and
  `Cells.BurningCools` states that the temperature falls from the first
  update on.
- **Refused orders.** A suppression order whose cost the budget refuses
  still drains the crew that was asked (src/FirefightingCrew.cpp:199-218).
  Since the price depends only on the kind of order, the first eligible
  crew decides: either it is granted, or every eligible crew is drained and
  the order is refused. `HumanFactors.OrderGrantsFirstEligible` and
  `HumanFactors.OrderRefusedIff` state both cases, and
  `HumanFactors.RefusedOrderStillDrainsCrew` shows a concrete one.

## Model

| member | source | states |
|---|---|---|
| Cells.NewCell | src/Cell.cpp:5-14 | Water and Rock cells are built Empty with density 0. Every other type is built as Fuel with the given density. All start at 20 degrees with burn time 0 and the given moisture. |
| Cells.CanBurn | src/Cell.cpp:56-61 | The definition of a burnable cell: Fuel state, a flammable type and density above 0.1. Its properties are stated by Cells.NewCellCanBurn, Cells.IgniteChangesIffCanBurn and Cells.IgnitionProbability. |
| Cells.NewCellCanBurn | src/Cell.cpp:56-61 | A freshly built cell can burn exactly when its type is neither Water nor Rock and its density exceeds 0.1. |
| Cells.Ignite | src/Cell.cpp:16-22 | A burnable cell becomes Burning with burn time 0 and temperature 300, keeping type, density and moisture. A cell that cannot burn is returned unchanged. |
| Cells.IgniteChangesIffCanBurn | src/Cell.cpp:16-22 | Ignition changes a cell if and only if the cell can burn. |
| Cells.Update | src/Cell.cpp:24-54 | Update leaves a non-burning cell unchanged. A burning cell's burn time grows by exactly dt and its type and moisture are kept. It becomes Burned exactly when the burn time reaches base × density × (1 + moisture), and then has temperature 20 and density 0. Otherwise it stays Burning with its density, and its temperature is 300·(1 − burn time / duration) + 20. |
| Cells.BurningCools | src/Cell.cpp:24-52 | For non-negative steps, a cell that stays burning after an update has a temperature above 20 and at most 320, and a further update that leaves it burning never raises that temperature. |
| Cells.IgnitedCellWarms | src/Cell.cpp:16-45 | A cell ignited at 300 degrees and updated by less than a fifteenth of its burn duration is still burning and hotter than 300. |
| Cells.BurnedIsAbsorbing | src/Cell.cpp:16-25 | Neither ignition nor an update changes a Burned cell. |
| Cells.StillBurning | src/Cell.cpp:24-52 | A cell ignited at burn time 0 and updated n times by dt > 0 is still burning while n·dt is below its burn duration. Its burn time is then n·dt, and its fuel is untouched. |
| Cells.BurnsOutAtDuration | src/Cell.cpp:29-52 | The first update that takes the burn time to the burn duration burns the cell out, at 20 degrees with density 0. |
| Cells.GrassBurnsOutOnThirtiethUpdate | src/Cell.cpp:29-52 | Grass with density 1 and moisture 0, ignited and updated with dt 1, is still Burning after 29 updates and Burned after the 30th. |
| Cells.Clamp01 | src/Cell.cpp:84 | The clamp always lies in [0,1] and is the identity on [0,1]. |
| Cells.IgnitionProbability | src/Cell.cpp:63-85 | The ignition probability lies in [0,1]. It is 0 for any cell that cannot burn, so it is positive only for a burnable cell. |
| Cells.MoistureDampensIgnition | src/Cell.cpp:76-84 | Of two cells that differ only in moisture, the wetter one is no more likely to ignite. |
| Cells.DisplayChar | src/Cell.cpp:87-104 | The display character is always one of ~ # space . o T * x. |
| Cells.DisplayCharClassifiesState | src/Cell.cpp:87-104 | The character determines the state: ~, # or space iff Empty; ., o or T iff Fuel; * iff Burning; x iff Burned. |
| Suppression.Modifier | src/Grid.cpp:314-319 | The modifier is at most 1, is non-negative for non-negative levels and is 0 when both levels are 0. It equals 1 exactly when 0.8·water + 0.9·retardant reaches 1. |
| Suppression.ModifierNeedsEffect | src/Grid.cpp:307-319 | A position without water, retardant or firebreak never dampens spread, and a positive modifier implies some effect is present. |
| Suppression.Merge | src/Grid.cpp:246-249 | A deposit sets the matching level and the remaining time each to the larger of old and new, never their sum. The other level and the firebreak flag are unchanged. |
| Suppression.MergeIdempotent | src/Grid.cpp:246-249 | Applying the same deposit twice gives the same effect as applying it once. |
| Suppression.MergeMonotone | src/Grid.cpp:246-249 | A larger deposit never leaves a smaller level than a smaller deposit. |
| Suppression.Decay | src/Grid.cpp:208-215 | A running deposit counts down by dt. When its time runs out both levels become 0. An expired deposit is left as is, and the firebreak flag is never touched. |
| Suppression.DecayClears | src/Grid.cpp:208-215 | A deposit with remaining time t > 0, decayed n times by dt > 0 with n·dt ≥ t, has run out. Both levels are then 0 and the firebreak flag is as it was. |
| Suppression.DecayStaysCleared | src/Grid.cpp:209-215 | Once both levels are cleared and the time has run out, further decay changes nothing. |
| Bresenham.ErrorAfterXStep | src/Grid.cpp:297-299 | An x-step lowers the closed-form error dx(1+2j) − dy(1+2i) by the doubled y-extent, as the loop's update does. |
| Bresenham.ErrorAfterYStep | src/Grid.cpp:300-302 | A y-step raises the closed-form error by the doubled x-extent. |
| Bresenham.XDoneForcesYStep | src/Grid.cpp:297-302 | Once all x-steps are taken the error is negative, so the walk never overshoots in x. |
| Bresenham.YDoneForcesXStep | src/Grid.cpp:297-302 | Once all y-steps are taken the error is positive, so the walk never overshoots in y. |
| Bresenham.WalkShape | src/Grid.cpp:289-304 | The walk from any intermediate state visits one position per remaining step plus one. It ends at the target, and each step moves one coordinate by one towards the target. |
| Bresenham.LineShape | src/Grid.cpp:276-305 | The line has exactly abs(x2−x1)+abs(y2−y1)+1 positions. It starts at the start point and ends at the end point, every step moves one axis by one towards the target, and no position repeats. |
| Bresenham.WalkAtEnd | src/Grid.cpp:295 | With all steps taken the walk is just the target, where the loop stops. |
| Bresenham.PosAtIsEnd | src/Grid.cpp:295 | The walk's position equals the target exactly when all steps along both axes are taken. |
| Bresenham.PosAtStep | src/Grid.cpp:282-283 | An x-step moves x by the x increment and a y-step moves y by the y increment. |
| Bresenham.WalkAdvance | src/Grid.cpp:297-302 | The error sign picks the axis of the next step, and that step moves one position of the walk into the visited part. |
| Lattice.NewGrid | src/Grid.cpp:7-18 | A new grid has the requested size, and every cell is a default grass cell that can burn. There is no deposit anywhere, the wind is 5 at 90 degrees, the ambient temperature is 25 and the humidity is 0.4. |
| Lattice.IsValidPosition | src/Grid.cpp:20-22 | The definition of an on-grid position, 0 <= x < width and 0 <= y < height. Lattice.IgniteCell, Lattice.Neighbors and Lattice.SuppressionModifier state what the grid does on and off it. |
| Lattice.IgniteCell | src/Grid.cpp:85-89 | Off the grid nothing changes. On the grid only the cell at (x,y) changes, exactly as ignition does, and no deposit changes. |
| Lattice.OffsetsAreTheNeighbourhood | src/Grid.cpp:113-115 | The offsets scanned are exactly the nonzero offsets with both coordinates in -1..1. |
| Lattice.NeighborsAmongDistinct | src/Grid.cpp:113-124 | Filtering distinct offsets by bounds never produces a duplicate neighbour. |
| Lattice.NeighborsAmongFull | src/Grid.cpp:117-122 | When every offset lands on the grid, none is dropped. |
| Lattice.Neighbors | src/Grid.cpp:109-127 | The neighbour list holds exactly the in-bounds positions at Chebyshev distance 1, never the centre, with no duplicates. It has at most 8 entries, and exactly 8 for an interior cell. |
| Lattice.NeighborsSymmetric | src/Grid.cpp:109-127 | Neighbourhood on the grid is symmetric. |
| Lattice.SuppressionModifier | src/Grid.cpp:314-319 | The modifier is 0 off the grid and the deposit's modifier on it, at most 1, and non-negative for non-negative levels. |
| Lattice.HasSuppressionEffect | src/Grid.cpp:307-312 | This holds exactly for an on-grid position with water, retardant or a firebreak. Without any effect, the modifier is not positive. |
| Lattice.NeighbourDistance | src/Grid.cpp:157-158 | The distance to a neighbour is at least 1, so dividing by it never amplifies spread. |
| Lattice.SpreadProbability | src/Grid.cpp:129-169 | The probability lies in [0,1]. It is 0 when the source is not burning, when the target cannot burn, or when the target is a firebreak. |
| Lattice.WindFactorMonotone | src/Grid.cpp:151-154 | With a non-negative wind speed the wind factor is at least 1 and never falls as the direction turns into the wind. |
| Lattice.RawSpreadWindMonotone | src/Grid.cpp:143-166 | Before clamping, the spread rate never falls as the direction turns into a non-negative wind, when the source is at most 500 degrees below ambient. |
| Lattice.SpreadWindMonotone | src/Grid.cpp:146-154 | With non-negative wind speed, a direction better aligned with the wind never gets a smaller spread probability. |
| Lattice.SpreadIgnoresContraryWind | src/Grid.cpp:152-154 | Every direction whose wind cosine is not positive spreads at the windless rate. |
| Lattice.ScanStep | src/Grid.cpp:235-251 | One offset of the drop scan deposits at exactly that position, if it is on the grid and inside the disc, and nowhere else. |
| Lattice.DepositRow | src/Grid.cpp:236-251 | One row of the drop scan extends the deposited region by that whole row. |
| Lattice.Deposit | src/Grid.cpp:234-274 | After the full scan every on-grid position holds its max-merged deposit if it lies in the disc, and is unchanged otherwise. Cells and the grid frame are untouched. |
| Lattice.ApplyWaterDrop | src/Grid.cpp:234-253 | Inside the disc the water level and remaining time become the larger of old and new, so neither decreases. Retardant, the firebreak flag, every cell and everything outside the disc are unchanged. |
| Lattice.ApplyRetardant | src/Grid.cpp:255-274 | The same as the water drop, with the retardant level changing and the water level kept. |
| Lattice.RockCell | src/Grid.cpp:292 | The cell a firebreak leaves is an Empty Rock cell with density 0 that cannot burn. |
| Lattice.PaintAtExtends | src/Grid.cpp:290-293 | Painting one more position of the walk extends the painted region by exactly that position. |
| Lattice.PaintLine | src/Grid.cpp:276-305 | The walk takes exactly abs(x2−x1)+abs(y2−y1) steps and paints exactly the in-bounds positions of the line. |
| Lattice.CreateFirebreak | src/Grid.cpp:276-305 | Every in-bounds position on the line becomes an Empty Rock cell flagged as a firebreak, keeping its water, retardant and remaining time. Every other position is unchanged. The walk takes abs(x2−x1)+abs(y2−y1) steps. |
| Lattice.InitializeTerrain | src/Grid.cpp:55-83 | After terrain set-up a cell can burn exactly when it is off the two-cell-wide diagonal river. Nothing burns, and deposits are untouched. |
| Spread.Snap | src/Grid.cpp:176-182 | The phase-1 snapshot holds exactly the cells burning before the tick and exactly the cells burnable before the tick. |
| Spread.EdgesAlongConcat | src/Grid.cpp:181-194 | The edge list of a concatenated neighbour list is the concatenation of the edge lists. |
| Spread.NeighborEdges | src/Grid.cpp:179-194 | Walking the filtered neighbour list yields the same edges, in the same order, as walking the offsets directly. |
| Spread.CellEdgesFollowNeighbors | src/Grid.cpp:178-194 | The edges a burning cell draws for are its in-bounds neighbours that can burn, in neighbour order. |
| Spread.CellEdgesMembership | src/Grid.cpp:178-182 | A cell offers exactly the edges from itself, while burning, to an adjacent burnable cell. |
| Spread.RowEdgesMembership | src/Grid.cpp:177-196 | An edge is in a row's draws exactly when some scanned cell of that row offers it. |
| Spread.ScanEdgesMembership | src/Grid.cpp:176-197 | An edge is in the scan's draws exactly when some scanned cell offers it. |
| Spread.AllEdgesAreTheEdges | src/Grid.cpp:176-197 | Phase 1 draws for exactly the pairs of an in-bounds burning cell and an adjacent burnable cell, and for nothing else. |
| Spread.AllEdgesSound | src/Grid.cpp:176-197 | Every edge phase 1 draws for is an in-bounds burning cell next to a burnable cell. |
| Spread.AllEdgesComplete | src/Grid.cpp:176-197 | Every in-bounds burning cell next to a burnable cell gets a draw. |
| Spread.AllEdgesWithinBound | src/Grid.cpp:176-197 | Phase 1 draws at most once per neighbour offset of each cell, so at most eight draws per cell of the grid. |
| Spread.GridEdges | src/Grid.cpp:176-197 | Stated on the grid itself, the draws are exactly the adjacent on-grid pairs of a burning source and a burnable target. |
| Spread.Rate | src/Grid.cpp:183 | The rate used for a draw always lies in [0,1]. |
| Spread.MarksMembership | src/Grid.cpp:190-192 | A position is marked exactly when some edge into it drew a sample below rate × dt. |
| Spread.MarkedHasEdge | src/Grid.cpp:178-192 | Every marked position is the target of some phase-1 edge. |
| Spread.QuietTargetNeverMarked | src/Grid.cpp:190-192 | With non-negative draws, a target whose incoming rates are all 0, or any target when dt is 0, is never marked. |
| Spread.IgnitionNeedsBurningNeighbor | src/Grid.cpp:176-197 | A marked position is on the grid, could burn before the tick, and had a neighbour burning before the tick. Cells ignited during the tick never act as sources. |
| Spread.RateIntoFirebreak | src/Grid.cpp:137-141 | The spread rate into a firebreak is 0. |
| Spread.FirebreakNeverMarked | src/Grid.cpp:137-141 | With non-negative draws, a firebreak position is never marked. |
| Spread.NoIgnitionsWithoutTime | src/Grid.cpp:190 | With non-negative draws, a tick of length 0 marks nothing. |
| Spread.NoFireNoEdges | src/Grid.cpp:178 | Without a burning cell, phase 1 draws nothing. |
| Advance.Extinguish | src/Grid.cpp:225-227 | Extinguishing changes only the state, to Burned, exactly when the draw falls below modifier × dt × 2; otherwise the cell is returned unchanged. |
| Advance.StepCellStates | src/Grid.cpp:200-231 | Phase 2 leaves Empty and Burned cells as they are, and leaves fuel unchanged unless it was marked and could burn. A burning or newly ignited cell ends Burning or Burned. No cell drops in rank along Fuel, Burning, Burned, and the fuel type never changes. |
| Advance.ExtinguishNeedsSuppression | src/Grid.cpp:218-228 | A cell the update leaves burning ends Burned only if the decayed modifier exceeds 0.5 and its draw fell below modifier × dt × 2. |
| Advance.SuppressionExtinguishes | src/Grid.cpp:218-228 | Conversely, a cell the update leaves burning is put out when the decayed modifier exceeds 0.5 and its draw falls below modifier × dt × 2, and only its state changes. |
| Advance.NoSuppressionNoExtinguish | src/Grid.cpp:218-220 | Without water or retardant left after decay, a cell is exactly ignited-if-marked and updated. |
| Advance.RowCountGrows | src/Grid.cpp:221-225 | Counting earlier drawing cells is monotone along a row, and strictly so past a drawing cell. |
| Advance.ScanCountGrows | src/Grid.cpp:221-225 | The number of extinguish draws grows with the number of rows scanned. |
| Advance.RollIndexInRange | src/Grid.cpp:221-225 | A drawing cell's extinguish sample lies within the samples the whole scan consumes. |
| Advance.RollIndexOrdered | src/Grid.cpp:200-225 | Extinguish samples are consumed in row-major scan order, so no two cells share one. |
| Advance.AdvanceGrid | src/Grid.cpp:200-231 | The definition of phase 2 read position by position: each cell goes through ignite-if-marked, update and the extinguish roll on its own sample, each deposit decays, and the frame is kept. The properties of the step are stated by Advance.StepCellStates and the tick lemmas. |
| Advance.RollsWithinBound | src/Grid.cpp:199-229 | Phase 2 draws at most one extinguish sample per cell. |
| Advance.Tick | src/Grid.cpp:171-232 | One tick keeps the frame and decays every deposit by dt. It is the definition of a tick; Advance.TickNeverRegresses, Advance.TickIgnitionIsLocal, Advance.TickWithoutFire, Advance.TickFirebreakHolds and Advance.TickWithoutTime state what it does to the cells. |
| Advance.TickAt | src/Grid.cpp:171-232 | The definition of a tick read at one position: phase 2 applied with the mask of phase 1, and the deposit decayed. The tick lemmas below build on it. |
| Advance.TickNeverRegresses | src/Grid.cpp:171-232 | A tick leaves Empty and Burned cells untouched, and no cell drops in rank. |
| Advance.TickIgnitionIsLocal | src/Grid.cpp:176-205 | A fuel cell that a tick changes could burn and had a neighbour burning before the tick. |
| Advance.TickWithoutFire | src/Grid.cpp:171-232 | Without a burning cell a tick changes no cell. |
| Advance.TickFirebreakHolds | src/Grid.cpp:137-141 | With non-negative draws, a fuel cell under a firebreak is unchanged by a tick. |
| Advance.TickWithoutTime | src/Grid.cpp:190-205 | With non-negative draws, a tick of length 0 leaves every fuel cell unchanged. |
| Crews.ProfileOf | src/FirefightingCrew.cpp:12-37 | Every profile has positive water capacity, speed and effectiveness, and effectiveness is at most 0.9. Only air tankers and helicopters carry retardant, and only the air tanker reaches 0.9. |
| Crews.NewCrew | src/FirefightingCrew.cpp:7-41 | A new crew has its type's profile and full tanks, fatigue 0 and is available. It is well formed. |
| Crews.Tire | src/FirefightingCrew.cpp:48-49 | Added fatigue saturates at 1. It is exact below 1 and never lowers fatigue for a non-negative load. |
| Crews.CurrentEffectiveness | include/FirefightingCrew.h:55 | Fatigue-scaled effectiveness lies between 0 and the base effectiveness, and equals it when rested. |
| Crews.MoveTo | src/FirefightingCrew.cpp:43-50 | An off-duty crew ignores the order. An on-duty crew moves to the target, and only its position and fatigue change. Fatigue stays in [0,1] and does not fall. |
| Crews.DeployWater | src/FirefightingCrew.cpp:52-68 | The action carries 0.8 of the current effectiveness, 300 s and cost 500. At most 30% of the capacity is used, the tank never rises and never goes below 0, and only water and fatigue change. |
| Crews.DeployRetardant | src/FirefightingCrew.cpp:70-86 | The action carries 0.9 of the current effectiveness, 1800 s and cost 2000. At most 40% of the capacity is used, the tank never rises and never goes below 0, and only retardant and fatigue change. |
| Crews.CreateFirebreak | src/FirefightingCrew.cpp:88-102 | The action starts at the start point, with the Manhattan length as its radius. It carries 0.7 of the current effectiveness, has duration −1, the permanent marker, and costs 1000. Only fatigue changes. |
| Crews.Refill | src/FirefightingCrew.cpp:104-107 | Both tanks are filled to capacity and nothing else changes. |
| Crews.Rest | src/FirefightingCrew.cpp:109-112 | Rest lowers fatigue by 0.1 per time unit, never below 0, and changes nothing else. A long enough rest clears it. |
| Crews.Update | src/FirefightingCrew.cpp:114-123 | Fatigue rises by 0.01·dt up to 1. Above 0.8 the crew is off duty and below 0.3 it is on duty; in between its availability is kept. |
| Crews.OffDutyStaysOffWithoutRest | src/FirefightingCrew.cpp:114-123 | An off-duty crew at fatigue of at least 0.3 stays off duty however many updates pass. |
| Crews.RestThenUpdateRestores | src/FirefightingCrew.cpp:109-123 | A full rest followed by a short update puts any crew back on duty. |
| Crews.DeployableDropUsesAgent | src/FirefightingCrew.cpp:125-132 | A crew cleared for a drop actually dispenses a positive amount of the agent. |
| Crews.CanDeploy | src/FirefightingCrew.cpp:125-139 | The definition of a crew cleared for an order: on duty, and more than 10% of the tank for a drop, fatigue below 0.7 for a firebreak and below 0.5 for an evacuation. Crews.DeployableDropUsesAgent and Crews.NoTankNoRetardant state its consequences. |
| Crews.NoTankNoRetardant | src/FirefightingCrew.cpp:131-132 | A crew without a retardant tank is never cleared for a retardant drop. |
| HumanFactors.NewManager | src/FirefightingCrew.cpp:176-178 | A new manager has no crews or zones, has spent nothing and hands out id 1 next. |
| HumanFactors.AddCrew | src/FirefightingCrew.cpp:180-182 | A new crew joins at the end under the next id, which then grows by one. Ids stay sequential, and budget and zones are kept. |
| HumanFactors.AddedCrewsNumbered | src/FirefightingCrew.cpp:176-182 | Crews added to a fresh manager carry ids 1, 2, 3, ... in roster order, so they are strictly increasing. |
| HumanFactors.SpendBudget | src/FirefightingCrew.cpp:268-270 | The spent budget grows by exactly the amount and nothing else changes. |
| HumanFactors.CanAfford | src/FirefightingCrew.cpp:264-266 | The definition of an affordable cost: spent plus cost is at most the total. HumanFactors.AffordableSpendWithinBudget and HumanFactors.OrderRefusedIff state how spending and ordering depend on it. |
| HumanFactors.AffordableSpendWithinBudget | src/FirefightingCrew.cpp:264-270 | Spending an affordable cost never overspends. |
| HumanFactors.DeployCrewToLocation | src/FirefightingCrew.cpp:184-191 | Only an on-duty crew with the id may move. When none matches, the roster is unchanged. |
| HumanFactors.FirstEligibleMoves | src/FirefightingCrew.cpp:184-191 | The search stops at the first on-duty crew with the id: exactly that crew moves to the target, and every other crew is unchanged. |
| HumanFactors.UpdateCrews | src/FirefightingCrew.cpp:228-232 | Every crew is updated by dt and stays well formed. |
| HumanFactors.Dispatch | src/FirefightingCrew.cpp:199-213 | The action has the requested kind and a non-negative cost. An evacuation leaves the crew alone with cost and strength 0, and a firebreak is cut over abs(radius) cells. Identity and position are kept. |
| HumanFactors.OrderFrom | src/FirefightingCrew.cpp:195-220 | Crews before the scan point and ineligible crews are unchanged. A grant spends exactly the action's cost within the total, for some eligible crew. Without an eligible crew nothing changes. When a grant happens and which crews a refusal drains are stated by HumanFactors.OrderFromGranted, HumanFactors.OrderFromGrants and HumanFactors.OrderFromRefused. |
| HumanFactors.DispatchCostByKind | src/FirefightingCrew.cpp:60-96 | The price of an order depends only on its kind: 500 for water, 2000 for retardant, 1000 for a firebreak, the same for every crew. |
| HumanFactors.OrderFromGranted | src/FirefightingCrew.cpp:195-218 | When crew k is the first eligible crew from the scan point and the budget affords its action, the scan grants exactly that action, spends its cost, and changes crew k only. |
| HumanFactors.OrderFromGrants | src/FirefightingCrew.cpp:195-218 | If any eligible crew from the scan point has an affordable action, the scan ends in a grant. |
| HumanFactors.OrderFromRefused | src/FirefightingCrew.cpp:195-225 | When every eligible crew from the scan point is too dear, the scan refuses, spends nothing and leaves each eligible crew drained by its deployment. |
| HumanFactors.OrderRefusedIff | src/FirefightingCrew.cpp:193-226 | An order is refused exactly when every eligible crew's action costs more than the budget left, and a refused order leaves every eligible crew drained and every other crew unchanged. |
| HumanFactors.OrderSuppression | src/FirefightingCrew.cpp:193-226 | The spent budget grows by exactly the granted cost, which is non-negative, so a manager within budget stays within it. A refusal costs and is worth 0. Only crews with the id change. The order is refused exactly when every eligible crew is too dear, and then every eligible crew is still drained. |
| HumanFactors.OrderGrantsFirstEligible | src/FirefightingCrew.cpp:195-218 | The order goes to the first eligible crew when the budget affords its action: that crew deploys, the exact cost is spent, and no other crew changes. |
| HumanFactors.RefusedOrderStillDrainsCrew | src/FirefightingCrew.cpp:199-218 | Under a zero budget a ground crew is refused a water drop, yet its tank falls from 500 to 350 and its fatigue rises to 0.1. |
| HumanFactors.CrewLetter | src/FirefightingCrew.cpp:296-301 | A crew letter is never blank. |
| HumanFactors.CrewDisplayChar | src/FirefightingCrew.cpp:293-305 | The overlay is blank exactly when no crew stands at the position. Otherwise it is the letter of the first crew in the roster standing there. |
| HumanFactors.AddEvacuationZone | src/FirefightingCrew.cpp:234-246 | A new zone is appended with nobody evacuated and no order given. |
| HumanFactors.OrderEvacuation | src/FirefightingCrew.cpp:248-252 | An index off the list changes nothing. A valid index flags only that zone. |
| HumanFactors.Percent | src/FirefightingCrew.cpp:258 | Integer division by 100 truncates toward zero. |
| HumanFactors.EvacuationRate | src/FirefightingCrew.cpp:258 | The rate is at least 1 and at most 1% of a population of at least 100. |
| HumanFactors.UpdateZone | src/FirefightingCrew.cpp:257-259 | A zone without an order, or already evacuated, is unchanged. Otherwise the count strictly rises by the rate or to the population, never past it. |
| HumanFactors.UpdateEvacuations | src/FirefightingCrew.cpp:254-262 | Zones without an order are untouched, counts never fall, and a count at or below the population stays so. The sum is exact; the 32-bit sum of the source is `HumanFactors.UpdateZone32` (see Findings). |
| HumanFactors.EvacuationCompletes | src/FirefightingCrew.cpp:254-262 | An ordered zone is fully evacuated after at most population − evacuated updates. |
| HumanFactors.EvacuatedAfter | src/FirefightingCrew.cpp:257-259 | Until the population is reached each update moves exactly the rate, and only the count changes. |
| HumanFactors.Wrap32 | src/FirefightingCrew.cpp:259 | Wrap-around lands in the 32-bit signed range and is the identity on it. |
| HumanFactors.UpdateZone32 | src/FirefightingCrew.cpp:257-259 | The as-written update changes only the count, and only for an ordered zone still evacuating. |
| HumanFactors.UpdateZone32AgreesWithoutOverflow | src/FirefightingCrew.cpp:259 | Where the sum fits in 32 bits, the as-written update agrees with the exact one. |
| HumanFactors.Evacuated32After | src/FirefightingCrew.cpp:257-259 | For populations below 2^31, the as-written count rises by the rate per update while below the population. |
| HumanFactors.EvacuationCountOverflows | src/FirefightingCrew.cpp:258-259 | With population 2147483647, the as-written count reaches 2147483600 after 100 updates and turns negative on the 101st. The exact update completes the evacuation. |
| Simulation.NewSim | src/FireSimulation.cpp:7-10 | A new simulation has a fresh grid and manager, is stopped, is at time 0 and has all counters at 0. |
| Simulation.RowCountMonotone | src/FireSimulation.cpp:81-90 | Counting is monotone under a position-wise implication between two rows. |
| Simulation.GridCountMonotone | src/FireSimulation.cpp:77-92 | Counting is monotone under a position-wise implication between two grids. |
| Simulation.GridCountSplit | src/FireSimulation.cpp:86-90 | The count of a disjoint union is the sum of the counts. |
| Simulation.StatisticsConsistent | src/FireSimulation.cpp:81-90 | Burning plus burned counts the cells the fire has reached, and never exceeds the fuel count. |
| Simulation.UpdateStatistics | src/FireSimulation.cpp:72-93 | The pass returns exactly the numbers of burning, burned and fuel cells, with burning + burned ≤ fuel. |
| Simulation.BurnPercentage | src/FireSimulation.cpp:95-98 | The percentage is 0 without fuel cells, lies in [0,100] for consistent counters, and is 100 when every fuel cell is reached. |
| Simulation.Start | src/FireSimulation.cpp:12-15 | Start sets the run flag and refreshes the statistics, and nothing else changes. |
| Simulation.Stop | src/FireSimulation.cpp:17-19 | Stop only clears the run flag. |
| Simulation.Reset | src/FireSimulation.cpp:21-27 | Reset leaves the simulation stopped at time 0 with all counters at 0, keeping the grid and crews. |
| Simulation.Step | src/FireSimulation.cpp:29-37 | A stopped simulation is unchanged. A running step ticks the grid, updates the crews and evacuations, advances the clock by exactly one time step and refreshes the statistics. |
| Simulation.TickCellCounts | src/Grid.cpp:200-231 | Per cell, a tick neither creates nor destroys fuel, and the fire never retreats from a cell it reached. |
| Simulation.StepCountsMonotone | src/FireSimulation.cpp:29-37 | Across a running step the fuel count is unchanged, and the burned count and the burning-plus-burned count never fall. |
| Simulation.Fill | src/FireSimulation.cpp:101-105 | Every cell is replaced and deposits are kept. |
| Simulation.SetupGrassland | src/FireSimulation.cpp:100-106 | Every cell becomes burnable Fuel Grass with density 0.8 and moisture 0.2. |
| Simulation.SetupForest | src/FireSimulation.cpp:108-114 | Every cell becomes burnable Fuel Tree with density 0.9 and moisture 0.3. |
| Simulation.SetupHasNoFire | src/FireSimulation.cpp:100-114 | Both scenario fills leave nothing burning or burned, and a burn percentage of 0. |
| Simulation.AddFirebreak | src/FireSimulation.cpp:120-148 | The same line as the grid firebreak turns every in-bounds position on it into rock. No deposit or firebreak flag changes anywhere. |

## Left out

- Console output is not modelled: the grid display (src/Grid.cpp:91-107, 321-353), the status printers and `saveToFile` (src/FireSimulation.cpp:154-186; src/FirefightingCrew.cpp:152-173, 272-291), and src/main.cpp. Only the characters they print are modelled, by `Cells.DisplayChar` and `HumanFactors.CrewDisplayChar`.
- `FireSimulation::run` is not modelled because it depends on wall-clock time, sleeping and clearing the terminal. Its body is a repetition of `Simulation.Step`.
- `Grid::initializeRandom` and `FireSimulation::setupMixed` are not modelled because they draw from a non-deterministic random device.
- `FireSimulation::addIgnitionPoint` is not modelled separately: it only forwards to `Lattice.IgniteCell`.
- `FirefightingCrew::getResourceLevel` is not modelled because it divides by the capacity, which is 0/0 for a crew without a retardant tank.
- Spread.Rate: the `atan2`/`cos` wind cosine is an input (`WindField`) rather than computed from the angle and the wind direction.
- Lattice.SpreadWindMonotone: monotonicity is stated only when the source cell is no more than 500 degrees below ambient, where the heat factor is non-negative.
- Lattice.Deposit: the `1 - sqrt(d2)/r` distance factor is a caller-supplied function of the squared distance, and a radius of 0 is excluded because the source then divides 0 by 0.
- Lattice.ApplyWaterDrop and Lattice.ApplyRetardant: the radius of 0 is excluded for the same reason.
- Lattice.NeighbourDistance: the diagonal distance is the exact value of the double nearest the square root of 2, and only the unit and diagonal offsets are covered.
- Cells.Update: a burning cell with burn duration 0 keeps its previous temperature where the source divides by zero. This is only observable while the burn time stays negative.
- Crews.Rest: the bound keeping fatigue at or below 1 holds only for a non-negative rest time, since a negative time raises fatigue without a cap in the source.
- Crews.Update: fatigue is shown not to fall only for dt ≥ 0.
- Simulation.Step: it requires enough random samples for the tick, since the source's generators never run out. The requirement is the worst case, eight spread samples and one extinguish sample per cell; a tick consumes only a prefix of each stream. The tick lemmas of `Advance` and `Simulation` require the same.
- HumanFactors.UpdateEvacuations, Simulation.Step: both use the exact sum `HumanFactors.UpdateZone`, the corrected update. The source adds in 32-bit `int` and wraps for a population within about 1% of 2^31 − 1. That as-written update is `HumanFactors.UpdateZone32`, and the Findings row relates the two.
- Bresenham.Line, Lattice.PaintLine, Lattice.CreateFirebreak, Simulation.AddFirebreak, Lattice.InDisc, Crews.CreateFirebreak, HumanFactors.Dispatch: these compute in unbounded integers where the source uses 32-bit `int`. The line walk doubles `abs(x2 - x1)` and `abs(y2 - y1)` and keeps the error term in `int` (src/Grid.cpp:278-287, src/FireSimulation.cpp:122-131), which wraps for spans above 2^30. The drops square the offsets as `dx*dx + dy*dy` (src/Grid.cpp:241, 262), which wraps for a radius of 32768 or more. The firebreak radius `abs(end_x - start_x) + abs(end_y - start_y)` (src/FirefightingCrew.cpp:93) and the end point `x + radius` (src/FirefightingCrew.cpp:207) wrap near 2^31. Grids and radii of that size are outside what the model promises.
- HumanFactors.AddCrew: the 32-bit wrap-around of the next crew id after 2^31 − 1 crews is not modelled.
- HumanFactors.Dispatch: the source leaves the fields of an evacuation action and of the failed action uninitialised apart from strength and cost. The model fills an evacuation action with the requested kind, target and radius and zero duration, and a refusal carries no action at all.
- Floating-point rounding, NaN and infinities are not modelled; every double is a real.

## Findings

| source | as written | input that shows it | evidently intended | confidence | as-written member | corrected member |
|---|---|---|---|---|---|---|
| src/FirefightingCrew.cpp:258-259 | `zone.evacuated + evacuation_rate` is computed in 32-bit `int` before the `min` with the population | A zone of population 2147483647 has rate 21474836. After 100 updates 2147483600 are evacuated, and the 101st update overflows the sum, so the count becomes negative (-2126008860 when it wraps). | The count rises by the rate up to the population and reaches it after at most population − evacuated updates | not executed | HumanFactors.UpdateZone32, HumanFactors.EvacuationCountOverflows | HumanFactors.UpdateZone, HumanFactors.EvacuationCompletes |
