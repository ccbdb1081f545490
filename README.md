# World: a verified model of the dungeon generator

This project models the core of the World tile game. That core is:

- the dungeon generator, `BareBonesWorld`;
- the union-find it uses to track connected regions, `HallwayUnion`;
- the player's avatar, `Avatar`;
- the palette table, `ResourcePack`.

The model is written in Dafny and takes the source's own shape:

- `HallwayUnion`, `BareBonesWorld`, `Avatar` and `ResourcePack` are classes whose methods update their fields in place.
- The generator's grid is an `array2<Tile>`. A `Tile` is one of the palette roles: room floor, wall, hallway floor or nothing.
- Pure queries are functions and predicates.

Modules:

- `Geometry`: grid points, 4-adjacency, the 3 x 3 neighbourhood and squared distance.
- `Union`: the disjoint-set forest over a `map<Point, Point>`.
  - `Find` inserts a point lazily and compresses its path.
  - `Union` hangs the first root under the second, with no rank.
  - `Connected` compares two roots.
  - A ghost rank map and bound exist only to prove that the parent map is acyclic, so that `Find` terminates. They never influence what the code does.
- `RoomCells`: the ordered list of a room's floor cells, column by column.
- `Randomness`: the generator's random source. It is a caller-supplied stream of naturals. A draw in `[lo, hi)` is `lo + raw % (hi - lo)`, so every in-range value can occur.
- `Generator`: `BareBonesWorld`.
  - **Room phase:** clearance check, floor, wall ring, and one to three spaced openings per room.
  - **Corridor phase:** greedy corridor planning towards the nearest opening of another region, weeding of dead ends, reconnection rounds, sealing, and the corridor floors and walls.
- `Tileset`, `Tiles`, `Palettes`, `Movement`: the engine's tiles, the four roles, the palettes (`ResourcePack`) and the avatar (`Avatar`).

What is proved, in the source's terms:

- **The union-find is sound.**
  - The parent map stays acyclic and `find` returns a root.
  - Path compression changes no point's representative.
  - `union` merges exactly the two classes of its arguments.
  - `connected` answers whether two points share a representative.
- **Each room is laid out correctly.**
  - The floor is written and recorded cell by cell.
  - The ring turns exactly the empty cells of the one-cell-larger box into walls.
  - When the ring was clear, the ring ends up as a single union-find region.
  - The opening candidates are listed in the source's scan order: column by column from the left, each column upwards.
  - Each room gets 1 to 3 openings drawn from the candidate cells, pairwise at a good distance. Each opening gets the hallway tile, joins `HALLWAY_STARTS` and shares one region with the other openings of its room.
  - The openings are exactly those the draws give on that list, and exactly those draws are used.
  - Recorded room floors and opening tiles survive every later room.
- **Room placement follows the draws.**
  - A ghost record says, room by room, where its search began, how many of its at most 40 sites it drew, and which site it built.
  - The built site is the first clear one; all 40 are drawn when none is.
  - Built rooms keep more than five cells apart, and the room floors are exactly the built sites' cells.
  - Each room's search begins at the draw where the previous room's draws ended, so the whole run's draws form one chain.
  - Generation stops early exactly when a built room had no opening candidate.
- **Connection is decided both ways.** The corridor phase reports success exactly when all openings end in one region.
- **Corridor planning only reads the grid.**
  - Every planned cell except the target passed `isValidHall`.
  - The walk is a chain of distinct 4-neighbours.
  - The target is planned exactly when the walk reached it or planned a valid neighbour of it.
  - Each step follows one stepping rule, stated once as a function: the first valid unplanned step towards the target in the order +x, -x, +y, -y, else a sideways step. The planner's walk is that rule iterated.
  - The walk stops only at the target or where no valid unplanned step towards it or sideways is left.
- **Target choice and weeding are correct.**
  - `leastDistance` finds a nearest unconnected opening, or none exactly when all are connected.
  - A kept corridor merges the regions of its two ends and drops both from the dead ends.
  - Regions only ever merge.
  - Each weeding pass is recorded turn by turn: one turn per opening, each from the state the previous turn left, with the planner's own plan.
  - Each reconnection round is recorded: it starts only while some two openings are apart, and it is a weeding pass over the previous round's dead ends.
- **When reconnection finishes:**
  - all openings are pairwise connected;
  - the dead ends the last round left, and only those, are walled off, unless a corridor runs over them;
  - room floors are intact;
  - every corridor cell holds the hallway tile, and none of its eight neighbours is left empty (each holds some tile).
- **Each avatar move is exact.** A valid move writes exactly two cells and remembers the tile it stepped onto. An invalid move changes nothing.
- **The palettes have the right shape.** Every known palette has four pairwise distinct roles and ends in the empty tile.

## Model

| member | source | states |
|---|---|---|
| Union.RootIsRoot | src/core/HallwayUnion.java:10-18 | following parent pointers from a key ends at a key that is its own parent, strictly higher in the ghost rank unless the key already is that root; this is why `find`'s recursion terminates |
| Union.CompressKeepsRoots | src/core/HallwayUnion.java:14-15 | pointing `p` directly at its root keeps the parent map acyclic and changes no key's root |
| Union.LinkMergesClasses | src/core/HallwayUnion.java:23-24 | hanging root `r1` under root `r2` keeps the map acyclic and moves exactly the points whose root was `r1` to `r2` |
| Union.RootUnchangedByInsert | src/core/HallwayUnion.java:11-13 | inserting a new self-parented key leaves every existing key's root unchanged |
| Union.HallwayUnion.RepIdempotent | src/core/HallwayUnion.java:10-18 | a representative is its own representative, so finding twice returns the same root |
| Union.HallwayUnion.constructor | src/core/HallwayUnion.java:8 | the forest starts with an empty parent map |
| Union.HallwayUnion.Find | src/core/HallwayUnion.java:10-18 | an unseen point is inserted as its own parent and returned; otherwise the result is the point's former representative; afterwards `parent[p]` is that root, the root is its own parent, only `p` is added as a key and no point's representative changes |
| Union.HallwayUnion.Union | src/core/HallwayUnion.java:20-26 | afterwards `p1` and `p2` are connected; every point of `p1`'s former class moves to `p2`'s representative and every other point keeps its own; a and b are connected exactly when they were before, or one was with `p1` and the other with `p2`; when `p1` and `p2` were already connected no representative changes |
| Union.HallwayUnion.Link | src/core/HallwayUnion.java:23-24 | the parent map changes only at `r1`, which now points at `r2`; exactly the points whose representative was `r1` now have `r2` |
| Union.HallwayUnion.Connected | src/core/HallwayUnion.java:28-30 | true exactly when the two points had the same representative, so it is reflexive and symmetric; no representative changes |
| Geometry.Dist2 | src/core/BareBonesWorld.java:163-165 | the squared distance that stands for the source's Euclidean distance is a natural number, zero exactly for equal points |
| RoomCells.BlockShape | src/core/BareBonesWorld.java:55-62 | the recorded floor of a room has (w+1)(h+1) entries, holds exactly the rectangle's cells and repeats none |
| Randomness.RandomStream.Uniform | src/core/BareBonesWorld.java:205-208 | each draw lies in the half-open range it asks for and consumes one value of the stream |
| Generator.GoodDistSeparates | src/core/BareBonesWorld.java:152-155 | two openings at a good distance are distinct and not 4-adjacent, and the relation is symmetric |
| Generator.IsGoodDist | src/core/BareBonesWorld.java:152-155 | two openings at a good distance differ by more than one on both axes, so neither lies in the other's 3 x 3 block, in either order |
| Generator.BareBonesWorld.constructor | src/core/BareBonesWorld.java:29-35 | a fresh width x height grid, empty room-floor list, opening, corridor and dead-end sets, and a fresh union-find |
| Generator.BareBonesWorld.InitializeWorld | src/core/BareBonesWorld.java:38-43 | the world is built on the ghost record of its rooms: every room took 1 to 40 site draws (all 40 when unbuilt), each built site is the draw its attempts reached, built rooms keep apart, and the room floors are exactly the records' floors; the run stops with `NoOpeningCandidate` exactly when the last recorded room was built with no opening candidate, every earlier room having had one; otherwise 20 to 28 rooms (from the first draw) were tried and the run is `Generated` exactly when all openings end in one region; a generated world has its room floors intact, every corridor cell holding the hallway tile and walled in, and every opening open or walled off |
| Generator.BareBonesWorld.FillWorldWithNothing | src/core/BareBonesWorld.java:46-52 | every cell of the grid holds the empty tile |
| Generator.BareBonesWorld.CreateFloor | src/core/BareBonesWorld.java:55-62 | exactly the cells of the inclusive (w+1) x (h+1) rectangle become floor, and the room-floor list grows by exactly those cells in column order |
| Generator.BareBonesWorld.CreateWall | src/core/BareBonesWorld.java:70-106 | only cells of the one-cell-larger box that were empty change: they become wall, or hallway floor for the chosen openings; the candidates are exactly the empty box cells at least three from the world's border that are not ring corners, listed in the source's scan order (column by column from the left, each column upwards); the openings and the number of draws are those the opening draws give on that list; `ok` holds exactly when a candidate exists; 1 to 3 openings, pairwise at a good distance, all in one region, and they join the opening set; a ring that was clear becomes a single region |
| Generator.BareBonesWorld.WallRing | src/core/BareBonesWorld.java:75-103 | the two nested loops wall exactly the box's empty cells and return exactly its empty candidate spots, in scan order, each now a wall cell; if the ring was clear, every ring cell ends up in the region of the ring's lower-left corner |
| Generator.BareBonesWorld.WallColumn | src/core/BareBonesWorld.java:76-102 | one pass of the inner loop: the cells of column `x` are walled bottom to top, the candidate list grows by exactly the column's empty candidate spots in upward order, and when the ring was clear the ring cells up to this column share the corner's region |
| Generator.BareBonesWorld.ScanRing | src/core/BareBonesWorld.java:75-104 | the outer loop over columns: against a snapshot of the grid taken before the scan, every empty box cell is walled, the candidate list is exactly the empty candidate spots in scan order, and a ring that was empty ends in the corner's region |
| Generator.BareBonesWorld.ScanCell | src/core/BareBonesWorld.java:77-101 | one pass of the inner loop's body on the snapshot: the cell is a candidate exactly when it is an empty candidate spot, and the ring cells scanned so far stay in the corner's region |
| Generator.BareBonesWorld.EmptySpots | src/core/BareBonesWorld.java:77-86 | the opening candidates of a ring scan are exactly the box cells at least three from the world's border, not ring corners, that are still empty |
| Generator.BareBonesWorld.ScanSpots | src/core/BareBonesWorld.java:75-86 | scanning the box lists exactly the candidate spots of the set it keeps |
| Generator.BareBonesWorld.ScanStarts | src/core/BareBonesWorld.java:75-76 | before the first column nothing is walled, and the empty spots and empty ring read the same on the snapshot as on the grid |
| Generator.BareBonesWorld.ScanFinished | src/core/BareBonesWorld.java:75-104 | after the last column every box cell that was empty on the snapshot is wall and every other cell is as it was |
| Generator.BareBonesWorld.NextColumn | src/core/BareBonesWorld.java:75-76 | finishing the top of column `x` is starting the bottom of column `x + 1`, for the walled cells and for the ring's region |
| Generator.ColumnScanLists | src/core/BareBonesWorld.java:76-86 | one column's scan lists exactly the column's kept cells in the range, strictly upwards |
| Generator.ScanLists | src/core/BareBonesWorld.java:75-86 | a scan lists exactly the box's kept cells, column by column from the left and each column upwards, so every cell once |
| Generator.BareBonesWorld.WallCell | src/core/BareBonesWorld.java:77-101 | an empty cell becomes wall, is recorded in the room border, and is a candidate exactly when it is an allowed opening spot; it is connected to each already recorded border neighbour inside the grid; regions only merge; the ring cells scanned so far stay connected to the corner |
| Generator.BareBonesWorld.JoinRingNeighbours | src/core/BareBonesWorld.java:90-101 | after the four guarded unions, each recorded border neighbour inside the grid shares the new cell's region, and regions only merge |
| Generator.BareBonesWorld.JoinIfRing | src/core/BareBonesWorld.java:90-92 | one guarded union: when the guard holds and the neighbour is on the border, the two cells share a region; regions only merge |
| Generator.BareBonesWorld.Merge | src/core/BareBonesWorld.java:90-101 | the union seen from outside: the two points share a region and every point stays in the region of its former representative |
| Generator.BareBonesWorld.PlaceOpening | src/core/BareBonesWorld.java:113-115 | the opening gets the hallway tile and joins the set of openings; nothing else changes |
| Generator.BareBonesWorld.DrawCandidate | src/core/BareBonesWorld.java:112 | one draw picks the candidate at the drawn index and consumes one stream value |
| Generator.BareBonesWorld.DrawOpening | src/core/BareBonesWorld.java:118-127 | up to 40 draws, one stream value each; the result is the candidate of the first draw that differs from and keeps a good distance from every opening given, or none after 40 failures, and exactly that many draws are used |
| Generator.BareBonesWorld.ChooseOpenings | src/core/BareBonesWorld.java:110-148 | the openings and the number of draws are those of `Openings`: the first draw, then the first of the next 40 draws far from it, then the first of the following 40 far from both |
| Generator.BareBonesWorld.OpenRoom | src/core/BareBonesWorld.java:113-145 | the chosen openings get the hallway tile, join the opening set and one region, and every recorded floor and earlier opening stays intact |
| Generator.BareBonesWorld.CreateHallwayStart | src/core/BareBonesWorld.java:109-149 | with no candidate `ok` is false, no draw is used and nothing changes; otherwise the openings are exactly those the draws give (the first draw, the first of the next 40 far from it, the first of the following 40 far from both), and exactly that many stream values are used; 1 to 3 candidate openings, pairwise at a good distance, get the hallway tile, join the opening set and one region; other cells are untouched and whatever shared the ring's region still does |
| Generator.BareBonesWorld.OpenAll | src/core/BareBonesWorld.java:113-145 | the openings, in order, get the hallway tile, join the opening set and end in one region; whatever shared the anchor's region still does |
| Generator.BareBonesWorld.JoinOpening | src/core/BareBonesWorld.java:118-145 | a new opening gets the hallway tile, joins the opening set and is united with every earlier opening of its room |
| Generator.BareBonesWorld.IsValidRoom | src/core/BareBonesWorld.java:178-189 | true exactly when every cell of the site widened by 5 on each side that lies inside the world and below the header band is empty |
| Generator.BareBonesWorld.CreateRoom | src/core/BareBonesWorld.java:192-197 | a room is built exactly when the site is clear; an unclear site changes nothing and uses no draw; a built room appends its floor block, walls its ring, and opens exactly the openings the draws give on the ring's candidate list in scan order, using exactly their draws; there is an opening exactly when the ring has a candidate cell; the openings are 1 to 3, pairwise at a good distance, in one region, and the whole ring is one region |
| Generator.BareBonesWorld.LayFloor | src/core/BareBonesWorld.java:194 | the floor half of a room on a clear site: exactly the floor rectangle becomes floor, the room-floor list grows by exactly its cells, and every recorded floor and opening stays intact |
| Generator.BareBonesWorld.BuildRoom | src/core/BareBonesWorld.java:194-195 | on a clear site the floor is recorded, exactly the floor rectangle and the empty ring-box cells change (wall or opening); the openings are those the draws give on the ring's candidate list in scan order, using exactly their draws; there is an opening exactly when the ring has a candidate cell; the openings are 1 to 3, pairwise at a good distance and in one region, and the whole ring ends as one region |
| Generator.BareBonesWorld.WallRoom | src/core/BareBonesWorld.java:195 | the ring of a room whose floor is down and whose ring is clear: exactly the empty ring-box cells become wall or opening; the openings are those the draws give on the ring's candidate list, using exactly their draws; there is an opening exactly when the ring has a candidate cell; 1 to 3 openings at a good distance in one region, and the ring is one region |
| Generator.BareBonesWorld.ClearRingSpots | src/core/BareBonesWorld.java:77-86 | with the floor down and the ring empty, the empty candidate spots of the box are exactly the ring's candidate spots |
| Generator.BareBonesWorld.RingOrderLists | src/core/BareBonesWorld.java:75-86 | the ring's candidate list holds exactly the ring's opening spots, so it is empty exactly when the ring has no cell an opening may be drawn at |
| Generator.BareBonesWorld.OpeningSpots | src/core/BareBonesWorld.java:82-84 | a ring cell may be an opening exactly when it is at least three from the world's border and not a ring corner |
| Generator.BareBonesWorld.GenerateRooms | src/core/BareBonesWorld.java:200-216 | the number of rooms is 20 plus the first draw modulo 9; the ghost record holds one entry per room tried: the draw its search began at, 1 to 40 attempts (all 40 when no site was clear), the site built, which is the site its last attempt drew, and the openings and draws of that room; each room's search begins where the previous room's draws ended, and the stream ends after the last room's draws; built rooms keep more than five cells apart; the room floors grow by exactly the built sites' blocks and the opening set by exactly the recorded openings; `ok` is false exactly when the last recorded room was built without an opening candidate, and then it is the only such room and generation stopped there |
| Generator.BareBonesWorld.PlaceRoom | src/core/BareBonesWorld.java:203-214 | one room: it starts at the current draw and takes 1 to 40 attempts, none before the last one clear; with no clear site all 40 attempts are used and none was clear, nothing is built, and no draw beyond the sites is used; otherwise the site is the one its last attempt drew, was clear before building, keeps apart from every earlier built room, its block is appended to the room floors, and its openings and draws are those of its ring; the opening set grows by exactly those openings; `ok` says whether it had an opening candidate |
| Generator.BareBonesWorld.FindSite | src/core/BareBonesWorld.java:204-214 | the search takes 1 to 40 attempts, four draws each, and every attempt before the last drew a site that was not clear; it returns the last attempt's site exactly when that site is clear, and otherwise has used all 40 attempts |
| Generator.BareBonesWorld.PlaceOnSite | src/core/BareBonesWorld.java:209-210 | building the clear site the last attempt drew records it as the room's site with that many attempts, appends its block to the room floors, records its openings and draws, grows the opening set by exactly those openings, keeps it apart from every earlier built room, and `ok` says whether it had an opening candidate |
| Generator.BareBonesWorld.BuildSite | src/core/BareBonesWorld.java:209-210 | building on a clear site appends its block to the room floors, floors the site, walls its ring and opens exactly the openings the draws give on the ring's candidate list, using exactly their draws; the opening set grows by exactly those openings; `ok` says whether the ring had an opening candidate |
| Generator.BareBonesWorld.DrawSite | src/core/BareBonesWorld.java:205-208 | one site costs exactly four draws, width, height, x and y in that order, each folded into its range |
| Generator.BareBonesWorld.DrawAttempt | src/core/BareBonesWorld.java:205-208 | the site of attempt `k` of a search that began at draw `start` is the site drawn four draws per attempt later |
| Generator.BareBonesWorld.AttemptSiteDraws | src/core/BareBonesWorld.java:204-213 | attempt `k` of a search draws its site at draw `start + 4k` |
| Generator.BareBonesWorld.AttemptSiteInWorld | src/core/BareBonesWorld.java:205-208 | every drawn site has width 4..7 and height 5..8 and keeps its ring inside the world and below the header band |
| Generator.BareBonesWorld.NoneClearEach | src/core/BareBonesWorld.java:204-213 | the recursive account of "no earlier attempt was clear" holds exactly when each of those attempts drew an unclear site |
| Generator.BareBonesWorld.SeparatedSites | src/core/BareBonesWorld.java:178-189 | a site whose five-cell margin is clear keeps more than five cells away from any site whose whole floor is recorded and intact |
| Generator.BareBonesWorld.SeparatedFromAll | src/core/BareBonesWorld.java:178-189 | a site whose margin is clear keeps apart from every built room of the record whose floors end the room-floor list |
| Generator.SeparatedSnoc | src/core/BareBonesWorld.java:209-211 | a room appended to the record keeps it pairwise apart when it keeps apart from every earlier built room |
| Generator.AttemptsBoundedSnoc | src/core/BareBonesWorld.java:203-214 | a room with 1 to 40 attempts, all 40 when unbuilt, keeps the record bounded |
| Generator.DrawsFromSnoc | src/core/BareBonesWorld.java:200-216 | a room whose search begins where the record's draws end extends the chain of draws by exactly its own draws, and the record's openings grow by exactly its openings |
| Generator.FloorsOfSnoc | src/core/BareBonesWorld.java:59 | appending a room appends exactly its floor cells to the record's floors |
| Generator.FloorsUpToPrefix | src/core/BareBonesWorld.java:59 | the floors of the first `n` rooms do not depend on the rooms after them |
| Generator.FloorsOfHas | src/core/BareBonesWorld.java:59 | every floor cell of every built room of the record is among the record's floors |
| Generator.BareBonesWorld.SitesDrawnSnoc | src/core/BareBonesWorld.java:205-210 | a room whose site is its last attempt's draw keeps the record drawn from the stream |
| Generator.BareBonesWorld.OpenableSnoc | src/core/BareBonesWorld.java:105-112 | the record stays openable through the new room exactly when the new room had an opening candidate |
| Generator.BareBonesWorld.RoomsOpenedSnoc | src/core/BareBonesWorld.java:105-112 | a room whose openings are those drawn on its ring keeps every room of the record doing so |
| Generator.BareBonesWorld.IsValidHall | src/core/BareBonesWorld.java:219-232 | a valid corridor cell lies in the world's interior and is empty |
| Generator.BareBonesWorld.HallSpot | src/core/BareBonesWorld.java:219-232 | a corridor cell is valid exactly when it lies in 1 <= x < width-1, 1 <= y < height-HEADER_SIZE-1, is empty, and no 4-neighbour is wall or room floor |
| Generator.BareBonesWorld.OpenCellsAre | src/core/BareBonesWorld.java:219-232 | a cell is in the grid's open set exactly when it passes `isValidHall` |
| Generator.Towards | src/core/BareBonesWorld.java:238-249 | a returned cell is an open, unplanned neighbour one step nearer the target; none exactly when no such neighbour exists |
| Generator.TurnOrAdvance | src/core/BareBonesWorld.java:265-280 | a returned cell is an open, unplanned sideways step; none exactly when `curr` is the target or no sideways step is open |
| Generator.Step | src/core/BareBonesWorld.java:238-257 | a step is an open, unplanned 4-neighbour; a sideways step is taken only when no approaching step is open; away from the target none is returned exactly when the walk is stuck |
| Generator.WalkKeeps | src/core/BareBonesWorld.java:237-259 | continuing a trail of open cells, the walk stays a trail of open cells that extends the one taken so far, and it ends at the target or where it is stuck |
| Generator.BareBonesWorld.MakeTurnOrAdvance | src/core/BareBonesWorld.java:265-280 | the result is the sideways rule `TurnOrAdvance` on the grid's valid cells: a valid, unplanned sideways step (vertical, +1 first, while x differs, else horizontal); none exactly when `curr` is the target or no such step exists |
| Generator.BareBonesWorld.NextStep | src/core/BareBonesWorld.java:238-257 | the step is the stepping rule `Step` on the grid's valid cells: the first valid, unplanned neighbour towards the target in the order +x, -x, +y, -y, else the sideways step, else none; by `Step`'s contract the step is a valid unplanned 4-neighbour, a sideways step is taken only when no approaching step is open, and away from the target none means the walk is stuck |
| Generator.BareBonesWorld.PlanHallwayFloors | src/core/BareBonesWorld.java:235-262 | the grid is only read; the path is the greedy walk `GreedyPath` and the plan is `PlanOf`: the walk's cells plus the target when the walk reached a valid 4-neighbour of it; every planned cell other than the target passed the validity test; the walk is a chain of distinct 4-neighbours starting next to the start; the target is planned exactly when the walk reached it or a valid 4-neighbour of it; start = target plans nothing; the walk ends only at the target or where no valid unplanned approaching or sideways step is left |
| Generator.BareBonesWorld.WalkTowards | src/core/BareBonesWorld.java:237-259 | the walk the loop takes is the greedy walk `GreedyPath` of the stepping rule, and the plan holds exactly its cells |
| Generator.BareBonesWorld.GreedyPathKeeps | src/core/BareBonesWorld.java:237-259 | the planner's walk is a trail of valid cells from the start, empty when the start is the target, and it ends where it is stuck |
| Generator.BareBonesWorld.GreedyPathShape | src/core/BareBonesWorld.java:237-259 | the planner's walk is a chain of distinct valid 4-neighbours starting next to the start, empty when the start is the target, ending where it is stuck |
| Generator.BareBonesWorld.PlanOfKeeps | src/core/BareBonesWorld.java:235-306 | the planner's plan holds the walk's cells and possibly the target, every planned cell but the target is valid, and the target is planned exactly when the walk reached it or a valid neighbour of it |
| Generator.BareBonesWorld.SurroundingTargetTile | src/core/BareBonesWorld.java:285-297 | exactly the target's valid 4-neighbours |
| Generator.BareBonesWorld.AddTarget | src/core/BareBonesWorld.java:283-306 | the target is added exactly when it was not planned and one of its valid neighbours is; otherwise the plan is unchanged |
| Generator.BareBonesWorld.LeastDistance | src/core/BareBonesWorld.java:158-175 | none exactly when every opening shares `tile`'s region; otherwise an opening outside that region with no such opening strictly closer; regions do not change |
| Generator.BareBonesWorld.WeedTile | src/core/BareBonesWorld.java:310-330 | the target is none exactly when every opening shares `tile`'s region, and otherwise a nearest opening of another region; the plan is the planner's `PlanOf` from `tile` to the target; no target: `tile` becomes a dead end; a plan that reaches the target is added to the corridors, merges `tile`'s region into the target's and removes both from the dead ends; a plan that fails makes `tile` a dead end unless it is already a corridor cell, and no region changes |
| Generator.BareBonesWorld.KeepCorridor | src/core/BareBonesWorld.java:321-325 | the plan joins the corridor cells and `tile`'s region merges into the target's |
| Generator.BareBonesWorld.TakeTurn | src/core/BareBonesWorld.java:311-330 | one turn for `tile`, recorded with the states before and after: it is a step of the weeding rule from the state before, and its plan is the planner's |
| Generator.BareBonesWorld.ExtendPass | src/core/BareBonesWorld.java:310-331 | the loop's body: the record of turns grows by one turn for `tile`, stays a chain from the pass's first state to the current one, and every plan stays the planner's |
| Generator.TurnsSnoc | src/core/BareBonesWorld.java:310-331 | a turn taken from the state the last turn left extends the chain of turns, ending in the turn's state and covering one more opening |
| Generator.BareBonesWorld.PlansDrawnSnoc | src/core/BareBonesWorld.java:320 | a turn whose plan is the planner's keeps every plan of the record the planner's |
| Generator.BareBonesWorld.RegionsMerged | src/core/BareBonesWorld.java:323 | after the union, the regions of the openings are the old ones with `tile`'s region merged into the target's |
| Generator.BareBonesWorld.RegionsKept | src/core/BareBonesWorld.java:314-330 | when no representative changed, the regions of the openings are unchanged |
| Generator.BareBonesWorld.WeedOutPlannedDeadEnds | src/core/BareBonesWorld.java:309-332 | the pass is recorded as turns, one per opening of `starts` in some order, each a step of `WeedTile` from the state the previous turn left with the planner's own plan; the state after the last turn is the corridors, the dead ends returned and the regions; dead ends stay among the given ones and the visited openings, room floors and openings stay intact, corridors only grow and regions only merge |
| Generator.BareBonesWorld.AreAllRoomsConnected | src/core/BareBonesWorld.java:350-360 | true exactly when every two openings share a region; regions do not change |
| Generator.BareBonesWorld.ConnectedToLater | src/core/BareBonesWorld.java:353-357 | true exactly when entry `i` shares a region with every later entry |
| Generator.BareBonesWorld.PairsConnectAll | src/core/BareBonesWorld.java:350-360 | pairwise connection along the list connects every two openings of the set |
| Generator.BareBonesWorld.JoinedIsConnected | src/core/BareBonesWorld.java:350-360 | all openings share one region exactly when the region map of the openings has a single value |
| Generator.BareBonesWorld.ReconnectRounds | src/core/BareBonesWorld.java:336-342 | the rounds are recorded: each one starts only while some two openings are apart and is a weeding pass over the previous round's dead ends into a fresh set; `current`, the corridors and the regions are those the last round left; `done` holds exactly when all openings end pairwise connected, so running out of rounds means some two openings are still apart; at most `fuel` rounds, all of them when not done |
| Generator.BareBonesWorld.NextRound | src/core/BareBonesWorld.java:338-342 | the loop's body: one more weeding pass over the current dead ends into a fresh set, recorded as a round after the earlier rounds; the new dead ends are among the current ones |
| Generator.BareBonesWorld.RoundsSnoc | src/core/BareBonesWorld.java:338-342 | a round from the state the last round left extends the chain of rounds and ends where the round ends |
| Generator.BareBonesWorld.SealDeadEnds | src/core/BareBonesWorld.java:344-346 | exactly the remaining dead ends become wall |
| Generator.BareBonesWorld.ReconnectDeadEnds | src/core/BareBonesWorld.java:335-347 | `done` holds exactly when all openings end connected; the recorded rounds run from the dead-end field's state; when done, exactly the dead ends the last round left become wall, otherwise no cell changes; every other opening keeps the hallway tile, and room floors are intact; corridors and regions are those of the last round |
| Generator.BareBonesWorld.CreateHallwayFloors | src/core/BareBonesWorld.java:363-367 | exactly the corridor cells get the hallway tile |
| Generator.BareBonesWorld.CreateHallwayWalls | src/core/BareBonesWorld.java:370-380 | exactly the empty cells in some corridor cell's 3 x 3 block become wall; floors and hallway tiles are never touched |
| Generator.BareBonesWorld.WallAround | src/core/BareBonesWorld.java:372-377 | exactly the empty cells of one 3 x 3 block become wall |
| Generator.BareBonesWorld.GenerateHallways | src/core/BareBonesWorld.java:383-388 | the first pass is a weeding record over all openings from the empty corridor state, the dead-end field is what it left, and the reconnection rounds follow from there; `done` holds exactly when all openings end in one region; then room floors are intact, every corridor cell holds the hallway tile and has no empty cell in its 3 x 3 block, and every opening is walled exactly when it is a dead end of the last round that no corridor runs over |
| Generator.BareBonesWorld.PlanCorridors | src/core/BareBonesWorld.java:383-385 | the first weeding pass over all openings and the reconnection rounds after it, recorded; the dead-end field holds what the first pass left; `done` holds exactly when all openings end in one region; every opening keeps the hallway tile except, when done, the dead ends of the last round, which are walled |
| Generator.BareBonesWorld.LayCorridors | src/core/BareBonesWorld.java:386-387 | every corridor cell gets the hallway tile and is walled in, room floors stay intact, and an opening keeps its wall only when no corridor runs over it |
| Generator.ListOf | src/core/BareBonesWorld.java:351 | the list holds exactly the set's elements, each once |
| Generator.WalkSteps | src/core/BareBonesWorld.java:237-258 | a planned walk is a chain of 4-neighbours beginning next to the start |
| Generator.CountedCellsDistinct | src/core/BareBonesWorld.java:258 | a set holding exactly a sequence's cells is no larger, and equal size means the walk never revisits a cell |
| Generator.ExtendTrail | src/core/BareBonesWorld.java:255-258 | stepping to a new neighbour of the walk's end extends the walk and its plan by that cell |
| Generator.Pick | src/core/BareBonesWorld.java:119 | a drawn candidate is one of the candidate cells |
| Generator.FirstFar | src/core/BareBonesWorld.java:118-127 | a found draw is among the 40 and its candidate is far from every opening given |
| Generator.FirstFarSkips | src/core/BareBonesWorld.java:118-127 | a failing draw hands the search on to the next draw |
| Generator.FirstFarIsFirst | src/core/BareBonesWorld.java:118-127 | the search finds the first passing draw: every draw before it fails, and with none found all 40 fail |
| Generator.OpeningsUnfold | src/core/BareBonesWorld.java:112-148 | the step-by-step draws of a room's openings give exactly `Openings` and `OpeningDraws` |
| Generator.OpeningsSpread | src/core/BareBonesWorld.java:112-148 | a room gets 1 to 3 openings, the first from the first draw, each a candidate, any two distinct and at a good distance |
| Movement.WalkableRoles | src/core/Avatar.java:20-28 | in every known palette the avatar may walk on exactly the room-floor and hallway-floor roles |
| Movement.Avatar.constructor | src/core/Avatar.java:12-17 | position, remembered tile and character are the given ones |
| Movement.Avatar.IsValidMove | src/core/Avatar.java:20-28 | true exactly when the cell is inside the world and holds tree, grass, sand, flower or floor; false outside the world |
| Movement.Avatar.StepTo | src/core/Avatar.java:33-38 | a valid move writes the remembered tile on the old cell and the character on the new one, remembers the new cell's former tile and changes no other cell; an invalid move changes nothing; the avatar stays in bounds |
| Movement.Avatar.MoveUp | src/core/Avatar.java:31-39 | y grows by one and x is fixed exactly when the move is valid; exactly the two cells change; otherwise nothing changes |
| Movement.Avatar.MoveDown | src/core/Avatar.java:42-50 | y drops by one and x is fixed exactly when the move is valid; exactly the two cells change; otherwise nothing changes |
| Movement.Avatar.MoveLeft | src/core/Avatar.java:53-61 | x drops by one and y is fixed exactly when the move is valid; exactly the two cells change; otherwise nothing changes |
| Movement.Avatar.MoveRight | src/core/Avatar.java:64-72 | x grows by one and y is fixed exactly when the move is valid; exactly the two cells change; otherwise nothing changes |
| Palettes.PackShape | src/core/ResourcePack.java:17-48 | every known pack is [room floor, wall, hallway floor, nothing], four entries ending in the empty tile with pairwise distinct roles; any other name gives no palette |
| Palettes.ResourcePack.constructor | src/core/ResourcePack.java:8-15 | the name is stored and the three lists start empty |
| Palettes.ResourcePack.ChooseResourcePack | src/core/ResourcePack.java:17-24 | a known name appends its four tiles to that pack's list and returns the whole list, which ends in the empty tile (a second call gives eight entries); other lists are unchanged; an unknown name returns an empty list |
| Palettes.ResourcePack.CreateForest | src/core/ResourcePack.java:26-32 | appends tree, mountain, grass, nothing and returns the list |
| Palettes.ResourcePack.CreateBeach | src/core/ResourcePack.java:34-40 | appends grass, water, sand, nothing and returns the list |
| Palettes.ResourcePack.CreateCottonCandy | src/core/ResourcePack.java:42-48 | appends flower, wall, floor, nothing and returns the list |

## Left out

- The pseudo-random generator and seed determinism: `java.util.Random` and `RandomUtils.uniform` are not part of this model. Draws come from a caller-supplied stream folded into each half-open range, and no claim is made about which world a seed produces.
- The constructor's seed and resource-pack arguments: the grid holds palette roles, so the palette is not stored; rendering a role to a tile is `Palettes.Render`.
- `TETile` rendering data and palette aliasing (cotton candy's wall tile equals the engine's wall tile): tiles are compared as enum values.
- Generator.BareBonesWorld.LeastDistance: distances are squared integers rather than `Math.pow` doubles. Openings are visited in any order, and among equally near openings the one visited last wins, as equal keys overwrite one another in the source's `TreeMap`.
- HashSet iteration order: every loop over a set picks its next element nondeterministically (`:|`), so each proved property holds for every order.
- Generator.BareBonesWorld.ReconnectRounds: the source loops until all openings are connected and may never stop. Here at most `fuel` rounds run. When they run out while some two openings are still apart, the run reports `OutOfFuel`; a source run that would loop forever is not told apart from one that needs more rounds.
- Generator.BareBonesWorld.CreateHallwayStart: with no candidate cell the source's empty-range draw throws. The model returns `ok = false`, and generation stops with `NoOpeningCandidate`.
- Generator.BareBonesWorld.ChooseOpenings: all of a room's random draws are made before its openings are drawn on the grid. The draws do not read the grid, so the resulting openings and world are the same as interleaving them.
- Generator.BareBonesWorld.constructor: requires width >= 10 and height >= 13, the smallest sizes for which every room-site range the generator draws from is non-empty. The source does not check this.
- Generator.BareBonesWorld.IsValidHall: its own contract states only the direction needed by the corridor proofs; the full if-and-only-if is lemma `HallSpot`.
- Palettes.ResourcePack.ChooseResourcePack: returns a copy of the pack's list as a sequence value, while the source returns the field's list object itself. A caller that later changes the returned list, or calls again and sees the first result grow, is not modelled.
- `getAllRoomFloors` and the other getters are plain field reads and are not modelled separately.
- `CreateWorldFeatures`, `AutograderBuddy`, `Main` and `MenuAndMovement` are not part of this model: user interface, rendering, the mouse-over header, file save and load, and the unseeded avatar spawn.
- Serialization (`Serializable`) is not modelled.
