# Verified model of the Rusaren backend

This project models the parts of the Rusaren server whose correctness rests on an argument rather than on a lookup,
and proves what each of them is for. The Dafny files stand alone; `dafny verify dfyconfig.toml` checks them all. Code
that updates state step by step in Rust is modelled by classes, arrays and loops here, each proved against a
specification function; the theorems are about those functions and about whole runs.

## The components

**Arena maps** (`server/crates/game_content`). `MirrorAxis` and `Mirror` are the diagonal mirror in exact integers,
ties rounding either way. `Masks`, `Tiles` and `ArenaMap` are bit masks, tile numbers and centres. `MapParser` and
`MapRenderer` are the text parser and its inverse; `MapReading` says what an accepted text means, `MapAcceptance`
which texts are accepted and where each of their cells ends up, and `MapRoundTrip` that the two undo each other.
`PathSearch` is the breadth-first search. `MapRng`, `Placement`, `Phases`, `Protection` and `MapGenerator` are the
obstacle generator, for an arbitrary random stream; `Anchors` accounts for every pillar, and `Progress` for every
orbit and every draw: what was placed, what was passed over and why, and when a phase is done. `GeneratedMaps` and
`GeneratedRoundTrip` hold what is true of every map it returns, `GeneratedOutcomes` which attempt that is and how full
it is. The central invariant is `Placement.Sound`: obstacles stand on free tiles only, pillars only where they keep
the edge padding, and every obstacle's mirror tile holds the same kind. Walls, pillars and shrubs keep it because they
write whole orbits, never over anything of another kind, and because shrubs avoid any orbit that touches a pillar.

**Call graph** (`server/bin/backend_callgraph`). `CallGraph` links calls into two edge sets, walks from the roots and
prunes; `CallEdges` says which occurrences are calls and which functions are roots; `CallLevels` is breadth-first
levelling; `FileOverview` adds functions and calls up by file, and `CallDistances` says what a level is a distance in.

**Player records** (`server/crates/game_api/src/records.rs`). `Text` has lines, fields and decimal numbers, with their
printing and parsing. `RecordRows` reads and writes the line formats (rows of 4 or 12 fields, and legacy rows of 5 or
13 that start with an id), `RecordFormats` says what each column means, `RecordRoundTrip` and `LegacyRows` what whole
files mean, and `RecordStore` is the pair of table and file.

**Session bootstrap** (`server/crates/game_api/src/realtime.rs`). `RateLimiter` and `TokenRegistry` are the two state
machines over a non-decreasing clock. Ghost fields keep the full history; the invariants tie the pruned state to it.

**Probe** (`server/bin/live_transport_probe`). `IntegerDistance` is the rounded square root and the distances made of
it; `MatchPlanner` is the schedule that covers the skill catalog.

**Combat feedback** (`server/crates/game_api/src/combat_feedback.rs`). `CombatEvents` defines what any faithful record
of a log of events must say, `CombatScene` what each combat-log entry is worth, and `CombatLedger` is the class with
its two ledgers and its text queue. `CombatCaptions` holds who is on whose side and what captions tell. `CombatRuns`
holds what is true of whole matches.

`Prelude`, `Arith` and `Ordering` hold shared datatypes, a few facts about products and quotients, and the order in
which sorted maps iterate.

## Where the code does not do what one might expect

- The mirror undoes itself exactly on square boards (`Mirror.InvolutiveIffSquare`); three applications always equal
  one, which is what makes orbits small and layouts closed.
- "After every successful call the file holds the table in memory" is false of the record store: a new player whose
  first write failed stays in memory, and loading the same player again succeeds without writing
  (`RecordStore.LoadAfterFailureIsOutOfSync`). They agree exactly when the table is as it was at the last successful
  write (`RecordStore.SyncIffUnchangedSinceWrite`).
- The order of the lines of a record file can decide whether it is accepted (`LegacyRows.MixedOrderMatters`). It does
  not matter exactly when no player has a row without an id together with another row
  (`LegacyRows.OrderIsFreeIffUnmixed`), as in files of legacy rows.
- Rounded distances satisfy the triangle inequality only up to one unit (`IntegerDistance.SlackIsNeeded`,
  `IntegerDistance.TriangleWithinOne`); `IntegerDistance.TriangleIffShortSum` says exactly when the unit is not
  needed.
- A generated map carries the generator's obstacles only; those of the template are dropped
  (`GeneratedMaps.GeneratedKeepsSpacing`).
- Two branches of the source can never run: the wall check for too few tiles and the registry's "has expired".

## Model

| member | source | states |
|---|---|---|
| Mirror.MirrorCoordinate | server/crates/game_content/src/map_generation.rs:408-427 | the diagonal mirror sends a tile of the board to a tile of the board, and the (column, row) form is the tile-number form |
| MirrorAxis.NearestIsNear | server/crates/game_content/src/map_generation.rs:408-427 | the mirrored coordinate is within one half of the exact image, ties rounding either way |
| MirrorAxis.ClampIsIdle | server/crates/game_content/src/map_generation.rs:408-427 | the two clamps never change the rounded value, for any positive width and height |
| MirrorAxis.ThereBackThere | server/crates/game_content/src/map_generation.rs:408-427 | mapping an axis to the other one, back and there again equals mapping it once, whichever way ties round |
| MirrorAxis.SquareAxisMirror | server/crates/game_content/src/map_generation.rs:408-427 | on equal lengths the mirrored column is `H - 1 - row` exactly, so no rounding is left |
| Mirror.MirrorThrice | server/crates/game_content/src/map_generation.rs:394-427 | mirroring a tile three times equals mirroring it once, on every board |
| Mirror.MirrorTwiceOnSquare | server/crates/game_content/src/map_generation.rs:394-427 | on a square board the mirror undoes itself |
| Mirror.InvolutiveIffSquare | server/crates/game_content/src/map_generation.rs:394-427 | the mirror undoes itself on every tile if and only if the board is square |
| Mirror.MirrorTwiceFailsOffSquare | server/crates/game_content/src/map_generation.rs:408-427 | a failing input: on a 2x1 board some tile is not brought back |
| Mirror.OrbitIsClosed | server/crates/game_content/src/map_generation.rs:394-406 | the orbit of a tile is closed under the mirror |
| Mirror.OrbitIsLeast | server/crates/game_content/src/map_generation.rs:394-406 | it is the least closed set holding the tile |
| Mirror.MirrorOrbit | server/crates/game_content/src/map_generation.rs:394-406 | the loop stops by repetition after as many steps as the orbit has tiles, at most three: the eight-step cap never ends it |
| Masks.SetMapMaskBit | server/crates/game_content/src/maps.rs:263-270 | the byte written is the one holding the tile's bit, and only that byte changes |
| Masks.BitIsShift | server/crates/game_content/src/maps.rs:263-270 | the bit table used here is `1 << bit_index` |
| Masks.SetTileAddsOne | server/crates/game_content/src/maps.rs:263-270 | setting a tile adds exactly that tile to what `mask_has_tile` reads |
| Masks.MaskIsItsTiles | server/crates/game_content/src/map_generation.rs:602-607 | two masks of one length that read the same tiles are the same bytes |
| Masks.CountSetBitsCounts | server/crates/game_content/src/map_generation.rs:598-607 | `count_set_bits` is the size of the set of tiles `mask_has_tile` reads |
| Tiles.AreaIsProduct | server/crates/game_content/src/map_generation.rs:590-596 | counting rows by repeated addition gives the product of width and rows |
| Tiles.RowIsQuotient | server/crates/game_content/src/map_generation.rs:578-596 | row and column of a tile number are its quotient and remainder by the width |
| ArenaMap.UnitsAreProduct | server/crates/game_content/src/maps.rs:121-178 | the size of an axis in units is its tiles times the tile size |
| ArenaMap.AxisCenterFits | server/crates/game_content/src/map_generation.rs:568-576 | no tile centre of an accepted board leaves `i16`, so the fallback of `tile_center_units` never triggers |
| ArenaMap.CentersAgree | server/crates/game_content/src/maps.rs:381-408 | `map_cell_center` never fails on an accepted board and gives the centre that `tile_center_units` gives |
| ArenaMap.TileOfCenter | server/crates/game_content/src/map_generation.rs:543-576 | `tile_index_for_center` undoes `tile_center_units` |
| ArenaMap.CenterOfIndex | server/crates/game_content/src/map_generation.rs:543-576 | a point is accepted with tile k if and only if it is the centre of k: the two are mutual inverses |
| ArenaMap.CentersAreDistinct | server/crates/game_content/src/map_generation.rs:568-576 | different tiles have different centres |
| ArenaMap.AxisCenterIsMiddle | server/crates/game_content/src/maps.rs:381-408 | the centre of a tile is the middle of its extent along the axis, measured from the middle of the map, half units rounded down |
| ArenaMap.CellCenterIsMiddle | server/crates/game_content/src/map_generation.rs:568-576 | both ways of computing a centre give that middle on both axes of every accepted board |
| MapAcceptance.ObstacleStaysOnTile | server/crates/game_content/src/maps.rs:359-408 | an obstacle placed on a tile reaches into no other tile and leaves at most one unit of its own uncovered on either axis |
| MapParser.LayoutBuilder.ParseMapGlyph | server/crates/game_content/src/maps.rs:273-357 | one glyph changes masks, anchors, obstacles and features as its kind says, and an unsupported one changes nothing and names its row and column |
| MapParser.ParseMapLayout | server/crates/game_content/src/maps.rs:180-256 | the nested loops over rows and columns read the tiles in row-major order, short rows as void, and require one anchor per team |
| MapParser.ParseAsciiMap | server/crates/game_content/src/maps.rs:11-37 | the whole parser, every error in the order of the source's checks |
| MapReading.ScanReads | server/crates/game_content/src/maps.rs:180-357 | each list holds exactly the tiles drawn with its glyph, in row-major order, and each mask exactly the tiles drawn as footprint or objective |
| MapReading.ScanSucceedsIff | server/crates/game_content/src/maps.rs:180-357 | the glyph loops succeed if and only if every glyph is a supported one |
| MapReading.ScanFailsAtFirst | server/crates/game_content/src/maps.rs:273-357 | a failing scan names the first unsupported glyph by row and column, counted from one |
| MapAcceptance.ParseAccepts | server/crates/game_content/src/maps.rs:11-256 | a text is accepted if and only if it has rows, is at most 128 by 128 tiles and 65535 by 65535 units with a positive tile size, uses the nine glyphs only, and draws one to three anchors for each team |
| MapAcceptance.BlankRowsAreDropped | server/crates/game_content/src/maps.rs:106-119 | blank rows are left out wherever they stand, and all other rows stay in their order |
| MapAcceptance.ParsedCellReads | server/crates/game_content/src/maps.rs:11-357 | in an accepted map every cell of the text stands on its own tile at that tile's middle, as the footprint, objective, anchor, obstacle or feature its glyph means and as nothing else |
| MapRenderer.RenderAsciiMap | server/crates/game_content/src/map_generation.rs:74-131 | the glyph board is painted in the source's order: footprint, obstacles, features, objectives, then Team A and Team B anchors, and refused at the first point off the tiles |
| MapRoundTrip.RenderOfDrawn | server/crates/game_content/src/map_generation.rs:74-131 | a map drawn by a board of rows renders to those rows joined by newlines |
| MapRoundTrip.ParseOfRows | server/crates/game_content/src/maps.rs:11-256 | parsing the rows that draw a map gives the map: both masks, anchors, obstacles and features in the same order |
| MapRoundTrip.AcceptedIsDrawn | server/crates/game_content/src/maps.rs:11-256 | every accepted text has a board of rows that draws its map: no row is blank and the widest ends in a glyph |
| MapRoundTrip.ParseUndoesRender | server/crates/game_content/src/map_generation.rs:74-131 | for every map the parser accepts, rendering succeeds and parsing the result gives the map back, every field of it |
| MapRoundTrip.DrawnMapSurvives | server/crates/game_content/src/map_generation.rs:74-131 | the same for any drawn map with any id and objective time, which the text does not carry |
| PathSearch.NeighborsAreAdjacent | server/crates/game_content/src/map_generation.rs:503-518 | the listed neighbours are exactly the tiles of the board sharing an edge |
| PathSearch.PathExistsToObjective | server/crates/game_content/src/map_generation.rs:469-501 | the breadth-first search answers true if and only if a walk over footprint tiles without pillars reaches an objective tile |
| PathSearch.ExhaustedMeansCutOff | server/crates/game_content/src/map_generation.rs:469-501 | an empty queue means that no walk of any length reaches an objective |
| MapRng.Shuffle | server/crates/game_content/src/map_generation.rs:640-646 | the in-place shuffle takes the draws of the stream in order and ends as the specified permutation |
| MapRng.ShufflePermutes | server/crates/game_content/src/map_generation.rs:640-646 | a shuffle is a permutation, for every stream |
| MapRng.LastIsDrawn | server/crates/game_content/src/map_generation.rs:640-646 | the first draw, modulo the number of values, picks the value that comes last |
| MapRng.EveryOrderIsDrawn | server/crates/game_content/src/map_generation.rs:640-646 | every order of the values is the outcome of some draws, so no order of the orbits is out of reach |
| MapRng.MapRng.RollPercent | server/crates/game_content/src/map_generation.rs:635-637 | one draw per roll: its upper half modulo 100 is below the percentage |
| Placement.CandidateOrbitsCover | server/crates/game_content/src/map_generation.rs:311-342 | the candidate orbits are wholly free, pairwise different, and cover exactly the tiles whose whole orbit is free footprint away from everything protected |
| Placement.WallTilesAreSound | server/crates/game_content/src/map_generation.rs:265-309 | the tiles of a fitting wall are closed under the mirror, free, pillar-safe and unoccupied |
| Placement.WallIsLongEnough | server/crates/game_content/src/map_generation.rs:265-309 | a fitting wall covers at least as many tiles as it is long, so the check for too few tiles can never fire |
| Placement.RunIsStraight | server/crates/game_content/src/map_generation.rs:265-309 | the cells of a wall start at its start and go on one step at a time in its direction |
| Placement.ManhattanCountsSteps | server/crates/game_content/src/map_generation.rs:586-588 | the distance behind both spacings counts unit steps: a step in any of the four directions changes it by exactly one, some step lessens it, and it is zero only at the goal |
| Placement.PaddingIsMargin | server/crates/game_content/src/map_generation.rs:429-442 | an orbit's tile keeps the padding if and only if it is that many columns and rows away from all four edges |
| MapGenerator.CollectCandidateOrbits | server/crates/game_content/src/map_generation.rs:311-342 | the row-major scan with its seen set collects the candidate orbits in order of discovery |
| MapGenerator.TryPlaceWallSegment | server/crates/game_content/src/map_generation.rs:265-309 | a wall is placed if and only if every cell's orbit is free, pillar-safe and empty; otherwise the layout is untouched |
| MapGenerator.PlaceWalls | server/crates/game_content/src/map_generation.rs:159-208 | the wall loop over the layout array: spacing, skip roll, shuffled directions, preferred length first |
| MapGenerator.PlacePillars | server/crates/game_content/src/map_generation.rs:210-231 | the isolated-pillar loop, starting from the walls' spots |
| MapGenerator.PlaceShrubs | server/crates/game_content/src/map_generation.rs:233-260 | the shrub loop: orbits touching a pillar are skipped, the chance depends on the distance to the nearest centre |
| MapGenerator.BuildObstacleLayout | server/crates/game_content/src/map_generation.rs:142-263 | the three phases on one array and one stream |
| Phases.WallsKeep | server/crates/game_content/src/map_generation.rs:159-208 | over the whole wall loop the layout stays safe and mirrored and the accepted representatives keep the wall spacing |
| Phases.PillarsKeep | server/crates/game_content/src/map_generation.rs:210-231 | the same over the pillar loop with the pillar spacing, keeping every earlier spot |
| Phases.ShrubsKeep | server/crates/game_content/src/map_generation.rs:233-260 | the shrub loop keeps safety and mirroring and never changes which tiles hold pillars |
| Phases.BuiltIsSafe | server/crates/game_content/src/map_generation.rs:142-263 | every finished layout, for every stream, is safe and mirrored, stands its spots on pillars, keeps both spacings and places no more than the style asks for |
| Phases.LayoutIsSymmetric | server/crates/game_content/src/map_generation.rs:142-263 | where the mirror undoes itself, each tile of the finished layout equals its mirror tile |
| Progress.WallGoesFirstWay | server/crates/game_content/src/map_generation.rs:180-206 | a wall goes the first of the shuffled directions with room, at the preferred length where that fits and else the short one, and is refused only when no direction has room |
| Progress.WallRound | server/crates/game_content/src/map_generation.rs:159-208 | what the i-th round does after any rounds: nothing when the quota is filled or a spot is too near, one draw when that draw skips, and else five draws with a wall along the first direction with room |
| Progress.PillarRound | server/crates/game_content/src/map_generation.rs:210-231 | the same for isolated pillars: nothing on an unsafe or too near orbit, one draw when it skips, and else a pillar on exactly the orbit's tiles and one draw |
| Progress.WallsFillUp | server/crates/game_content/src/map_generation.rs:159-208 | the wall phase ends with its quota filled, or every orbit has a spot within the spacing, or no short run that fits the final layout, or was passed over by a skipping draw; a skip percentage of 0 rules the last out |
| Progress.PillarsFillUp | server/crates/game_content/src/map_generation.rs:210-231 | the pillar phase ends with its quota filled, or every safe orbit has a spot within the spacing or was passed over by a skipping draw; a skip percentage of 0 rules the last out |
| Progress.FullSkipPlacesNothing | server/crates/game_content/src/map_generation.rs:159-231 | a skip percentage of 100 leaves a phase without a single wall or pillar |
| Progress.ShrubsStandWhereGrown | server/crates/game_content/src/map_generation.rs:142-263 | a tile of a finished layout has a shrub if and only if some orbit holds it, touches no pillar and hits its own draw, which is the one after the pillars' draws and those of the untouched orbits before it, at 90 percent, the fill or a quarter of it by the distance to the nearest cluster |
| Protection.MarkWithBuffer | server/crates/game_content/src/map_generation.rs:370-392 | exactly the tiles of the clipped square around the centre are added |
| Protection.ProtectedTiles | server/crates/game_content/src/map_generation.rs:344-362 | a tile is protected if and only if it is within the buffer of an anchor, an objective tile or a feature; refused exactly when an anchor or feature is off the tiles, naming the first one: Team A, then Team B, then features |
| GeneratedMaps.AllSpawnAnchorsReachObjective | server/crates/game_content/src/map_generation.rs:444-467 | true if and only if every anchor of both teams is on a tile with a walk to an objective |
| GeneratedMaps.GenerateTemplateMatchMap | server/crates/game_content/src/map_generation.rs:10-72 | the retry loop returns the first attempt whose layout keeps access, or the source's error, which for points off the tiles names the first of them |
| GeneratedMaps.CarriesIsLayout | server/crates/game_content/src/map_generation.rs:520-541 | the emitted obstacles stand on exactly the tiles of the layout, kind by kind |
| GeneratedMaps.GeneratedKeepsAccess | server/crates/game_content/src/map_generation.rs:34-71 | in every generated map each anchor has a 4-neighbour walk to an objective tile over footprint tiles that carry no pillar of that map |
| GeneratedMaps.GeneratedIsSafe | server/crates/game_content/src/map_generation.rs:142-442 | no emitted obstacle is off the footprint or within the buffer of anything authored, and every pillar is the edge padding away from all four edges, in columns and rows |
| GeneratedMaps.GeneratedIsMirrored | server/crates/game_content/src/map_generation.rs:142-309 | a tile carrying a pillar or shrub has a mirror tile carrying the same; on square templates, if and only if |
| Anchors.BuiltIsExplained | server/crates/game_content/src/map_generation.rs:142-263 | the pillars of every finished layout are exactly the tiles of walls (straight runs of a configured length, pairwise apart) and isolated candidate orbits, one for each recorded spot, walls first |
| GeneratedMaps.GeneratedKeepsSpacing | server/crates/game_content/src/map_generation.rs:142-231 | the map's obstacles are the layout's alone, and a tile carries a pillar if and only if one of these walls or isolated orbits holds it; they are anchored at the spots the run recorded, which keep the wall and pillar spacing and number no more than the style asks for |
| GeneratedMaps.NoCandidatesMeansNoRoom | server/crates/game_content/src/map_generation.rs:10-33 | generation gives up for want of tiles if and only if no tile has a wholly free orbit |
| GeneratedOutcomes.FirstOpenMapWins | server/crates/game_content/src/map_generation.rs:30-71 | generation returns the map of the first attempt on which every anchor walks to the objective, and fails if and only if the maps of all its attempts, each drawing on where the one before stopped, block some anchor |
| GeneratedOutcomes.ReachIsAccess | server/crates/game_content/src/map_generation.rs:444-501 | a layout passes the access check if and only if on the map emitted from it every anchor has a clear walk to an objective tile |
| GeneratedOutcomes.GeneratedIsFull | server/crates/game_content/src/map_generation.rs:142-231 | a map generated without skipping has as many walls as its style asks for, or no candidate orbit could take another; and as many isolated pillars, or every safe candidate orbit is within the spacing of something placed |
| GeneratedOutcomes.GeneratedShrubs | server/crates/game_content/src/map_generation.rs:233-260 | a generated map carries a shrub on a tile if and only if some candidate orbit holds it, touches no pillar and hits its own draw |
| GeneratedRoundTrip.GeneratedSurvivesText | server/crates/game_content/src/map_generation.rs:10-131 | for every map generated from an accepted template, rendering succeeds and parsing gives it back, map id and objective time aside |
| GeneratedRoundTrip.GeneratedAnchorsAreClear | server/crates/game_content/src/map_generation.rs:444-463 | on an accepted template the anchors' own tiles are footprint and carry nothing |
| CallGraph.FindEnclosing | server/bin/backend_callgraph/src/main.rs:326-335 | none if and only if no span encloses the line; otherwise an enclosing span no other is shorter than |
| CallGraph.LinkCalls | server/bin/backend_callgraph/src/main.rs:500-537 | the edge loop leaves each node with exactly the callees, and callers, that some occurrence gives it |
| CallGraph.LinkedIsConsistent | server/bin/backend_callgraph/src/main.rs:500-537 | caller to callee is in `outgoing` if and only if the reverse is in `incoming`, and every endpoint is a node |
| CallEdges.EnclosingOwns | server/bin/backend_callgraph/src/main.rs:326-335 | of the spans around a line the shortest decides, and of equally short ones the first |
| CallEdges.EdgesAreUses | server/bin/backend_callgraph/src/main.rs:500-537 | in the linked graph b is in `outgoing` of a, and a in `incoming` of b, if and only if some occurrence that is no definition uses b on a line that belongs to a, a is not b, and b is a node |
| CallGraph.RootSet | server/bin/backend_callgraph/src/main.rs:337-387 | roots are nodes, and a graph with nodes always has a root |
| CallEdges.RootsAreBest | server/bin/backend_callgraph/src/main.rs:337-387 | the roots are exactly the nodes that no other outranks (uncalled functions of entry files outside impls, called ones, the rest of the entry files, uncalled functions elsewhere), or the first symbol alone when none ranks; ascending |
| CallEdges.ContainsSomewhere | server/bin/backend_callgraph/src/main.rs:342-355 | a name contains `::impl::` if and only if it has it at some position |
| CallGraph.ReachableFromRoots | server/bin/backend_callgraph/src/main.rs:389-408 | the work-list computes the least set holding the roots and closed under outgoing calls |
| CallGraph.PruneKeepsOutgoing | server/bin/backend_callgraph/src/main.rs:539-547 | pruning to a closed set keeps both edge sets consistent and loses no outgoing edge of a kept node |
| CallGraph.ReachabilitySurvives | server/bin/backend_callgraph/src/main.rs:539-547 | every node left by pruning is still reachable from the roots in the pruned graph |
| CallGraph.BuildGraph | server/bin/backend_callgraph/src/main.rs:498-547 | the result is consistent and wholly reachable, keeps outgoing edges, counts exactly the nodes removed, and is empty only for an empty input |
| CallLevels.BreadthFirst | server/bin/backend_callgraph/src/main.rs:802-826 | every level is the length of a shortest path from a root, and exactly the reachable nodes have one |
| CallLevels.FillIsIdle | server/bin/backend_callgraph/src/main.rs:827-833 | on a wholly reachable graph the fill with level 0 adds no entry |
| CallLevels.ComputeLevels | server/bin/backend_callgraph/src/main.rs:802-833 | on what the builder returns, every node has its shortest call distance; in general, unreached nodes get 0 |
| CallDistances.LevelsAreCallPaths | server/bin/backend_callgraph/src/main.rs:802-833 | a level is the length of a shortest path of nodes from a root in which each calls the next |
| FileOverview.BuildOverviewGraph | server/bin/backend_callgraph/src/main.rs:695-758 | each counter of the file graph is the number of functions, root functions or crossing calls it stands for |
| FileOverview.OverviewReads | server/bin/backend_callgraph/src/main.rs:695-758 | entry by entry: a file has an entry if and only if it has a function; its count, its root flag and both its counters for each other file are those of the functions and of the calls between the two, and it never counts itself |
| FileOverview.FunctionCountsAddUp | server/bin/backend_callgraph/src/main.rs:695-758 | file function counts add up to the number of functions |
| FileOverview.CrossingsAgree | server/bin/backend_callgraph/src/main.rs:695-758 | `outgoing[a][b]` equals `incoming[b][a]` equals the number of calls from functions in a to functions in b; no file counts itself |
| FileOverview.CrossingsAddUp | server/bin/backend_callgraph/src/main.rs:695-758 | all outgoing counters together count every cross-file call once |
| FileOverview.ComputeOverviewLevels | server/bin/backend_callgraph/src/main.rs:835-883 | every file reached has its shortest distance over the file graph, the others get 0 |
| CallDistances.LevelsAreFilePaths | server/bin/backend_callgraph/src/main.rs:835-883 | a file's level is the length of a shortest path of files in which some function of each calls into the next, another file |
| CallEdges.FileRootsAreBest | server/bin/backend_callgraph/src/main.rs:835-856 | levels start at exactly the files that hold a root, or if none does those no other file calls, or if there are none of these the first file |
| FileOverview.EveryFileIsReached | server/bin/backend_callgraph/src/main.rs:835-883 | for overviews of built graphs every file is reached, so the level-0 fill adds no entry |
| RecordRows.ParseSkillPickCounts | server/crates/game_api/src/records.rs:423-448 | the comma loop computes the pick table, the last of repeated ids winning, and refuses empty ids and bad counts |
| RecordRows.ParseRecords | server/crates/game_api/src/records.rs:238-297 | the line loop with its duplicate checks and in-place merges, every error with its line number |
| RecordRows.SerializeRecords | server/crates/game_api/src/records.rs:450-477 | one line of twelve fields per player, in name order |
| RecordFormats.ShortRowReads | server/crates/game_api/src/records.rs:238-354 | four fields are name, wins, losses and no-contests, everything else zero; refused if and only if the name or a counter is malformed |
| RecordFormats.ShortLegacyRowReads | server/crates/game_api/src/records.rs:299-354 | five fields are the same behind a positive 32-bit id |
| RecordFormats.ShortRowIsFullRow | server/crates/game_api/src/records.rs:299-354 | a printed row of four fields reads as the full row the serializer writes for these counters |
| RecordFormats.ShortLegacyRowIsFullRow | server/crates/game_api/src/records.rs:299-354 | the same behind an id |
| RecordFormats.FullRowColumns | server/crates/game_api/src/records.rs:356-477 | the twelve columns, one by one: the serializer writes these counters in this order and the parser reads them back from it |
| RecordFormats.OtherFieldCounts | server/crates/game_api/src/records.rs:299-330 | a line of any other number of fields is malformed |
| RecordFormats.NumeralReads | server/crates/game_api/src/records.rs:401-421 | a counter may carry a plus sign and leading zeros, and is refused if and only if its value is above its type's limit |
| RecordFormats.NameReads | server/crates/game_api/src/records.rs:332-337 | a field reads as a name if and only if it is that name between blanks, and the name is 1 to 24 ASCII letters, digits, underscores or hyphens |
| RecordFormats.CarriageReturnsAreDropped | server/crates/game_api/src/records.rs:238-246 | files with either line end have the same lines |
| RecordRoundTrip.ParsedIsClean | server/crates/game_api/src/records.rs:238-448 | every successful parse yields a table of valid names and of skill ids that are non-empty and free of tab, newline, comma and `=` |
| RecordRoundTrip.RowRoundTrip | server/crates/game_api/src/records.rs:299-477 | a printed row reads back as the same name and record, decimal numbers included |
| RecordRoundTrip.RoundTripIffClean | server/crates/game_api/src/records.rs:238-477 | parsing the serialized table gives the table if and only if it is such a clean table |
| RecordRoundTrip.CanonicalizeRecordStoreContents | server/crates/game_api/src/records.rs:117-120 | readable text and no other is rewritten; the result means the same table, is left alone by a second rewrite, and is the same for every text that means that table |
| RecordRoundTrip.CanonicalIsIdempotent | server/crates/game_api/src/records.rs:117-120 | canonical text is its own canonical form and means the same table |
| LegacyRows.AcceptedIsSummed | server/crates/game_api/src/records.rs:238-297 | in every accepted file each counter and each skill-pick count is the saturated sum over the player's rows |
| LegacyRows.MergeAdds | server/crates/game_api/src/records.rs:255-297 | merging two rows adds each counter, stopping at its own width |
| LegacyRows.AcceptedTablesAgree | server/crates/game_api/src/records.rs:238-297 | two accepted files with the same lines in any order hold the same table, legacy or not |
| LegacyRows.Acceptance | server/crates/game_api/src/records.rs:238-297 | any file is accepted up to line n if and only if every line is well formed, no id repeats, and every row without an id is its player's first |
| LegacyRows.OrderIsFreeIffUnmixed | server/crates/game_api/src/records.rs:238-297 | all reorderings of an accepted file are accepted with the same table if and only if no player has a row without an id together with another row |
| LegacyRows.LegacyAcceptance | server/crates/game_api/src/records.rs:238-297 | a file of legacy rows is accepted if and only if every row is well formed and no id repeats |
| LegacyRows.LegacyOrderIsIrrelevant | server/crates/game_api/src/records.rs:238-297 | reordering a file of legacy rows changes neither acceptance nor the table |
| LegacyRows.RepeatedIdIsRejected | server/crates/game_api/src/records.rs:238-297 | a file with one legacy id on two rows is rejected, whatever else it holds |
| LegacyRows.MixedOrderMatters | server/crates/game_api/src/records.rs:238-297 | a failing input: two rows of one player, accepted in one order and refused as a duplicate name in the other |
| LegacyRows.LegacyRowExists | server/crates/game_api/src/records.rs:299-333 | a legacy row exists for every player, record and id, so the statements above are not empty |
| RecordStore.PlayerRecordStore.NewPersistent | server/crates/game_api/src/records.rs:34-64 | opening reads the file if there is one, refuses it above the size limit or when malformed, and starts in step with it |
| RecordStore.PlayerRecordStore.LoadOrCreate | server/crates/game_api/src/records.rs:67-79 | an existing player is returned without writing; a new one is stored in memory first and then flushed |
| RecordStore.PlayerRecordStore.Save | server/crates/game_api/src/records.rs:82-89 | memory always takes the record; when the flush succeeds, memory and file agree |
| RecordStore.PlayerRecordStore.Flush | server/crates/game_api/src/records.rs:91-109 | an ephemeral store never fails; otherwise the file is replaced by the serialized table or left alone |
| RecordStore.FileHoldsLastWrite | server/crates/game_api/src/records.rs:67-109 | over every run from a store in step, the file means the table as it was at the last successful write |
| RecordStore.SyncIffUnchangedSinceWrite | server/crates/game_api/src/records.rs:67-109 | over every such run memory and file agree if and only if the table is as it was at the last successful write |
| RecordStore.FaultlessRunsStayInSync | server/crates/game_api/src/records.rs:34-109 | over every run without a failed write they agree after every call |
| RecordStore.SaveRepairs | server/crates/game_api/src/records.rs:82-109 | a successful save restores the agreement after any run, failed writes included |
| RecordStore.LoadAfterFailureIsOutOfSync | server/crates/game_api/src/records.rs:67-79 | after a failed first write, loading the same player succeeds although the file does not hold them |
| RecordStore.Reopen | server/crates/game_api/src/records.rs:34-64 | opening the file of a store in step gives the table in memory, while the file is within the size limit |
| RecordStore.ReopenAfterRun | server/crates/game_api/src/records.rs:34-109 | after any run from a store in step, opening the file it leaves gives the table as it was at the last successful write; without a failed write, the table in memory |
| RateLimiter.SessionBootstrapRateLimiter.PruneExpired | server/crates/game_api/src/realtime.rs:423-433 | every deque loses exactly its expired front, and empty deques are forgotten |
| RateLimiter.SessionBootstrapRateLimiter.CheckAndRecord | server/crates/game_api/src/realtime.rs:410-421 | over every run with a non-decreasing clock each request is decided, and its retry time given, as a limiter holding the full accepted history per address would |
| RateLimiter.DequeDecides | server/crates/game_api/src/realtime.rs:410-433 | what is left of a deque after pruning counts exactly the live requests of the whole history, and its front is the oldest of them |
| RateLimiter.AcceptingKeepsRate | server/crates/game_api/src/realtime.rs:410-421 | accepting a request the ideal limiter allows keeps the accepted time `max_requests` later at least a window later |
| RateLimiter.EveryRunKeepsRate | server/crates/game_api/src/realtime.rs:410-433 | over every run the (i + max)-th accepted time of an address is at least its i-th plus the window |
| RateLimiter.SessionBootstrapRateLimiter.RateHolds | server/crates/game_api/src/realtime.rs:394-434 | in every reachable state of the limiter the (i + max)-th accepted time of an address is at least its i-th plus the window |
| RateLimiter.OnlyOwnRequestsMatter | server/crates/game_api/src/realtime.rs:410-433 | dropping all requests of other addresses from a run leaves an address's accepted history as it was |
| RateLimiter.RetryIsExact | server/crates/game_api/src/realtime.rs:410-421 | with nothing accepted meanwhile a refused client is accepted if and only if the oldest live request has left the window, and the returned retry time reaches that point |
| TokenRegistry.SessionBootstrapTokenRegistry.PruneExpired | server/crates/game_api/src/realtime.rs:389-391 | what stays issued is exactly the tokens alive: minted, not consumed since and unexpired |
| TokenRegistry.SessionBootstrapTokenRegistry.Mint | server/crates/game_api/src/realtime.rs:356-370 | a mint is refused as full if and only if 4096 tokens are alive; the registry never holds more |
| TokenRegistry.SessionBootstrapTokenRegistry.Consume | server/crates/game_api/src/realtime.rs:372-387 | a well-shaped token is consumed if and only if its latest mint is unexpired and not consumed since; the branch for an expired token is unreachable |
| TokenRegistry.ConsumesNeverExceedMints | server/crates/game_api/src/realtime.rs:342-392 | over every run, successful consumes of a token never exceed its mints |
| TokenRegistry.ConsumedStaysConsumed | server/crates/game_api/src/realtime.rs:372-387 | a consumed token stays unusable until it is minted again, whatever happens to other tokens |
| TokenRegistry.RoomReturns | server/crates/game_api/src/realtime.rs:356-391 | once the lifetimes of all mints have passed nothing is alive, so a full registry can mint again |
| TokenRegistry.ShapeMeans | server/crates/game_api/src/realtime.rs:447-453 | a token has the right shape if and only if it is 1 to 96 ASCII letters, digits, underscores or hyphens |
| IntegerDistance.IntegerSqrtRounded | server/bin/live_transport_probe/src/probe.rs:1892-1913 | for every 32-bit value the binary search and final choice, saturation included, give the integer nearest to the root, capped at 65535 |
| IntegerDistance.CappedRoot | server/bin/live_transport_probe/src/probe.rs:1892-1913 | 0 if and only if the value is 0; for results r in 1..65534, r*r - r + 1 <= v <= r*r + r; 65535 if and only if v > 65534*65534 + 65534 |
| IntegerDistance.NearestIsUnique | server/bin/live_transport_probe/src/probe.rs:1892-1913 | no other integer is within one half of the root |
| IntegerDistance.DistanceBetween | server/bin/live_transport_probe/src/probe.rs:1881-1890 | the distance is the nearest integer to the Euclidean one and the 16-bit cap never bites, wherever the squared distance fits 32 signed bits |
| IntegerDistance.NearPointsFit | server/bin/live_transport_probe/src/probe.rs:1881-1885 | it does for all points at most 32767 apart on either axis |
| IntegerDistance.DistanceIsSymmetric | server/bin/live_transport_probe/src/probe.rs:1881-1890 | distance is symmetric |
| IntegerDistance.ZeroMeansSamePoint | server/bin/live_transport_probe/src/probe.rs:1881-1890 | distance is zero if and only if the points are equal |
| IntegerDistance.TriangleWithinOne | server/bin/live_transport_probe/src/probe.rs:1881-1890 | the triangle inequality holds up to one unit, for all points |
| IntegerDistance.TriangleIffShortSum | server/bin/live_transport_probe/src/probe.rs:1881-1890 | the exact triangle inequality holds if and only if the squared legs and twice their inner product are at most k * k + k, where k is the sum of the rounded legs |
| IntegerDistance.TriangleWithExactLeg | server/bin/live_transport_probe/src/probe.rs:1881-1890 | it holds whenever one leg is not rounded down |
| IntegerDistance.AxisLegIsExact | server/bin/live_transport_probe/src/probe.rs:1881-1890 | the distance along an axis is exact |
| IntegerDistance.TriangleAlongAxis | server/bin/live_transport_probe/src/probe.rs:1881-1890 | so the exact triangle inequality holds whenever one leg runs along an axis |
| IntegerDistance.SlackIsNeeded | server/bin/live_transport_probe/src/probe.rs:1881-1890 | a failing input: two diagonal steps round down, their sum rounds up |
| MatchPlanner.SequentialIffNoGap | server/bin/live_transport_probe/src/planner.rs:44-56 | the sorted, deduplicated tiers are `1..=max` if and only if they start at one and skip none |
| MatchPlanner.SortByPreference | server/bin/live_transport_probe/src/planner.rs:58-62 | the sort orders by preference rank and then name, and keeps exactly the trees it is given |
| MatchPlanner.ListedComeFirst | server/bin/live_transport_probe/src/planner.rs:82-90 | trees named in the preference list, letter case aside, come before all others |
| MatchPlanner.ListOrderDecides | server/bin/live_transport_probe/src/planner.rs:82-90 | two listed trees go in the order of the first entries that equal them up to letter case, and by name only when that is the same entry |
| MatchPlanner.PreferredStandEarlier | server/bin/live_transport_probe/src/planner.rs:58-90 | so in the sorted trees, wherever they stand, the tree whose preference comes first stands before the other |
| MatchPlanner.OthersGoByName | server/bin/live_transport_probe/src/planner.rs:58-90 | two trees go by name when there is no list or no entry equals either |
| MatchPlanner.LowerMergesCases | server/bin/live_transport_probe/src/planner.rs:82-90 | ignoring case merges the two cases of an ASCII letter and nothing else |
| MatchPlanner.EqualLetterByLetter | server/bin/live_transport_probe/src/planner.rs:82-90 | names are equal up to letter case if and only if they are so letter by letter, from the first to the last |
| MatchPlanner.BuildMatchPlans | server/bin/live_transport_probe/src/planner.rs:20-80 | success if and only if there are players, a catalog and no tier gap; then each authored tree once with tiers 1..max in (preference, name) order, cut into matches |
| MatchPlanner.TreePlansAreDetermined | server/bin/live_transport_probe/src/planner.rs:35-62 | the trees depend on the set of catalog entries only: neither catalog order nor repeats nor grouping order matter |
| MatchPlanner.PlansAreNumbered | server/bin/live_transport_probe/src/planner.rs:64-78 | there are ceil(trees / players) plans, each full, with consecutive indices |
| MatchPlanner.SlotsCover | server/bin/live_transport_probe/src/planner.rs:64-78 | read slot by slot the plans are the trees in order and then less than one match of fillers, which repeat the trees from the first |
| MatchPlanner.EachTreePlayedOnce | server/bin/live_transport_probe/src/planner.rs:20-80 | outside the fillers every authored tree is played exactly once |
| CombatLedger.MatchCombatFeedback.BumpDamage | server/crates/game_api/src/combat_feedback.rs:470-476 | both ledgers gain the damage, each stopping at 32 bits; nothing else changes |
| CombatLedger.MatchCombatFeedback.BumpHealingToAllies | server/crates/game_api/src/combat_feedback.rs:478-499 | the same for healing to allies |
| CombatLedger.MatchCombatFeedback.BumpHealingToEnemies | server/crates/game_api/src/combat_feedback.rs:482-499 | the same for healing to enemies |
| CombatLedger.MatchCombatFeedback.BumpCcUsed | server/crates/game_api/src/combat_feedback.rs:501-506 | the same for crowd control used, 16 bits |
| CombatLedger.MatchCombatFeedback.BumpCcHits | server/crates/game_api/src/combat_feedback.rs:508-513 | the same for crowd-control hits, 16 bits |
| CombatEvents.MatchIsSumOfRounds | server/crates/game_api/src/combat_feedback.rs:427-513 | over any interleaving of credits and round ends each match counter is the saturated sum of the finished rounds' counters and the current round's, although each saturates on its own |
| CombatLedger.MatchCombatFeedback.FinalizeRound | server/crates/game_api/src/combat_feedback.rs:427-439 | the snapshot shows each rostered player's saturated round and match sums in roster order, and every round counter restarts at zero |
| CombatLedger.MatchCombatFeedback.BuildMatchSummary | server/crates/game_api/src/combat_feedback.rs:441-450 | the summary shows each rostered player's saturated match sums, in roster order |
| CombatLedger.MatchCombatFeedback.PlayerRecordTotals | server/crates/game_api/src/combat_feedback.rs:452-464 | the record takes the saturated match sums, healing only where it reached allies |
| CombatLedger.SummaryLines | server/crates/game_api/src/combat_feedback.rs:581-604 | one line per roster entry in roster order, zeros for players never credited |
| CombatLedger.MatchCombatFeedback.PushText | server/crates/game_api/src/combat_feedback.rs:515-535 | an empty text is dropped, any other joins the end of the recipient's queue |
| CombatLedger.MatchCombatFeedback.DrainPendingText | server/crates/game_api/src/combat_feedback.rs:466-468 | everyone with something pending, and nobody else, gets all of it in order, players ascending, and the queue is empty |
| CombatEvents.EachTextDrainedOnce | server/crates/game_api/src/combat_feedback.rs:466-535 | over any run, what the drains handed a recipient followed by what is pending is everything ever queued for them: each text once, in order |
| CombatLedger.MatchCombatFeedback.ObserveEntry | server/crates/game_api/src/combat_feedback.rs:42-136 | each combat-log entry adds exactly its credits and texts, in the source's order |
| CombatScene.CreditsAreWorth | server/crates/game_api/src/combat_feedback.rs:138-260 | after any log, one observation raises every counter of every player by exactly what the entry is worth to them: damage always, healing by team and only when the target stands somewhere, crowd-control hits only across teams |
| CombatScene.HealingIsToldOnce | server/crates/game_api/src/combat_feedback.rs:188-224 | a heal is told once to each of the two players, and only once to someone healing themselves |
| CombatCaptions.SameTeamMeans | server/crates/game_api/src/combat_feedback.rs:541-558 | two players are on one team if and only if both are on the roster and their first assignments name the same side |
| CombatCaptions.StatusTextTells | server/crates/game_api/src/combat_feedback.rs:675-689 | the captions of two applied statuses are equal if and only if the statuses are, and the stacks too where either is above one |
| CombatCaptions.StatusKinds | server/crates/game_api/src/combat_feedback.rs:226-260 | which statuses are shown as good, which as bad, and which count as crowd control |
| CombatCaptions.RemovalTells | server/crates/game_api/src/combat_feedback.rs:263-298 | the caption of a removed status names it and says how it went, except that defeat and spent shields have captions of their own |
| CombatCaptions.TargetsStand | server/crates/game_api/src/combat_feedback.rs:556-579 | texts appear where the world has the target: a player under a nonzero id, or a deployable |
| CombatRuns.LogHoldsEarnings | server/crates/game_api/src/combat_feedback.rs:42-513 | over every sequence of observations, round ends and drains each counter's log total is the sum of what the entries are worth, in all and since the last round end |
| CombatRuns.CountersShowEarnings | server/crates/game_api/src/combat_feedback.rs:42-513 | so the match and round counters of the feedback are the saturated sums of what the entries of its run are worth |
| CombatRuns.Play | server/crates/game_api/src/combat_feedback.rs:42-535 | a feedback taken through any run of observations, round ends and drains logs exactly that run, and ends with those counters |
| CombatRuns.SharesAddUp | server/crates/game_api/src/combat_feedback.rs:154-226 | over every run damage done summed over the players is the damage of all entries with a source, and both kinds of healing together that of all heals with a source that reach someone standing |
| CombatRuns.ShownDamageAddsUp | server/crates/game_api/src/combat_feedback.rs:154-186 | the shown damage counters add up to the damage dealt as long as that fits 32 bits, and otherwise to no more |
| CombatRuns.UnnamedAreLeftAlone | server/crates/game_api/src/combat_feedback.rs:42-425 | a player no entry of a run names is credited with nothing and told nothing |
| CombatRuns.StealthLeavesNoTrace | server/crates/game_api/src/combat_feedback.rs:226-298 | a run reads the same with all stealth entries taken out |
| CombatScene.OnlyTheNamedHear | server/crates/game_api/src/combat_feedback.rs:138-425 | credits and texts go only to players the entry names, no text is empty, and stealth is never announced or credited |

## Left out

- MirrorAxis.RoundNearest: the floating-point rounding itself; the mirrored coordinate is the nearest integer, and a tie goes either way.
- MapRng: the bit mixing of `next_u64`; the words are an arbitrary stream read through a cursor, so every seed is covered.
- MapRng.Shuffle: the `usize` casts of a draw; a draw is the word modulo the index plus one.
- MapGenerator.CollectCandidateOrbits: an orbit is a set of tile numbers, its representative the smallest; the source keeps the sorted vector.
- MapGenerator.TryPlaceWallSegment: directions are the four cardinal ones, as in the source's constant.
- GeneratedMaps.GenerateTemplateMatchMap: needs a board of positive size with centres that fit, at least one style and positive wall lengths, as the configuration and map parsers guarantee; the map id is given.
- GeneratedRoundTrip.GeneratedSurvivesText: needs a buffer radius of at least zero, as the configuration parser guarantees.
- MapRenderer.RenderAsciiMap: needs a board whose unit sizes match its tile counts; on others the source would index out of bounds.
- ArenaMap.CenterOfIndex: the tile size is positive; the source would divide by zero.
- MapParser.ParseAsciiMap: the file name part of the map id and the wording of errors; only the error kinds and their positions are kept.
- Masks.SetMapMaskBit: the out-of-range tile, which the source ignores and no caller passes, is ignored here too.
- CallGraph.BuildGraph: nodes, spans and occurrences are given; reading the index, name clean-up, test detection and external references are not modelled.
- FileOverview.CountCrossings: the crossing calls are walked as one set, where the source nests a loop over nodes and their outgoing sets.
- FileOverview.BuildOverviewGraph: counters are unbounded, saturation of `usize` is not reached.
- DOT and SVG output of the call-graph tool.
- RecordRows.ParseRecords: the reason text of a malformed line; the error kind, line number and name are kept.
- RecordStore.PlayerRecordStore.Flush: the disk is one text that a flush replaces or leaves alone; partly written files and directories are not modelled.
- RateLimiter.SessionBootstrapRateLimiter.CheckAndRecord: time is unbounded; overflow of an instant is not modelled.
- TokenRegistry.SessionBootstrapTokenRegistry.Mint: the random source and base64 encoding are one parameter, a well-shaped token or a failure.
- IntegerDistance.DistanceBetween: squared distances beyond 32 signed bits, which overflow in the source.
- MatchPlanner.BuildMatchPlans: a tree is its name, the other catalog fields are not carried, and the error does not name the tree.
- MatchPlanner.SortByPreference: stability, which cannot show because names differ.
- CombatRuns.Play: stands for the application loop that drives the feedback; the snapshots and texts it hands out are dropped.
- CombatLedger.MatchCombatFeedback.ObserveEntry: positions, teams and which skills apply crowd control are inputs; looking them up in world, roster and content is not modelled.
- Simulation, lobby, match flow, packet codecs, WebRTC and HTTP plumbing, the combat-log database, YAML loading, probe steering and metrics.
