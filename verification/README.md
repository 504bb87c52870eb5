# classic_AI in Dafny

A Dafny model of the pure-logic core of the classic_AI repository. It has four
independent parts.

- **Grid path planning** (`1/`). A 51×31 grid with obstacles, two-way
  teleporters and king moves. There is a neighbour-cost table, and there are
  four search agents: BFS, uniform-cost, A* and bidirectional
  iterative-deepening DFS. There is also the map editor that toggles
  obstacles and teleporters.
  Modules: `GridEnv` (grid_env.dfy), `GridAgent` (grid_agent.dfy),
  `GridSearch` (grid_search.dfy), `GridIddfs` (grid_iddfs.dfy),
  `MapEditor` (map_editor.dfy).
- **XOShift** (`AI-Project/AI-Project/`). An N×N game (N in 3..5). A player
  picks a rim cell, slides its line one step towards it, and places a mark
  at the far end. The part covers the move generator, the two alpha-beta
  agents and their evaluations, and replay reconstruction.
  Modules: `XOBoard`, `XOGame`, `AgentUtils`, `XOEval`, `XOAgents`,
  `XOReplay`.
- **CSP exercises** (`2/`). N-Queens with obstacles, counted by MRV and
  forward-checking backtracking (`NQueens`). Graph colouring with AC-3, MRV,
  LCV and forward checking (`GraphColouring`).
- **IPv4 split counter** (`2/1.py`). Counts the ways to cut a digit string
  into four `dec-octet`s in the sense of section 3.2.2 of RFC 3986
  (`Ipv4Split`).

`Wrappers` (wrappers.dfy) holds `Option` and small sequence helpers.

Modelling conventions:

- **Costs are integers in hundredths.** 1.0 is 100 and 1.4 is 140. The
  teleport price is a distance rounded to two decimals, so hundredths hold
  every price exactly.
- **Random or floating values are parameters.** The teleport price `tc` and
  the A* heuristic `h` are arbitrary non-negative functions.
- **Random choices are inputs.** This covers the shuffled free cells, the
  agent's die rolls and its opening pick.
- **Python's iteration order is a parameter** wherever the source iterates a
  set or a dict.
- **heapq** pops the least tuple in its lexicographic order.
- **Crashes become `None` or `Crashed`.** Where the Python program would
  raise (a `KeyError`, an `IndexError`, a `ValueError`), the model returns
  `None` or a `Crashed` outcome. A few members do exclude a crashing input
  by a precondition instead: those are named under "Left out" with the
  caller that rules the input out or the reason it is not modelled.

## Model

| member | source | states |
|---|---|---|
| GridEnv.MotionsAreKingMoves | 1/env.py:16-21 | the motions are 8 distinct offsets, exactly the non-zero offsets in {-1,0,1}² |
| GridEnv.LoadTeleports | 1/env.py:55-60 | a cell is a teleporter iff some two-element entry names it; the last two-element entry wins, its second cell always leading back to the first |
| GridEnv.LoadSkipsOdd | 1/env.py:56-57 | deleting any entry whose length is not two leaves the loaded map unchanged |
| GridEnv.LinksSkipOne | 1/env.py:56-57 | one non-pair entry is ignored wherever it stands |
| GridEnv.LinksListed | 1/env.py:55-60 | applying the entries in order yields keys that are exactly the cells named by some two-element entry |
| GridEnv.LoadDisjoint | 1/env.py:55-60 | entries that share no cell load into a symmetric, irreflexive map linking each entry's two cells both ways |
| GridEnv.GeneratePairs | 1/env.py:75-82 | the pairing loop uses only cells from the shuffled list, keeps the map symmetric and irreflexive, and adds 2·min(num_pairs, ⌊cells/2⌋) teleporters: it stops early only when fewer than two cells remain |
| GridEnv.GenerateTeleports | 1/env.py:66-85 | random teleporters sit on in-bounds non-obstacle cells, come in symmetric irreflexive pairs and number 2·min(max(num_pairs,0), ⌊free/2⌋) |
| GridEnv.NewEnv | 1/env.py:15-27 | obstacles as given; without random teleporters the teleporters are exactly the cells the pair entries name; with them the loaded map is replaced by a symmetric irreflexive map on free cells |
| GridAgent.MoveTargets | 1/agent.py:38-42 | a cell is produced iff its offset is one of the motions and it is in bounds and not an obstacle |
| GridAgent.Neighbours | 1/agent.py:32-49 | c is a neighbour of s iff it is a king move onto an in-bounds non-obstacle cell, or it is s's teleport exit, which is not checked |
| GridAgent.StepCost | 1/agent.py:62-81 | 1.0 for every step without Euclidean costs; otherwise the teleport price for s's own link even when the exit is a king move away, else 1.4 exactly for diagonal king moves and 1.0 for straight ones |
| GridAgent.CostMap | 1/agent.py:95-101 | one entry per neighbour, each priced by get_cost |
| GridAgent.FreeCells | 1/agent.py:89-93 | exactly the in-bounds non-obstacle cells |
| GridAgent.NeighbourCosts | 1/agent.py:83-103 | exactly one entry per in-bounds non-obstacle cell, whose keys are that cell's neighbours, each priced by get_cost |
| GridAgent.TablePrices | 1/agent.py:71-81 | every table price is 1.0 or 1.4 unless it is the price of the cell's own teleporter link |
| GridAgent.ExtractPath | 1/agent.py:105-116 | when the PARENT links lead to the start, the path runs from the start to the goal, the start occurs only in front, and each cell's PARENT is its predecessor |
| GridAgent.ChainWeight | 1/agent.py:105-116 | the extracted path is a walk along the table, and a cost map that grows along each link by the link's price gives the goal the path's weight |
| GridAgent.StepWeight | 1/agent.py:71-72 | with unit costs a walk weighs one less than its number of cells |
| GridSearch.NeighbourCostsFit | 1/agent.py:83-103 | the precomputed table holds, for every cell it has, exactly that cell's neighbours |
| GridSearch.Begin | 1/implemented_agents.py:124-136 | the first pass finalises the start alone, seened [start], PARENT {start: start}, COST {start: 0}, with nothing queued when the start is the goal or has no table entry; or raises KeyError exactly when the start has neighbours and no table entry and is not the goal |
| GridSearch.Settle | 1/implemented_agents.py:128-141 | a popped cell already visited is skipped; otherwise it joins VISITED and the end of seened with its tuple's parent and cost in PARENT and COST, and the rest of the queue is followed by one tuple per neighbour priced from the table unless the cell is the goal; the KeyError happens exactly at a non-goal cell outside the table that has neighbours |
| GridSearch.FinaliseTree | 1/implemented_agents.py:129-134 | finalising a fresh cell keeps PARENT a tree rooted at the start along table edges, and seened free of duplicates |
| GridSearch.SettleTree | 1/implemented_agents.py:10-16 | each cell is finalised at most once; the tree shape and seened's uniqueness survive every pass |
| GridSearch.SettleCovered | 1/implemented_agents.py:127-141 | every neighbour of an expanded cell is visited or still queued after each pass |
| GridSearch.ChainGrows | 1/implemented_agents.py:98-112 | COST of every finalised cell is its parent's COST plus the step's table price |
| GridSearch.SettleFifo | 1/implemented_agents.py:7-20 | BFS's list stays ordered by step depth, at most one level apart |
| GridSearch.ZeroOrder | 1/implemented_agents.py:124-128 | with the zero heuristic A*'s heap order (f, g, point, parent) is UCS's order (cost, point, parent) |
| GridSearch.MinIndex | 1/implemented_agents.py:98 | heappop returns an entry no later in heap order than any other |
| GridSearch.HeapHead | 1/implemented_agents.py:98 | the popped entry has the least priority g + price + h among the queued ones |
| GridSearch.Finish | 1/agent.py:105-116 | at the end the path is found iff the goal was finalised; otherwise no walk from the start reaches the goal |
| GridSearch.UnreachedSound | 1/implemented_agents.py:127-143 | when the queue empties without the goal, no walk at all leads from the start to the goal, and seened lists distinct cells from the start |
| GridSearch.FoundSound | 1/implemented_agents.py:101-114 | a found path is a table walk from start to goal along PARENT links, COST[goal] is its weight, seened lists distinct cells from start to goal and exactly COST's cells, PARENT[start] is start with COST[start] 0, every other finalised cell's COST is its PARENT's COST plus the table price of that edge, and every COST is the weight of a walk from the start to its cell |
| GridSearch.TreeAttained | 1/implemented_agents.py:101-104 | every finalised cell's COST is the weight of some table walk from the start to it |
| GridSearch.ParentWalk | 1/implemented_agents.py:101-104 | following PARENT from a finalised cell back to the start gives a table walk whose weight is the cell's COST |
| GridSearch.AStar | 1/implemented_agents.py:92-114 | the outcome is sound; with a consistent heuristic the path found is no heavier than any walk from the start to the goal, every finalised cell's COST is no more than any walk to it and is the weight of its PARENT walk, so it is the cheapest walk's weight, and seened lists the cells in non-decreasing COST + h |
| GridSearch.AStarOrder | 1/implemented_agents.py:98-112 | a pass of A* keeps seened in non-decreasing COST + h, since a popped tuple's f is no less than any finalised cell's |
| GridSearch.LoCarries | 1/implemented_agents.py:98-112 | along a walk a consistent heuristic never lets prefix weight plus h fall below a bound it once reached |
| GridSearch.CellShortest | 1/implemented_agents.py:98-112 | under a consistent heuristic any finalised cell's COST is no more than the weight of any walk to it, also when the walk passes the goal |
| GridSearch.AStarCosts | 1/implemented_agents.py:97-112 | the A* loop invariant gives every finalised cell a COST no more than any walk to it |
| GridSearch.AStarLoop | 1/implemented_agents.py:97-112 | the loop ends with the goal finalised or the heap empty, keeping the frontier invariant, or crashes at a non-goal cell without table entry |
| GridSearch.AStarShortest | 1/implemented_agents.py:98-112 | under a consistent heuristic the finalised goal's COST is no more than the weight of any walk to it |
| GridSearch.Ucs | 1/implemented_agents.py:122-143 | the outcome is sound, the path found is no heavier than any walk from the start to the goal, every finalised cell's COST is no more than any walk to it and is the weight of its PARENT walk, so it is the minimum sum of edge costs, and seened lists the cells in non-decreasing COST |
| GridSearch.Bfs | 1/implemented_agents.py:5-22 | the outcome is sound, every finalised cell's COST is its PARENT's COST plus the table price and the weight of its PARENT walk, and the path found has no more cells than any walk from the start to the goal |
| GridSearch.BfsLoop | 1/implemented_agents.py:9-20 | the FIFO loop keeps the level invariant until the goal is finalised or the list empties |
| GridSearch.BfsShortest | 1/implemented_agents.py:7-20 | a path found by BFS has the minimum number of steps |
| GridIddfs.StepNeighbours | 1/agent.py:32-49 | a step of the depth-first search is exactly a move to one of get_neighbors |
| GridIddfs.VisitKeeps | 1/implemented_agents.py:30-32 | recording a point keeps the search good: no cell twice, costs one more than the parent's, each parent a neighbour |
| GridIddfs.DfsFrom | 1/implemented_agents.py:26-39 | limit_dfs records the point iff its depth is within the limit, never re-enters a visited cell, and returns a depth only after recording the goal last at cost depth+1 |
| GridIddfs.DfsLoop | 1/implemented_agents.py:35-39 | the neighbour loop keeps the search good and stops at the first successful child |
| GridIddfs.DfsTry | 1/implemented_agents.py:36-39 | a neighbour is tried only when not yet visited |
| GridIddfs.LimitDfs | 1/implemented_agents.py:26-39 | a run from the root returns a depth iff it visited the goal, and every visited cell has depth at most the limit |
| GridIddfs.GoodRanked | 1/implemented_agents.py:30-32 | the parents recorded by one run lead back to its root, costs decreasing, so extract_path terminates |
| GridIddfs.GoalMeets | 1/implemented_agents.py:73-83 | when the start-side run reaches the goal the two runs meet at the goal |
| GridIddfs.SameCellMeets | 1/implemented_agents.py:67-84 | when start equals goal the first round meets |
| GridIddfs.ApartUpTo | 1/implemented_agents.py:82-85 | a round without a meeting extends the rounds known to be apart by one |
| GridIddfs.Trail | 1/implemented_agents.py:80-81 | all_visited gains both runs of each round; after l rounds it holds at least 2·l cells |
| GridIddfs.Rising | 1/implemented_agents.py:30-32 | along a PARENT chain from the root the k-th cell has cost k+1 |
| GridIddfs.Falling | 1/implemented_agents.py:30-32 | along a PARENT chain into the root the cell k steps before it has cost k+1 |
| GridIddfs.ExtractPathRe | 1/implemented_agents.py:43-53 | the goal-side half runs from the meeting cell to the goal along the goal run's parents, and COST of every later cell becomes COST[meet]+1 |
| GridIddfs.WalkBack | 1/implemented_agents.py:47-51 | following the goal run's parents from the meeting cell ends at the goal |
| GridIddfs.Reprice | 1/implemented_agents.py:50-52 | the repriced cost map keeps every old key, adds the walked cells, and gives exactly those the new value |
| GridIddfs.FrontHalf | 1/implemented_agents.py:55-63 | the start-side half has at most limit+1 cells, its steps are neighbour moves, and the i-th cell costs i+1 |
| GridIddfs.BackHalf | 1/implemented_agents.py:43-53 | the goal-side half has at most limit+1 cells and each step is a reversed neighbour move |
| GridIddfs.JoinSpliced | 1/implemented_agents.py:88 | the joined path starts at start, ends at goal, has the meeting cell ending the first half and starting the second, each half at most limit+1 cells following neighbour moves |
| GridIddfs.JoinPriced | 1/implemented_agents.py:87-88 | after the join COST gives the first half's cells their depth+1 and the second half's cells COST[meet]+1 |
| GridIddfs.Join | 1/implemented_agents.py:87-88 | the returned path is the start→meet chain followed by the meet→goal chain, the meeting cell twice, and COST is priced as above |
| GridIddfs.Rounds | 1/implemented_agents.py:67-85 | the limit starts at 1 and grows by 1; the loop stops at the first round whose runs meet, no earlier round having met |
| GridIddfs.Search | 1/implemented_agents.py:66-88 | a joined result is the spliced, priced path of the first meeting round; otherwise the runs never met within the fuel bound |
| MapEditor.Start | 1/generator.py:16-20 | the editor starts in obstacle mode with no pending gate on the environment's obstacles and teleporters |
| MapEditor.ToggleObstacle | 1/generator.py:77-82 | only the clicked cell's obstacle membership flips; teleporters, mode and pending gate are untouched |
| MapEditor.ToggleObstacleTwice | 1/generator.py:77-82 | toggling the same cell twice restores the editor |
| MapEditor.ToggleTeleporter | 1/generator.py:84-98 | on a teleporter it and its partner are removed and the pending gate cleared (KeyError when the partner is missing); elsewhere the cell becomes pending, or is linked both ways with a different pending gate, and the pending gate is cleared |
| MapEditor.TeleporterPaired | 1/generator.py:84-98 | toggle_teleporter keeps teleporters symmetric and irreflexive and the pending gate off the teleporters, and never raises on such a map |
| MapEditor.Click | 1/generator.py:111-124 | the obstacle guard as written: in obstacle mode the obstacles change iff the cell is an obstacle or not a teleporter; in teleport mode toggle_teleporter runs iff the cell is a teleporter or not an obstacle |
| MapEditor.ClickPaired | 1/generator.py:111-124 | a click keeps the map paired |
| MapEditor.EventsPaired | 1/generator.py:107-131 | the events of a frame keep the map paired and never raise |
| MapEditor.RunPaired | 1/generator.py:100-134 | the whole editing loop keeps the teleporters symmetric and irreflexive |
| MapEditor.PendingGateBecomesObstacle | 1/generator.py:114-118 | as written, a pending gate can be made an obstacle and then paired, so a teleporter ends on an obstacle |
| MapEditor.ClickSafe | 1/generator.py:114-124 | the corrected guard: in obstacle mode a teleporter or the pending gate never becomes an obstacle |
| MapEditor.ClickSafeClean | 1/generator.py:114-124 | with the corrected guard a click keeps teleporters and the pending gate off obstacles |
| MapEditor.EventsClean | 1/generator.py:107-131 | so do a frame's events |
| MapEditor.RunClean | 1/generator.py:100-134 | so does the whole editing loop |
| MapEditor.SavePairs | 1/generator.py:139-143 | save_map writes each entry [k, v] with k before v, so each linked pair appears once with the smaller cell first |
| MapEditor.SavedDisjoint | 1/generator.py:139-143 | the saved pairs of a symmetric irreflexive map share no cell |
| MapEditor.SavedEntry | 1/generator.py:139-143 | every teleporter appears in some saved pair together with its partner |
| MapEditor.LoadedCovers | 1/env.py:55-60 | loading the saved pairs restores every link of the map |
| MapEditor.LoadedWithin | 1/env.py:55-60 | loading the saved pairs adds no cell that was not a teleporter |
| MapEditor.SaveLoad | 1/generator.py:139-143 | load_teleports of what save_map writes is the teleporter map itself |
| XOBoard.Opponent | AI-Project/AI-Project/game.py:23-28 | the other player is never the same player |
| XOBoard.GameLines | AI-Project/AI-Project/game.py:100-128 | check_winner scans 2N+2 lines: every row, column and both diagonals |
| XOBoard.FirstFull | AI-Project/AI-Project/game.py:100-128 | the line found is the first listed line full of the player's mark, no earlier line being full; none is found iff no listed line is full |
| XOBoard.GameWinner | AI-Project/AI-Project/game.py:95-130 | a winner only for a complete row, column or diagonal of one symbol, X checked before O; the winning line is the N coordinates of the winner's first full line in rows, columns, diagonal, anti-diagonal order |
| XOBoard.FullIffNoEmpty | AI-Project/AI-Project/game.py:132-137 | the board is full iff no cell is empty |
| XOGame.NewGame | AI-Project/AI-Project/game.py:11-21 | sizes outside 3..5 are rejected; a new game has an all-empty board, X to move, no winner, no last move |
| XOGame.SwitchPlayer | AI-Project/AI-Project/game.py:27-28 | the player index alternates between 0 and 1 and nothing else changes |
| XOGame.SwitchTwice | AI-Project/AI-Project/game.py:27-28 | switching twice restores the game |
| XOGame.UpdateWinner | AI-Project/AI-Project/game.py:92-130 | the winner is set iff some line is full, X before O, with the winning line of N cells |
| XOGame.TryMove | AI-Project/AI-Project/game.py:63-93 | apply_move is refused and changes nothing exactly when there is a winner or the selection or target is invalid; a rim coordinate in -N..-1 counts from the end as Python indexing does; on success the target holds the player, and for an on-board selection the opponent's count is unchanged and no empty cell is gained |
| XOGame.GameShift | AI-Project/AI-Project/game.py:75-90 | the loops of apply_move, Python indexing included, keep the board square and leave the mark at the target |
| XOGame.LoopUpCells | AI-Project/AI-Project/game.py:80-81 | the upward loop moves each cell from the source up to just before the target one place towards the source and leaves the rest |
| XOGame.LoopDownCells | AI-Project/AI-Project/game.py:77-78 | the downward loop moves each cell from just after the target up to the source one place away from the target and leaves the rest |
| XOGame.LoopsShiftLine | AI-Project/AI-Project/game.py:75-90 | for on-board indices, the loop followed by the mark write is the agents' copy-based line shift |
| XOGame.GameShiftAgrees | AI-Project/AI-Project/game.py:75-90 | for an on-board selection, game.py's in-place shift and the agents' apply_move give the same board |
| XOGame.GameShiftOccupancy | AI-Project/AI-Project/game.py:75-90 | for an on-board selection the shift keeps the opponent's count and gains no empty cell |
| XOGame.TargetHoldsMark | AI-Project/AI-Project/game.py:75-90 | after the shift the target cell holds the player's mark |
| XOGame.ShiftInPlace | AI-Project/AI-Project/game.py:75-90 | the in-place loops of apply_move produce the same board as the agents' copy-based apply_move |
| XOGame.ShiftRowInPlace | AI-Project/AI-Project/game.py:75-90 | the row loop shifts the segment one cell towards the source and places the mark |
| XOGame.ShiftColumnInPlace | AI-Project/AI-Project/game.py:82-90 | the column loop shifts the segment one cell towards the source and places the mark |
| XOGame.PullDown | AI-Project/AI-Project/game.py:83-85 | when the target row is above the source, each row from the source up to just below the target takes the cell above it in the column; every other cell is unchanged |
| XOGame.PullUp | AI-Project/AI-Project/game.py:86-88 | when the target row is below the source, each row from the source down to just above the target takes the cell below it in the column; every other cell is unchanged |
| AgentUtils.RimFrom | AI-Project/AI-Project/agent_utils.py:17-22 | the rim scan lists exactly the rim cells, each once |
| AgentUtils.Keep | AI-Project/AI-Project/agent_utils.py:27-31 | the split keeps exactly the listed cells holding the wanted value |
| AgentUtils.Selections | AI-Project/AI-Project/agent_utils.py:6-38 | the selections are exactly the cells game.py's is_valid_selection accepts, without duplicates |
| AgentUtils.Targets | AI-Project/AI-Project/agent_utils.py:60-76 | targets are drawn from the row ends and column ends, exclude the source, contain no duplicates, and are exactly game.py's valid targets |
| AgentUtils.MovesFrom | AI-Project/AI-Project/agent_utils.py:60-76 | one move per target of a source |
| AgentUtils.MovesOf | AI-Project/AI-Project/agent_utils.py:58-78 | the moves of all sources, without duplicates |
| AgentUtils.AllValidMoves | AI-Project/AI-Project/agent_utils.py:41-78 | the generated moves are exactly those game.py accepts, without duplicates, and empty when no selection exists |
| AgentUtils.ShiftLine | AI-Project/AI-Project/agent_utils.py:84-92 | the shifted line has the same length and the same contents except that the source's value is traded for the mark |
| AgentUtils.ShiftLineCells | AI-Project/AI-Project/agent_utils.py:84-92 | cell by cell: the segment moves one step towards the source, the target holds the mark, cells outside the segment are unchanged |
| AgentUtils.BoardMsSetColumn | AI-Project/AI-Project/agent_utils.py:93-101 | writing a column changes the board's contents by exactly the column's old and new values |
| AgentUtils.ApplyMove | AI-Project/AI-Project/agent_utils.py:80-103 | the new board is square of the same size and its contents trade the source's value for the mark |
| AgentUtils.OccupancyNeverDrops | AI-Project/AI-Project/agent_utils.py:80-103 | a valid move never changes the opponent's count, never adds an empty cell and never loses a mark of the player |
| AgentUtils.Uniform | AI-Project/AI-Project/agent_utils.py:109-117 | a line's symbol is returned iff the line is full of it |
| AgentUtils.Interleaved | AI-Project/AI-Project/agent_utils.py:108-112 | the loop visits each row and each column from i on |
| AgentUtils.FirstUniform | AI-Project/AI-Project/agent_utils.py:106-118 | the symbol returned is that of the first scanned line full of one symbol, no earlier line being full of either; None iff no scanned line is full |
| AgentUtils.CheckOrder | AI-Project/AI-Project/agent_utils.py:106-117 | the scan order (row i, column i for each i, then the two diagonals) lists exactly the board's lines |
| AgentUtils.CheckWinner | AI-Project/AI-Project/agent_utils.py:106-118 | check_winner returns the symbol of the first full line in the order row 0, column 0, row 1, column 1, …, diagonal, anti-diagonal, and None iff no line is full |
| AgentUtils.FirstUniformAll | AI-Project/AI-Project/agent_utils.py:106-118 | scanning the interleaved rows, columns and diagonals covers every line |
| AgentUtils.WinnersAgree | AI-Project/AI-Project/agent_utils.py:106-118 | when only one player can have a line, agent_utils' check_winner and game.py's check_winner agree |
| XOEval.ScanIsLongest | AI-Project/AI-Project/401243133.py:101-127 | the counting scan of max_contiguous returns the length of the longest run of the symbol |
| XOEval.LongestRun | AI-Project/AI-Project/401243133.py:105-109 | the longest run of a line exists and bounds every run |
| XOEval.MaxRunOver | AI-Project/AI-Project/401243133.py:101-127 | the maximum over the scanned lines bounds every line's longest run and is reached by one of them |
| XOEval.MaxContiguous | AI-Project/AI-Project/basic_agent.py:72-98 | max_contiguous lies in [0, N] and equals the longest run of the symbol in any row, column or main diagonal |
| XOEval.LineDiff | AI-Project/AI-Project/basic_agent.py:64-69 | evaluate lies in [-N, N] |
| XOEval.LineDiffAntisymmetric | AI-Project/AI-Project/401243133.py:163-168 | evaluate3 and basic_agent's evaluate are antisymmetric in the player |
| XOEval.DistanceBound | AI-Project/AI-Project/401243133.py:129-138 | a cell's distance from the centre is at most N, below N on odd boards, so every weight is non-negative |
| XOEval.RowDensity | AI-Project/AI-Project/401243133.py:129-138 | a row's density (N minus the distance to the centre, summed over the cells holding the symbol) is between its count of the symbol (odd N) and N times that count |
| XOEval.RowsDensity | AI-Project/AI-Project/401243133.py:129-138 | the same bounds for the rows from r on |
| XOEval.CenterDensity | AI-Project/AI-Project/401243133.py:129-138 | center_density is non-negative, at most N times the symbol's count, and 0 without the symbol |
| XOEval.RowDensityWrite | AI-Project/AI-Project/401243133.py:132-137 | writing one cell of a row changes the row's density from any column at or before it by the new cell's weight minus the old one's, and leaves it unchanged from any later column |
| XOEval.RowsDensityWrite | AI-Project/AI-Project/401243133.py:131-137 | the same for the rows from r on: only the written row's term changes |
| XOEval.DensityWrite | AI-Project/AI-Project/401243133.py:129-138 | writing y over one cell changes center_density by exactly what y adds there minus what the old content added, so the density is the sum of independent per-cell weights |
| XOEval.LineMetrics | AI-Project/AI-Project/401243133.py:154-160 | a single line adds at most one to threats plus forks (N-1 and N-2 marks exclude each other) and at most one to disruption |
| XOEval.MetricsOver | AI-Project/AI-Project/401243133.py:140-161 | the metrics are non-negative and bounded by the number of scanned lines |
| XOEval.CountMetrics | AI-Project/AI-Project/401243133.py:140-161 | threats, forks and disruption are exactly the numbers of the 2N+2 distinct lines holding N-1 of the symbol, N-2 of it, and both symbols; each lies in [0, 2N+2] |
| XOEval.MetricsTally | AI-Project/AI-Project/401243133.py:154-160 | over a list of distinct lines each running tally equals the size of the set of lines of its kind |
| XOEval.CountAtMost | AI-Project/AI-Project/401243133.py:129-138 | a board holds at most N·N copies of a symbol |
| XOEval.DensityAtMost | AI-Project/AI-Project/401243133.py:129-138 | on boards up to 5×5 the density is at most 125 |
| XOEval.EvaluateBounded | AI-Project/AI-Project/401243133.py:77-96 | the weighted evaluate lies in [-5080, 1900] for N in 3..5 |
| XOEval.MaxRunSwap | AI-Project/AI-Project/401243133.py:101-127 | exchanging X and O on the board exchanges the longest runs of the two symbols over any set of lines |
| XOEval.LineCountSwap | AI-Project/AI-Project/401243133.py:154-160 | a line of the swapped board holds as many of each symbol as the original line held of the other |
| XOEval.MetricsSwap | AI-Project/AI-Project/401243133.py:140-161 | the metrics of the swapped board for the opponent equal the metrics of the board for the player |
| XOEval.RowsDensitySwap | AI-Project/AI-Project/401243133.py:129-138 | the density of the swapped symbol on the swapped board equals the original density |
| XOEval.PartsSwap | AI-Project/AI-Project/401243133.py:87-89 | max_contiguous, count_metrics and center_density for p on the board equal those for the other player on the swapped board |
| XOEval.EvaluateSwap | AI-Project/AI-Project/401243133.py:77-96 | evaluate does not depend on which symbol is which: the swapped board evaluated for the opponent scores the same |
| XOAgents.EvalBounded | AI-Project/AI-Project/401243133.py:26 | both agents' evaluations lie strictly between their loss and win scores |
| XOAgents.RaiseTo | AI-Project/AI-Project/basic_agent.py:48 | alpha = max(alpha, score) over the extended integers: the result is alpha or score, no smaller than either, and alpha itself unless alpha is below score |
| XOAgents.LowerTo | AI-Project/AI-Project/basic_agent.py:58 | beta = min(beta, score) over the extended integers: the result is beta or score, no larger than either, and beta itself unless beta is above score |
| XOAgents.ValidMovesPlayable | AI-Project/AI-Project/agent_utils.py:41-78 | every generated move can be applied to the board |
| XOAgents.AlphaBeta | AI-Project/AI-Project/basic_agent.py:27-61 | the value lies between the loss and win scores at that depth, as terminal scores 1000+depth / -1000-depth (10000+10·depth / -100000-10·depth) fix |
| XOAgents.Search | AI-Project/AI-Project/basic_agent.py:42-61 | the move loop's value lies in the same bounds |
| XOAgents.ChildScore | AI-Project/AI-Project/basic_agent.py:45-46 | a child's score, searched d plies deep, lies between the loss and win scores for depth d |
| XOAgents.AlphaBetaFailSoft | AI-Project/AI-Project/basic_agent.py:27-61 | alpha-beta is fail-soft against plain minimax over get_all_valid_moves: exact inside the window, a bound outside |
| XOAgents.DeepFailSoft | AI-Project/AI-Project/basic_agent.py:42-61 | when no one has won and a move exists, the search above the horizon is fail-soft against minimax |
| XOAgents.LeafSame | AI-Project/AI-Project/basic_agent.py:28-40 | a decided board, the horizon and a player without moves give alpha-beta and minimax the same leaf score |
| XOAgents.SearchFailSoft | AI-Project/AI-Project/basic_agent.py:42-61 | the max and min loops with their cut-offs are fail-soft against the best child value |
| XOAgents.ChildFailSoft | AI-Project/AI-Project/basic_agent.py:45-46 | each child's search is fail-soft against its minimax value |
| XOAgents.FullWindow | AI-Project/AI-Project/basic_agent.py:27-61 | with window (-∞, +∞) alpha-beta equals minimax |
| XOAgents.MoveScore | AI-Project/AI-Project/401243133.py:29-30 | a move's score is the minimax value of the position after it |
| XOAgents.Choose | AI-Project/AI-Project/401243133.py:28-34 | the chosen move is one of the moves, and nothing is chosen only from an empty list |
| XOAgents.AgentMove | AI-Project/AI-Project/401243133.py:11-36 | (0,0,0,0) iff there is no valid move; otherwise a member of get_all_valid_moves |
| XOAgents.ChooseBest | AI-Project/AI-Project/basic_agent.py:16-22 | without a random override the kept score is the largest seen |
| XOAgents.ChosenIndex | AI-Project/AI-Project/basic_agent.py:16-22 | without an override the loop keeps a move of the largest score |
| XOAgents.AgentMoveMaximal | AI-Project/AI-Project/basic_agent.py:11-24 | without an override agent_move returns a move of maximal minimax value |
| XOReplay.DrawRule | AI-Project/AI-Project/main.py:68-71 | without a winner at MAX_TURNS (250) turns the winner becomes Draw; nothing else changes |
| XOReplay.DrawEndsGame | AI-Project/AI-Project/main.py:68-71 | after the draw every move is refused |
| XOReplay.Symbol | AI-Project/AI-Project/main.py:374-379 | only "X" and "O" are player symbols |
| XOReplay.Play | AI-Project/AI-Project/main.py:376-387 | the player is forced to the recorded symbol, the move applied, and the player switched unless there is a winner; IndexError (None) exactly for a rim coordinate below -N or past the edge while the game is open |
| XOReplay.NegativeIndexWraps | AI-Project/AI-Project/game.py:44-90 | on a fresh 3×3 board, X selecting (0, -1) and pushing to (0, 0) is accepted: (0, 2) takes the old (0, 0), (0, 0) takes X, and O moves next |
| XOReplay.StepMain | AI-Project/AI-Project/main.py:368-387 | entries with a missing field or an unknown symbol change nothing |
| XOReplay.StepUtils | AI-Project/AI-Project/utils.py:229-241 | an unknown symbol changes nothing; an incomplete entry raises |
| XOReplay.EmptyHasNoLine | AI-Project/AI-Project/main.py:355-360 | an empty board has no full line |
| XOReplay.PlayKeepsShown | AI-Project/AI-Project/main.py:381-387 | a replayed move keeps the shown winner consistent with the board |
| XOReplay.ResetMain | AI-Project/AI-Project/main.py:355-360 | main.py resets every cell, the winner, the winning line and the player index |
| XOReplay.ResetUtils | AI-Project/AI-Project/utils.py:224-227 | utils.py resets the cells, the winner and the player index but keeps the winning line |
| XOReplay.RunMainSnoc | AI-Project/AI-Project/main.py:363-387 | replaying one more entry is one more step |
| XOReplay.RunUtilsSnoc | AI-Project/AI-Project/utils.py:229-241 | the same for utils.py |
| XOReplay.RunMainFails | AI-Project/AI-Project/main.py:363-387 | a crash in a prefix ends the replay |
| XOReplay.RunUtilsFails | AI-Project/AI-Project/utils.py:229-241 | the same for utils.py |
| XOReplay.RunMainShown | AI-Project/AI-Project/main.py:363-387 | the winner and winning line stay consistent with the board through a replay |
| XOReplay.RunUtilsShown | AI-Project/AI-Project/utils.py:229-241 | the winner stays consistent with the board through a replay |
| XOReplay.Applied | AI-Project/AI-Project/main.py:363-365 | at most min(target, len(moves)) entries are processed |
| XOReplay.ApplyReplayMain | AI-Project/AI-Project/main.py:353-387 | the loop computes the replay, and any target at or beyond the end gives the same result as the end |
| XOReplay.ApplyReplayUtils | AI-Project/AI-Project/utils.py:221-241 | the loop computes the replay, given a target within the recording |
| XOReplay.ReplayForgets | AI-Project/AI-Project/main.py:353-387 | main.py's replay does not depend on the game it starts from |
| XOReplay.UtilsKeepsStaleLine | AI-Project/AI-Project/utils.py:224-227 | utils.py's replay to 0 keeps a stale winning line where main.py's clears it |
| XOReplay.FirstKeyAt | AI-Project/AI-Project/main.py:310-323 | only the first key press of a frame counts |
| XOReplay.MainReplayKeys | AI-Project/AI-Project/main.py:309-323 | the index stays in [0, len(moves)]; RIGHT advances one and marks the end, LEFT retreats one and clears the mark, and the shown game is the replay to the index |
| XOReplay.UtilsKey | AI-Project/AI-Project/utils.py:167-182 | RIGHT advances only below len and sets replay_finished on reaching len; LEFT retreats only above 0 and clears it; the game shown is the replay to the new index |
| XOReplay.UtilsReplayKeys | AI-Project/AI-Project/utils.py:167-182 | the index stays within the recording and moves by at most one per key |
| NQueens.Columns | 2/N-Queen-Sample.py:14-40 | the candidate placements are exactly the sequences of k columns in 0..n-1 |
| NQueens.BuildDomains | 2/N-Queen-Sample.py:46-54 | each row 0..n-1 gets exactly the columns j with (i, j) not an obstacle |
| NQueens.InitialInv | 2/N-Queen-Sample.py:34-38 | the initial domains describe every solution and the extensions of the empty assignment are the solutions |
| NQueens.SelectUnassigned | 2/N-Queen-Sample.py:57-63 | None iff every row is assigned; otherwise the first unassigned row of minimal domain size |
| NQueens.IsConsistent | 2/N-Queen-Sample.py:66-74 | true iff no assigned queen shares a column or a diagonal with (row, col) |
| NQueens.ForwardCheck | 2/N-Queen-Sample.py:77-111 | fresh domains with the same rows; assigned rows untouched; an unassigned row keeps a column of its domain iff the new queen does not attack it; the flag is true iff some unassigned row ends empty |
| NQueens.ForwardCheckKept | 2/N-Queen-Sample.py:95-107 | for an unassigned row a column survives forward checking iff it was in the row's domain and the new queen does not attack it |
| NQueens.KeepsColumn | 2/N-Queen-Sample.py:95-107 | if a row's domain held exactly the free columns consistent with the assignment, after placing the queen it holds exactly those consistent with the extended assignment |
| NQueens.ForwardCheckKeeps | 2/N-Queen-Sample.py:90-111 | after placing a queen the domains describe exactly the consistent extensions |
| NQueens.Place | 2/N-Queen-Sample.py:123-129 | a placement from the domain is consistent; a wiped-out domain means no extension |
| NQueens.ExtWithAdd | 2/N-Queen-Sample.py:122-132 | the count over a row's columns is the sum of the counts per column |
| NQueens.ExtWithAll | 2/N-Queen-Sample.py:123-130 | the columns of a row's domain cover all extensions |
| NQueens.CompleteHasOne | 2/N-Queen-Sample.py:117-120 | a complete assignment is counted once |
| NQueens.EmptyDomainNone | 2/N-Queen-Sample.py:126-129 | an empty domain admits no extension |
| NQueens.Backtrack | 2/N-Queen-Sample.py:114-132 | backtrack returns the number of solutions extending the assignment, and leaves the assignment exactly as it found it |
| NQueens.TryColumn | 2/N-Queen-Sample.py:124-131 | one column of the loop adds exactly the solutions that put row r's queen there, and the row is deleted again afterwards |
| NQueens.CountNQueens | 2/N-Queen-Sample.py:14-40 | the count is the number of placements of one queen per row on non-obstacle squares with no two sharing a column or diagonal |
| GraphColouring.Endpoints | 2/Q3_raw.py:13-16 | the nodes are exactly the edge endpoints |
| GraphColouring.Adjacency | 2/Q3_raw.py:19-22 | each node lists every neighbour once per edge joining them |
| GraphColouring.AddEdgeCounts | 2/Q3_raw.py:21-22 | appending one edge (u, v) makes u and v keys and adds exactly one listing of v under u and one of u under v (two under u for a self-loop); all other lists are unchanged |
| GraphColouring.LinksSymmetric | 2/Q3_raw.py:19-22 | adjacency is symmetric |
| GraphColouring.LinksPositive | 2/Q3_raw.py:19-22 | a node lists another iff an edge joins them |
| GraphColouring.Palette | 2/Q3_raw.py:25 | the initial domain is 1..num_colors in order |
| GraphColouring.NewCsp | 2/Q3_raw.py:12-25 | nodes are the endpoints, adjacency is symmetric, every domain is 1..M, so no domain lists a colour twice |
| GraphColouring.PaletteDistinct | 2/Q3_raw.py:25 | the palette lists each colour at most once |
| GraphColouring.DistinctShrinks | 2/Q3_raw.py:47-53 | domains that only lose colours keep listing none twice |
| GraphColouring.DiffersIff | 2/Q3_raw.py:50 | a colour has support iff some colour of the other domain differs from it |
| GraphColouring.Revise | 2/Q3_raw.py:47-53 | revise only removes colours: c leaves xi iff no colour in xj's domain differs from it, and it reports whether it removed anything |
| GraphColouring.ReviseInPlace | 2/Q3_raw.py:47-53 | the in-place loop equals Revise, even when xi and xj are the same node |
| GraphColouring.Ac3 | 2/Q3_raw.py:35-45 | ac3 never adds colours, keeps the nodes, and on graphs without self-loops keeps every proper colouring the domains admitted; from domains listing no colour twice it returns such domains |
| GraphColouring.SelectUnassigned | 2/Q3_raw.py:55-61 | None iff every node is coloured; otherwise the first uncoloured node of fewest remaining colours |
| GraphColouring.Conflicts | 2/Q3_raw.py:67-69 | a colour counts 0 conflicts iff no uncoloured neighbour still has it |
| GraphColouring.SortBy | 2/Q3_raw.py:71 | the sort is a permutation ordered by the key |
| GraphColouring.OrderValues | 2/Q3_raw.py:63-71 | order_values is a permutation of the node's domain in non-decreasing number of conflicts |
| GraphColouring.IsConsistent | 2/Q3_raw.py:73-77 | true iff no coloured neighbour has that colour |
| GraphColouring.ForwardCheck | 2/Q3_raw.py:79-87 | only uncoloured neighbours change |
| GraphColouring.ForwardCheckReports | 2/Q3_raw.py:79-87 | the returned list is exactly the uncoloured neighbours that had the colour |
| GraphColouring.ForwardCheckShrinks | 2/Q3_raw.py:79-87 | forward checking only removes colours |
| GraphColouring.ForwardCheckClears | 2/Q3_raw.py:79-87 | each uncoloured neighbour whose domain lists no colour twice no longer has the colour |
| GraphColouring.ForwardCheckClearsDistinct | 2/Q3_raw.py:79-87 | on domains listing no colour twice the colour leaves every uncoloured neighbour, and the domains still list none twice |
| GraphColouring.SearchClears | 2/Q3_raw.py:79-87 | on domains with the colours of duplicate-free domains, as backtrack holds them after ac3 and restores, forward checking removes the colour from every uncoloured neighbour of the node |
| GraphColouring.Restore | 2/Q3_raw.py:108-110 | the undo puts the colour back once per reported change |
| GraphColouring.RestoreUndoesForwardCheck | 2/Q3_raw.py:108-110 | undoing a forward check gives every domain back the same colours |
| GraphColouring.Backtrack | 2/Q3_raw.py:93-112 | a found colouring extends the assignment, colours every node in 1..M and gives distinct adjacent nodes different colours; after a failure the domains again hold the same colours |
| GraphColouring.TryColour | 2/Q3_raw.py:99-111 | one colour tried: consistent, forward-checked, recursed into, and undone on failure |
| GraphColouring.Solve | 2/Q3_raw.py:27-33 | a returned mapping colours every node in 1..M and distinct adjacent nodes differ |
| Ipv4Split.Check | 2/1.py:1-6 | check holds iff the string is a dec-octet of section 3.2.2 of RFC 3986: no leading zero on more than one digit, value below 256 |
| Ipv4Split.CheckIsDecOctet | 2/1.py:1-6 | the leading-zero and value test of check is the dec-octet rule |
| Ipv4Split.ThreeDigitsBelow256 | 2/1.py:4 | a three-digit string is below 256 exactly as the dec-octet alternatives allow |
| Ipv4Split.CutsAreDecOctets | 2/1.py:11-25 | every counted split has all four parts passing check |
| Ipv4Split.ThirdLeftCounts | 2/1.py:18 | the inner range from k on meets exactly the cuts between (i, j, k) and (i, j+1, 0) in loop order |
| Ipv4Split.SecondLeftCounts | 2/1.py:14 | the middle range from j on meets exactly the cuts between (i, j, 0) and (i+1, 0, 0) |
| Ipv4Split.FirstLeftCounts | 2/1.py:10 | the outer range from i on meets exactly the cuts from (i, 0, 0) on |
| Ipv4Split.AllCounted | 2/1.py:10-25 | the three nested ranges together meet every cut once |
| Ipv4Split.ThirdLeftRejected | 2/1.py:16-17 | skipping a rejected second part skips no cut |
| Ipv4Split.SecondLeftRejected | 2/1.py:12-13 | skipping a rejected first part skips no cut |
| Ipv4Split.CountCut | 2/1.py:19-25 | one k adds one iff (i, j, k) is a cut whose four parts are dec-octets |
| Ipv4Split.CountThird | 2/1.py:18-25 | the innermost loop counts the cuts (i, j, k) over its range, at most 3 |
| Ipv4Split.CountRound | 2/1.py:15-25 | one j adds the cuts (i, j, k), none when the second part is rejected |
| Ipv4Split.CountSecond | 2/1.py:14-25 | the middle loop counts the cuts (i, j, k) over its ranges, at most 9 |
| Ipv4Split.CountFirst | 2/1.py:11-25 | one i adds the cuts (i, j, k), none when the first part is rejected |
| Ipv4Split.Count | 2/1.py:7-27 | count is the number of cuts i<j<k with the first three parts of length 1..3, a non-empty fourth, and all four parts dec-octets; it is at most 27, and 0 for strings shorter than 4 |

## Left out

- File and JSON input and output are not modelled. load_obstacles, the file
  read of load_teleports, save_map's json.dump, and replay saving and loading
  are replaced by the data they read or write. The teleport entries are
  given as a list of cell lists.
- pygame is not modelled. That covers drawing, fonts, the clock, draw_grid,
  get_pair_color, ui.py, plotting.py, and the main loops of 1/main.py and of
  AI-Project's main.py. The editor's input is a list of frames, and each
  frame carries the mouse's grid cell (mouse_pos // 20) instead of pixels.
  The print on a mode switch is dropped.
- The agent turn handling in main.py and utils.py is not modelled, because
  it relies on multiprocessing, queues and timeouts. agent_loader.py (a
  dynamic import), random_agent.py and w.py (which imports modules that are
  not part of this model) are also out.
- The module-level input() drivers of 2/*.py are left out.
- teleport_cost_quadratic is replaced by the parameter `tc`. Its square root
  and its random factor in [0.5, 1.3] are not modelled, so nothing beyond
  non-negativity is assumed of its values.
- get_h is replaced by the parameter `h`.
- GridSearch.AStar: cost-minimality is proved only for a consistent `h`. The
  source's Euclidean get_h is not consistent with a 1.4 diagonal step
  (√2 > 1.4), so the source's A* need not return a cheapest path.
- GridSearch.Ucs: modelled as A* with the zero heuristic. ZeroOrder shows the
  two heap orders coincide. This works because A*'s f is then g, and its
  tuple (f, g, point, parent) orders like UCS's (cost, point, parent).
- Floating-point sums are integer hundredths. The source's float rounding of
  accumulated costs is not modelled.
- GridIddfs.Search: the source's `while True` never ends when the two
  searches never meet, for example when the goal is unreachable. The model
  bounds the rounds by a fuel `maxLimit` and reports `Exhausted` with the
  rounds known to be apart.
- GridIddfs: the meeting cell is any cell of the intersection, since
  `list(set(...))[0]` has no fixed order.
- GridIddfs.ExtractPathRe: its unused `costs_2` argument is dropped.
- Python's recursion limit on limit_dfs is not modelled.
- generate_random_teleports: random.shuffle becomes an input, namely any
  duplicate-free list of exactly the free cells.
- Set and dict iteration orders are parameters or fixed choices:
  - the key order of the teleporter dict in save_map;
  - the node order of the graph-colouring CSP;
  - the order of get_all_valid_moves' target set, which is candidate order
    without duplicates.
- save_map's obstacle list is not modelled beyond being the obstacle set.
- XOAgents.AgentMove: random.randint and random.choice become the
  parameters `roll` and `pick`. The datetime seeding is left out. The
  duplicate apply_move, check_winner and fast_copy_board of 401243133.py
  are textually identical to agent_utils.py's and share its model.
  fast_copy_board needs no model, since boards are immutable values.
- XOReplay.ReplayUtils, with XOReplay.ApplyReplayUtils: the replay of utils.py with a target beyond the
  recording raises IndexError. ReplayUtils requires the target to be within
  the recording, as handle_replay_keys guarantees.
- The unused GraphColoringCSP.restore (2/Q3_raw.py:89-91) is not modelled.
  backtrack undoes forward checking inline, which GraphColouring.Restore
  models.
- GraphColouring.Ac3: the kept-colourings property holds only on graphs
  without self-loops. An edge (x, x) lets revise empty a one-colour domain of x.
- Ipv4Split.Count: requires a string of ASCII digits. Python's int also
  accepts signs, spaces and underscores, and raises on other text. Those
  inputs are not modelled. Nor is the limit of Python 3.11 and later on
  converting more than 4300 digits: on such a string check(fourth) raises
  ValueError, where the model counts 0. Ipv4Split.Check shares the
  ASCII-digit requirement.
- XOGame.TryMove: requires the selection to be indexable while the game is
  open. An IndexError there is the None of XOReplay.Play, the one caller
  whose coordinates are not generated on the board. For a selection given
  with a negative coordinate, the contract states only that the target
  holds the mark. The opponent-count and empty-cell facts are proved for
  on-board selections, since the wrapped loop no longer moves a contiguous
  segment.
- XOReplay.StepUtils: an entry field that is JSON null and one that is
  missing are both `None`. In utils.py a missing key raises KeyError, while
  a null "player" reaches PLAYERS.index(None), whose ValueError is caught, so
  the entry is skipped. The model treats both as the KeyError.

## Findings

| source | as written | input that shows it | evidently intended | confidence | as-written member | corrected member |
|---|---|---|---|---|---|---|
| 1/generator.py:114-118 | in obstacle mode a cell that is neither an obstacle nor a teleporter becomes an obstacle, even when it is the pending gate; a later teleport-mode click then pairs the obstacle | from an empty map in obstacle mode: a frame at (1,1) with T, click, T, click, T, then a click at (2,2); (1,1) ends as an obstacle linked to (2,2) | teleporters and the pending gate never become obstacles | not executed | MapEditor.PendingGateBecomesObstacle | MapEditor.RunClean |
