# RoboRally turn engine, modelled in Dafny

This project models the core of a small Unity RoboRally clone. It covers:

- the facings of a robot and the turns between them (`Directions`);
- the 12 x 12 board, stored as a dictionary keyed by `y * 12 + x` (`TileMaps`);
- cell positions and their translation along a facing (`TilePositions`);
- the command hand and the program picker (`Commands`);
- the player object, with its command state, its cell and the static
  registry of connected players (`Players`);
- the server's game loop (`Engine`), proved against a pure description of
  what one turn sends to the players (`Turns`);
- the editor-side map builder (`MapBuilders`).

A game runs as follows. Each turn the server deals every registered player
the same hand of nine commands and asks for a program of five. Each player
picks hand indices with the digit keys and submits the program with return.
The server waits until every player is ready. It then runs steps 0 to 4. At
each step it first tells every player the step index. Then, player after
player in registry order, it reads that player's command for the step and
carries it out: a move sends one `Move` per cell, a turn sends one `Rotate`.
At the end it sends the step index 5 as an end marker. The victory check
always answers no, so the server deals the next turn at once.

Messages between server and clients are modelled as direct method calls.
Every game message the server sends to players (the deal, the step
announcements, the moves and the rotations) is recorded in an event log
(`GameManager.log`). The user-interface messages `RpcMessageClear`,
`RpcMessagePush` and `RpcEnablePlayer` are not recorded. The engine's methods
are proved to append exactly `TurnLog(views)` to that log, where `views` are
the players' ids, maps, facings, hands and programs at the start of the turn.
They are also proved to leave every robot at `Positions(cells, views, log)`:
its cell at the start of the turn (a `Cell`, an (x, y) pair) plus the cells
its own `Move` messages in the turn's log travel. The lemmas in `Turns` then
prove what that log contains and where it puts each robot.

The registry is the player dictionary with its entry slots. A removed player
frees its slot, and the next player to join takes the slot freed last, so
the order in which the server deals, announces and resolves is slot order,
not the order of joining (`Players.EnrolledOrder`, `Players.SlotReuse`).

Where the code differs from what its comments or evident intent suggest, the
model follows the code:

- A submitted program is stored and marked ready with no check of its length
  or its indices (`Player.CmdTurnValidateCommand`). The picker only produces
  valid programs (`Player.UpdateCheckInput` keeps `ValidPicks`). A program
  with an index outside the hand makes the list indexer throw during
  execution. The model takes that to end the game coroutine for good: no
  end marker, no next deal (`Turns.OutOfHandHalts`, `Turns.TurnCompletes`, phase `Halted`).
- The picker's length guard is checked once per frame, before the digit
  keys are scanned. Two new digit keys in the same frame are both added,
  even if that takes the program past its five steps
  (`Commands.SelectPressedTwoKeys`, `Commands.SelectPressedOverfill`).
  `Players.Player.SelectKeys` follows the code. The picker the guard
  intends, which stops at the count, is `Commands.SelectPressedCapped`; it
  agrees with the code wherever the code stays within the count.
- Backspace drops the last pick whenever no step is running, also after the
  program was submitted and the player is ready; the ready flag stays set
  (`Players.Player.UpdateCheckInput`).
- A player stands on no map until `RpcSetPosition` or `RpcMove` sets one, and
  the game loop calls neither before the first move. `SrvMovePlayer` reads
  the map of the player, so the first move of a robot that was never placed
  throws, and the model ends the game coroutine as for an out-of-hand index
  (`Turns.UnplacedMoveHalts`). `Turns.TurnCompletes` is stated for placed
  players.
- Movement never consults the board: there is no edge, wall, hole or robot
  check, and a robot can walk off the board (`Engine.GameManager.SrvMovePlayer`).
  `TilePosition.Offset` is not used by the game loop.
- Turning a robot sends the new facing for animation, but the player's
  `direction` field is never updated. Every later command of the turn uses
  the old facing (`Engine.GameManager.SrvRotatePlayer`).
- `TileMap.GetTileAt` answers null only off the board. On the board it uses
  the dictionary indexer, which throws `KeyNotFound` for a hole or for a
  terrain no prefab provides (`MapBuilders.BuiltLookup`).
- In `TileMapBuilder.BuildTileMap` the `continue` after `Add` is the last
  statement of the prefab loop, so it does not stop the loop. A second
  prefab of the same terrain adds the same key again and throws
  `DuplicateKey` (`MapBuilders.SharedTerrainThrows`).
- The game loop never leaves its loop and never clears `_running`, because
  `SrvCheckVictory` is constantly false.

The hand dealt each turn is the constant `Turns.Hand`; what it holds is
stated by `Turns.HandContents`.

## Model

| member | source | states |
|---|---|---|
| Directions.Left | Assets/_Scripts/Enums/Direction.cs:8-23 | the result is one quarter turn counter-clockwise on the cycle North, East, South, West |
| Directions.Right | Assets/_Scripts/Enums/Direction.cs:25-40 | the result is one quarter turn clockwise |
| Directions.Opposite | Assets/_Scripts/Enums/Direction.cs:42-57 | the result is a half turn |
| Directions.Rotation | Assets/_Scripts/Enums/Direction.cs:60-75 | the heading lies in (-180, 180] and equals 90 degrees per clockwise quarter from North, modulo 360 |
| Directions.LeftRightInverse | Assets/_Scripts/Enums/Direction.cs:8-40 | left and right undo each other |
| Directions.OppositeInvolution | Assets/_Scripts/Enums/Direction.cs:42-57 | the opposite of the opposite is the facing itself, and no facing is its own opposite |
| Directions.FourQuarterTurns | Assets/_Scripts/Enums/Direction.cs:8-57 | four lefts or four rights return to the start; two of either are the opposite |
| Directions.TurnsDistinct | Assets/_Scripts/Enums/Direction.cs:8-57 | left, right, opposite and the facing itself are four different facings |
| Directions.RotationQuarterTurns | Assets/_Scripts/Enums/Direction.cs:8-75 | turning right adds 90 degrees to the heading, left subtracts 90, a half turn adds 180 (modulo 360) |
| Directions.UnitSteps | Assets/_Scripts/Player.cs:267-283 | a one-cell move changes exactly one coordinate by one; a right turn rotates the step vector clockwise and a half turn reverses it |
| TileMaps.Key | Assets/_Scripts/TileMap.cs:13-14 | on the board the key lies in [0, 144) and gives back x as key mod 12 and y as key div 12 |
| TileMaps.KeyInjective | Assets/_Scripts/TileMap.cs:13-14 | two cells of the board never share a key |
| TileMaps.KeyOfCell | Assets/_Scripts/TileMapBuilder.cs:44-46 | every builder index i is the key of the cell (i mod 12, i div 12) on the board |
| TileMaps.TileMap.constructor | Assets/_Scripts/TileMap.cs:10 | a new map has an empty tile dictionary |
| TileMaps.TileMap.GetTileAt | Assets/_Scripts/TileMap.cs:12-18 | off the board: null; on the board: the stored tile, or KeyNotFound when the key is absent |
| TilePositions.GetTile | Assets/_Scripts/TilePosition.cs:7-9 | null off the board; on the board it succeeds exactly when the cell's key is stored, and then gives that tile |
| TilePositions.Shift | Assets/_Scripts/TilePosition.cs:11-40 | the position moved `distance` cells along the facing, on the same map |
| TilePositions.Offset | Assets/_Scripts/TilePosition.cs:11-40 | null exactly when the start is on the last row or column in the direction of travel; otherwise the shifted position |
| TilePositions.ShiftMovesOneCoordinate | Assets/_Scripts/TilePosition.cs:11-40 | a translation changes exactly one coordinate, by the distance, and keeps the map |
| TilePositions.OffsetUnitStep | Assets/_Scripts/TilePosition.cs:11-40 | for one cell from the board, Offset is null exactly when the step leaves the board, and a non-null answer is on the board |
| TilePositions.OffsetOverrunsBoard | Assets/_Scripts/TilePosition.cs:13-15 | two cells north from row 10 passes the guard and answers row 12, which is off the board |
| TilePositions.OffsetWithinBoard | Assets/_Scripts/TilePosition.cs:11-40 | null exactly when the destination is off the board, for every distance; otherwise the on-board shifted position |
| TilePositions.OffsetWithinBoardAgrees | Assets/_Scripts/TilePosition.cs:11-40 | the bounds-checked offset and the as-written `Offset` agree on every single-cell step from the board |
| Commands.SelectedCommand | Assets/_Scripts/Player.cs:213-222 | past the end of the program: None; otherwise the hand entry the program names; the list indexer's ArgumentOutOfRange exactly when that index is outside the hand |
| Commands.ValidPicksNeverThrow | Assets/_Scripts/Player.cs:213-222 | on a program of distinct in-hand indices the accessor never throws and step i is the i-th picked hand entry |
| Commands.SelectPressed | Assets/_Scripts/Player.cs:129-140 | scanning n digit keys keeps every pick and adds at most n more |
| Commands.SelectPressedExtends | Assets/_Scripts/Player.cs:129-140 | selecting keeps the program as a prefix, appends only pressed in-hand indices, and keeps the indices distinct and in the hand |
| Commands.SelectPressedOneKey | Assets/_Scripts/Player.cs:129-140 | one digit key appends its index exactly when it is in the hand and not yet picked |
| Commands.SelectPressedNoKey | Assets/_Scripts/Player.cs:129-140 | no digit key leaves the program unchanged |
| Commands.SelectPressedAtMostOneKey | Assets/_Scripts/Player.cs:129-140 | with at most one digit key, at most one index is appended, and it is the pressed one |
| Commands.SelectPressedTwoKeys | Assets/_Scripts/Player.cs:129-140 | two new digit keys in one frame are both appended, in index order, whatever the program's length |
| Commands.SelectPressedCapped | Assets/_Scripts/Player.cs:129-140 | the picker as its length guard intends it: scanning n keys keeps every pick and adds at most n more |
| Commands.SelectPressedCappedBounded | Assets/_Scripts/Player.cs:129-140 | the intended picker never takes a program past the command count |
| Commands.SelectPressedCappedAgrees | Assets/_Scripts/Player.cs:129-140 | wherever the picker as written stays within the count, the intended picker picks exactly the same indices |
| Commands.SelectPressedCappedTwoKeys | Assets/_Scripts/Player.cs:129-140 | with one place left and two new keys, the intended picker takes the smaller key and drops the larger |
| Commands.SelectPressedOverfill | Assets/_Scripts/Player.cs:129-140 | one place left and two new keys in one frame: the picker as written ends one past the count, the intended one at the count |
| Players.DecimalString | Assets/_Scripts/Player.cs:29 | the id prints as a nonempty string of decimal digits |
| Players.DecimalRoundTrip | Assets/_Scripts/Player.cs:29 | the printed id reads back as the id |
| Players.Player.constructor | Assets/_Scripts/Player.cs:163-167 | a new player has count 0, current step -1, is not ready, has an empty hand and program, and stands on no map |
| Players.Player.Start | Assets/_Scripts/Player.cs:23-39 | a duplicate id throws and changes nothing; otherwise the player enters the dictionary as Dictionary.Add places it (the slot freed last, else a new one at the end) and an empty name becomes "Player" followed by the id |
| Players.Player.OnDestroy | Assets/_Scripts/Player.cs:41-52 | the player's slot is freed; the registry is the old one without this player's id, in the same order |
| Players.Player.RpcTurnChooseCommand | Assets/_Scripts/Player.cs:169-182 | the hand and count are stored, the program emptied, no step runs, and the player is ready exactly when the count is 0 |
| Players.Player.RpcTurnExecuteCommand | Assets/_Scripts/Player.cs:184-193 | the current step is the index and the player is no longer ready |
| Players.Player.CmdTurnValidateCommand | Assets/_Scripts/Player.cs:195-201 | the submitted program is stored as it is and the player is ready |
| Players.Player.RpcTurnValidateCommand | Assets/_Scripts/Player.cs:203-211 | the player is ready |
| Players.Player.UpdateCheckInput | Assets/_Scripts/Player.cs:126-155 | selection only when the program was short at the frame's start, backspace drops the last pick while no step runs, return submits exactly a full program while no step runs and not yet ready; valid picks stay valid, and with one key a program never exceeds the count |
| Players.Player.SelectKeys | Assets/_Scripts/Player.cs:131-139 | the digit loop leaves exactly SelectPressed of the program, keeps valid picks valid, and adds at most one index with at most one key |
| Players.Player.RpcMove | Assets/_Scripts/Player.cs:262-284 | the player's map is the given one and its cell moves one step along the direction, unchecked |
| Players.Player.RpcSetPosition | Assets/_Scripts/Player.cs:247-260 | the player stands on the given map at the given cell |
| Players.Player.IsPlayerReady | Assets/_Scripts/Player.cs:224-227 | the player answers ready exactly when it counts as ready for the readiness barrier |
| Players.Without | Assets/_Scripts/Player.cs:43 | the players other than the id, in order; with distinct ids exactly one fewer when the id was present |
| Players.Insert | Assets/_Scripts/Player.cs:26 | a new entry reuses the slot freed last, or takes a new slot at the end when none is free; the freed-slot list stays distinct and empty-slotted |
| Players.EnrolledOrder | Assets/_Scripts/Player.cs:26 | the values after an insertion: appended at the end with no freed slot, otherwise placed after exactly the players of the slots before the reused one |
| Players.SlotOf | Assets/_Scripts/Player.cs:43 | the first slot holding the id, and no slot holds it when none is found |
| Players.Vacate | Assets/_Scripts/Player.cs:43 | Dictionary.Remove on the slots: the id's slot is emptied and becomes the slot freed last; the freed-slot list stays valid |
| Players.VacateOrder | Assets/_Scripts/Player.cs:43 | after a removal the values are the old ones without the id, in the same order |
| Players.SlotReuse | Assets/_Scripts/Player.cs:23-52 | with players 1, 2, 3, after 2 leaves and 4 joins the values are enumerated 1, 4, 3 |
| Players.SlotOfListed | Assets/_Scripts/Player.cs:43 | a slot holds the id exactly when the enumerated players include it |
| Players.Registry.constructor | Assets/_Scripts/Player.cs:10 | the registry starts empty |
| Players.Registry.Add | Assets/_Scripts/Player.cs:26 | Dictionary.Add: a present id throws DuplicateKey and changes nothing; otherwise the player takes the slot freed last and is enumerated right after the players of the slots before it, or at the end when no slot is free |
| Players.Registry.Remove | Assets/_Scripts/Player.cs:43 | Dictionary.Remove: reports whether the id was present, frees its slot, keeps the other players in order with distinct ids, and leaves all players ready when only the removed one was not |
| Turns.HandContents | Assets/_Scripts/GameManager.cs:91-101 | the hand holds nine commands and never TurnAround or None |
| Turns.PickedFromHand | Assets/_Scripts/GameManager.cs:119-123 | a picked program over the dealt hand never throws, never runs TurnAround, and yields a real command at each of its steps |
| Turns.DealMeaning | Assets/_Scripts/GameManager.cs:90-102 | each player, in registry order, is sent the hand and program length 5 |
| Turns.Deal | Assets/_Scripts/GameManager.cs:90-102 | dealing k players sends exactly k messages |
| Turns.AnnounceMeaning | Assets/_Scripts/GameManager.cs:114-116 | each player, in registry order, is told the step |
| Turns.Announce | Assets/_Scripts/GameManager.cs:114-116 | announcing a step to k players sends exactly k messages |
| Turns.MovesMeaning | Assets/_Scripts/GameManager.cs:169-179 | a move of n cells sends n one-cell moves of that player on its map along the direction |
| Turns.Moves | Assets/_Scripts/GameManager.cs:169-179 | a move of n cells sends exactly n messages |
| Turns.CommandEventsMeaning | Assets/_Scripts/GameManager.cs:136-165 | each command sends only moves and rotations of its own player: Move1-3 one to three cells ahead, Back one cell backwards, the turns one rotation to the left, right or opposite facing, None nothing |
| Turns.CommandEvents | Assets/_Scripts/GameManager.cs:136-165 | a command sends at most three messages, and none exactly when it is None |
| Turns.CommandTravel | Assets/_Scripts/GameManager.cs:136-179 | a command's messages move its own robot by exactly the command's step along its facing, and move no other robot |
| Turns.MovesTravel | Assets/_Scripts/GameManager.cs:169-179 | n one-cell moves along a facing travel n cells along it |
| Turns.PlayerStep | Assets/_Scripts/GameManager.cs:120-123 | a player's command of a step completes exactly when the index reads into the hand and a move has a map; it then sends the command's messages, otherwise nothing |
| Turns.ResolvePlayers | Assets/_Scripts/GameManager.cs:119-124 | resolving k players sends at most three messages each |
| Turns.ResolvePlayersRun | Assets/_Scripts/GameManager.cs:119-124 | the first k players resolve without a throw exactly when each of their commands completes |
| Turns.ResolveNext | Assets/_Scripts/GameManager.cs:119-124 | after k players, player k's messages are appended and decide whether the step goes on |
| Turns.RunStep | Assets/_Scripts/GameManager.cs:112-128 | one step sends one announcement per player and at most three more messages per player |
| Turns.RunStepsRun | Assets/_Scripts/GameManager.cs:111-128 | steps 0 to n-1 complete exactly when every player's command completes at each of them |
| Turns.StepLog | Assets/_Scripts/GameManager.cs:112-128 | one more step appends its announcements and then the players' commands, and completes exactly when they do |
| Turns.TurnLog | Assets/_Scripts/GameManager.cs:109-133 | the turn completes exactly when every step the server reads completes for every player |
| Turns.TurnLogEnd | Assets/_Scripts/GameManager.cs:130-133 | a turn whose five steps complete ends with the end marker to every player |
| Turns.OutOfHandHalts | Assets/_Scripts/GameManager.cs:119-123 | one program index outside the hand at a step the server reaches ends the turn before the end marker |
| Turns.UnplacedMoveHalts | Assets/_Scripts/GameManager.cs:176 | a move by a robot on no map, at a step the server reaches, ends the turn before the end marker |
| Turns.TurnCompletes | Assets/_Scripts/GameManager.cs:109-133 | for players standing on a map, the turn reaches its end marker exactly when every step the server reads indexes into the hand |
| Turns.PickedProgramsComplete | Assets/_Scripts/GameManager.cs:109-133 | programs built by the picker, for players standing on a map, always complete the turn |
| Turns.RunStepsStop | Assets/_Scripts/GameManager.cs:112-128 | after a step has thrown, later steps send nothing |
| Turns.ResolvePlayersStop | Assets/_Scripts/GameManager.cs:119-124 | after a player's command has thrown, later players send nothing |
| Turns.TurnAnnouncements | Assets/_Scripts/GameManager.cs:110-133 | a completed turn announces steps 0 to 4 in increasing order and then the end marker 5, each to every player in registry order, and nothing else |
| Turns.ResolveOtherStill | Assets/_Scripts/GameManager.cs:119-124 | resolving one player's command moves no other robot |
| Turns.ResolveTravel | Assets/_Scripts/GameManager.cs:119-124 | in a completed step each robot travels exactly its own command's step |
| Turns.StepTravel | Assets/_Scripts/GameManager.cs:112-128 | one more completed step adds the robot's command of that step to its travel |
| Turns.RunStepsTravel | Assets/_Scripts/GameManager.cs:111-128 | after n completed steps each robot has travelled the first n steps of its own program |
| Turns.TurnTravel | Assets/_Scripts/GameManager.cs:109-133 | in a completed turn each robot travels exactly its program's five steps along its facing at the start of the turn |
| Turns.PositionsAnnounce | Assets/_Scripts/GameManager.cs:114-116 | step announcements move no robot |
| Turns.PositionsResolve | Assets/_Scripts/GameManager.cs:119-124 | resolving player k's command moves robot k by what that command sends and leaves every other robot in place |
| Turns.TurnPositions | Assets/_Scripts/GameManager.cs:109-133 | after a completed turn each robot stands at its starting cell plus its program's five steps |
| Engine.Views | Assets/_Scripts/GameManager.cs:114 | one view per registered player, in registry order |
| Engine.Ids | Assets/_Scripts/GameManager.cs:90 | one id per registered player, in registry order |
| Engine.SrvCheckVictory | Assets/_Scripts/GameManager.cs:77-80 | nobody ever wins |
| Engine.GameManager.constructor | Assets/_Scripts/GameManager.cs:9-41 | at most six players, not running, idle, nothing sent |
| Engine.GameManager.IsAllPlayersReady | Assets/_Scripts/GameManager.cs:187-194 | true exactly when every registered player is ready (also with no players) |
| Engine.GameManager.SrvStartGame | Assets/_Scripts/GameManager.cs:56-75 | the game is running and the start button hidden; every player is dealt a fresh hand, in order, and with any player the barrier is closed; the step counter, the player limit and the robots are untouched |
| Engine.GameManager.DealHands | Assets/_Scripts/GameManager.cs:90-102 | every player is dealt in registry order: hand, count 5, empty program, not ready |
| Engine.GameManager.Tick | Assets/_Scripts/GameManager.cs:104-107 | while some player is not ready nothing changes; once all are, the turn is played: the log grows by exactly the turn's messages, then by the next deal or by nothing when the game halted; every robot stands where the turn's messages put it, on its own map and with its own facing; a completed turn leaves the step counter at 5 and every player with a fresh hand; a halted one leaves the counter and every player at the failing step, not ready, with hand, program and count unchanged |
| Engine.GameManager.PlayTurn | Assets/_Scripts/GameManager.cs:109-133 | the turn's messages are sent and every robot stands where they put it; a completed turn is followed by a fresh deal with the step counter at 5, a throw halts the game at the failing step with every player at that step, not ready, and hands, programs and counts untouched |
| Engine.GameManager.HaltTurn | Assets/_Scripts/GameManager.cs:119-123 | a throw ends the game coroutine: the game halts, the log holds exactly the messages up to the throw, the step counter and every player stay at the failing step, not ready, with hand, program, count, map and facing unchanged |
| Engine.GameManager.FinishTurn | Assets/_Scripts/GameManager.cs:70-71 | after a completed turn nobody has won, so the next hand is dealt: the log gains the deal, every player has a fresh hand and is not ready, the step counter stays at 5 and no robot moves |
| Engine.GameManager.SrvExecuteTurn | Assets/_Scripts/GameManager.cs:109-133 | the log grows by exactly the turn's messages and every robot stands where they put it; hands, programs and facings are untouched; after a completed turn the step counter and every player sit at step 5, not ready; after a throw the counter stays below 5 at the failing step, every player sits at it, not ready, and the counts are untouched |
| Engine.GameManager.EndTurn | Assets/_Scripts/GameManager.cs:130-133 | after the five steps every player is told step 5, the turn's log is complete and no robot moves |
| Engine.GameManager.ExecuteSteps | Assets/_Scripts/GameManager.cs:111-128 | steps 0 to 4 run in increasing order, stopping at the first throw, every robot stands where their messages put it; the step counter ends at 5 with every player told step 4, or stays at the step that threw with every player at that step, not ready |
| Engine.GameManager.ExecuteStep | Assets/_Scripts/GameManager.cs:112-128 | one more step: announcement, then every player's command; every robot stands where the messages so far put it, every player is at the step and not ready, and the counter moves on exactly when no command threw |
| Engine.GameManager.AnnounceStep | Assets/_Scripts/GameManager.cs:114-116 | every player is told the step, in order, and is at that step and not ready; robots, hands and programs are untouched |
| Engine.GameManager.ResolveStep | Assets/_Scripts/GameManager.cs:119-124 | every player's command of the step, in registry order, stopping at the first that throws; every robot stands where the messages so far put it and every player stays at the step, not ready |
| Engine.GameManager.ResolvePlayer | Assets/_Scripts/GameManager.cs:120-123 | one player's command within the step: its messages are appended, every robot stands where the messages so far put it and every player stays at the step, not ready |
| Engine.GameManager.MovePlayer | Assets/_Scripts/GameManager.cs:120-123 | one player's command: that robot moves by its share of the step and every other robot keeps its view and cell |
| Engine.GameManager.RunCommand | Assets/_Scripts/GameManager.cs:120-123 | the command is read from the program, skipped when None, carried out otherwise; the robot moves by exactly what its messages travel |
| Engine.GameManager.SrvExecuteCommandForPlayer | Assets/_Scripts/GameManager.cs:136-165 | the command's messages are sent and the robot's cell moves by exactly the cells they travel; facing, hand and program unchanged |
| Engine.GameManager.SrvMovePlayer | Assets/_Scripts/GameManager.cs:168-179 | `distance` one-cell moves along the direction, each applied to the robot and sent on its own map; a robot on no map throws at the first move and nothing is sent |
| Engine.GameManager.StartButtonEnabled | Assets/_Scripts/GameManager.cs:22-29 | while the game manager is consistent, the button shows exactly before the game starts with one to maxPlayers players |
| Engine.GameManager.SrvRotatePlayer | Assets/_Scripts/GameManager.cs:181-185 | one rotation message with the new facing; nothing else changes |
| MapBuilders.PlaceCell | Assets/_Scripts/TileMapBuilder.cs:48-56 | the prefab loop of one cell adds at most key i and never changes an entry already there |
| MapBuilders.Build | Assets/_Scripts/TileMapBuilder.cs:43-58 | the build only ever holds keys of non-hole cells already visited |
| MapBuilders.PlaceCellMeaning | Assets/_Scripts/TileMapBuilder.cs:48-56 | a cell throws exactly when two or more prefabs match it, gains its key exactly when at least one does, bound to a matching prefab, and keeps every other entry |
| MapBuilders.BuildKeys | Assets/_Scripts/TileMapBuilder.cs:43-58 | every key of the built map is a non-hole cell bound to a prefab of that cell's terrain |
| MapBuilders.BuildOutcome | Assets/_Scripts/TileMapBuilder.cs:43-58 | the build throws exactly when some non-hole cell has two or more matching prefabs; otherwise a cell has a tile exactly when it is not a hole and some prefab matches |
| MapBuilders.SharedTerrainThrows | Assets/_Scripts/TileMapBuilder.cs:48-55 | two prefabs of a terrain the board uses make every build throw |
| MapBuilders.BuiltLookup | Assets/_Scripts/TileMap.cs:12-18 | after a build, the lookup of a board cell throws exactly for holes and terrains without prefab, and otherwise finds a tile of the cell's terrain |
| MapBuilders.TileMapBuilder.constructor | Assets/_Scripts/TileMapBuilder.cs:8-11 | no pending request, a board of 144 cells, all floor |
| MapBuilders.TileMapBuilder.ResetTileMap | Assets/_Scripts/TileMapBuilder.cs:27-31 | every cell of the board is floor |
| MapBuilders.TileMapBuilder.BuildTileMap | Assets/_Scripts/TileMapBuilder.cs:33-59 | the map's dictionary is rebuilt from empty; success exactly when the build does not throw, DuplicateKey otherwise |
| MapBuilders.TileMapBuilder.PlacePrefabs | Assets/_Scripts/TileMapBuilder.cs:48-56 | the prefab loop of one cell, as the build describes it |
| MapBuilders.TileMapBuilder.Update | Assets/_Scripts/TileMapBuilder.cs:13-25 | a reset request resets and rebuilds, a build request rebuilds, no request changes nothing; a flag is cleared only when its build succeeded |

## Left out

- Rendering, interpolation of position and rotation, the message window and
  the program display (`UpdateCommandSelectionInterface`) are not modelled.
  They change no game state.
- Network transport is not modelled. Every ClientRpc and Command is a
  direct call on the one shared player object, and the server's outbound
  messages are recorded in `GameManager.log` without durations.
- Coroutine scheduling is not modelled as such. `Engine.GameManager.Tick` is
  one frame of the readiness wait. A turn's execution (with its
  `WaitForSeconds` pauses) happens within one call.
- An exception inside a command is taken to end the whole chain of nested
  coroutines (SrvExecuteCommandForPlayer, SrvTakeTurn, SrvStartGame) for
  good: the game is `Halted` and no later step, end marker or deal is sent.
  Whether a waiting outer coroutine resumes after an inner one throws is up
  to the Unity runtime, which is not part of this model.
- Players joining or leaving in the middle of a turn are not modelled.
- Map instantiation and spawning in `SrvStartGame`, `RpcEnablePlayer`,
  `CmdStartGame` and `OnClickStartGame` are not modelled. They only create
  scene objects or forward the call.
- The `OnPlayerConnection` and `OnPlayerDisconnection` events, and
  `localPlayer`, are not modelled. The start button is modelled only as the
  predicate `StartButtonEnabled`.
- `RpcSetDirection`, `RpcRotate` and `UpdateCheckPosition` are not
  modelled. They only move the scene transform.
- The user-interface messages `RpcMessageClear` and `RpcMessagePush` are not
  recorded in the log. They only fill the message window.
- Players.Player.RpcSetPosition: the tile lookup for the scene transform is
  not modelled. Its `KeyNotFound` on a hole would come after the map and
  the cell have been set.
- Players.Player.RpcMove: the client-side tile lookup after the move is not
  modelled. Its `KeyNotFound` on a hole would abort only the animation
  update, after the cell has already changed.
- Map ids are naturals, and the map a player stands on is the id it was
  last sent; `FindLocalObject` is not modelled.
- Tile objects are opaque values (terrain kind plus an asset number).
  Instantiation, destruction of old children and float centring in
  `BuildTileMap` are not modelled.
- The initial contents of the builder's terrain array are taken to be
  floor. The enum's default value is set in Tile.cs, which is not part of
  this model.
- Directions.Rotation: the float heading is modelled as an integer number of
  degrees. All four values the source returns are integral.
- The fatal `default` branches of the direction switches cannot be reached
  with a closed datatype and are not modelled.

## Findings

| source | as written | input that shows it | evidently intended | confidence | as-written member | corrected member |
|---|---|---|---|---|---|---|
| Assets/_Scripts/TilePosition.cs:11-40 | the bounds guard looks only at the current cell, then moves `distance` cells | position (0, 10), North, distance 2 gives (0, 12), off the 12 x 12 board | null whenever the destination is off the board | medium, not executed | TilePositions.OffsetOverrunsBoard | TilePositions.OffsetWithinBoard |
| Assets/_Scripts/Player.cs:129-140 | the length guard is checked once per frame, before all digit keys are scanned | a program of four picks and two new digit keys pressed in the same frame ends with six picks, one past the five commands | no pick beyond the command count, whatever keys are held | medium, not executed | Commands.SelectPressedOverfill | Commands.SelectPressedCappedBounded |
