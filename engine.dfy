/** The server's game loop: start button, dealing, waiting for every program,
    executing the five steps, and the movement of robots. */
module Engine {
  import opened Wrappers
  import opened Directions
  import opened Commands
  import opened Players
  import opened Turns

  /** Where the game coroutine is. Halted: a program index threw during
      execution, the coroutine died and nothing more happens (the running
      flag stays set). */
  datatype Phase = Idle | AwaitingPrograms | Halted

  /** The players' views, in registry order. */
  function Views(ps: seq<Player>): (vs: seq<PlayerView>)
    reads ps
    ensures |vs| == |ps|
    ensures forall k :: 0 <= k < |ps| ==> vs[k] == ps[k].View()
  {
    if ps == [] then [] else Views(ps[..|ps| - 1]) + [ps[|ps| - 1].View()]
  }

  /** The players' ids, in registry order. */
  function Ids(ps: seq<Player>): (ids: seq<nat>)
    ensures |ids| == |ps|
    ensures forall k :: 0 <= k < |ps| ==> ids[k] == ps[k].playerId
  {
    if ps == [] then [] else Ids(ps[..|ps| - 1]) + [ps[|ps| - 1].playerId]
  }

  /** The players' cells, in registry order. */
  ghost function Cells(ps: seq<Player>): (cs: seq<Cell>)
    reads ps`tileX, ps`tileY
    ensures |cs| == |ps|
  {
    if ps == [] then [] else Cells(ps[..|ps| - 1]) + [Cell(ps[|ps| - 1].tileX, ps[|ps| - 1].tileY)]
  }

  /** The players' program lengths, in registry order. */
  ghost function Counts(ps: seq<Player>): (cs: seq<int>)
    reads ps`commandCount
    ensures |cs| == |ps| && forall k :: 0 <= k < |ps| ==> cs[k] == ps[k].commandCount
  {
    if ps == [] then [] else Counts(ps[..|ps| - 1]) + [ps[|ps| - 1].commandCount]
  }

  /** Every player still shows the engine its view in `vs` and stands at its
      cell in `pos`. */
  ghost predicate Tracked(ps: seq<Player>, vs: seq<PlayerView>, pos: seq<Cell>)
    reads ps`tileMapId, ps`direction, ps`availableCommands, ps`selectedCommands, ps`tileX, ps`tileY
  {
    |ps| == |vs| == |pos| &&
    forall j {:trigger ps[j]} :: 0 <= j < |ps| ==> ps[j].View() == vs[j] && Cell(ps[j].tileX, ps[j].tileY) == pos[j]
  }

  /** Every player stands at its cell in `pos`. */
  ghost predicate At(ps: seq<Player>, pos: seq<Cell>)
    reads ps`tileX, ps`tileY
  {
    |ps| == |pos| && forall j {:trigger ps[j]} :: 0 <= j < |ps| ==> Cell(ps[j].tileX, ps[j].tileY) == pos[j]
  }

  /** Every player has been told step `s` and is not ready. */
  ghost predicate AtStep(ps: seq<Player>, s: int)
    reads ps`commandCurrent, ps`commandReady
  {
    forall j {:trigger ps[j]} :: 0 <= j < |ps| ==> ps[j].commandCurrent == s && !ps[j].commandReady
  }

  /** Every player still stands on its map in `vs` and faces its facing there. */
  ghost predicate Kept(ps: seq<Player>, vs: seq<PlayerView>)
    reads ps`tileMapId, ps`direction
  {
    |ps| == |vs| && forall j {:trigger ps[j]} :: 0 <= j < |ps| ==> ps[j].tileMapId == vs[j].mapId && ps[j].direction == vs[j].facing
  }

  /** A tracked registry stands at the tracked cells. */
  lemma TrackedAt(ps: seq<Player>, vs: seq<PlayerView>, pos: seq<Cell>)
    requires Tracked(ps, vs, pos)
    ensures At(ps, pos) && Kept(ps, vs)
  {
  }

  /** Every player stands at its cell in Cells and shows its view. */
  lemma {:induction false} CellsTracked(ps: seq<Player>)
    ensures Tracked(ps, Views(ps), Cells(ps))
  {
    if ps != [] {
      CellsTracked(ps[..|ps| - 1]);
    }
  }

  /** The cells a registry is tracked at are its Cells. */
  lemma {:induction false} TrackedCells(ps: seq<Player>, vs: seq<PlayerView>, pos: seq<Cell>)
    requires Tracked(ps, vs, pos)
    ensures Cells(ps) == pos
  {
    if ps != [] {
      var n := |ps| - 1;
      TrackedCells(ps[..n], vs[..n], pos[..n]);
      assert pos == pos[..n] + [pos[n]];
    }
  }

  /** Before any message, every player stands at its cell. */
  lemma TrackedStart(ps: seq<Player>, vs: seq<PlayerView>, cells: seq<Cell>)
    requires |cells| == |vs| && Tracked(ps, vs, cells)
    ensures Tracked(ps, vs, Positions(cells, vs, RunSteps(vs, 0).value))
  {
    PositionsNone(cells, vs);
  }

  /** A tracked player with a distinct view appears once in the registry. */
  lemma Apart(ps: seq<Player>, vs: seq<PlayerView>, pos: seq<Cell>, k: nat)
    requires Tracked(ps, vs, pos) && DistinctViews(vs) && k < |ps|
    ensures ps[k] !in ps[..k] && ps[k] !in ps[k + 1..]
  {
    forall j | 0 <= j < |ps| && j != k
      ensures ps[j] != ps[k]
    {
      DistinctViewsApart(vs, j, k);
    }
  }

  /** Announcing a step moves nobody. */
  lemma AnnounceTracked(ps: seq<Player>, vs: seq<PlayerView>, cells: seq<Cell>, before: seq<Event>, step: int)
    requires |cells| == |vs| && Tracked(ps, vs, Positions(cells, vs, before))
    ensures Tracked(ps, vs, Positions(cells, vs, before + Announce(vs, step, |vs|)))
  {
    PositionsAnnounce(cells, vs, before, step);
  }

  /** Tracking survives resolving player k: its cell moves by its share of
      the step, which is where the step's messages put it. */
  lemma TrackResolved(ps: seq<Player>, vs: seq<PlayerView>, cells: seq<Cell>, before: seq<Event>, step: int, k: nat)
    requires |cells| == |vs| && k < |vs| && DistinctViews(vs) && ResolvePlayers(vs, step, k).ok
    requires var pos := Positions(cells, vs, before + ResolvePlayers(vs, step, k).value);
      Tracked(ps, vs, pos[k := Plus(pos[k], Travel(PlayerStep(vs[k], step).value, vs[k].id))])
    ensures Tracked(ps, vs, Positions(cells, vs, before + ResolvePlayers(vs, step, k + 1).value))
  {
    PositionsResolve(cells, vs, step, k, before);
  }

  /** Distinct ids make distinct views. */
  lemma ViewsDistinct(ps: seq<Player>)
    requires DistinctIds(ps)
    ensures DistinctViews(Views(ps))
  {
    ApartDistinctViews(Views(ps));
  }

  /** The state a freshly dealt player is in. */
  predicate Dealt(p: Player)
    reads p
  {
    p.availableCommands == Hand && p.selectedCommands == [] && p.commandCount == ProgramLength
    && p.commandCurrent == -1 && !p.commandReady
  }

  /** The victory check; nobody can win yet. */
  function SrvCheckVictory(): (won: bool)
    ensures !won
  {
    false
  }

  class GameManager {
    var maxPlayers: int
    var running: bool
    var currentCommand: int
    var phase: Phase
    /** Every message sent to players, in order. */
    var log: seq<Event>
    const registry: Registry

    /** The game is running exactly when the coroutine has been started. */
    ghost predicate Valid()
      reads this`running, this`phase
    {
      running <==> phase != Idle
    }

    constructor (registry: Registry)
      ensures Valid() && this.registry == registry
      ensures maxPlayers == 6 && !running && currentCommand == 0 && phase == Idle && log == []
    {
      this.registry := registry;
      maxPlayers := 6;
      running := false;
      currentCommand := 0;
      phase := Idle;
      log := [];
    }

    /** Whether the start button is shown after a player joins or leaves:
        only before the game starts, with one to maxPlayers players. */
    predicate StartButtonEnabled()
      reads this, registry
      ensures Valid() ==> (StartButtonEnabled() <==> phase == Idle && 1 <= |registry.players| <= maxPlayers)
    {
      !running && 1 <= |registry.players| <= maxPlayers
    }

    /** True when no player is still programming (also with no players). */
    method IsAllPlayersReady() returns (ready: bool)
      ensures ready == AllReady(registry.players)
    {
      var ps := registry.players;
      for k := 0 to |ps|
        invariant forall j :: 0 <= j < k ==> ps[j].commandReady
      {
        if !ps[k].IsPlayerReady() {
          return false;
        }
      }
      return true;
    }

    /** Starts the game and the first turn: every player is dealt a hand. */
    method SrvStartGame()
      requires Valid() && phase == Idle
      modifies this`running, this`phase, this`log, registry.players`commandCount, registry.players`commandCurrent,
        registry.players`commandReady, registry.players`availableCommands, registry.players`selectedCommands
      ensures Valid() && running && phase == AwaitingPrograms && currentCommand == old(currentCommand)
      ensures !StartButtonEnabled()
      ensures log == old(log) + Deal(Ids(registry.players), |registry.players|)
      ensures forall k :: 0 <= k < |registry.players| ==> Dealt(registry.players[k])
      ensures registry.players != [] ==> !AllReady(registry.players)
    {
      running := true;
      if !SrvCheckVictory() {
        DealHands();
        phase := AwaitingPrograms;
      }
    }

    /** The opening of SrvTakeTurn: each player, in registry order, is dealt
        the hand with program length five. */
    method DealHands()
      modifies this`log, registry.players`commandCount, registry.players`commandCurrent,
        registry.players`commandReady, registry.players`availableCommands, registry.players`selectedCommands
      ensures log == old(log) + Deal(Ids(registry.players), |registry.players|)
      ensures forall k :: 0 <= k < |registry.players| ==> Dealt(registry.players[k])
      ensures registry.players != [] ==> !AllReady(registry.players)
    {
      var ps := registry.players;
      ghost var ids := Ids(ps);
      for k := 0 to |ps|
        invariant log == old(log) + Deal(ids, k)
        invariant forall j :: 0 <= j < k ==> Dealt(ps[j])
      {
        ps[k].RpcTurnChooseCommand(Hand, ProgramLength);
        log := log + [TurnChooseCommand(ps[k].playerId, Hand, ProgramLength)];
      }
      assert ps != [] ==> !ps[0].commandReady;
    }

    /** One frame of the game coroutine while it waits for the programs:
        nothing happens until every player is ready, then the turn is played.
        Each robot then stands where its own moves in the turn's messages
        took it. */
    method Tick()
      requires Valid() && registry.Valid()
      modifies this`log, this`currentCommand, this`phase,
        registry.players`commandCount, registry.players`commandCurrent, registry.players`commandReady,
        registry.players`availableCommands, registry.players`selectedCommands,
        registry.players`tileMapId, registry.players`tileX, registry.players`tileY
      ensures Valid()
      ensures !(old(phase) == AwaitingPrograms && old(AllReady(registry.players))) ==>
        unchanged(this) && forall k :: 0 <= k < |registry.players| ==> unchanged(registry.players[k])
      ensures old(phase) == AwaitingPrograms && old(AllReady(registry.players)) ==>
        TurnPlayed(old(Views(registry.players)), old(Cells(registry.players)), old(log), old(Counts(registry.players)))
    {
      if phase != AwaitingPrograms {
        return;
      }
      ghost var vs, cells, log0, counts := Views(registry.players), Cells(registry.players), log, Counts(registry.players);
      ViewsDistinct(registry.players);
      CellsTracked(registry.players);
      var ready := IsAllPlayersReady();
      assert ready == old(AllReady(registry.players));
      if ready {
        PlayTurn(vs, cells, log0, counts);
      }
    }

    /** A turn played from players showing `vs` and standing at `cells`, the
        log at `log0` and program lengths `counts`: the turn's messages are
        logged (then the next hand's when it completes), every robot keeps
        its map and facing and stands where its own moves took it, and the
        game either waits for the next programs or is halted at the failing
        step. */
    ghost predicate TurnPlayed(vs: seq<PlayerView>, cells: seq<Cell>, log0: seq<Event>, counts: seq<int>)
      reads this`phase, this`log, this`currentCommand, registry`players, registry.players
    {
      var t := TurnLog(vs);
      |cells| == |vs| &&
      var pos := Positions(cells, vs, t.value);
      && phase == (if t.ok then AwaitingPrograms else Halted)
      && log == log0 + t.value + (if t.ok then Deal(Ids(registry.players), |registry.players|) else [])
      && Kept(registry.players, vs) && At(registry.players, pos)
      && if t.ok then NextHandDealt() else HaltedAt(vs, pos, counts)
    }

    /** A completed turn: the step counter is past the last step and every
        player holds a fresh hand. */
    ghost predicate NextHandDealt()
      reads this`currentCommand, registry`players, registry.players
    {
      currentCommand == ProgramLength && forall k :: 0 <= k < |registry.players| ==> Dealt(registry.players[k])
    }

    /** A turn a command threw in: the step counter stays at the failing
        step (every step before it completes, that one does not), every
        player has been told that step and is not ready, keeps
        its hand, program and program length `counts`, and stands at `pos`. */
    ghost predicate HaltedAt(vs: seq<PlayerView>, pos: seq<Cell>, counts: seq<int>)
      reads this`currentCommand, registry`players, registry.players`commandCurrent, registry.players`commandReady,
        registry.players`commandCount, registry.players`tileMapId, registry.players`direction,
        registry.players`availableCommands, registry.players`selectedCommands, registry.players`tileX, registry.players`tileY
    {
      && 0 <= currentCommand < ProgramLength
      && RunSteps(vs, currentCommand).ok && !RunSteps(vs, currentCommand + 1).ok
      && AtStep(registry.players, currentCommand)
      && Tracked(registry.players, vs, pos) && Counts(registry.players) == counts
    }

    /** The rest of SrvTakeTurn once every program is in, followed by the
        victory check (which fails) and the dealing of the next turn. An
        exception while executing halts the game instead. `vs` are the
        players as the turn finds them, `cells` where they stand. */
    method PlayTurn(ghost vs: seq<PlayerView>, ghost cells: seq<Cell>, ghost log0: seq<Event>, ghost counts: seq<int>)
      requires running && phase == AwaitingPrograms && log == log0 && Counts(registry.players) == counts
      requires |cells| == |vs| && DistinctViews(vs) && Tracked(registry.players, vs, cells)
      modifies this`log, this`currentCommand, this`phase,
        registry.players`commandCount, registry.players`commandCurrent, registry.players`commandReady,
        registry.players`availableCommands, registry.players`selectedCommands,
        registry.players`tileMapId, registry.players`tileX, registry.players`tileY
      ensures phase != Idle
      ensures TurnPlayed(vs, cells, log0, counts)
    {
      var ok := SrvExecuteTurn(vs, cells);
      TrackedAt(registry.players, vs, Positions(cells, vs, TurnLog(vs).value));
      if !ok {
        HaltTurn(vs, cells, log0, counts);
      } else {
        FinishTurn(vs, cells, log0, counts);
      }
    }

    /** The coroutine dies at the exception: the game is halted with
        everything else as the failing step left it. */
    method HaltTurn(ghost vs: seq<PlayerView>, ghost cells: seq<Cell>, ghost log0: seq<Event>, ghost counts: seq<int>)
      requires |cells| == |vs| && !TurnLog(vs).ok && log == log0 + TurnLog(vs).value
      requires HaltedAt(vs, Positions(cells, vs, TurnLog(vs).value), counts)
      modifies this`phase
      ensures TurnPlayed(vs, cells, log0, counts)
    {
      TrackedAt(registry.players, vs, Positions(cells, vs, TurnLog(vs).value));
      phase := Halted;
    }

    /** The end of a completed turn: the victory check, which fails, and the
        next hand. Maps, facings and cells stay as the turn left them. */
    method FinishTurn(ghost vs: seq<PlayerView>, ghost cells: seq<Cell>, ghost log0: seq<Event>, ghost counts: seq<int>)
      requires |cells| == |vs| && TurnLog(vs).ok && log == log0 + TurnLog(vs).value && phase == AwaitingPrograms
      requires currentCommand == ProgramLength
      requires Kept(registry.players, vs) && At(registry.players, Positions(cells, vs, TurnLog(vs).value))
      modifies this`log, registry.players`commandCount, registry.players`commandCurrent,
        registry.players`commandReady, registry.players`availableCommands, registry.players`selectedCommands
      ensures TurnPlayed(vs, cells, log0, counts)
    {
      if !SrvCheckVictory() {
        DealHands();
      }
    }

    /** The execution half of SrvTakeTurn: steps 0 .. 4, then the end marker
        to every player. Returns false when a step throws, which ends the
        coroutine before the end marker. */
    method SrvExecuteTurn(ghost vs: seq<PlayerView>, ghost cells: seq<Cell>) returns (ok: bool)
      requires |cells| == |vs| && DistinctViews(vs) && Tracked(registry.players, vs, cells)
      modifies this`log, this`currentCommand, registry.players`commandCurrent, registry.players`commandReady,
        registry.players`tileMapId, registry.players`tileX, registry.players`tileY
      ensures ok == TurnLog(vs).ok && log == old(log) + TurnLog(vs).value
      ensures Tracked(registry.players, vs, Positions(cells, vs, TurnLog(vs).value))
      ensures ok ==> currentCommand == ProgramLength && AtStep(registry.players, ProgramLength)
      ensures !ok ==> HaltedAt(vs, Positions(cells, vs, TurnLog(vs).value), old(Counts(registry.players)))
    {
      ok := ExecuteSteps(vs, cells);
      if ok {
        EndTurn(vs, old(log), cells);
      }
    }

    /** The end marker: every player is told the step after the last one. */
    method EndTurn(ghost vs: seq<PlayerView>, ghost base: seq<Event>, ghost cells: seq<Cell>)
      requires currentCommand == ProgramLength
      requires RunSteps(vs, ProgramLength).ok && log == base + RunSteps(vs, ProgramLength).value
      requires |cells| == |vs| && Tracked(registry.players, vs, Positions(cells, vs, RunSteps(vs, ProgramLength).value))
      modifies this`log, registry.players`commandCurrent, registry.players`commandReady
      ensures TurnLog(vs).ok && log == base + TurnLog(vs).value
      ensures Tracked(registry.players, vs, Positions(cells, vs, TurnLog(vs).value))
      ensures AtStep(registry.players, ProgramLength)
    {
      ghost var done := RunSteps(vs, ProgramLength).value;
      AnnounceTracked(registry.players, vs, cells, done, ProgramLength);
      AnnounceStep(vs, Positions(cells, vs, done + Announce(vs, ProgramLength, |vs|)), currentCommand);
      AppendAssoc(base, done, Announce(vs, ProgramLength, |vs|));
      TurnLogEnd(vs);
    }

    /** Where the turn stands after steps 0 .. n-1: the log holds their
        messages after `base`, every robot stands where they put it, and once
        a step has been announced every player sits at the last one, not
        ready. */
    ghost predicate StepsDone(vs: seq<PlayerView>, base: seq<Event>, cells: seq<Cell>, n: nat)
      reads this`log, registry`players, registry.players`commandCurrent, registry.players`commandReady,
        registry.players`tileMapId, registry.players`direction, registry.players`availableCommands,
        registry.players`selectedCommands, registry.players`tileX, registry.players`tileY
    {
      && log == base + RunSteps(vs, n).value
      && |cells| == |vs| && Tracked(registry.players, vs, Positions(cells, vs, RunSteps(vs, n).value))
      && (0 < n ==> AtStep(registry.players, n - 1))
    }

    /** The step loop of SrvTakeTurn; false when a step throws. */
    method ExecuteSteps(ghost vs: seq<PlayerView>, ghost cells: seq<Cell>) returns (ok: bool)
      requires |cells| == |vs| && DistinctViews(vs) && Tracked(registry.players, vs, cells)
      modifies this`log, this`currentCommand, registry.players`commandCurrent, registry.players`commandReady,
        registry.players`tileMapId, registry.players`tileX, registry.players`tileY
      ensures ok == RunSteps(vs, ProgramLength).ok && StepsRun(vs, old(log), cells)
    {
      TrackedStart(registry.players, vs, cells);
      currentCommand := 0;
      while currentCommand < ProgramLength
        invariant 0 <= currentCommand <= ProgramLength
        invariant RunSteps(vs, currentCommand).ok && StepsDone(vs, old(log), cells, currentCommand)
      {
        var stepOk := ExecuteStep(vs, old(log), cells, currentCommand);
        if !stepOk {
          StepsStopped(vs, old(log), cells);
          return false;
        }
      }
      StepsFinished(vs, old(log), cells);
      return true;
    }

    /** Where the step loop leaves the turn: the log holds the messages of
        the steps run, every robot stands where they put it, and the step
        counter is past the last step or, when a step threw, at that step;
        every player has been told the last step that ran and is not ready. */
    ghost predicate StepsRun(vs: seq<PlayerView>, base: seq<Event>, cells: seq<Cell>)
      reads this`log, this`currentCommand, registry`players, registry.players`commandCurrent, registry.players`commandReady,
        registry.players`tileMapId, registry.players`direction, registry.players`availableCommands,
        registry.players`selectedCommands, registry.players`tileX, registry.players`tileY
    {
      var r := RunSteps(vs, ProgramLength);
      && log == base + r.value
      && |cells| == |vs| && Tracked(registry.players, vs, Positions(cells, vs, r.value))
      && if r.ok then currentCommand == ProgramLength && AtStep(registry.players, ProgramLength - 1)
         else (0 <= currentCommand < ProgramLength && RunSteps(vs, currentCommand).ok
           && !RunSteps(vs, currentCommand + 1).ok && AtStep(registry.players, currentCommand))
    }

    /** All five steps ran. */
    lemma StepsFinished(vs: seq<PlayerView>, base: seq<Event>, cells: seq<Cell>)
      requires currentCommand == ProgramLength && RunSteps(vs, ProgramLength).ok
      requires StepsDone(vs, base, cells, ProgramLength)
      ensures StepsRun(vs, base, cells)
    {
    }

    /** The step at the counter threw: no later step runs. */
    lemma StepsStopped(vs: seq<PlayerView>, base: seq<Event>, cells: seq<Cell>)
      requires 0 <= currentCommand < ProgramLength && RunSteps(vs, currentCommand).ok
      requires !RunSteps(vs, currentCommand + 1).ok && StepsDone(vs, base, cells, currentCommand + 1)
      ensures StepsRun(vs, base, cells)
    {
      RunStepsStop(vs, currentCommand + 1, ProgramLength);
    }

    /** One iteration of the step loop: announce the step, resolve it, and
        move the counter on unless a command threw. */
    method ExecuteStep(ghost vs: seq<PlayerView>, ghost base: seq<Event>, ghost cells: seq<Cell>, step: nat)
        returns (ok: bool)
      requires currentCommand == step && RunSteps(vs, step).ok && StepsDone(vs, base, cells, step) && DistinctViews(vs)
      modifies this`log, this`currentCommand, registry.players`commandCurrent, registry.players`commandReady,
        registry.players`tileMapId, registry.players`tileX, registry.players`tileY
      ensures ok == RunSteps(vs, step + 1).ok && StepsDone(vs, base, cells, step + 1)
      ensures currentCommand == if ok then step + 1 else step
    {
      ghost var done := RunSteps(vs, step).value;
      AnnounceTracked(registry.players, vs, cells, done, step);
      AnnounceStep(vs, Positions(cells, vs, done + Announce(vs, step, |vs|)), step);
      ok := ResolveStep(vs, cells, done + Announce(vs, step, |vs|), step);
      StepResolved(vs, base, cells, step);
      if ok {
        currentCommand := step + 1;
      }
    }

    /** A step announced and resolved after steps 0 .. step-1 completes the
        log and the cells of steps 0 .. step. */
    lemma StepResolved(vs: seq<PlayerView>, base: seq<Event>, cells: seq<Cell>, step: nat)
      requires RunSteps(vs, step).ok
      requires var done := RunSteps(vs, step).value;
        Resolved(registry.players, vs, base + done + Announce(vs, step, |vs|), cells, done + Announce(vs, step, |vs|), step, |vs|)
      ensures RunSteps(vs, step + 1).ok == ResolvePlayers(vs, step, |vs|).ok && StepsDone(vs, base, cells, step + 1)
    {
      ghost var done := RunSteps(vs, step).value;
      AppendAssoc(base, done, Announce(vs, step, |vs|));
      AppendAssoc(base, done + Announce(vs, step, |vs|), ResolvePlayers(vs, step, |vs|).value);
      StepLog(vs, step);
    }

    /** Tells every player, in registry order, which step is executing. */
    method AnnounceStep(ghost vs: seq<PlayerView>, ghost pos: seq<Cell>, step: int)
      requires Tracked(registry.players, vs, pos)
      modifies this`log, registry.players`commandCurrent, registry.players`commandReady
      ensures log == old(log) + Announce(vs, step, |vs|)
      ensures AtStep(registry.players, step) && Tracked(registry.players, vs, pos)
    {
      var ps := registry.players;
      for k := 0 to |ps|
        invariant forall j :: 0 <= j < k ==> ps[j].commandCurrent == step && !ps[j].commandReady
        invariant log == old(log) + Announce(vs, step, k)
      {
        ps[k].RpcTurnExecuteCommand(step);
        log := log + [TurnExecuteCommand(ps[k].playerId, step)];
      }
    }

    /** Resolves every player's command for one step, in registry order;
        false when a command throws (the later players are skipped). */
    method ResolveStep(ghost vs: seq<PlayerView>, ghost cells: seq<Cell>, ghost before: seq<Event>, step: int)
        returns (ok: bool)
      requires |cells| == |vs| && DistinctViews(vs) && Tracked(registry.players, vs, Positions(cells, vs, before))
      requires AtStep(registry.players, step)
      modifies this`log, registry.players`tileMapId, registry.players`tileX, registry.players`tileY
      ensures ok == ResolvePlayers(vs, step, |vs|).ok && Resolved(registry.players, vs, old(log), cells, before, step, |vs|)
    {
      var ps := registry.players;
      ResolveNone(vs, step, before);
      assert |ps| == |vs|;
      for k := 0 to |ps|
        invariant ResolvePlayers(vs, step, k).ok && Resolved(ps, vs, old(log), cells, before, step, k)
      {
        ok := ResolvePlayer(vs, old(log), cells, before, step, k, ps, ps[k]);
        if !ok {
          ResolvedStop(ps, vs, old(log), cells, before, step, k + 1);
          return;
        }
      }
      return true;
    }

    /** Players 0 .. k-1 of a step have been resolved: their messages follow
        `base` in the log, every robot stands where the messages since
        `before` put it, and every player still sits at the step, not ready. */
    ghost predicate Resolved(ps: seq<Player>, vs: seq<PlayerView>, base: seq<Event>, cells: seq<Cell>,
        before: seq<Event>, step: int, k: nat)
      reads this`log, ps`tileMapId, ps`direction, ps`availableCommands, ps`selectedCommands, ps`tileX, ps`tileY,
        ps`commandCurrent, ps`commandReady
    {
      && k <= |vs| && log == base + ResolvePlayers(vs, step, k).value
      && |cells| == |vs| && Tracked(ps, vs, Positions(cells, vs, before + ResolvePlayers(vs, step, k).value))
      && AtStep(ps, step)
    }

    /** Player k - 1 threw: the rest of the step adds nothing. */
    lemma ResolvedStop(ps: seq<Player>, vs: seq<PlayerView>, base: seq<Event>, cells: seq<Cell>,
        before: seq<Event>, step: int, k: nat)
      requires Resolved(ps, vs, base, cells, before, step, k) && !ResolvePlayers(vs, step, k).ok
      ensures !ResolvePlayers(vs, step, |vs|).ok && Resolved(ps, vs, base, cells, before, step, |vs|)
    {
      ResolvePlayersStop(vs, step, k, |vs|);
    }

    /** Player k's command within a step, seen from the whole registry: the
        messages are appended to the step so far, and every robot stands where
        the messages sent so far put it. */
    method ResolvePlayer(ghost vs: seq<PlayerView>, ghost base: seq<Event>, ghost cells: seq<Cell>,
        ghost before: seq<Event>, step: int, k: nat, ghost ps: seq<Player>, p: Player)
        returns (ok: bool)
      requires k < |ps| && k < |vs| && ps[k] == p && DistinctViews(vs)
      requires ResolvePlayers(vs, step, k).ok && Resolved(ps, vs, base, cells, before, step, k)
      modifies this`log, p`tileMapId, p`tileX, p`tileY
      ensures ok == ResolvePlayers(vs, step, k + 1).ok && Resolved(ps, vs, base, cells, before, step, k + 1)
    {
      ghost var pos := Positions(cells, vs, before + ResolvePlayers(vs, step, k).value);
      Apart(ps, vs, pos, k);
      ok := MovePlayer(vs, base, step, k, ps, pos, p);
      TrackResolved(ps, vs, cells, before, step, k);
    }

    /** Player k's command within a step: the player moves by its share of
        the step, and every other player keeps its view and its cell. */
    method MovePlayer(ghost vs: seq<PlayerView>, ghost base: seq<Event>, step: int, k: nat,
        ghost ps: seq<Player>, ghost pos: seq<Cell>, p: Player)
        returns (ok: bool)
      requires k < |vs| && Tracked(ps, vs, pos) && ps[k] == p && p !in ps[..k] && p !in ps[k + 1..]
      requires ResolvePlayers(vs, step, k).ok && log == base + ResolvePlayers(vs, step, k).value
      modifies this`log, p`tileMapId, p`tileX, p`tileY
      ensures var r := ResolvePlayers(vs, step, k + 1); ok == r.ok && log == base + r.value
      ensures Tracked(ps, vs, pos[k := Plus(pos[k], Travel(PlayerStep(vs[k], step).value, vs[k].id))])
    {
      ok := RunCommand(vs[k], step, p);
      ResolveNext(vs, step, k);
      forall j | 0 <= j < |ps| && j != k
        ensures ps[j].View() == vs[j] && Cell(ps[j].tileX, ps[j].tileY) == pos[j]
      {
        if j < k {
          assert ps[j] in ps[..k];
        } else {
          assert ps[j] in ps[k + 1..];
        }
      }
    }

    /** The player's command of one step: read it from the program and carry
        it out; false when the index or the move throws. The messages are the
        player's share of the step, and the player moves by exactly what they
        send it. */
    method RunCommand(ghost v: PlayerView, step: int, p: Player) returns (ok: bool)
      requires p.View() == v
      modifies this`log, p`tileMapId, p`tileX, p`tileY
      ensures var r := PlayerStep(v, step); ok == r.ok && log == old(log) + r.value
      ensures p.View() == v
      ensures Cell(p.tileX, p.tileY) == Plus(Cell(old(p.tileX), old(p.tileY)), Travel(PlayerStep(v, step).value, v.id))
    {
      var c := SelectedCommand(p.availableCommands, p.selectedCommands, step);
      if c.Failure? {
        return false;
      }
      ok := true;
      if c.value != Command.None {
        ok := SrvExecuteCommandForPlayer(p, c.value);
      }
      if ok {
        CommandTravel(v, c.value, p.playerId);
      }
    }

    /** Carries out one command: moves go one cell at a time along the facing
        (backwards for Back), turns only send the new facing. A move of a
        player on no map throws before anything is sent. */
    method SrvExecuteCommandForPlayer(p: Player, c: Command) returns (ok: bool)
      modifies this`log, p`tileMapId, p`tileX, p`tileY
      ensures ok == !Unplaced(old(p.View()), c)
      ensures p.View() == old(p.View())
      ensures ok ==> log == old(log) + CommandEvents(old(p.View()), c)
      ensures ok ==> Cell(p.tileX, p.tileY) == Plus(Cell(old(p.tileX), old(p.tileY)), CommandStep(old(p.direction), c))
      ensures !ok ==> log == old(log) && p.tileX == old(p.tileX) && p.tileY == old(p.tileY)
    {
      ghost var v := p.View();
      match c
      case CommandBack =>
        ok := SrvMovePlayer(p, Opposite(p.direction), 1);
        UnitSteps(v.facing);
      case CommandMove1 => ok := SrvMovePlayer(p, p.direction, 1);
      case CommandMove2 => ok := SrvMovePlayer(p, p.direction, 2);
      case CommandMove3 => ok := SrvMovePlayer(p, p.direction, 3);
      case CommandTurnLeft =>
        SrvRotatePlayer(p, Left(p.direction));
        ok := true;
      case CommandTurnRight =>
        SrvRotatePlayer(p, Right(p.direction));
        ok := true;
      case CommandTurnAround =>
        SrvRotatePlayer(p, Opposite(p.direction));
        ok := true;
      case None =>
        ok := true;
    }

    /** `distance` single-cell moves along `d` on the player's own map, with no
        check for walls, robots, holes or the board's edge. Reading the map of
        a player that has none throws at the first move. */
    method SrvMovePlayer(p: Player, d: Direction, distance: nat) returns (ok: bool)
      modifies this`log, p`tileMapId, p`tileX, p`tileY
      ensures ok == (distance == 0 || old(p.tileMapId).Some?)
      ensures p.View() == old(p.View())
      ensures ok ==> log == old(log) + Moves(old(p.View()), d, distance)
      ensures ok ==> p.tileX == old(p.tileX) + distance * DeltaX(d) && p.tileY == old(p.tileY) + distance * DeltaY(d)
      ensures !ok ==> log == old(log) && p.tileX == old(p.tileX) && p.tileY == old(p.tileY)
    {
      ghost var v := p.View();
      for i := 0 to distance
        invariant p.View() == v
        invariant i == 0 || v.mapId.Some?
        invariant log == old(log) + Moves(v, d, i)
        invariant p.tileX == old(p.tileX) + i * DeltaX(d) && p.tileY == old(p.tileY) + i * DeltaY(d)
      {
        if p.tileMapId.None? {
          return false;
        }
        OneMore(i + 1, DeltaX(d));
        OneMore(i + 1, DeltaY(d));
        var mapId := p.tileMapId.value;
        p.RpcMove(mapId, d);
        log := log + [Move(p.playerId, mapId, d)];
      }
      return true;
    }

    /** Sends the new facing for animation; the player's direction field is
        left as it was. */
    method SrvRotatePlayer(p: Player, d: Direction)
      modifies this`log
      ensures log == old(log) + [Rotate(p.playerId, d)]
    {
      log := log + [Rotate(p.playerId, d)];
    }
  }
}
