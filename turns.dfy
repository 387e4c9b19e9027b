/** What one turn sends to the players, as a function of the players' ids,
    facings and programs: the reference the turn engine is proved against. */
module Turns {
  import opened Wrappers
  import opened Directions
  import opened Commands
  import opened Players

  /** Messages the server sends a player. Durations are left out. */
  datatype Event =
    | TurnChooseCommand(player: nat, commands: seq<Command>, count: int)
    | TurnExecuteCommand(player: nat, index: int)
    | Move(player: nat, mapId: nat, direction: Direction)
    | Rotate(player: nat, direction: Direction)

  /** Steps in a program. */
  const ProgramLength: int := 5

  /** The hand every player is dealt each turn. */
  const Hand: seq<Command> := [
    CommandMove1, CommandMove2, CommandMove2, CommandMove3, CommandBack,
    CommandTurnLeft, CommandTurnLeft, CommandTurnRight, CommandTurnRight
  ]

  lemma HandContents()
    ensures |Hand| == 9
    ensures CommandTurnAround !in Hand && Command.None !in Hand
  {
  }

  /** A program picked from the dealt hand runs without an exception, and
      never runs TurnAround. */
  lemma PickedFromHand(selected: seq<int>, index: int)
    requires ValidPicks(selected, |Hand|) && 0 <= index
    ensures SelectedCommand(Hand, selected, index).Success?
    ensures SelectedCommand(Hand, selected, index).value != CommandTurnAround
    ensures index < |selected| ==> SelectedCommand(Hand, selected, index).value != Command.None
  {
  }

  /** Dealing: each of the first k players, in order, receives the hand and
      the program length. */
  function Deal(ids: seq<nat>, k: nat): (es: seq<Event>)
    requires k <= |ids|
    ensures |es| == k
  {
    if k == 0 then [] else Deal(ids, k - 1) + [TurnChooseCommand(ids[k - 1], Hand, ProgramLength)]
  }

  lemma {:induction false} DealMeaning(ids: seq<nat>, k: nat)
    requires k <= |ids|
    ensures forall j :: 0 <= j < k ==> Deal(ids, k)[j] == TurnChooseCommand(ids[j], Hand, ProgramLength)
  {
    if k > 0 {
      DealMeaning(ids, k - 1);
    }
  }

  /** The step announcement to each of the first k players, in order. */
  function Announce(vs: seq<PlayerView>, step: int, k: nat): (es: seq<Event>)
    requires k <= |vs|
    ensures |es| == k
  {
    if k == 0 then [] else Announce(vs, step, k - 1) + [TurnExecuteCommand(vs[k - 1].id, step)]
  }

  lemma {:induction false} AnnounceMeaning(vs: seq<PlayerView>, step: int, k: nat)
    requires k <= |vs|
    ensures forall j :: 0 <= j < k ==> Announce(vs, step, k)[j] == TurnExecuteCommand(vs[j].id, step)
  {
    if k > 0 {
      AnnounceMeaning(vs, step, k - 1);
    }
  }

  /** `distance` single-cell moves of one player along `d`, each sent with
      the id of the player's map. */
  function Moves(v: PlayerView, d: Direction, distance: nat): (es: seq<Event>)
    requires distance == 0 || v.mapId.Some?
    ensures |es| == distance
  {
    if distance == 0 then [] else Moves(v, d, distance - 1) + [Move(v.id, v.mapId.value, d)]
  }

  lemma {:induction false} MovesMeaning(v: PlayerView, d: Direction, distance: nat)
    requires distance == 0 || v.mapId.Some?
    ensures forall j :: 0 <= j < distance ==> Moves(v, d, distance)[j] == Move(v.id, v.mapId.value, d)
  {
    if distance > 0 {
      MovesMeaning(v, d, distance - 1);
    }
  }

  /** The commands that move the robot. */
  predicate IsMove(c: Command)
  {
    c == CommandMove1 || c == CommandMove2 || c == CommandMove3 || c == CommandBack
  }

  /** A move of a player that stands on no map: SrvMovePlayer reads the
      player's null map reference and throws. */
  predicate Unplaced(v: PlayerView, c: Command)
  {
    IsMove(c) && v.mapId.None?
  }

  /** The messages one command of one player produces: at most three, and
      none exactly for None. */
  function CommandEvents(v: PlayerView, c: Command): (es: seq<Event>)
    requires !Unplaced(v, c)
    ensures |es| <= 3
    ensures |es| == 0 <==> c == Command.None
  {
    match c
    case CommandBack => Moves(v, Opposite(v.facing), 1)
    case CommandMove1 => Moves(v, v.facing, 1)
    case CommandMove2 => Moves(v, v.facing, 2)
    case CommandMove3 => Moves(v, v.facing, 3)
    case CommandTurnLeft => [Rotate(v.id, Left(v.facing))]
    case CommandTurnRight => [Rotate(v.id, Right(v.facing))]
    case CommandTurnAround => [Rotate(v.id, Opposite(v.facing))]
    case None => []
  }

  /** What each command sends: moves of one to three cells along the facing
      (one cell backwards for Back), a single rotation to the left, right or
      opposite facing, nothing for None; never an announcement. */
  lemma CommandEventsMeaning(v: PlayerView, c: Command)
    requires !Unplaced(v, c)
    ensures var es := CommandEvents(v, c);
      forall j :: 0 <= j < |es| ==> es[j].player == v.id && (es[j].Move? || es[j].Rotate?)
    ensures var es := CommandEvents(v, c);
      && (c == CommandMove1 ==> |es| == 1 && forall j :: 0 <= j < 1 ==> es[j] == Move(v.id, v.mapId.value, v.facing))
      && (c == CommandMove2 ==> |es| == 2 && forall j :: 0 <= j < 2 ==> es[j] == Move(v.id, v.mapId.value, v.facing))
      && (c == CommandMove3 ==> |es| == 3 && forall j :: 0 <= j < 3 ==> es[j] == Move(v.id, v.mapId.value, v.facing))
      && (c == CommandBack ==> es == [Move(v.id, v.mapId.value, Opposite(v.facing))])
      && (c == CommandTurnLeft ==> es == [Rotate(v.id, Left(v.facing))])
      && (c == CommandTurnRight ==> es == [Rotate(v.id, Right(v.facing))])
      && (c == CommandTurnAround ==> es == [Rotate(v.id, Opposite(v.facing))])
      && (c == Command.None ==> es == [])
  {
    if IsMove(c) {
      MovesMeaning(v, v.facing, 1);
      MovesMeaning(v, v.facing, 2);
      MovesMeaning(v, v.facing, 3);
      MovesMeaning(v, Opposite(v.facing), 1);
    }
  }

  /** What one message moves player `id`, as (x, y): one cell along its
      direction when it is a move of that player, nothing otherwise. */
  function StepOf(e: Event, id: nat): Cell
  {
    if e.Move? && e.player == id then Cell(DeltaX(e.direction), DeltaY(e.direction)) else Cell(0, 0)
  }

  /** The cells player `id` travels by its own moves among the first n of `es`. */
  function Walk(es: seq<Event>, id: nat, n: nat): Cell
    requires n <= |es|
  {
    if n == 0 then Cell(0, 0) else Plus(Walk(es, id, n - 1), StepOf(es[n - 1], id))
  }

  /** The cells player `id` travels by its own moves among `es`, as (x, y). */
  function Travel(es: seq<Event>, id: nat): Cell
  {
    Walk(es, id, |es|)
  }

  /** A board cell, or an offset between cells, as (x, y). */
  datatype Cell = Cell(x: int, y: int)

  function Plus(a: Cell, b: Cell): Cell
  {
    Cell(a.x + b.x, a.y + b.y)
  }

  lemma {:induction false} WalkPrefix(a: seq<Event>, b: seq<Event>, id: nat, n: nat)
    requires n <= |a|
    ensures Walk(a + b, id, n) == Walk(a, id, n)
  {
    if n > 0 {
      WalkPrefix(a, b, id, n - 1);
      assert (a + b)[n - 1] == a[n - 1];
    }
  }

  lemma {:induction false} WalkAppend(a: seq<Event>, b: seq<Event>, id: nat, n: nat)
    requires |a| <= n <= |a| + |b|
    ensures Walk(a + b, id, n) == Plus(Walk(a, id, |a|), Walk(b, id, n - |a|))
  {
    if n == |a| {
      WalkPrefix(a, b, id, |a|);
    } else {
      WalkAppend(a, b, id, n - 1);
      var m := n - |a|;
      assert (a + b)[n - 1] == b[m - 1];
      PlusAssociates(Walk(a, id, |a|), Walk(b, id, m - 1), StepOf(b[m - 1], id));
    }
  }

  /** Travel adds up over concatenated message sequences. */
  lemma TravelAppend(a: seq<Event>, b: seq<Event>, id: nat)
    ensures Travel(a + b, id) == Plus(Travel(a, id), Travel(b, id))
  {
    WalkAppend(a, b, id, |a| + |b|);
  }

  lemma {:induction false} WalkForeign(es: seq<Event>, id: nat, n: nat)
    requires n <= |es|
    requires forall j :: 0 <= j < |es| ==> !(es[j].Move? && es[j].player == id)
    ensures Walk(es, id, n) == Cell(0, 0)
  {
    if n > 0 {
      WalkForeign(es, id, n - 1);
    }
  }

  /** Events that are not moves of `id` do not move it. */
  lemma TravelForeign(es: seq<Event>, id: nat)
    requires forall j :: 0 <= j < |es| ==> !(es[j].Move? && es[j].player == id)
    ensures Travel(es, id) == Cell(0, 0)
  {
    WalkForeign(es, id, |es|);
  }

  /** A rotation travels no cell. */
  lemma RotationStaysPut(e: Event, id: nat)
    requires e.Rotate?
    ensures Travel([e], id) == Cell(0, 0)
  {
    assert Walk([e], id, 1) == Plus(Walk([e], id, 0), StepOf([e][0], id));
  }

  /** One more move adds one event and one cell along d. */
  lemma MovesNext(v: PlayerView, d: Direction, n: nat)
    requires v.mapId.Some?
    ensures Moves(v, d, n + 1) == Moves(v, d, n) + [Move(v.id, v.mapId.value, d)]
    ensures Travel(Moves(v, d, n + 1), v.id) == Plus(Travel(Moves(v, d, n), v.id), Cell(DeltaX(d), DeltaY(d)))
  {
    WalkPrefix(Moves(v, d, n), [Move(v.id, v.mapId.value, d)], v.id, n);
  }

  /** n moves along d travel n cells along d. */
  lemma {:induction false} MovesTravel(v: PlayerView, d: Direction, n: nat)
    requires n == 0 || v.mapId.Some?
    ensures Travel(Moves(v, d, n), v.id) == Cell(n * DeltaX(d), n * DeltaY(d))
  {
    if n > 0 {
      MovesTravel(v, d, n - 1);
      MovesNext(v, d, n - 1);
      OneMore(n, DeltaX(d));
      OneMore(n, DeltaY(d));
    }
  }

  /** One more copy of a. */
  lemma OneMore(n: int, a: int)
    ensures (n - 1) * a + a == n * a
  {
  }

  /** The cells a command moves its robot, from the robot's facing alone:
      n cells ahead for Move n, one cell back for Back, none for the rest. */
  function CommandStep(facing: Direction, c: Command): Cell
  {
    match c
    case CommandMove1 => Cell(DeltaX(facing), DeltaY(facing))
    case CommandMove2 => Cell(2 * DeltaX(facing), 2 * DeltaY(facing))
    case CommandMove3 => Cell(3 * DeltaX(facing), 3 * DeltaY(facing))
    case CommandBack => Cell(-DeltaX(facing), -DeltaY(facing))
    case _ => Cell(0, 0)
  }

  /** A command's messages move its own robot by exactly its step, and move
      no other robot. */
  lemma CommandTravel(v: PlayerView, c: Command, id: nat)
    requires !Unplaced(v, c)
    ensures Travel(CommandEvents(v, c), v.id) == CommandStep(v.facing, c)
    ensures id != v.id ==> Travel(CommandEvents(v, c), id) == Cell(0, 0)
  {
    CommandEventsMeaning(v, c);
    if id != v.id {
      TravelForeign(CommandEvents(v, c), id);
    }
    match c
    case CommandMove1 => MovesTravel(v, v.facing, 1);
    case CommandMove2 => MovesTravel(v, v.facing, 2);
    case CommandMove3 => MovesTravel(v, v.facing, 3);
    case CommandBack =>
      MovesTravel(v, Opposite(v.facing), 1);
      UnitSteps(v.facing);
    case _ => TravelForeign(CommandEvents(v, c), v.id);
  }

  /** Step `step` of a player's program runs: its index is in the hand and,
      when the command moves the robot, the player stands on a map. */
  predicate StepRuns(v: PlayerView, step: int)
  {
    var c := SelectedCommand(v.available, v.selected, step);
    c.Success? && !Unplaced(v, c.value)
  }

  /** Resolving step `step` for the first k players in order. An out-of-range
      program index, or a move of a player on no map, throws and ends the turn
      (`!ok`); None emits nothing. */
  function ResolvePlayers(vs: seq<PlayerView>, step: int, k: nat): (r: Partial<seq<Event>>)
    requires k <= |vs|
    ensures |r.value| <= 3 * k
  {
    if k == 0 then Partial([], true)
    else
      var r := ResolvePlayers(vs, step, k - 1);
      if !r.ok then r
      else
        var p := PlayerStep(vs[k - 1], step);
        Partial(r.value + p.value, p.ok)
  }

  /** One player's command at one step: its messages, or nothing and an
      exception when the step does not run. */
  function PlayerStep(v: PlayerView, step: int): (r: Partial<seq<Event>>)
    ensures r.ok == StepRuns(v, step)
    ensures r.ok ==> r.value == CommandEvents(v, CommandAt(v, step))
    ensures !r.ok ==> |r.value| == 0
  {
    match SelectedCommand(v.available, v.selected, step)
    case Failure(_) => Partial([], false)
    case Success(c) => if Unplaced(v, c) then Partial([], false) else Partial(CommandEvents(v, c), true)
  }

  /** One step: every player is told the step, then every player's command is
      resolved, one player after the other. */
  function RunStep(vs: seq<PlayerView>, step: int): (r: Partial<seq<Event>>)
    ensures |vs| <= |r.value| <= 4 * |vs|
  {
    var r := ResolvePlayers(vs, step, |vs|);
    Partial(Announce(vs, step, |vs|) + r.value, r.ok)
  }

  /** Steps 0 .. n-1 in increasing order, stopping at an exception. */
  function RunSteps(vs: seq<PlayerView>, n: nat): Partial<seq<Event>>
  {
    if n == 0 then Partial([], true)
    else
      var r := RunSteps(vs, n - 1);
      if !r.ok then r
      else
        var s := RunStep(vs, n - 1);
        Partial(r.value + s.value, s.ok)
  }

  /** A step completes for the first k players exactly when each of their
      commands runs. */
  lemma {:induction false} ResolvePlayersRun(vs: seq<PlayerView>, step: int, k: nat)
    requires k <= |vs|
    ensures ResolvePlayers(vs, step, k).ok <==> forall j :: 0 <= j < k ==> StepRuns(vs[j], step)
  {
    if k > 0 {
      ResolvePlayersRun(vs, step, k - 1);
      ResolvePlayersOk(vs, step, k);
      RunsBelow(vs, step, k);
    }
  }

  lemma ResolvePlayersOk(vs: seq<PlayerView>, step: int, k: nat)
    requires 0 < k <= |vs|
    ensures ResolvePlayers(vs, step, k).ok == (ResolvePlayers(vs, step, k - 1).ok && StepRuns(vs[k - 1], step))
  {
  }

  lemma RunsBelow(vs: seq<PlayerView>, step: int, k: nat)
    requires 0 < k <= |vs|
    ensures (forall j :: 0 <= j < k ==> StepRuns(vs[j], step))
        <==> (forall j :: 0 <= j < k - 1 ==> StepRuns(vs[j], step)) && StepRuns(vs[k - 1], step)
  {
  }

  /** Once the first k players resolved, the next player's share is appended. */
  lemma ResolveNext(vs: seq<PlayerView>, step: int, k: nat)
    requires k < |vs| && ResolvePlayers(vs, step, k).ok
    ensures ResolvePlayers(vs, step, k + 1).ok == PlayerStep(vs[k], step).ok
    ensures ResolvePlayers(vs, step, k + 1).value == ResolvePlayers(vs, step, k).value + PlayerStep(vs[k], step).value
  {
  }

  /** Every player's command runs at step `step`. */
  predicate StepAllRun(vs: seq<PlayerView>, step: int)
  {
    forall j :: 0 <= j < |vs| ==> StepRuns(vs[j], step)
  }

  /** Steps 0 .. n-1 complete exactly when every player's command runs at
      each of them. */
  lemma {:induction false} RunStepsRun(vs: seq<PlayerView>, n: nat)
    ensures RunSteps(vs, n).ok <==> forall s :: 0 <= s < n ==> StepAllRun(vs, s)
  {
    if n > 0 {
      RunStepsRun(vs, n - 1);
      ResolvePlayersRun(vs, n - 1, |vs|);
      RunStepsOk(vs, n);
      StepsBelow(vs, n);
    }
  }

  lemma RunStepsOk(vs: seq<PlayerView>, n: nat)
    requires n > 0
    ensures RunSteps(vs, n).ok == (RunSteps(vs, n - 1).ok && ResolvePlayers(vs, n - 1, |vs|).ok)
  {
  }

  lemma StepsBelow(vs: seq<PlayerView>, n: nat)
    requires n > 0
    ensures (forall s :: 0 <= s < n ==> StepAllRun(vs, s))
        <==> (forall s :: 0 <= s < n - 1 ==> StepAllRun(vs, s)) && StepAllRun(vs, n - 1)
  {
  }

  lemma RunStepsNext(vs: seq<PlayerView>, n: nat)
    requires RunSteps(vs, n).ok
    ensures RunSteps(vs, n + 1) == Partial(RunSteps(vs, n).value + RunStep(vs, n).value, RunStep(vs, n).ok)
  {
  }

  /** One more step appends its announcements and then its resolution. */
  lemma StepLog(vs: seq<PlayerView>, step: nat)
    requires RunSteps(vs, step).ok
    ensures RunSteps(vs, step + 1).ok == ResolvePlayers(vs, step, |vs|).ok
    ensures RunSteps(vs, step + 1).value
         == RunSteps(vs, step).value + Announce(vs, step, |vs|) + ResolvePlayers(vs, step, |vs|).value
  {
    RunStepsNext(vs, step);
    AppendAssoc(RunSteps(vs, step).value, Announce(vs, step, |vs|), ResolvePlayers(vs, step, |vs|).value);
  }

  /** Before any player is resolved, nothing is added. */
  lemma ResolveNone(vs: seq<PlayerView>, step: int, before: seq<Event>)
    ensures before + ResolvePlayers(vs, step, 0).value == before
  {
  }

  /** Appending is associative. */
  lemma AppendAssoc(a: seq<Event>, b: seq<Event>, c: seq<Event>)
    ensures a + (b + c) == a + b + c
  {
  }

  /** Every step the server reads runs, for every player. */
  predicate ProgramsRun(vs: seq<PlayerView>)
  {
    forall s :: 0 <= s < ProgramLength ==> StepAllRun(vs, s)
  }

  /** The execution phase of a turn: every step of the program, then the end
      marker (step ProgramLength) to every player. It completes exactly when
      every step of every program runs. */
  function TurnLog(vs: seq<PlayerView>): (r: Partial<seq<Event>>)
    ensures r.ok <==> ProgramsRun(vs)
  {
    RunStepsRun(vs, ProgramLength);
    var r := RunSteps(vs, ProgramLength);
    if r.ok then Partial(r.value + Announce(vs, ProgramLength, |vs|), true) else r
  }

  /** A turn whose steps all complete ends with the end marker. */
  lemma TurnLogEnd(vs: seq<PlayerView>)
    requires RunSteps(vs, ProgramLength).ok
    ensures TurnLog(vs).ok && TurnLog(vs).value == RunSteps(vs, ProgramLength).value + Announce(vs, ProgramLength, |vs|)
  {
  }

  /** Every step the server reads (the first ProgramLength entries of each
      program) indexes into that player's hand. */
  predicate ProgramsInHand(vs: seq<PlayerView>)
  {
    forall k, j :: 0 <= k < |vs| && 0 <= j < |vs[k].selected| && j < ProgramLength ==>
      0 <= vs[k].selected[j] < |vs[k].available|
  }

  /** Every player stands on a map. */
  predicate Placed(vs: seq<PlayerView>)
  {
    forall k :: 0 <= k < |vs| ==> vs[k].mapId.Some?
  }

  /** One program index outside its hand, at a step the server reaches, ends
      the turn early: the end marker is never sent. */
  lemma OutOfHandHalts(vs: seq<PlayerView>, k: nat, step: nat)
    requires k < |vs| && step < ProgramLength && step < |vs[k].selected|
    requires !(0 <= vs[k].selected[step] < |vs[k].available|)
    ensures !TurnLog(vs).ok
  {
    assert !StepRuns(vs[k], step);
    assert !StepAllRun(vs, step);
  }

  /** A move of a player standing on no map, at a step the server reaches,
      ends the turn early as well. */
  lemma UnplacedMoveHalts(vs: seq<PlayerView>, k: nat, step: nat)
    requires k < |vs| && step < ProgramLength && vs[k].mapId.None?
    requires var c := SelectedCommand(vs[k].available, vs[k].selected, step); c.Success? && IsMove(c.value)
    ensures !TurnLog(vs).ok
  {
    assert !StepRuns(vs[k], step);
    assert !StepAllRun(vs, step);
  }

  /** When every player stands on a map, a turn runs to its end marker
      exactly when every step the server reads indexes into the hand (as the
      picker guarantees); otherwise the first bad index throws and ends the
      game coroutine. */
  lemma TurnCompletes(vs: seq<PlayerView>)
    requires Placed(vs)
    ensures TurnLog(vs).ok <==> ProgramsInHand(vs)
  {
    if ProgramsInHand(vs) {
      forall s | 0 <= s < ProgramLength
        ensures StepAllRun(vs, s)
      {
        forall j | 0 <= j < |vs|
          ensures StepRuns(vs[j], s)
        {
          assert vs[j].mapId.Some?;
        }
      }
    } else {
      var k, j :| 0 <= k < |vs| && 0 <= j < |vs[k].selected| && j < ProgramLength
        && !(0 <= vs[k].selected[j] < |vs[k].available|);
      OutOfHandHalts(vs, k, j);
    }
  }

  /** Programs made with the picker, by players standing on a map, always
      complete the turn. */
  lemma PickedProgramsComplete(vs: seq<PlayerView>)
    requires Placed(vs)
    requires forall k :: 0 <= k < |vs| ==> ValidPicks(vs[k].selected, |vs[k].available|)
    ensures TurnLog(vs).ok
  {
    TurnCompletes(vs);
  }

  /** Announcements move nobody. */
  lemma AnnounceStill(vs: seq<PlayerView>, step: int, before: seq<Event>, id: nat)
    ensures Travel(before + Announce(vs, step, |vs|), id) == Travel(before, id)
  {
    AnnounceMeaning(vs, step, |vs|);
    TravelForeign(Announce(vs, step, |vs|), id);
    TravelAppend(before, Announce(vs, step, |vs|), id);
  }

  /** Resolving player k's command moves no other player. */
  lemma ResolveOtherStill(vs: seq<PlayerView>, step: int, k: nat, id: nat)
    requires k < |vs| && id != vs[k].id
    ensures Travel(ResolvePlayers(vs, step, k + 1).value, id) == Travel(ResolvePlayers(vs, step, k).value, id)
  {
    var r := ResolvePlayers(vs, step, k);
    var p := PlayerStep(vs[k], step);
    if r.ok {
      TravelAppend(r.value, p.value, id);
      if p.ok {
        CommandTravel(vs[k], CommandAt(vs[k], step), id);
      } else {
        assert p.value == [];
      }
    }
  }

  /** No two players share an id: each view's id is last seen at that view. */
  predicate DistinctViews(vs: seq<PlayerView>)
  {
    forall i {:trigger vs[i]} :: 0 <= i < |vs| ==> LastWith(vs, vs[i].id, |vs|) == i
  }

  /** The last index below n whose view has id `id`; -1 when there is none. */
  function LastWith(vs: seq<PlayerView>, id: nat, n: nat): (r: int)
    requires n <= |vs|
    ensures -1 <= r < n
    ensures r >= 0 ==> vs[r].id == id
  {
    if n == 0 then -1 else if vs[n - 1].id == id then n - 1 else LastWith(vs, id, n - 1)
  }

  /** Distinct views in the usual sense: no two indices share an id. */
  lemma DistinctViewsApart(vs: seq<PlayerView>, i: nat, j: nat)
    requires DistinctViews(vs) && i < |vs| && j < |vs| && i != j
    ensures vs[i].id != vs[j].id
  {
  }

  /** Views with pairwise different ids are distinct. */
  lemma ApartDistinctViews(vs: seq<PlayerView>)
    requires forall i, j :: 0 <= i < j < |vs| ==> vs[i].id != vs[j].id
    ensures DistinctViews(vs)
  {
    forall i | 0 <= i < |vs|
      ensures LastWith(vs, vs[i].id, |vs|) == i
    {
      LastWithAt(vs, i, |vs|);
    }
  }

  lemma {:induction false} LastWithAt(vs: seq<PlayerView>, i: nat, n: nat)
    requires i < n <= |vs| && forall j :: i < j < n ==> vs[j].id != vs[i].id
    ensures LastWith(vs, vs[i].id, n) == i
  {
    if n - 1 > i {
      LastWithAt(vs, i, n - 1);
    }
  }

  /** The command a program holds at a step; None where the index throws. */
  function CommandAt(v: PlayerView, step: int): Command
  {
    match SelectedCommand(v.available, v.selected, step)
    case Success(c) => c
    case Failure(_) => Command.None
  }

  /** The cells the first n steps of a program move its robot, all along the
      facing the player had when the turn began. */
  function ProgramStep(v: PlayerView, n: nat): Cell
  {
    if n == 0 then Cell(0, 0) else Plus(ProgramStep(v, n - 1), CommandStep(v.facing, CommandAt(v, n - 1)))
  }

  /** Players whose ids differ from `id` do not move it. */
  lemma {:induction false} ResolveAbsent(vs: seq<PlayerView>, step: int, m: nat, id: nat)
    requires m <= |vs| && forall j :: 0 <= j < m ==> vs[j].id != id
    ensures Travel(ResolvePlayers(vs, step, m).value, id) == Cell(0, 0)
  {
    if m > 0 {
      ResolveAbsent(vs, step, m - 1, id);
      ResolveOtherStill(vs, step, m - 1, id);
    }
  }

  /** Once player k has resolved, the later players do not move it. */
  lemma {:induction false} ResolveAfter(vs: seq<PlayerView>, step: int, m: nat, k: nat)
    requires k < m <= |vs| && forall j :: k < j < m ==> vs[j].id != vs[k].id
    ensures Travel(ResolvePlayers(vs, step, m).value, vs[k].id) == Travel(ResolvePlayers(vs, step, k + 1).value, vs[k].id)
  {
    if m > k + 1 {
      ResolveAfter(vs, step, m - 1, k);
      ResolveOtherStill(vs, step, m - 1, vs[k].id);
    }
  }

  /** When a step completes, each player has travelled exactly its own
      command's step. */
  lemma ResolveTravel(vs: seq<PlayerView>, step: int, k: nat)
    requires k < |vs| && ResolvePlayers(vs, step, |vs|).ok
    requires forall j :: 0 <= j < |vs| && j != k ==> vs[j].id != vs[k].id
    ensures Travel(ResolvePlayers(vs, step, |vs|).value, vs[k].id) == CommandStep(vs[k].facing, CommandAt(vs[k], step))
  {
    var id := vs[k].id;
    ResolvePlayersRun(vs, step, |vs|);
    ResolvePlayersRun(vs, step, k + 1);
    ResolveAbsent(vs, step, k, id);
    ResolveNextTravel(vs, step, k + 1, id);
    CommandTravel(vs[k], CommandAt(vs[k], step), id);
    ResolveAfter(vs, step, |vs|, k);
  }

  /** One more player's command adds what that command travels. */
  lemma ResolveNextTravel(vs: seq<PlayerView>, step: int, m: nat, id: nat)
    requires 0 < m <= |vs| && ResolvePlayers(vs, step, m).ok
    ensures ResolvePlayers(vs, step, m - 1).ok && StepRuns(vs[m - 1], step)
    ensures !Unplaced(vs[m - 1], CommandAt(vs[m - 1], step))
    ensures Travel(ResolvePlayers(vs, step, m).value, id)
         == Plus(Travel(ResolvePlayers(vs, step, m - 1).value, id), Travel(CommandEvents(vs[m - 1], CommandAt(vs[m - 1], step)), id))
  {
    var r := ResolvePlayers(vs, step, m - 1);
    TravelAppend(r.value, PlayerStep(vs[m - 1], step).value, id);
  }

  /** After n completed steps, player k has travelled the first n steps of
      its own program. */
  lemma {:induction false} RunStepsTravel(vs: seq<PlayerView>, n: nat, k: nat)
    requires DistinctViews(vs) && k < |vs| && RunSteps(vs, n).ok
    ensures Travel(RunSteps(vs, n).value, vs[k].id) == ProgramStep(vs[k], n)
  {
    if n > 0 {
      RunStepsOk(vs, n);
      RunStepsTravel(vs, n - 1, k);
      StepTravel(vs, n - 1, k);
    }
  }

  /** Step `step` adds player k's command of that step to its travel. */
  lemma StepTravel(vs: seq<PlayerView>, step: nat, k: nat)
    requires DistinctViews(vs) && k < |vs| && RunSteps(vs, step).ok && ResolvePlayers(vs, step, |vs|).ok
    ensures Travel(RunSteps(vs, step + 1).value, vs[k].id)
         == Plus(Travel(RunSteps(vs, step).value, vs[k].id), CommandStep(vs[k].facing, CommandAt(vs[k], step)))
  {
    var r := RunSteps(vs, step).value;
    var res := ResolvePlayers(vs, step, |vs|).value;
    StepLog(vs, step);
    TravelAppend(r + Announce(vs, step, |vs|), res, vs[k].id);
    AnnounceStill(vs, step, r, vs[k].id);
    forall j | 0 <= j < |vs| && j != k
      ensures vs[j].id != vs[k].id
    {
      DistinctViewsApart(vs, j, k);
    }
    ResolveTravel(vs, step, k);
  }

  /** In a completed turn every robot travels exactly the steps of its own
      program, each along its facing at the start of the turn; the other
      robots' commands do not move it. */
  lemma TurnTravel(vs: seq<PlayerView>, k: nat)
    requires DistinctViews(vs) && k < |vs| && TurnLog(vs).ok
    ensures Travel(TurnLog(vs).value, vs[k].id) == ProgramStep(vs[k], ProgramLength)
  {
    RunStepsTravel(vs, ProgramLength, k);
    AnnounceStill(vs, ProgramLength, RunSteps(vs, ProgramLength).value, vs[k].id);
  }

  /** Where each player stands after the messages `es`, starting from its
      cell in `cells`: its own moves among `es`, added up. */
  function Positions(cells: seq<Cell>, vs: seq<PlayerView>, es: seq<Event>): (r: seq<Cell>)
    requires |cells| == |vs|
    ensures |r| == |vs|
  {
    seq(|vs|, k requires 0 <= k < |vs| => Plus(cells[k], Travel(es, vs[k].id)))
  }

  /** Two message sequences that move every player alike leave everyone in
      the same place. */
  lemma PositionsAlike(cells: seq<Cell>, vs: seq<PlayerView>, a: seq<Event>, b: seq<Event>)
    requires |cells| == |vs|
    requires forall j :: 0 <= j < |vs| ==> Travel(a, vs[j].id) == Travel(b, vs[j].id)
    ensures Positions(cells, vs, a) == Positions(cells, vs, b)
  {
  }

  /** With no messages, every player is still at its cell. */
  lemma PositionsNone(cells: seq<Cell>, vs: seq<PlayerView>)
    requires |cells| == |vs|
    ensures Positions(cells, vs, []) == cells
  {
  }

  /** A step announcement moves nobody. */
  lemma PositionsAnnounce(cells: seq<Cell>, vs: seq<PlayerView>, before: seq<Event>, step: int)
    requires |cells| == |vs|
    ensures Positions(cells, vs, before + Announce(vs, step, |vs|)) == Positions(cells, vs, before)
  {
    forall j | 0 <= j < |vs|
      ensures Travel(before + Announce(vs, step, |vs|), vs[j].id) == Travel(before, vs[j].id)
    {
      AnnounceStill(vs, step, before, vs[j].id);
    }
    PositionsAlike(cells, vs, before + Announce(vs, step, |vs|), before);
  }

  /** Resolving player k's command of a step moves player k by what that
      command sends, and nobody else. */
  lemma PositionsResolve(cells: seq<Cell>, vs: seq<PlayerView>, step: int, k: nat, before: seq<Event>)
    requires |cells| == |vs| && k < |vs| && DistinctViews(vs) && ResolvePlayers(vs, step, k).ok
    ensures var p := Positions(cells, vs, before + ResolvePlayers(vs, step, k).value);
      Positions(cells, vs, before + ResolvePlayers(vs, step, k + 1).value)
        == p[k := Plus(p[k], Travel(PlayerStep(vs[k], step).value, vs[k].id))]
  {
    var mine := PlayerStep(vs[k], step).value;
    ResolveNext(vs, step, k);
    AppendAssoc(before, ResolvePlayers(vs, step, k).value, mine);
    forall j | 0 <= j < |vs| && j != k
      ensures Travel(mine, vs[j].id) == Cell(0, 0)
    {
      DistinctViewsApart(vs, j, k);
      PlayerStepForeign(vs[k], step, vs[j].id);
    }
    PositionsStep(cells, vs, before + ResolvePlayers(vs, step, k).value, mine, k);
  }

  /** A player's command at a step moves no other player. */
  lemma PlayerStepForeign(v: PlayerView, step: int, id: nat)
    requires id != v.id
    ensures Travel(PlayerStep(v, step).value, id) == Cell(0, 0)
  {
    if PlayerStep(v, step).ok {
      CommandTravel(v, CommandAt(v, step), id);
    } else {
      assert PlayerStep(v, step).value == [];
    }
  }

  /** Messages that move only player k move it by their travel and leave
      everyone else where they were. */
  lemma PositionsStep(cells: seq<Cell>, vs: seq<PlayerView>, done: seq<Event>, mine: seq<Event>, k: nat)
    requires |cells| == |vs| && k < |vs|
    requires forall j :: 0 <= j < |vs| && j != k ==> Travel(mine, vs[j].id) == Cell(0, 0)
    ensures var p := Positions(cells, vs, done);
      Positions(cells, vs, done + mine) == p[k := Plus(p[k], Travel(mine, vs[k].id))]
  {
    var p := Positions(cells, vs, done);
    var q := Positions(cells, vs, done + mine);
    forall j | 0 <= j < |vs| && j != k
      ensures q[j] == p[j]
    {
      TravelAppend(done, mine, vs[j].id);
    }
    TravelAppend(done, mine, vs[k].id);
    PlusAssociates(cells[k], Travel(done, vs[k].id), Travel(mine, vs[k].id));
    UpdatedAt(p, q, k, Plus(p[k], Travel(mine, vs[k].id)));
  }

  lemma PlusAssociates(a: Cell, b: Cell, c: Cell)
    ensures Plus(a, Plus(b, c)) == Plus(Plus(a, b), c)
  {
  }

  /** A sequence that differs from p only at k, where it holds x, is p[k := x]. */
  lemma UpdatedAt(p: seq<Cell>, q: seq<Cell>, k: nat, x: Cell)
    requires |p| == |q| && k < |p| && q[k] == x
    requires forall j :: 0 <= j < |p| && j != k ==> q[j] == p[j]
    ensures q == p[k := x]
  {
  }

  /** In a completed turn each robot ends its program's travel away from
      where it started. */
  lemma TurnPositions(cells: seq<Cell>, vs: seq<PlayerView>, k: nat)
    requires |cells| == |vs| && DistinctViews(vs) && k < |vs| && TurnLog(vs).ok
    ensures Positions(cells, vs, TurnLog(vs).value)[k] == Plus(cells[k], ProgramStep(vs[k], ProgramLength))
  {
    TurnTravel(vs, k);
  }

  /** Once a step has thrown, later steps add nothing. */
  lemma {:induction false} RunStepsStop(vs: seq<PlayerView>, m: nat, n: nat)
    requires m <= n && !RunSteps(vs, m).ok
    ensures RunSteps(vs, n) == RunSteps(vs, m)
  {
    if n > m {
      RunStepsStop(vs, m, n - 1);
    }
  }

  /** Once a player's command has thrown, later players add nothing. */
  lemma {:induction false} ResolvePlayersStop(vs: seq<PlayerView>, step: int, m: nat, n: nat)
    requires m <= n <= |vs| && !ResolvePlayers(vs, step, m).ok
    ensures ResolvePlayers(vs, step, n) == ResolvePlayers(vs, step, m)
  {
    if n > m {
      ResolvePlayersStop(vs, step, m, n - 1);
    }
  }

  /** The step announcements among `es`, as (player, step) pairs in order. */
  function Announced(es: seq<Event>): seq<(nat, int)>
  {
    if es == [] then []
    else
      var e := es[|es| - 1];
      Announced(es[..|es| - 1]) + (if e.TurnExecuteCommand? then [(e.player, e.index)] else [])
  }

  /** The announcements a turn must make: for each step 0 .. m-1 in increasing
      order, every player in registry order. */
  function Ladder(vs: seq<PlayerView>, m: nat): seq<(nat, int)>
  {
    if m == 0 then [] else Ladder(vs, m - 1) + Roll(vs, m - 1, |vs|)
  }

  function Roll(vs: seq<PlayerView>, step: int, k: nat): seq<(nat, int)>
    requires k <= |vs|
  {
    if k == 0 then [] else Roll(vs, step, k - 1) + [(vs[k - 1].id, step)]
  }

  lemma {:induction false} AnnouncedAppend(a: seq<Event>, b: seq<Event>)
    ensures Announced(a + b) == Announced(a) + Announced(b)
  {
    if b != [] {
      var e := b[|b| - 1];
      var tail := if e.TurnExecuteCommand? then [(e.player, e.index)] else [];
      AnnouncedAppend(a, b[..|b| - 1]);
      assert (a + b)[..|a + b| - 1] == a + b[..|b| - 1];
      assert (a + b)[|a + b| - 1] == e;
      calc {
        Announced(a + b);
        Announced(a + b[..|b| - 1]) + tail;
        Announced(a) + Announced(b[..|b| - 1]) + tail;
        Announced(a) + (Announced(b[..|b| - 1]) + tail);
      }
    } else {
      assert a + b == a;
    }
  }

  lemma {:induction false} AnnouncedNone(es: seq<Event>)
    requires forall j :: 0 <= j < |es| ==> !es[j].TurnExecuteCommand?
    ensures Announced(es) == []
  {
    if es != [] {
      AnnouncedNone(es[..|es| - 1]);
    }
  }

  /** Appending one event appends its announcement, if it is one. */
  lemma AnnouncedSnoc(a: seq<Event>, e: Event)
    ensures Announced(a + [e]) == Announced(a) + (if e.TurnExecuteCommand? then [(e.player, e.index)] else [])
  {
    var es := a + [e];
    assert es[..|es| - 1] == a;
  }

  lemma {:induction false} AnnouncedRoll(vs: seq<PlayerView>, step: int, k: nat)
    requires k <= |vs|
    ensures Announced(Announce(vs, step, k)) == Roll(vs, step, k)
  {
    if k > 0 {
      AnnouncedRoll(vs, step, k - 1);
      var e := TurnExecuteCommand(vs[k - 1].id, step);
      assert Announce(vs, step, k) == Announce(vs, step, k - 1) + [e];
      AnnouncedSnoc(Announce(vs, step, k - 1), e);
    }
  }

  lemma {:induction false} ResolvedNotAnnounced(vs: seq<PlayerView>, step: int, k: nat)
    requires k <= |vs|
    ensures Announced(ResolvePlayers(vs, step, k).value) == []
  {
    if k > 0 {
      ResolvedNotAnnounced(vs, step, k - 1);
      var r := ResolvePlayers(vs, step, k - 1);
      var p := PlayerStep(vs[k - 1], step);
      if r.ok {
        if p.ok {
          CommandEventsMeaning(vs[k - 1], CommandAt(vs[k - 1], step));
        }
        AnnouncedNone(p.value);
        AnnouncedAppend(r.value, p.value);
      }
    }
  }

  lemma RunStepAnnounced(vs: seq<PlayerView>, step: int)
    ensures Announced(RunStep(vs, step).value) == Roll(vs, step, |vs|)
  {
    var s := ResolvePlayers(vs, step, |vs|);
    AnnouncedRoll(vs, step, |vs|);
    ResolvedNotAnnounced(vs, step, |vs|);
    AnnouncedAppend(Announce(vs, step, |vs|), s.value);
  }

  lemma {:induction false} RunStepsAnnounced(vs: seq<PlayerView>, n: nat)
    requires RunSteps(vs, n).ok
    ensures Announced(RunSteps(vs, n).value) == Ladder(vs, n)
  {
    if n > 0 {
      RunStepsOk(vs, n);
      RunStepsAnnounced(vs, n - 1);
      RunStepsAnnouncedNext(vs, n);
      RunStepsValue(vs, n);
    }
  }

  /** Step n - 1 adds its own announcements to those of the steps before. */
  lemma RunStepsAnnouncedNext(vs: seq<PlayerView>, n: nat)
    requires n > 0 && RunSteps(vs, n - 1).ok && Announced(RunSteps(vs, n - 1).value) == Ladder(vs, n - 1)
    ensures Announced(RunSteps(vs, n - 1).value + RunStep(vs, n - 1).value) == Ladder(vs, n)
  {
    RunStepAnnounced(vs, n - 1);
    AnnouncedJoin(RunSteps(vs, n - 1).value, RunStep(vs, n - 1).value, Ladder(vs, n - 1), Roll(vs, n - 1, |vs|));
  }

  lemma RunStepsValue(vs: seq<PlayerView>, n: nat)
    requires n > 0 && RunSteps(vs, n - 1).ok
    ensures RunSteps(vs, n).value == RunSteps(vs, n - 1).value + RunStep(vs, n - 1).value
  {
  }

  lemma AnnouncedJoin(a: seq<Event>, b: seq<Event>, x: seq<(nat, int)>, y: seq<(nat, int)>)
    requires Announced(a) == x && Announced(b) == y
    ensures Announced(a + b) == x + y
  {
    AnnouncedAppend(a, b);
  }

  /** A completed turn announces steps 0, 1, ..., ProgramLength - 1 and then
      the end marker ProgramLength, each to every player in registry order,
      and announces nothing else. */
  lemma TurnAnnouncements(vs: seq<PlayerView>)
    requires TurnLog(vs).ok
    ensures Announced(TurnLog(vs).value) == Ladder(vs, ProgramLength + 1)
  {
    var r := RunSteps(vs, ProgramLength);
    RunStepsAnnounced(vs, ProgramLength);
    AnnouncedRoll(vs, ProgramLength, |vs|);
    AnnouncedAppend(r.value, Announce(vs, ProgramLength, |vs|));
  }
}
