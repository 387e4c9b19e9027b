/** A connected player: its command state for the turn, its cell and facing,
    and the registry of all connected players. Messages the server sends a
    player (ClientRpc) and the player sends the server (Command) are direct
    calls on one shared object, as when the server is also a client. */
module Players {
  import opened Wrappers
  import opened Directions
  import opened Commands

  /** The keys read in one frame of the program picker. */
  datatype Keys = Keys(digits: set<int>, backspace: bool, enter: bool)

  /** What the turn engine reads of a player while it executes a program. */
  datatype PlayerView = PlayerView(id: nat, mapId: Option<nat>, facing: Direction, available: seq<Command>, selected: seq<int>)

  /** Decimal digits of n, as an identifier prints. */
  function DecimalString(n: nat): (s: string)
    ensures |s| >= 1
    ensures forall k :: 0 <= k < |s| ==> '0' <= s[k] <= '9'
  {
    if n < 10 then [Digit(n)] else DecimalString(n / 10) + [Digit(n % 10)]
  }

  function Digit(d: nat): (c: char)
    requires d < 10
    ensures '0' <= c <= '9' && c as int - '0' as int == d
  {
    ('0' as int + d) as char
  }

  /** The number a string of decimal digits denotes. */
  function DecimalValue(s: string): nat
    requires forall k :: 0 <= k < |s| ==> '0' <= s[k] <= '9'
  {
    if s == [] then 0 else DecimalValue(s[..|s| - 1]) * 10 + (s[|s| - 1] as int - '0' as int)
  }

  lemma {:induction false} DecimalRoundTrip(n: nat)
    ensures DecimalValue(DecimalString(n)) == n
  {
    if n >= 10 {
      DecimalRoundTrip(n / 10);
      var s := DecimalString(n / 10) + [Digit(n % 10)];
      assert s[..|s| - 1] == DecimalString(n / 10);
    }
  }

  class Player {
    /** The network identity; Start copies it into the player id. */
    const playerId: nat
    var playerName: string

    var commandCount: int
    var commandCurrent: int
    var commandReady: bool
    var availableCommands: seq<Command>
    var selectedCommands: seq<int>

    /** The id of the map the player stands on; null until the server places
        or moves the player. */
    var tileMapId: Option<nat>
    var tileX: int
    var tileY: int
    var direction: Direction

    constructor (netId: nat, name: string, x: int, y: int, facing: Direction)
      ensures playerId == netId && playerName == name
      ensures commandCount == 0 && commandCurrent == -1 && !commandReady
      ensures availableCommands == [] && selectedCommands == []
      ensures tileMapId == Option.None && tileX == x && tileY == y && direction == facing
    {
      playerId := netId;
      playerName := name;
      commandCount := 0;
      commandCurrent := -1;
      commandReady := false;
      availableCommands := [];
      selectedCommands := [];
      tileMapId := Option.None;
      tileX := x;
      tileY := y;
      direction := facing;
    }

    /** What the turn engine reads of a player. */
    function View(): PlayerView
      reads this`tileMapId, this`direction, this`availableCommands, this`selectedCommands
    {
      PlayerView(playerId, tileMapId, direction, availableCommands, selectedCommands)
    }

    /** Whether the player has submitted its program for the turn. */
    predicate IsPlayerReady()
      reads this
      ensures IsPlayerReady() <==> AllReady([this])
    {
      assert [this][0] == this;
      commandReady
    }

    /** Joins the registry under the player's id; an empty name becomes
        "Player" followed by the id. Adding an id already present throws, and
        the rest of Start does not run. */
    method Start(registry: Registry) returns (r: Outcome<Exception>)
      requires registry.Valid()
      modifies this`playerName, registry
      ensures registry.Valid()
      ensures r == if HasId(old(registry.players), playerId) then Fail(DuplicateKey) else Pass
      ensures r.Fail? ==> registry.slots == old(registry.slots) && registry.free == old(registry.free)
      ensures r.Pass? ==> (registry.slots, registry.free) == Insert(old(registry.slots), old(registry.free), this)
      ensures registry.players == if r.Pass? then Enrolled(old(registry.slots), old(registry.free), this) else old(registry.players)
      ensures playerName == if r.Pass? && old(playerName) == "" then "Player" + DecimalString(playerId) else old(playerName)
    {
      r := registry.Add(this);
      if r.Fail? {
        return;
      }
      if playerName == "" {
        playerName := "Player" + DecimalString(playerId);
      }
    }

    /** Leaves the registry. */
    method OnDestroy(registry: Registry)
      requires registry.Valid()
      modifies registry
      ensures registry.Valid()
      ensures (registry.slots, registry.free) == Vacate(old(registry.slots), old(registry.free), playerId)
      ensures registry.players == Without(old(registry.players), playerId)
      ensures !HasId(registry.players, playerId)
    {
      var _ := registry.Remove(playerId);
    }

    /** Deals a hand: the program is emptied, no step is running, and the
        player is ready at once only when nothing is to be chosen. */
    method RpcTurnChooseCommand(commands: seq<Command>, count: int)
      modifies this`commandCount, this`commandCurrent, this`commandReady, this`availableCommands, this`selectedCommands
      ensures commandCount == count && commandCurrent == -1 && commandReady == (count == 0)
      ensures availableCommands == commands && selectedCommands == []
      ensures ValidPicks(selectedCommands, |availableCommands|)
    {
      commandCount := count;
      commandCurrent := -1;
      commandReady := count == 0;
      availableCommands := commands;
      selectedCommands := [];
    }

    /** Announces the step being executed; the player is no longer ready. */
    method RpcTurnExecuteCommand(index: int)
      modifies this`commandCurrent, this`commandReady
      ensures commandCurrent == index && !commandReady
    {
      commandCurrent := index;
      commandReady := false;
    }

    /** Stores the submitted program as it is, with no check of its length or
        of its indices, and marks the player ready. */
    method CmdTurnValidateCommand(selected: seq<int>)
      modifies this`selectedCommands, this`commandReady
      ensures selectedCommands == selected && commandReady
    {
      selectedCommands := selected;
      RpcTurnValidateCommand();
    }

    method RpcTurnValidateCommand()
      modifies this`commandReady
      ensures commandReady
    {
      commandReady := true;
    }

    /** One frame of the program picker. Digit keys select (only when the
        program was shorter than the count at the start of the frame),
        backspace drops the last pick while no step runs, and return submits a
        program of exactly the count while no step runs and the player is not
        yet ready. */
    method UpdateCheckInput(keys: Keys) returns (submitted: bool)
      modifies this`selectedCommands, this`commandReady
      ensures var picked :=
          if |old(selectedCommands)| < commandCount
          then SelectPressed(old(selectedCommands), keys.digits, |availableCommands|)
          else old(selectedCommands);
        var kept :=
          if keys.backspace && commandCurrent < 0 && |picked| > 0
          then picked[..|picked| - 1]
          else picked;
        && submitted == (keys.enter && commandCurrent < 0 && !old(commandReady) && |kept| == commandCount)
        && selectedCommands == kept
        && commandReady == (old(commandReady) || submitted)
      ensures ValidPicks(old(selectedCommands), |availableCommands|) ==> ValidPicks(selectedCommands, |availableCommands|)
      ensures |keys.digits| <= 1 && |old(selectedCommands)| <= commandCount ==> |selectedCommands| <= commandCount
    {
      if |selectedCommands| < commandCount {
        SelectKeys(keys.digits);
      }

      if keys.backspace && commandCurrent < 0 && |selectedCommands| > 0 {
        selectedCommands := selectedCommands[..|selectedCommands| - 1];
      }

      submitted := keys.enter && commandCurrent < 0 && !commandReady && |selectedCommands| == commandCount;
      if submitted {
        CmdTurnValidateCommand(selectedCommands);
      }
    }

    /** The digit keys of one frame: every hand index whose key is pressed
        and that is not yet picked is appended, in index order. */
    method SelectKeys(digits: set<int>)
      modifies this`selectedCommands
      ensures selectedCommands == SelectPressed(old(selectedCommands), digits, |availableCommands|)
      ensures ValidPicks(old(selectedCommands), |availableCommands|) ==> ValidPicks(selectedCommands, |availableCommands|)
      ensures |digits| <= 1 ==> |selectedCommands| <= |old(selectedCommands)| + 1
    {
      ghost var start := selectedCommands;
      for i := 0 to |availableCommands|
        invariant selectedCommands == SelectPressed(start, digits, i)
      {
        if i in digits && i !in selectedCommands {
          selectedCommands := selectedCommands + [i];
        }
      }
      if ValidPicks(start, |availableCommands|) {
        SelectPressedExtends(start, digits, |availableCommands|, |availableCommands|);
      }
      if |digits| <= 1 {
        SelectPressedAtMostOneKey(start, digits, |availableCommands|);
      }
    }

    /** Places the player on a cell of a map; the tile under it is looked up
        for the scene transform only. */
    method RpcSetPosition(mapId: nat, x: int, y: int)
      modifies this`tileMapId, this`tileX, this`tileY
      ensures tileMapId == Some(mapId) && tileX == x && tileY == y
    {
      tileMapId := Some(mapId);
      tileX := x;
      tileY := y;
    }

    /** One cell along `d`, with no bounds check; the destination is sent for
        animation only. */
    method RpcMove(mapId: nat, d: Direction)
      modifies this`tileMapId, this`tileX, this`tileY
      ensures tileMapId == Some(mapId)
      ensures tileX == old(tileX) + DeltaX(d) && tileY == old(tileY) + DeltaY(d)
    {
      tileMapId := Some(mapId);
      match d
      case North => tileY := tileY + 1;
      case East => tileX := tileX + 1;
      case South => tileY := tileY - 1;
      case West => tileX := tileX - 1;
    }
  }

  predicate HasId(ps: seq<Player>, id: nat)
  {
    exists k :: 0 <= k < |ps| && ps[k].playerId == id
  }

  predicate DistinctIds(ps: seq<Player>)
  {
    forall j, k :: 0 <= j < k < |ps| ==> ps[j].playerId != ps[k].playerId
  }

  /** Every listed player is ready; true of no players at all. */
  predicate AllReady(ps: seq<Player>)
    reads ps
  {
    forall k :: 0 <= k < |ps| ==> ps[k].commandReady
  }

  /** The players other than `id`, in the same order. */
  function Without(ps: seq<Player>, id: nat): (r: seq<Player>)
    ensures forall k :: 0 <= k < |r| ==> r[k] in ps && r[k].playerId != id
    ensures forall k :: 0 <= k < |ps| && ps[k].playerId != id ==> ps[k] in r
    ensures !HasId(r, id)
    ensures DistinctIds(ps) ==> DistinctIds(r)
    ensures DistinctIds(ps) ==> |r| == if HasId(ps, id) then |ps| - 1 else |ps|
  {
    if ps == [] then []
    else
      var rest := Without(ps[1..], id);
      assert HasId(ps, id) <==> ps[0].playerId == id || HasId(ps[1..], id);
      if ps[0].playerId == id then rest else [ps[0]] + rest
  }

  /** One unfolding of Without. */
  lemma WithoutCons(ps: seq<Player>, id: nat)
    requires ps != []
    ensures Without(ps, id) == (if ps[0].playerId == id then [] else [ps[0]]) + Without(ps[1..], id)
  {
  }

  lemma {:induction false} WithoutAppend(a: seq<Player>, b: seq<Player>, id: nat)
    ensures Without(a + b, id) == Without(a, id) + Without(b, id)
  {
    if a != [] {
      WithoutAppend(a[1..], b, id);
      TailAppend(a, b);
      WithoutCons(a + b, id);
      WithoutCons(a, id);
    } else {
      assert a + b == b;
    }
  }

  lemma TailAppend(a: seq<Player>, b: seq<Player>)
    requires a != []
    ensures (a + b)[0] == a[0] && (a + b)[1..] == a[1..] + b
  {
  }

  lemma {:induction false} WithoutAbsent(ps: seq<Player>, id: nat)
    requires !HasId(ps, id)
    ensures Without(ps, id) == ps
  {
    if ps != [] {
      WithoutAbsent(ps[1..], id);
    }
  }

  /** The players held by the dictionary's occupied slots, in slot order: the
      order in which its values are enumerated. */
  function Occupied(slots: seq<Option<Player>>): (ps: seq<Player>)
    ensures |ps| <= |slots|
  {
    if slots == [] then []
    else Occupied(slots[..|slots| - 1]) + (if slots[|slots| - 1].Some? then [slots[|slots| - 1].value] else [])
  }

  lemma {:induction false} OccupiedAppend(a: seq<Option<Player>>, b: seq<Option<Player>>)
    ensures Occupied(a + b) == Occupied(a) + Occupied(b)
  {
    if b == [] {
      assert a + b == a;
    } else {
      var x := b[|b| - 1];
      OccupiedAppend(a, b[..|b| - 1]);
      assert (a + b)[..|a + b| - 1] == a + b[..|b| - 1];
    }
  }

  /** The players of the slots before `s`, the one in slot `s` if any, and those after. */
  lemma OccupiedSplit(slots: seq<Option<Player>>, s: nat)
    requires s < |slots|
    ensures Occupied(slots) == Occupied(slots[..s]) + Occupied([slots[s]]) + Occupied(slots[s + 1..])
  {
    SlotsSplit(slots, s);
    OccupiedAppend(slots[..s] + [slots[s]], slots[s + 1..]);
    OccupiedAppend(slots[..s], [slots[s]]);
  }

  lemma SlotsSplit(slots: seq<Option<Player>>, s: nat)
    requires s < |slots|
    ensures slots[..s] + [slots[s]] + slots[s + 1..] == slots
  {
  }

  lemma OccupiedOne(x: Option<Player>)
    ensures Occupied([x]) == if x.Some? then [x.value] else []
  {
    assert [x][..0] == [];
  }

  /** Every occupied slot is listed, and every listed player has a slot. */
  lemma {:induction false} OccupiedMembers(slots: seq<Option<Player>>)
    ensures forall i :: 0 <= i < |slots| && slots[i].Some? ==> slots[i].value in Occupied(slots)
    ensures forall p :: p in Occupied(slots) ==> Some(p) in slots
  {
    if slots != [] {
      OccupiedMembers(slots[..|slots| - 1]);
      OccupiedAppend(slots[..|slots| - 1], [slots[|slots| - 1]]);
      OccupiedOne(slots[|slots| - 1]);
      assert slots[..|slots| - 1] + [slots[|slots| - 1]] == slots;
    }
  }

  /** The slots the dictionary has freed and not yet reused, most recently
      freed last: distinct, and each of them empty. */
  predicate FreeList(slots: seq<Option<Player>>, free: seq<nat>)
  {
    && (forall i :: 0 <= i < |free| ==> free[i] < |slots| && slots[free[i]].None?)
    && (forall i, j :: 0 <= i < j < |free| ==> free[i] != free[j])
  }

  /** Dictionary.Add of a new key: the slot freed last is reused; with no
      freed slot the entry goes into a new slot at the end. */
  function Insert(slots: seq<Option<Player>>, free: seq<nat>, p: Player): (r: (seq<Option<Player>>, seq<nat>))
    requires FreeList(slots, free)
    ensures FreeList(r.0, r.1)
    ensures |r.0| == if free == [] then |slots| + 1 else |slots|
  {
    if free == [] then (slots + [Some(p)], free)
    else (slots[free[|free| - 1] := Some(p)], free[..|free| - 1])
  }

  /** The values in enumeration order after Insert. */
  function Enrolled(slots: seq<Option<Player>>, free: seq<nat>, p: Player): seq<Player>
    requires FreeList(slots, free)
  {
    Occupied(Insert(slots, free, p).0)
  }

  /** Filling or emptying one slot changes only that slot's contribution. */
  lemma OccupiedUpdate(slots: seq<Option<Player>>, s: nat, x: Option<Player>)
    requires s < |slots|
    ensures Occupied(slots[s := x]) == Occupied(slots[..s]) + Occupied([x]) + Occupied(slots[s + 1..])
  {
    var after := slots[s := x];
    assert after[..s] == slots[..s] && after[s + 1..] == slots[s + 1..] && after[s] == x;
    OccupiedSplit(after, s);
  }

  /** Insertion order is not enumeration order: a new player lands in the
      slot freed last, after exactly the players of the slots before it, and
      at the end only when no slot is free. */
  lemma EnrolledOrder(slots: seq<Option<Player>>, free: seq<nat>, p: Player)
    requires FreeList(slots, free)
    ensures free == [] ==> Enrolled(slots, free, p) == Occupied(slots) + [p]
    ensures free != [] ==>
      var n := |Occupied(slots[..free[|free| - 1]])|;
      n <= |Occupied(slots)| && Enrolled(slots, free, p) == Occupied(slots)[..n] + [p] + Occupied(slots)[n..]
  {
    if free == [] {
      OccupiedAppend(slots, [Some(p)]);
      OccupiedOne(Some(p));
    } else {
      var s := free[|free| - 1];
      assert Insert(slots, free, p).0 == slots[s := Some(p)];
      assert slots[s].None?;
      OccupiedUpdate(slots, s, Some(p));
      OccupiedSplit(slots, s);
      OccupiedOne(Some(p));
      OccupiedOne(slots[s]);
      var before, after := Occupied(slots[..s]), Occupied(slots[s + 1..]);
      assert Occupied(slots) == before + after;
      assert (before + after)[..|before|] == before && (before + after)[|before|..] == after;
    }
  }

  /** Players [a, b, c] fill slots 0, 1, 2; b leaves and d joins. The
      dictionary enumerates a, d, c: d takes b's slot, not the last place. */
  lemma SlotReuse(a: Player, b: Player, c: Player, d: Player)
    requires a.playerId == 1 && b.playerId == 2 && c.playerId == 3 && d.playerId == 4
    ensures var (slots, free) := Vacate([Some(a), Some(b), Some(c)], [], 2);
      Enrolled(slots, free, d) == [a, d, c]
  {
    var slots: seq<Option<Player>> := [Some(a), Some(b), Some(c)];
    assert SlotOf(slots, 2) == Some(1) by {
      assert SlotOf(slots[..2], 2) == Some(1) by {
        assert SlotOf(slots[..1], 2) == Option.None by {
          assert slots[..1][..0] == [];
        }
        assert slots[..2][..1] == slots[..1];
      }
      assert slots[..3][..2] == slots[..2];
    }
    var after: seq<Option<Player>> := [Some(a), Option.None, Some(c)];
    assert slots[1 := Option.None] == after;
    assert Vacate(slots, [], 2).0 == after;
    assert Vacate(slots, [], 2).1 == [1];
    var final: seq<Option<Player>> := [Some(a), Some(d), Some(c)];
    assert Insert(after, [1], d).0 == final;
    assert final[..2][..1] == [Some(a)] && final[..1][..0] == [];
    OccupiedOne(Some(a));
    assert final[..2] == final[..1] + [Some(d)];
    assert Occupied(final[..2]) == [a, d];
  }

  /** The first slot holding the player with `id`, if any. */
  function SlotOf(slots: seq<Option<Player>>, id: nat): (r: Option<nat>)
    ensures r.Some? ==> r.value < |slots| && slots[r.value].Some? && slots[r.value].value.playerId == id
    ensures r.Some? ==> forall i :: 0 <= i < r.value && slots[i].Some? ==> slots[i].value.playerId != id
    ensures !r.Some? ==> forall i :: 0 <= i < |slots| && slots[i].Some? ==> slots[i].value.playerId != id
  {
    if slots == [] then Option.None
    else
      var r := SlotOf(slots[..|slots| - 1], id);
      if r.Some? then r
      else if slots[|slots| - 1].Some? && slots[|slots| - 1].value.playerId == id then Some(|slots| - 1)
      else Option.None
  }

  /** Dictionary.Remove: the key's slot is emptied and becomes the most
      recently freed; a missing key changes nothing. */
  function Vacate(slots: seq<Option<Player>>, free: seq<nat>, id: nat): (r: (seq<Option<Player>>, seq<nat>))
    requires FreeList(slots, free)
    ensures FreeList(r.0, r.1) && |r.0| == |slots|
  {
    var s := SlotOf(slots, id);
    if s.Some? then (slots[s.value := Option.None], free + [s.value]) else (slots, free)
  }

  /** Removing keeps the enumeration order of the other players. */
  lemma VacateOrder(slots: seq<Option<Player>>, free: seq<nat>, id: nat)
    requires FreeList(slots, free) && DistinctIds(Occupied(slots))
    ensures Occupied(Vacate(slots, free, id).0) == Without(Occupied(slots), id)
  {
    var s := SlotOf(slots, id);
    OccupiedMembers(slots);
    if s.Some? {
      var i := s.value;
      var q := slots[i].value;
      assert Vacate(slots, free, id).0 == slots[i := Option.None];
      OccupiedUpdate(slots, i, Option.None);
      OccupiedSplit(slots, i);
      OccupiedOne(slots[i]);
      OccupiedOne(Option.None);
      var before, rest := Occupied(slots[..i]), Occupied(slots[i + 1..]);
      assert Occupied(slots) == before + [q] + rest;
      DistinctApart(before, q, rest);
      WithoutAppend(before + [q], rest, id);
      WithoutAppend(before, [q], id);
      WithoutAbsent(before, id);
      WithoutAbsent(rest, id);
      assert Without([q], id) == [] by {
        assert [q][1..] == [];
      }
    } else {
      var ps := Occupied(slots);
      forall k | 0 <= k < |ps|
        ensures ps[k].playerId != id
      {
        assert Some(ps[k]) in slots;
        var i :| 0 <= i < |slots| && slots[i] == Some(ps[k]);
      }
      WithoutAbsent(ps, id);
    }
  }

  /** The static dictionary of connected players, keyed by id: its entry
      slots, its list of freed slots, and its values in enumeration order. */
  class Registry {
    var players: seq<Player>
    var slots: seq<Option<Player>>
    var free: seq<nat>

    ghost predicate Valid()
      reads this
    {
      DistinctIds(players) && players == Occupied(slots) && FreeList(slots, free)
    }

    constructor ()
      ensures Valid() && players == [] && slots == [] && free == []
    {
      players := [];
      slots := [];
      free := [];
    }

    /** Dictionary.Add: an id already present throws; a new one takes the slot
        freed last, or a new slot at the end, and is enumerated in slot order. */
    method Add(p: Player) returns (r: Outcome<Exception>)
      requires Valid()
      modifies this
      ensures Valid()
      ensures r == if HasId(old(players), p.playerId) then Fail(DuplicateKey) else Pass
      ensures r.Fail? ==> players == old(players) && slots == old(slots) && free == old(free)
      ensures r.Pass? ==> (slots, free) == Insert(old(slots), old(free), p)
      ensures r.Pass? && old(free) == [] ==> players == old(players) + [p]
      ensures r.Pass? && old(free) != [] ==>
        var n := |Occupied(old(slots)[..old(free)[|old(free)| - 1]])|;
        n <= |old(players)| && players == old(players)[..n] + [p] + old(players)[n..]
    {
      if HasId(players, p.playerId) {
        return Fail(DuplicateKey);
      }
      EnrolledOrder(slots, free, p);
      ghost var before := players;
      slots, free := Insert(slots, free, p).0, Insert(slots, free, p).1;
      players := Occupied(slots);
      DistinctInsert(before, if old(free) == [] then |before| else |Occupied(old(slots)[..old(free)[|old(free)| - 1]])|, p);
      r := Pass;
    }

    /** Dictionary.Remove: drops the id if present and frees its slot; the
        other players keep their order. */
    method Remove(id: nat) returns (removed: bool)
      requires Valid()
      modifies this
      ensures Valid()
      ensures removed == HasId(old(players), id)
      ensures (slots, free) == Vacate(old(slots), old(free), id)
      ensures players == Without(old(players), id)
      ensures (forall k :: 0 <= k < |old(players)| && old(players)[k].playerId != id ==> old(players)[k].commandReady)
        ==> AllReady(players)
    {
      VacateOrder(slots, free, id);
      SlotOfListed(slots, id);
      WithoutReady(players, id);
      removed := SlotOf(slots, id).Some?;
      slots, free := Vacate(slots, free, id).0, Vacate(slots, free, id).1;
      players := Occupied(slots);
    }
  }

  /** A slot holds the id exactly when the enumerated players include it. */
  lemma SlotOfListed(slots: seq<Option<Player>>, id: nat)
    ensures SlotOf(slots, id).Some? == HasId(Occupied(slots), id)
  {
    var players := Occupied(slots);
    OccupiedMembers(slots);
    if SlotOf(slots, id).Some? {
      var q := slots[SlotOf(slots, id).value].value;
      var k :| 0 <= k < |players| && players[k] == q;
    }
    if HasId(players, id) {
      var k :| 0 <= k < |players| && players[k].playerId == id;
      assert Some(players[k]) in slots;
    }
  }

  /** Dropping a player whose peers are all ready leaves only ready players. */
  lemma WithoutReady(ps: seq<Player>, id: nat)
    ensures (forall k :: 0 <= k < |ps| && ps[k].playerId != id ==> ps[k].commandReady) ==> AllReady(Without(ps, id))
  {
  }

  /** With distinct ids, a player's id occurs neither before nor after it. */
  lemma DistinctApart(before: seq<Player>, q: Player, rest: seq<Player>)
    requires DistinctIds(before + [q] + rest)
    ensures !HasId(before, q.playerId) && !HasId(rest, q.playerId)
  {
    var qs := before + [q] + rest;
    assert qs[|before|] == q;
    forall k | 0 <= k < |before|
      ensures before[k].playerId != q.playerId
    {
      assert qs[k] == before[k];
    }
    forall k | 0 <= k < |rest|
      ensures rest[k].playerId != q.playerId
    {
      assert qs[|before| + 1 + k] == rest[k];
    }
  }

  /** Inserting a player whose id is new keeps the ids distinct. */
  lemma DistinctInsert(ps: seq<Player>, n: nat, p: Player)
    requires n <= |ps| && DistinctIds(ps) && !HasId(ps, p.playerId)
    ensures DistinctIds(ps[..n] + [p] + ps[n..])
  {
    var qs := ps[..n] + [p] + ps[n..];
    forall j, k | 0 <= j < k < |qs|
      ensures qs[j].playerId != qs[k].playerId
    {
      var f := (i: int) => if i < n then i else i - 1;
      if j != n && k != n {
        assert qs[j] == ps[f(j)] && qs[k] == ps[f(k)];
      } else if j == n {
        assert qs[k] == ps[k - 1];
      } else {
        assert qs[j] == ps[j];
      }
    }
  }
}
