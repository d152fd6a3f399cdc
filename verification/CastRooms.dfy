/**
  The room registry of CastServer (RoomsManager.cpp, Room.cpp): an array from session id to room, the list of rooms
  and each room's player list, changed by creating, joining, leaving and crashing.
 */
module CastRooms {
  import opened Collections

  /** `maxSessionsPerServer + 1`. */
  const SLOTS := 501

  /** The default host id of the leave order, which is no slot. */
  const NO_HOST: nat := 0xFFFF_FFFF_FFFF_FFFF

  /** The registry as a value: slots, listed rooms, and the player ids of every room ever created. */
  datatype Registry<!R(==)> = Registry(slots: seq<Option<R>>, rooms: seq<R>, players: map<R, seq<nat>>)

  ghost predicate WellFormed<R>(g: Registry<R>)
  {
    && |g.slots| == SLOTS
    && (forall p :: 0 <= p < SLOTS && g.slots[p].Some? ==> g.slots[p].value in g.players)
    && (forall i :: 0 <= i < |g.rooms| ==> g.rooms[i] in g.players)
  }

  // ---------------------------------------------------------------- the operations

  /** `addRoom` of a room just made for its host. */
  function WithRoom<R>(g: Registry<R>, r: R, p: nat): (h: Registry<R>)
    requires WellFormed(g)
    ensures WellFormed(h)
  {
    if p < SLOTS then Registry(g.slots[p := Some(r)], g.rooms + [r], g.players[r := [p]]) else g
  }

  /** The last loop of `removePlayerFromRoom`: every slot holding the room is emptied. */
  function Sweep<R(==)>(slots: seq<Option<R>>, r: R): (s: seq<Option<R>>)
    ensures |s| == |slots|
    ensures forall i :: 0 <= i < |slots| ==> s[i] == if slots[i] == Some(r) then None else slots[i]
  {
    if slots == [] then []
    else [if slots[0] == Some(r) then None else slots[0]] + Sweep(slots[1..], r)
  }

  function WithoutPlayer<R(==)>(g: Registry<R>, p: nat): (h: Registry<R>)
    requires WellFormed(g)
    ensures WellFormed(h)
  {
    if p >= SLOTS || g.slots[p].None? then g
    else
      var r := g.slots[p].value;
      var left, slots := RemoveFirst(g.players[r], p), g.slots[p := None];
      if left == [] then Registry(Sweep(slots, r), Without(g.rooms, r), g.players[r := left])
      else Registry(slots, g.rooms, g.players[r := left])
  }

  /** `switchRoomJoinOrExit`: leaves when the player has a room, joins the host's room otherwise. */
  function Switched<R(==)>(g: Registry<R>, p: nat, host: nat): (h: Registry<R>)
    requires WellFormed(g)
    ensures WellFormed(h)
  {
    if p >= SLOTS then g
    else if g.slots[p].Some? then
      var h := WithoutPlayer(g, p);
      h.(slots := h.slots[p := None])
    else if host < SLOTS && g.slots[host].Some? then
      var r := g.slots[host].value;
      g.(slots := g.slots[p := Some(r)], players := g.players[r := Without(g.players[r], p) + [p]])
    else g
  }

  datatype Step<!R> = Create(r: R, p: nat) | Join(p: nat, host: nat) | Leave(p: nat) | Crash(p: nat)

  /** Rooms are created as new objects. */
  predicate Enabled<R(==)>(g: Registry<R>, s: Step<R>)
  {
    s.Create? ==> s.r !in g.players
  }

  function Next<R(==)>(g: Registry<R>, s: Step<R>): (h: Registry<R>)
    requires WellFormed(g)
    ensures WellFormed(h)
  {
    match s
    case Create(r, p) => WithRoom(g, r, p)
    case Join(p, host) => Switched(g, p, host)
    case Leave(p) => Switched(g, p, NO_HOST)
    case Crash(p) => WithoutPlayer(g, p)
  }

  function Empty<R>(): (g: Registry<R>)
    ensures |g.slots| == SLOTS
  {
    Registry(seq(SLOTS, _ => None), [], map[])
  }

  // ---------------------------------------------------------------- what holds over every run

  /** A room in use: it has players, none twice. */
  predicate Populated(players: seq<nat>)
  {
    players != [] && Distinct(players)
  }

  /** Slots lead to listed rooms that hold the player; listed rooms are distinct and in use. */
  ghost predicate Sound<R>(g: Registry<R>)
  {
    && WellFormed(g)
    && Distinct(g.rooms)
    && (forall r :: r in g.rooms ==> Populated(g.players[r]))
    && (forall p :: 0 <= p < SLOTS && g.slots[p].Some? ==>
          g.slots[p].value in g.rooms && p in g.players[g.slots[p].value])
  }

  /** Besides, whoever a listed room holds has that room in his slot: the two directions are inverse. */
  ghost predicate Mutual<R>(g: Registry<R>)
  {
    Sound(g) && forall r :: r in g.rooms ==> Points(g.slots, g.players[r], r)
  }

  predicate Points<R(==)>(slots: seq<Option<R>>, players: seq<nat>, r: R)
    requires |slots| == SLOTS
  {
    forall k :: 0 <= k < |players| ==> players[k] < SLOTS && slots[players[k]] == Some(r)
  }

  lemma EmptyMutual<R>()
    ensures Mutual(Empty<R>())
  {
  }

  lemma AddRoomSound<R>(g: Registry<R>, r: R, p: nat)
    requires Sound(g) && r !in g.players
    ensures Sound(WithRoom(g, r, p))
  {
    if p < SLOTS {
      AppendDistinct(g.rooms, r);
    }
  }

  /** Creating a room keeps the two directions inverse exactly when the creator is in no room yet. */
  lemma CreateMutualIff<R>(g: Registry<R>, r: R, p: nat)
    requires Mutual(g) && r !in g.players
    ensures Mutual(WithRoom(g, r, p)) <==> p >= SLOTS || g.slots[p].None?
  {
    AddRoomSound(g, r, p);
    if p < SLOTS && g.slots[p].Some? {
      var h := WithRoom(g, r, p);
      var old_ := g.slots[p].value;
      assert old_ in h.rooms && p in h.players[old_] && h.slots[p] != Some(old_);
    }
  }

  /** Whoever leaves is taken out of his room, and only he. */
  lemma LeavingRoom<R>(g: Registry<R>, p: nat)
    requires Sound(g) && p < SLOTS && g.slots[p].Some?
    ensures var players := g.players[g.slots[p].value];
            RemoveFirst(players, p) == Without(players, p) && Distinct(Without(players, p))
  {
    RemoveFirstDistinct(g.players[g.slots[p].value], p);
  }

  /** The final sweep over all slots never changes anything: an emptied room is in no slot any more. */
  lemma SweepIdle<R>(g: Registry<R>, p: nat)
    requires Sound(g) && p < SLOTS && g.slots[p].Some?
    requires RemoveFirst(g.players[g.slots[p].value], p) == []
    ensures Sweep(g.slots[p := None], g.slots[p].value) == g.slots[p := None]
  {
    hide RemoveFirst, Without, Populated, Sweep;
    var r, slots := g.slots[p].value, g.slots[p := None];
    LeavingRoom(g, p);
    forall q | 0 <= q < SLOTS ensures slots[q] != Some(r) {
      WithoutMember(g.players[r], p, q);
    }
  }

  lemma RemoveSound<R>(g: Registry<R>, p: nat)
    requires Sound(g)
    ensures Sound(WithoutPlayer(g, p))
    ensures p < SLOTS ==> WithoutPlayer(g, p).slots[p].None?
  {
    if p < SLOTS && g.slots[p].Some? {
      LeavingRoom(g, p);
      if RemoveFirst(g.players[g.slots[p].value], p) == [] {
        CloseSound(g, p);
      }
    }
  }

  lemma CloseSound<R>(g: Registry<R>, p: nat)
    requires Sound(g) && p < SLOTS && g.slots[p].Some?
    requires RemoveFirst(g.players[g.slots[p].value], p) == []
    ensures Sound(WithoutPlayer(g, p))
  {
    hide Sweep, Populated, RemoveFirst, Without;
    var r, slots, h := g.slots[p].value, g.slots[p := None], WithoutPlayer(g, p);
    LeavingRoom(g, p);
    SweepIdle(g, p);
    WithoutDistinct(g.rooms, r);
    assert h.slots == slots && h.rooms == Without(g.rooms, r);
    forall q | 0 <= q < SLOTS && slots[q].Some?
      ensures slots[q].value in h.rooms && q in h.players[slots[q].value]
    {
      assert q != p && slots[q] == g.slots[q];
      WithoutMember(g.players[r], p, q);
      WithoutMember(g.rooms, r, slots[q].value);
    }
    forall o | o in h.rooms
      ensures Populated(h.players[o])
    {
      WithoutMember(g.rooms, r, o);
    }
  }

  lemma RemoveMutual<R>(g: Registry<R>, p: nat)
    requires Mutual(g)
    ensures Mutual(WithoutPlayer(g, p))
  {
    hide Sweep, RemoveFirst, Without, Populated, Sound;
    MutualFormed(g);
    RemoveSound(g, p);
    if p < SLOTS && g.slots[p].Some? {
      var r, h := g.slots[p].value, WithoutPlayer(g, p);
      LeavingRoom(g, p);
      if RemoveFirst(g.players[r], p) == [] {
        SweepIdle(g, p);
      }
      forall o | o in h.rooms
        ensures Points(h.slots, h.players[o], o)
      {
        WithoutMember(g.rooms, r, o);
        LeftPoints(g, p, o);
      }
    }
  }

  /** Whoever stays in a listed room keeps his slot. */
  lemma LeftPoints<R>(g: Registry<R>, p: nat, o: R)
    requires Mutual(g) && p < SLOTS && g.slots[p].Some? && o in g.rooms
    ensures var left := if o == g.slots[p].value then Without(g.players[o], p) else g.players[o];
            Points(g.slots[p := None], left, o)
  {
    hide Without, Populated, Sound;
    MutualFormed(g);
    var left := if o == g.slots[p].value then Without(g.players[o], p) else g.players[o];
    assert Points(g.slots, g.players[o], o);
    forall k | 0 <= k < |left| ensures left[k] != p && left[k] in g.players[o] {
      assert left[k] in left;
      WithoutMember(g.players[o], p, left[k]);
    }
  }

  lemma JoinSound<R>(g: Registry<R>, p: nat, host: nat)
    requires Sound(g) && p < SLOTS && g.slots[p].None? && host < SLOTS && g.slots[host].Some?
    ensures Sound(Switched(g, p, host))
  {
    var r := g.slots[host].value;
    WithoutDistinct(g.players[r], p);
    AppendDistinct(Without(g.players[r], p), p);
  }

  lemma JoinMutual<R>(g: Registry<R>, p: nat, host: nat)
    requires Mutual(g) && p < SLOTS && g.slots[p].None? && host < SLOTS && g.slots[host].Some?
    ensures Mutual(Switched(g, p, host))
  {
    JoinSound(g, p, host);
    var r, h := g.slots[host].value, Switched(g, p, host);
    forall o | o in h.rooms
      ensures Points(h.slots, h.players[o], o)
    {
      assert Points(g.slots, g.players[o], o);
    }
  }

  lemma SwitchKeeps<R>(g: Registry<R>, p: nat, host: nat)
    requires Sound(g)
    ensures Sound(Switched(g, p, host))
    ensures Mutual(g) ==> Mutual(Switched(g, p, host))
  {
    hide Sound, Mutual, WithoutPlayer;
    SoundFormed(g);
    if p < SLOTS && g.slots[p].Some? {
      RemoveSound(g, p);
      var h := WithoutPlayer(g, p);
      SoundFormed(h);
      assert h.slots[p := None] == h.slots;
      if Mutual(g) {
        RemoveMutual(g, p);
      }
    } else if p < SLOTS && host < SLOTS && g.slots[host].Some? {
      JoinSound(g, p, host);
      if Mutual(g) {
        JoinMutual(g, p, host);
      }
    }
  }

  lemma SoundFormed<R>(g: Registry<R>)
    requires Sound(g)
    ensures WellFormed(g)
  {
  }

  // ---------------------------------------------------------------- runs

  ghost predicate Legal<R>(g: Registry<R>, steps: seq<Step<R>>)
    requires WellFormed(g)
    decreases |steps|
  {
    steps == [] || (Enabled(g, steps[0]) && Legal(Next(g, steps[0]), steps[1..]))
  }

  function Run<R(==)>(g: Registry<R>, steps: seq<Step<R>>): (h: Registry<R>)
    requires WellFormed(g)
    ensures WellFormed(h)
    decreases |steps|
  {
    if steps == [] then g else Run(Next(g, steps[0]), steps[1..])
  }

  lemma NextSound<R>(g: Registry<R>, s: Step<R>)
    requires Sound(g) && Enabled(g, s)
    ensures Sound(Next(g, s))
  {
    hide Sound, WellFormed, WithoutPlayer, Switched, WithRoom;
    SoundFormed(g);
    match s
    case Create(r, p) => AddRoomSound(g, r, p);
    case Join(p, host) => SwitchKeeps(g, p, host);
    case Leave(p) => SwitchKeeps(g, p, NO_HOST);
    case Crash(p) => RemoveSound(g, p);
  }

  /** Over every run, slots lead to listed rooms holding the player, and listed rooms are distinct and non-empty. */
  lemma {:induction false} RunSound<R>(g: Registry<R>, steps: seq<Step<R>>)
    requires Sound(g) && Legal(g, steps)
    ensures Sound(Run(g, steps))
    decreases |steps|
  {
    hide Sound, WellFormed, Next, Enabled;
    SoundFormed(g);
    if steps == [] {
    } else {
      NextSound(g, steps[0]);
      RunSound(Next(g, steps[0]), steps[1..]);
    }
  }

  /** Whether the step creates a room for a player who is already in one. */
  predicate Overwrites<R(==)>(g: Registry<R>, s: Step<R>)
    requires WellFormed(g)
  {
    s.Create? && s.p < SLOTS && g.slots[s.p].Some?
  }

  ghost predicate NeverOverwrites<R>(g: Registry<R>, steps: seq<Step<R>>)
    requires WellFormed(g)
    decreases |steps|
  {
    steps == [] || (!Overwrites(g, steps[0]) && NeverOverwrites(Next(g, steps[0]), steps[1..]))
  }

  ghost predicate AlwaysMutual<R>(g: Registry<R>, steps: seq<Step<R>>)
    requires WellFormed(g)
    decreases |steps|
  {
    Mutual(g) && (steps == [] || AlwaysMutual(Next(g, steps[0]), steps[1..]))
  }

  lemma NextMutualIff<R>(g: Registry<R>, s: Step<R>)
    requires Mutual(g) && Enabled(g, s)
    ensures Mutual(Next(g, s)) <==> !Overwrites(g, s)
  {
    hide Mutual, Sound, WellFormed, WithoutPlayer, Switched, WithRoom;
    MutualFormed(g);
    match s
    case Create(r, p) => CreateMutualIff(g, r, p);
    case Join(p, host) => SwitchKeeps(g, p, host);
    case Leave(p) => SwitchKeeps(g, p, NO_HOST);
    case Crash(p) => RemoveMutual(g, p);
  }

  lemma MutualFormed<R>(g: Registry<R>)
    requires Mutual(g)
    ensures WellFormed(g) && Sound(g)
  {
  }

  /**
    Over a run, slots and player lists are inverse to each other in every state if and only if no room is ever
    created by a player who is in a room at that moment.
   */
  lemma {:induction false} RunMutualIff<R>(g: Registry<R>, steps: seq<Step<R>>)
    requires Mutual(g) && Legal(g, steps)
    ensures AlwaysMutual(g, steps) <==> NeverOverwrites(g, steps)
    decreases |steps|
  {
    hide Mutual, Next, Enabled, Overwrites;
    MutualFormed(g);
    if steps == [] {
    } else {
      NextMutualIff(g, steps[0]);
      if Mutual(Next(g, steps[0])) {
        RunMutualIff(Next(g, steps[0]), steps[1..]);
      }
    }
  }

  /** Both statements hold of every run of a server that starts without rooms. */
  lemma RunFromEmpty<R>(steps: seq<Step<R>>)
    requires Legal(Empty<R>(), steps)
    ensures Sound(Run(Empty<R>(), steps))
    ensures AlwaysMutual(Empty<R>(), steps) <==> NeverOverwrites(Empty<R>(), steps)
  {
    EmptyMutual<R>();
    RunSound(Empty<R>(), steps);
    RunMutualIff(Empty<R>(), steps);
  }

  // ---------------------------------------------------------------- what each operation does

  /** The two registries hold the same but for slot `p` and the players of room `r`. */
  ghost predicate OnlyMoves<R>(g: Registry<R>, h: Registry<R>, r: R, p: nat)
    requires |g.slots| == |h.slots| == SLOTS
  {
    && (forall q :: 0 <= q < SLOTS && q != p ==> h.slots[q] == g.slots[q])
    && (forall o :: o in h.players && o != r ==> o in g.players && h.players[o] == g.players[o])
    && (forall o :: o in g.players ==> o in h.players)
  }

  /** Creating puts the creator alone into a new room, the last of the list, whatever his slot held; all else stays. */
  lemma CreateEnters<R>(g: Registry<R>, r: R, p: nat)
    requires WellFormed(g) && r !in g.players
    ensures var h := WithRoom(g, r, p);
            if p >= SLOTS then h == g
            else && h.slots[p] == Some(r) && r in h.players && h.players[r] == [p] && h.rooms == g.rooms + [r]
                 && OnlyMoves(g, h, r, p)
  {
  }

  /**
    Joining a host who is in a room puts the player into that room: his slot leads to it, he stands last among its
    players and nowhere else, the others keep their order, and no other slot, room or player list changes.
   */
  lemma JoinEnters<R>(g: Registry<R>, p: nat, host: nat, r: R, a: seq<nat>, b: seq<nat>)
    requires Sound(g) && p < SLOTS && g.slots[p].None? && host < SLOTS && g.slots[host] == Some(r)
    requires g.players[r] == a + b || g.players[r] == a + [p] + b
    requires p !in a && p !in b
    ensures var h := Switched(g, p, host);
            && h.slots[p] == h.slots[host] == Some(r) && h.players[r] == a + b + [p]
            && h.rooms == g.rooms && r in h.rooms && OnlyMoves(g, h, r, p)
  {
    hide Without, Populated;
    var h := Switched(g, p, host);
    if g.players[r] == a + b {
      WithoutAbsent(a + b, p);
    } else {
      assert a + [p] + b == a + ([p] + b);
      WithoutOne(a, b, p);
    }
    assert h.players[r] == a + b + [p];
  }

  /** Joining a host who is in no room, and any request of an id beyond the slots, changes nothing. */
  lemma JoinNobody<R>(g: Registry<R>, p: nat, host: nat)
    requires WellFormed(g)
    requires p >= SLOTS || (g.slots[p].None? && (host >= SLOTS || g.slots[host].None?))
    ensures Switched(g, p, host) == g
  {
  }

  /** Leaving and crashing of a player who is in no room change nothing. */
  lemma IdleLeaves<R>(g: Registry<R>, p: nat)
    requires WellFormed(g) && (p < SLOTS ==> g.slots[p].None?)
    ensures Next(g, Leave(p)) == g && Next(g, Crash(p)) == g
  {
  }

  /**
    Leaving, by whatever host is named, and crashing take the player out of his room: his slot is empty, the others
    keep their order, and the room leaves the list exactly when he was the last; no other slot, room or player list
    changes.
   */
  lemma LeaveExits<R>(g: Registry<R>, p: nat, host: nat, r: R, a: seq<nat>, b: seq<nat>, x: seq<R>, y: seq<R>)
    requires Sound(g) && p < SLOTS && g.slots[p] == Some(r)
    requires g.players[r] == a + [p] + b && g.rooms == x + [r] + y
    ensures var h := WithoutPlayer(g, p);
            && Switched(g, p, host) == h
            && h.slots[p].None? && h.players[r] == a + b
            && h.rooms == (if a + b == [] then x + y else g.rooms) && OnlyMoves(g, h, r, p)
  {
    hide Sweep, RemoveFirst, Without;
    RemoveSound(g, p);
    LeavingRoom(g, p);
    assert a + [p] + b == a + ([p] + b) && x + [r] + y == x + ([r] + y);
    SplitDistinct(g.players[r], a, b, p);
    SplitDistinct(g.rooms, x, y, r);
    WithoutOne(a, b, p);
    WithoutOne(x, y, r);
    var h := WithoutPlayer(g, p);
    assert h.slots[p := None] == h.slots;
    if a + b == [] {
      SweepIdle(g, p);
    }
  }

  lemma SplitDistinct<T>(s: seq<T>, a: seq<T>, b: seq<T>, x: T)
    requires Distinct(s) && s == a + [x] + b
    ensures x !in a && x !in b
  {
    assert s[|a|] == x;
    assert forall i :: 0 <= i < |a| ==> a[i] == s[i];
    assert forall i :: 0 <= i < |b| ==> b[i] == s[|a| + 1 + i];
  }

  /** Nobody else's step moves a player. */
  lemma OthersKeepSlot<R>(g: Registry<R>, s: Step<R>, p: nat)
    requires Sound(g) && Enabled(g, s) && p < SLOTS && s.p != p
    ensures Next(g, s).slots[p] == g.slots[p]
  {
    hide Without, Sweep, Populated;
    var q := s.p;
    if !s.Create? && q < SLOTS && g.slots[q].Some? && RemoveFirst(g.players[g.slots[q].value], q) == [] {
      SweepIdle(g, q);
    }
  }

  lemma {:induction false} OthersKeepOver<R>(g: Registry<R>, steps: seq<Step<R>>, p: nat)
    requires Sound(g) && Legal(g, steps) && p < SLOTS && forall i :: 0 <= i < |steps| ==> steps[i].p != p
    ensures Run(g, steps).slots[p] == g.slots[p]
    decreases |steps|
  {
    hide Sound, Next, Enabled;
    SoundFormed(g);
    if steps == [] {
    } else {
      NextSound(g, steps[0]);
      OthersKeepSlot(g, steps[0], p);
      OthersKeepOver(Next(g, steps[0]), steps[1..], p);
    }
  }

  /**
    Over every run: from his joining until his next own step a player is in the room his host was in then, which
    stays listed with him in it, whatever the host and all others do; and with the host, until the host moves.
   */
  lemma JoinedStays<R>(g: Registry<R>, p: nat, host: nat, r: R, steps: seq<Step<R>>)
    requires Sound(g) && p < SLOTS && g.slots[p].None? && host < SLOTS && g.slots[host] == Some(r)
    requires Legal(g, [Join(p, host)] + steps) && forall i :: 0 <= i < |steps| ==> steps[i].p != p
    ensures var h := Run(g, [Join(p, host)] + steps);
            && h.slots[p] == Some(r) && r in h.rooms && r in h.players && p in h.players[r]
            && ((forall i :: 0 <= i < |steps| ==> steps[i].p != host) ==> h.slots[host] == Some(r))
  {
    var first: Step<R> := Join(p, host);
    var all, h := [first] + steps, Next(g, first);
    assert all[0] == first && all[1..] == steps;
    NextSound(g, first);
    assert h.slots[p] == h.slots[host] == Some(r);
    RunSound(h, steps);
    OthersKeepOver(h, steps, p);
    if forall i :: 0 <= i < |steps| ==> steps[i].p != host {
      OthersKeepOver(h, steps, host);
    }
  }

  /** Joining and then leaving restores the registry. */
  lemma JoinThenLeave<R>(g: Registry<R>, p: nat, host: nat)
    requires Mutual(g) && p < SLOTS && g.slots[p].None?
    ensures Switched(Switched(g, p, host), p, NO_HOST) == g
  {
    hide Sweep, RemoveFirst, Without, Populated, Distinct;
    if host < SLOTS && g.slots[host].Some? {
      var r, h := g.slots[host].value, Switched(g, p, host);
      var players := g.players[r];
      assert Points(g.slots, players, r);
      WithoutAbsent(players, p);
      RemoveLast(players, p);
      assert h.players[r] == players + [p];
      assert h.slots[p := None] == g.slots && h.players[r := players] == g.players;
    }
  }

  lemma RemoveLast(players: seq<nat>, p: nat)
    requires p !in players
    ensures RemoveFirst(players + [p], p) == players
  {
    var i := IndexOf(players + [p], p);
    assert i == |players|;
    assert (players + [p])[..i] + (players + [p])[i + 1..] == players;
  }

  /** The player is listed in the room, but his slot leads elsewhere. */
  ghost predicate Stale<R>(g: Registry<R>, r: R, p: nat)
    requires WellFormed(g)
  {
    r in g.rooms && p in g.players[r] && (p < SLOTS ==> g.slots[p] != Some(r))
  }

  /** No step but the player's own joining takes a room left behind off the list. */
  lemma StaleStays<R>(g: Registry<R>, s: Step<R>, r: R, p: nat)
    requires Sound(g) && Enabled(g, s) && Stale(g, r, p)
    requires !JoinsRoom(g, s, r, p)
    ensures Stale(Next(g, s), r, p)
  {
    hide Sweep, RemoveFirst;
    var q := s.p;
    if s.Create? {
    } else if q < SLOTS && g.slots[q].Some? {
      LeavingRoom(g, q);
      StaleInRoom(g, r, p, q);
    } else if s.Join? && q < SLOTS && s.host < SLOTS && g.slots[s.host].Some? {
      WithoutMember(g.players[g.slots[s.host].value], q, p);
    }
  }

  /** The player joins somebody who is in the room. */
  predicate JoinsRoom<R(==)>(g: Registry<R>, s: Step<R>, r: R, p: nat)
    requires WellFormed(g)
  {
    s.Join? && s.p == p && s.host < SLOTS && g.slots[s.host] == Some(r)
  }

  ghost predicate NeverJoinsRoom<R>(g: Registry<R>, steps: seq<Step<R>>, r: R, p: nat)
    requires WellFormed(g)
    decreases |steps|
  {
    steps == [] || (!JoinsRoom(g, steps[0], r, p) && NeverJoinsRoom(Next(g, steps[0]), steps[1..], r, p))
  }

  /**
    A room left behind by an overwriting creation never closes: over every run in which the player does not join it
    again, it stays listed and holds him, whoever else comes and goes.
   */
  lemma {:induction false} StaleForever<R>(g: Registry<R>, steps: seq<Step<R>>, r: R, p: nat)
    requires Sound(g) && Legal(g, steps) && Stale(g, r, p) && NeverJoinsRoom(g, steps, r, p)
    ensures Stale(Run(g, steps), r, p)
    decreases |steps|
  {
    hide Sound, Next, Enabled, Stale;
    SoundFormed(g);
    if steps == [] {
    } else {
      NextSound(g, steps[0]);
      StaleStays(g, steps[0], r, p);
      StaleForever(Next(g, steps[0]), steps[1..], r, p);
    }
  }

  /** And every overwriting creation leaves such a room behind. */
  lemma OverwritingLeavesStale<R>(g: Registry<R>, r: R, p: nat)
    requires Sound(g) && r !in g.players && p < SLOTS && g.slots[p].Some?
    ensures Stale(WithRoom(g, r, p), g.slots[p].value, p)
  {
  }

  lemma StaleInRoom<R>(g: Registry<R>, r: R, p: nat, q: nat)
    requires Sound(g) && Stale(g, r, p) && q < SLOTS && g.slots[q].Some?
    ensures Stale(WithoutPlayer(g, q), r, p)
  {
    hide RemoveFirst, Without, Sweep, Populated;
    LeavingRoom(g, q);
    WithoutMember(g.players[g.slots[q].value], q, p);
    WithoutMember(g.rooms, g.slots[q].value, r);
  }

  // ---------------------------------------------------------------- the objects

  class Room {
    var players: seq<nat>

    constructor (hostSessionId: nat)
      ensures players == [hostSessionId]
    {
      players := [hostSessionId];
    }

    /** True when the room must be closed because nobody is left. */
    method RemovePlayer(playerSessionId: nat) returns (close: bool)
      modifies this
      ensures players == RemoveFirst(old(players), playerSessionId) && close == (players == [])
    {
      var it := 0;
      while it < |players| && players[it] != playerSessionId
        invariant it <= |players| && playerSessionId !in players[..it]
      {
        it := it + 1;
      }
      FirstAt(players, it, playerSessionId);
      if it == |players| {
        return players == [];
      }
      players := players[..it] + players[it + 1..];
      return players == [];
    }

    method AddPlayer(playerSessionId: nat)
      modifies this
      ensures players == Without(old(players), playerSessionId) + [playerSessionId]
    {
      var all, kept, k := players, [], 0;
      while k < |all|
        invariant k <= |all| && kept == Without(all[..k], playerSessionId)
      {
        assert all[..k + 1] == all[..k] + [all[k]];
        WithoutAppend(all[..k], all[k], playerSessionId);
        if all[k] != playerSessionId {
          kept := kept + [all[k]];
        }
        k := k + 1;
      }
      assert all[..k] == all;
      players := kept + [playerSessionId];
    }
  }

  lemma FirstAt(s: seq<nat>, i: nat, x: nat)
    requires i <= |s| && x !in s[..i] && (i < |s| ==> s[i] == x)
    ensures IndexOf(s, x) == i
  {
    assert forall k :: 0 <= k < i ==> s[k] in s[..i];
    assert forall k :: 0 <= k < IndexOf(s, x) ==> s[k] in s[..IndexOf(s, x)];
  }

  class RoomsManager {
    const slots: array<Option<Room>>
    var rooms: seq<Room>
    /** Every room handed to the manager so far. */
    ghost var known: set<Room>

    ghost predicate Valid()
      reads this, slots, known
    {
      WellFormed(Contents())
    }

    ghost function Contents(): Registry<Room>
      reads this, slots, known
    {
      Registry(slots[..], rooms, map r | r in known :: r.players)
    }

    constructor ()
      ensures Valid() && fresh(slots) && known == {} && Contents() == Empty()
    {
      slots := new Option<Room>[SLOTS](_ => None);
      rooms := [];
      known := {};
      new;
      assert slots[..] == Empty<Room>().slots;
    }

    method AddRoom(room: Room, playerId: nat)
      requires Valid() && room !in known && room.players == [playerId]
      modifies this, slots
      ensures Valid() && Contents() == WithRoom(old(Contents()), room, playerId)
      ensures known == if playerId < SLOTS then old(known) + {room} else old(known)
    {
      if playerId < SLOTS {
        slots[playerId] := Some(room);
        rooms := rooms + [room];
        known := known + {room};
      }
      assert Contents() == WithRoom(old(Contents()), room, playerId);
    }

    method RemovePlayerFromRoom(sessionId: nat)
      requires Valid()
      modifies this, slots, known
      ensures Valid() && known == old(known)
      ensures Contents() == WithoutPlayer(old(Contents()), sessionId)
    {
      hide Sweep, RemoveFirst, Without;
      if sessionId >= SLOTS || slots[sessionId].None? {
        return;
      }
      var room := slots[sessionId].value;
      assert room in old(Contents()).players;
      var mustRoomBeRemoved := room.RemovePlayer(sessionId);
      slots[sessionId] := None;
      assert slots[..] == old(slots[..])[sessionId := None];
      if mustRoomBeRemoved {
        rooms := Without(rooms, room);
        ClearSlots(room);
      }
      assert Contents().players == old(Contents()).players[room := room.players];
    }

    method ClearSlots(room: Room)
      requires slots.Length == SLOTS
      modifies slots
      ensures slots[..] == Sweep(old(slots[..]), room)
    {
      var k := 0;
      while k < slots.Length
        invariant 0 <= k <= slots.Length
        invariant forall j :: 0 <= j < k ==> slots[j] == if old(slots[j]) == Some(room) then None else old(slots[j])
        invariant forall j :: k <= j < slots.Length ==> slots[j] == old(slots[j])
      {
        if slots[k] == Some(room) {
          slots[k] := None;
        }
        k := k + 1;
      }
    }

    method SwitchRoomJoinOrExit(playerId: nat, hostSessionId: nat)
      requires Valid()
      modifies this, slots, known
      ensures Valid() && known == old(known)
      ensures Contents() == Switched(old(Contents()), playerId, hostSessionId)
    {
      hide WithoutPlayer, Without;
      if playerId >= SLOTS {
        return;
      }
      if slots[playerId].Some? {
        RemovePlayerFromRoom(playerId);
        slots[playerId] := None;
      } else if hostSessionId < SLOTS && slots[hostSessionId].Some? {
        var hostRoom := slots[hostSessionId].value;
        assert hostRoom in old(Contents()).players;
        hostRoom.AddPlayer(playerId);
        slots[playerId] := Some(hostRoom);
        assert Contents().players == old(Contents()).players[hostRoom := hostRoom.players];
      }
    }
  }
}
