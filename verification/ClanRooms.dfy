/**
  Clan party rooms of MainServer (ClanRoom.h, ClansManager.h): waiting lists whose entry 0 is the leader, with a
  cached leader name, level and player count, and the numbered rooms of every clan.
 */
module ClanRooms {
  import opened Collections

  const MAX_PARTIES := 4
  const U16 := 0x1_0000

  /** An entry of the waiting list; `alive` says whether its session still exists. */
  datatype Member = Member(id: nat, name: string, level: nat, alive: bool)

  datatype Party = Party(clanId: nat, number: nat, numPlayers: nat, maxPlayers: nat,
                         leaderName: string, leaderLevel: nat, players: seq<Member>)

  // ---------------------------------------------------------------- one room

  /** The constructor: the host is entry 0, and the default counts are 1 of 8. */
  function NewParty(clanId: nat, number: nat, host: Member): Party
  {
    Party(clanId, number, 1, 8, host.name, host.level, [host.(alive := true)])
  }

  /** The first live entry with that session id, or the length. */
  function LiveAt(players: seq<Member>, id: nat): (i: nat)
    ensures i <= |players| && (i < |players| ==> players[i].alive && players[i].id == id)
    ensures forall j :: 0 <= j < i ==> !(players[j].alive && players[j].id == id)
  {
    if players == [] || (players[0].alive && players[0].id == id) then 0 else 1 + LiveAt(players[1..], id)
  }

  /** The first live entry from position `from` on, or the length. */
  function FirstLive(players: seq<Member>, from: nat): (i: nat)
    requires from <= |players|
    ensures from <= i <= |players| && (i < |players| ==> players[i].alive)
    ensures forall j :: from <= j < i ==> !players[j].alive
    decreases |players| - from
  {
    if from == |players| || players[from].alive then from else FirstLive(players, from + 1)
  }

  predicate IsLeader(p: Party, id: nat)
  {
    p.players != [] && p.players[0].alive && p.players[0].id == id
  }

  predicate IsFull(p: Party) { p.numPlayers >= p.maxPlayers }

  /** The player count is a 4-bit field. */
  function Joined(p: Party, m: Member): Party
  {
    p.(players := p.players + [m.(alive := true)], numPlayers := (p.numPlayers + 1) % 16)
  }

  function Swapped(players: seq<Member>, idx: nat): (r: seq<Member>)
    requires idx < |players|
    ensures multiset(r) == multiset(players)
  {
    players[0 := players[idx]][idx := players[0]]
  }

  /** `changeLeaderTo`: nothing when it returns false. */
  function LedBy(p: Party, idx: nat): Option<Party>
  {
    if idx == 0 || idx >= |p.players| || !p.players[idx].alive then None
    else
      var leader := p.players[idx];
      Some(p.(players := Swapped(p.players, idx), leaderName := leader.name, leaderLevel := leader.level))
  }

  /** `changeLeaderToFirstAvailable`: nothing when it returns an error; the index is cut to 16 bits on the way. */
  function LedByFirst(p: Party): Option<Party>
  {
    if |p.players| <= 1 then Some(p)
    else
      var idx := FirstLive(p.players, 1);
      if idx == |p.players| then None else LedBy(p, idx % U16)
  }

  function Erase(p: Party, it: nat): Party
    requires it < |p.players|
  {
    var players := p.players[..it] + p.players[it + 1..];
    var count := if p.numPlayers > 0 then p.numPlayers - 1 else 0;
    p.(players := players, numPlayers := if players == [] then 0 else count)
  }

  /** `removePlayer`: nothing when it returns no value; the room must close when nobody is left. */
  function Departed(p: Party, id: nat): Option<Party>
  {
    if LiveAt(p.players, id) == |p.players| then None
    else
      var q := if IsLeader(p, id) then LedByFirst(p) else Some(p);
      if q.None? then None
      else
        var it := LiveAt(q.value.players, id);
        if it == |q.value.players| then None else Some(Erase(q.value, it))
  }

  function Emptied(p: Party): Party { p.(players := [], numPlayers := 0) }

  function Resized(p: Party, n: nat): Party { p.(maxPlayers := n % 16) }

  // ---------------------------------------------------------------- what every operation keeps

  /** The 4-bit player count is the length of the list. */
  predicate Counted(p: Party) { p.numPlayers == |p.players| && p.numPlayers < 16 && p.maxPlayers < 16 }

  /** Besides, the cached leader is entry 0. */
  predicate Cached(p: Party)
  {
    Counted(p) && (p.players != [] ==> p.leaderName == p.players[0].name && p.leaderLevel == p.players[0].level)
  }

  /** No two live entries have the same session id. */
  predicate LiveIdsDistinct(players: seq<Member>)
  {
    forall i, j :: 0 <= i < j < |players| && players[i].alive && players[j].alive ==> players[i].id != players[j].id
  }

  predicate Good(p: Party) { Cached(p) && LiveIdsDistinct(p.players) }

  /** Adding keeps the count equal to the length exactly while the 4-bit field does not wrap. */
  lemma AddPlayerIff(p: Party, m: Member)
    requires Cached(p) && p.players != []
    ensures Cached(Joined(p, m)) <==> |p.players| < 15
  {
    var q := Joined(p, m);
    assert |q.players| == |p.players| + 1;
  }

  lemma SwappedIs(players: seq<Member>, idx: nat)
    requires idx < |players|
    ensures |Swapped(players, idx)| == |players|
    ensures forall k :: 0 <= k < |players| ==>
              Swapped(players, idx)[k] == players[if k == 0 then idx else if k == idx then 0 else k]
  {
  }

  /** A leader change permutes the list, puts the chosen entry first, and makes the cache true. */
  lemma LedByKeeps(p: Party, idx: nat)
    requires LedBy(p, idx).Some?
    ensures var q := LedBy(p, idx).value;
            && multiset(q.players) == multiset(p.players) && q.players[0] == p.players[idx]
            && (Counted(p) ==> Cached(q)) && (Good(p) ==> Good(q))
  {
    SwappedIs(p.players, idx);
  }

  /** The successor exists exactly when the room is down to one entry or some later session is alive. */
  lemma SuccessorIff(p: Party)
    requires |p.players| <= U16
    ensures LedByFirst(p).Some? <==> |p.players| <= 1 || FirstLive(p.players, 1) < |p.players|
    ensures |p.players| > 1 && LedByFirst(p).Some? ==> LedByFirst(p) == LedBy(p, FirstLive(p.players, 1))
  {
    if |p.players| > 1 {
      SmallMod(FirstLive(p.players, 1));
    }
  }

  lemma SmallMod(i: nat)
    ensures i < U16 ==> i % U16 == i
  {
  }

  lemma EraseMultiset(players: seq<Member>, it: nat)
    requires it < |players|
    ensures multiset(players[..it] + players[it + 1..]) == multiset(players) - multiset{players[it]}
  {
    assert players == players[..it] + [players[it]] + players[it + 1..];
  }

  lemma EraseDistinct(players: seq<Member>, it: nat)
    requires LiveIdsDistinct(players) && it < |players|
    ensures LiveIdsDistinct(players[..it] + players[it + 1..])
  {
    var left := players[..it] + players[it + 1..];
    assert forall k :: 0 <= k < |left| ==> left[k] == players[if k < it then k else k + 1];
  }

  lemma EraseKeeps(p: Party, it: nat)
    requires Counted(p) && it < |p.players|
    ensures var q := Erase(p, it);
            && Counted(q) && q.players == p.players[..it] + p.players[it + 1..]
            && q.leaderName == p.leaderName && q.leaderLevel == p.leaderLevel
            && multiset(q.players) == multiset(p.players) - multiset{p.players[it]}
            && (LiveIdsDistinct(p.players) ==> LiveIdsDistinct(q.players))
            && (it > 0 ==> q.players[0] == p.players[0])
  {
    hide LiveIdsDistinct;
    EraseMultiset(p.players, it);
    if LiveIdsDistinct(p.players) {
      EraseDistinct(p.players, it);
    }
  }

  // ---------------------------------------------------------------- leaving

  lemma StillThere(a: seq<Member>, b: seq<Member>, id: nat)
    requires multiset(a) == multiset(b) && LiveAt(a, id) < |a|
    ensures LiveAt(b, id) < |b|
  {
    var x := a[LiveAt(a, id)];
    assert x in multiset(b);
  }

  /** Exactly when a player can leave: he has a live entry, and if he leads others there is a live successor. */
  lemma RemoveIff(p: Party, id: nat)
    requires Counted(p)
    ensures Departed(p, id).Some? <==>
              && LiveAt(p.players, id) < |p.players|
              && (IsLeader(p, id) ==> |p.players| == 1 || FirstLive(p.players, 1) < |p.players|)
  {
    SuccessorIff(p);
    if LiveAt(p.players, id) < |p.players| && IsLeader(p, id) && LedByFirst(p).Some? {
      StillThere(p.players, LedByFirst(p).value.players, id);
    }
  }

  /** The party from which the leaving player's entry is erased: after a leader's succession. */
  function Succeeded(p: Party, id: nat): Party
  {
    if IsLeader(p, id) && LedByFirst(p).Some? then LedByFirst(p).value else p
  }

  lemma DepartedIs(p: Party, id: nat)
    requires Counted(p) && Departed(p, id).Some?
    ensures var s, it := Succeeded(p, id), LiveAt(Succeeded(p, id).players, id);
            && Counted(s) && multiset(s.players) == multiset(p.players) && it < |s.players|
            && Departed(p, id) == Some(Erase(s, it))
            && (!IsLeader(p, id) || |p.players| == 1 ==> s == p)
            && (IsLeader(p, id) && |p.players| > 1 ==>
                  var first := FirstLive(p.players, 1);
                  first < |p.players| && Some(s) == LedBy(p, first))
  {
    hide LiveAt, FirstLive, Erase, Swapped;
    SuccessorIff(p);
    if IsLeader(p, id) && |p.players| > 1 {
      LedByKeeps(p, FirstLive(p.players, 1));
    }
  }

  /** Leaving removes one entry of that player, a live one, keeps the count, and keeps ids distinct. */
  lemma RemovesOne(p: Party, id: nat)
    requires Counted(p) && Departed(p, id).Some?
    ensures var q := Departed(p, id).value;
            && Counted(q) && |q.players| + 1 == |p.players|
            && exists x :: x in p.players && x.alive && x.id == id
                        && multiset(q.players) == multiset(p.players) - multiset{x}
  {
    hide LiveAt, FirstLive, Erase, Swapped, LedBy, LedByFirst;
    DepartedIs(p, id);
    var s, it := Succeeded(p, id), LiveAt(Succeeded(p, id).players, id);
    EraseKeeps(s, it);
    var x := s.players[it];
    assert x in multiset(p.players);
    assert x in p.players;
  }

  /**
    The party whose cache is wrong after the player left: he leads, the first live entry behind him is his own, and
    the entry that moves up after the succession differs from it.
   */
  predicate LeavesStale(p: Party, id: nat)
  {
    IsLeader(p, id) && |p.players| > 1 &&
    var first := FirstLive(p.players, 1);
    first < |p.players| && p.players[first].id == id &&
    var next := p.players[if first == 1 then 0 else 1];
    next.name != p.players[first].name || next.level != p.players[first].level
  }

  /** Exactly when leaving keeps the cached leader true. */
  lemma RemoveCachedIff(p: Party, id: nat)
    requires Cached(p) && Departed(p, id).Some?
    ensures Cached(Departed(p, id).value) <==> !LeavesStale(p, id)
  {
    hide FirstLive, Erase, Swapped, LedByFirst;
    DepartedIs(p, id);
    var s, it := Succeeded(p, id), LiveAt(Succeeded(p, id).players, id);
    EraseKeeps(s, it);
    if IsLeader(p, id) && |p.players| > 1 {
      SwappedIs(p.players, FirstLive(p.players, 1));
    }
  }

  /** In a list with the same entries the same live session is found. */
  lemma SameLive(a: seq<Member>, b: seq<Member>, id: nat)
    requires LiveIdsDistinct(a) && multiset(a) == multiset(b) && LiveAt(a, id) < |a|
    ensures LiveAt(b, id) < |b| && b[LiveAt(b, id)] == a[LiveAt(a, id)]
  {
    var x := a[LiveAt(a, id)];
    assert x in multiset(b);
    var j :| 0 <= j < |b| && b[j] == x;
    var y := b[LiveAt(b, id)];
    assert y in multiset(a);
    var k :| 0 <= k < |a| && a[k] == y;
  }

  /**
    Leaving a party of distinct sessions removes exactly that player's entry and keeps cache, count and ids; a
    leader is followed by the first live entry behind him, and after anyone else the order stays.
   */
  lemma RemoveExactly(p: Party, id: nat)
    requires Good(p) && Departed(p, id).Some?
    ensures var q, it := Departed(p, id).value, LiveAt(p.players, id);
            && Good(q) && multiset(q.players) == multiset(p.players) - multiset{p.players[it]}
            && (IsLeader(p, id) && |p.players| > 1 ==> q.players[0] == p.players[FirstLive(p.players, 1)])
            && (!IsLeader(p, id) ==> q.players == p.players[..it] + p.players[it + 1..])
  {
    hide LiveAt, FirstLive, Erase, Swapped, LedBy, LedByFirst, LiveIdsDistinct;
    DepartedIs(p, id);
    RemoveCachedIff(p, id);
    var s, first := Succeeded(p, id), FirstLive(p.players, 1);
    SameLive(p.players, s.players, id);
    EraseKeeps(s, LiveAt(s.players, id));
    if IsLeader(p, id) && |p.players| > 1 {
      LedByKeeps(p, first);
      SuccessorDiffers(p, first);
    }
  }

  lemma SuccessorDiffers(p: Party, i: nat)
    requires Good(p) && 0 < i < |p.players| && p.players[i].alive && p.players[0].alive
    ensures p.players[i].id != p.players[0].id
  {
  }

  // ---------------------------------------------------------------- runs of one room

  /** A session that expires takes all its entries with it. */
  function Expired(players: seq<Member>, id: nat): (r: seq<Member>)
    ensures |r| == |players|
    ensures forall i :: 0 <= i < |r| ==>
              r[i] == if players[i].id == id then players[i].(alive := false) else players[i]
  {
    seq(|players|, i requires 0 <= i < |players| =>
      if players[i].id == id then players[i].(alive := false) else players[i])
  }

  datatype Step = Join(m: Member) | Leave(id: nat) | Promote(idx: nat) | Expire(id: nat) | Resize(n: nat) | Clear

  /** The join handler refuses when the leader's session is gone or the room is full. */
  predicate Joinable(p: Party) { p.players != [] && p.players[0].alive && !IsFull(p) }

  function Apply(p: Party, s: Step): Party
  {
    match s
    case Join(m) => if Joinable(p) then Joined(p, m) else p
    case Leave(id) => (match Departed(p, id) case Some(q) => q case None => p)
    case Promote(idx) => (match LedBy(p, idx) case Some(q) => q case None => p)
    case Expire(id) => p.(players := Expired(p.players, id))
    case Resize(n) => Resized(p, n)
    case Clear => Emptied(p)
  }

  /** Whether the step lets a player join who is in the room already; the handler does not look. */
  predicate Rejoins(p: Party, s: Step)
  {
    s.Join? && Joinable(p) && LiveAt(p.players, s.m.id) < |p.players|
  }

  lemma ApplyCounted(p: Party, s: Step)
    requires Counted(p)
    ensures Counted(Apply(p, s))
  {
    hide Departed, LedBy, Expired;
    if s.Leave? && Departed(p, s.id).Some? {
      RemovesOne(p, s.id);
    } else if s.Promote? && LedBy(p, s.idx).Some? {
      LedByKeeps(p, s.idx);
    }
  }

  lemma JoinGoodIff(p: Party, m: Member)
    requires Good(p) && Joinable(p)
    ensures Good(Joined(p, m)) <==> LiveAt(p.players, m.id) == |p.players|
  {
    AddPlayerIff(p, m);
    var q, i := Joined(p, m), LiveAt(p.players, m.id);
    if i < |p.players| {
      assert q.players[i] == p.players[i] && q.players[|p.players|] == m.(alive := true);
    }
  }

  lemma ExpiredKeeps(p: Party, id: nat)
    requires Cached(p)
    ensures Cached(Apply(p, Expire(id)))
    ensures LiveIdsDistinct(p.players) ==> LiveIdsDistinct(Apply(p, Expire(id)).players)
  {
  }

  lemma CountsKeep(p: Party, n: nat)
    requires Cached(p)
    ensures Cached(Resized(p, n)) && Resized(p, n).players == p.players
    ensures Cached(Emptied(p)) && LiveIdsDistinct(Emptied(p).players)
  {
  }

  lemma PromotedGood(p: Party, idx: nat)
    requires Good(p)
    ensures Good(Apply(p, Promote(idx)))
  {
    hide Good, LedBy;
    if LedBy(p, idx).Some? {
      LedByKeeps(p, idx);
    }
  }

  lemma LeftGood(p: Party, id: nat)
    requires Good(p)
    ensures Good(Apply(p, Leave(id)))
  {
    hide Good, Departed;
    if Departed(p, id).Some? {
      RemoveExactly(p, id);
    }
  }

  lemma JoinedGoodIff(p: Party, m: Member)
    requires Good(p)
    ensures Good(Apply(p, Join(m))) <==> !Rejoins(p, Join(m))
  {
    hide Good, Joined;
    if Joinable(p) {
      JoinGoodIff(p, m);
    }
  }

  /** One step keeps cache, count and ids exactly when it does not let a player join a second time. */
  lemma ApplyGoodIff(p: Party, s: Step)
    requires Good(p)
    ensures Good(Apply(p, s)) <==> !Rejoins(p, s)
  {
    hide Departed, LedBy, Joined, Expired, LiveIdsDistinct, Cached;
    match s
    case Join(m) => JoinedGoodIff(p, m);
    case Leave(id) => LeftGood(p, id);
    case Promote(idx) => PromotedGood(p, idx);
    case Expire(id) => ExpiredKeeps(p, id);
    case Resize(n) => CountsKeep(p, n);
    case Clear => CountsKeep(p, 0);
  }

  /** Whether the step is a leave after which the cached leader is wrong. */
  predicate GoesStale(p: Party, s: Step)
  {
    s.Leave? && Departed(p, s.id).Some? && LeavesStale(p, s.id)
  }

  lemma JoinedCached(p: Party, m: Member)
    requires Cached(p)
    ensures Cached(Apply(p, Join(m)))
  {
    if Joinable(p) {
      AddPlayerIff(p, m);
    }
  }

  lemma PromotedCached(p: Party, idx: nat)
    requires Cached(p)
    ensures Cached(Apply(p, Promote(idx)))
  {
    hide LedBy;
    if LedBy(p, idx).Some? {
      LedByKeeps(p, idx);
    }
  }

  /** One step keeps the cached leader and the count true exactly when it is no leave that goes stale. */
  lemma ApplyCachedIff(p: Party, s: Step)
    requires Cached(p)
    ensures Cached(Apply(p, s)) <==> !GoesStale(p, s)
  {
    hide Departed, LedBy, Joined, Expired, Cached, LeavesStale;
    match s
    case Join(m) => JoinedCached(p, m);
    case Leave(id) =>
      if Departed(p, id).Some? {
        RemoveCachedIff(p, id);
      }
    case Promote(idx) => PromotedCached(p, idx);
    case Expire(id) => ExpiredKeeps(p, id);
    case Resize(n) => CountsKeep(p, n);
    case Clear => CountsKeep(p, 0);
  }

  function Run(p: Party, steps: seq<Step>): Party
    decreases |steps|
  {
    if steps == [] then p else Run(Apply(p, steps[0]), steps[1..])
  }

  /** Over every run the 4-bit player count is the length of the list. */
  lemma {:induction false} RunCounted(p: Party, steps: seq<Step>)
    requires Counted(p)
    ensures Counted(Run(p, steps))
    decreases |steps|
  {
    hide Counted, Apply;
    if steps == [] {
    } else {
      ApplyCounted(p, steps[0]);
      RunCounted(Apply(p, steps[0]), steps[1..]);
    }
  }

  predicate NeverStale(p: Party, steps: seq<Step>)
    decreases |steps|
  {
    steps == [] || (!GoesStale(p, steps[0]) && NeverStale(Apply(p, steps[0]), steps[1..]))
  }

  predicate AlwaysCached(p: Party, steps: seq<Step>)
    decreases |steps|
  {
    Cached(p) && (steps == [] || AlwaysCached(Apply(p, steps[0]), steps[1..]))
  }

  /**
    Over a run every state has a true leader cache and a true count if and only if no leader ever leaves while the
    first live entry behind him is his own and another entry, of other name or level, moves up.
   */
  lemma {:induction false} RunCachedIff(p: Party, steps: seq<Step>)
    requires Cached(p)
    ensures AlwaysCached(p, steps) <==> NeverStale(p, steps)
    decreases |steps|
  {
    hide Cached, Apply, GoesStale;
    if steps == [] {
    } else {
      ApplyCachedIff(p, steps[0]);
      if Cached(Apply(p, steps[0])) {
        RunCachedIff(Apply(p, steps[0]), steps[1..]);
      }
    }
  }

  predicate NeverRejoins(p: Party, steps: seq<Step>)
    decreases |steps|
  {
    steps == [] || (!Rejoins(p, steps[0]) && NeverRejoins(Apply(p, steps[0]), steps[1..]))
  }

  predicate AlwaysGood(p: Party, steps: seq<Step>)
    decreases |steps|
  {
    Good(p) && (steps == [] || AlwaysGood(Apply(p, steps[0]), steps[1..]))
  }

  /**
    Over a run of joins, leaves, leader changes, expiring sessions and resizing, every state has a true leader cache,
    a true count and distinct sessions if and only if nobody ever joins while he is in the room.
   */
  lemma {:induction false} RunGoodIff(p: Party, steps: seq<Step>)
    requires Good(p)
    ensures AlwaysGood(p, steps) <==> NeverRejoins(p, steps)
    decreases |steps|
  {
    hide Good, Apply, Rejoins;
    if steps == [] {
    } else {
      ApplyGoodIff(p, steps[0]);
      if Good(Apply(p, steps[0])) {
        RunGoodIff(Apply(p, steps[0]), steps[1..]);
      }
    }
  }

  /** A host of level 10 who joins his own party again at level 11 and then leaves: the cached level is wrong. */
  lemma RejoinGoesStale(clanId: nat, number: nat)
    ensures var host := Member(5, "host", 10, true);
            var p := Run(NewParty(clanId, number, host), [Join(host.(level := 11)), Leave(5)]);
            p.players == [host] && p.leaderLevel == 11 && !Cached(p)
  {
    hide Apply, Departed;
    var host := Member(5, "host", 10, true);
    var p := NewParty(clanId, number, host);
    var q := Joined(p, host.(level := 11));
    RunTwo(p, Join(host.(level := 11)), Leave(5));
    HostRejoins(p, host);
    HostLeaves(q, host);
  }

  lemma RunTwo(p: Party, s: Step, t: Step)
    ensures Run(p, [s, t]) == Apply(Apply(p, s), t)
  {
    hide Apply;
    assert [s, t][1..] == [t] && [t][1..] == [];
    assert Run(Apply(p, s), [t]) == Run(Apply(Apply(p, s), t), []);
  }

  lemma HostRejoins(p: Party, host: Member)
    requires host.alive && p == NewParty(p.clanId, p.number, host)
    ensures var q := Joined(p, host.(level := 11));
            Apply(p, Join(host.(level := 11))) == q && q.players == [host, host.(level := 11)] && q.numPlayers == 2
  {
  }

  lemma HostLeaves(q: Party, host: Member)
    requires host.alive && q.players == [host, host.(level := 11)] && q.numPlayers == 2
    ensures var r := Apply(q, Leave(host.id)); r.players == [host] && r.leaderLevel == 11
  {
    hide Swapped, Departed, LedByFirst, LiveAt;
    HostSucceeds(q, host);
    var s := LedByFirst(q).value;
    LiveFirst(q.players, host.id);
    LiveFirst(s.players, host.id);
    DepartsAfter(q, s, host.id);
    assert s.players[..0] + s.players[1..] == [host];
  }

  lemma HostSucceeds(q: Party, host: Member)
    requires host.alive && q.players == [host, host.(level := 11)]
    ensures LedByFirst(q).Some? && LedByFirst(q).value.players == [host.(level := 11), host]
    ensures LedByFirst(q).value.leaderLevel == 11 && LedByFirst(q).value.numPlayers == q.numPlayers
  {
    hide Swapped;
    SwappedIs(q.players, 1);
    assert FirstLive(q.players, 1) == 1;
  }

  lemma LiveFirst(players: seq<Member>, id: nat)
    requires players != [] && players[0].alive && players[0].id == id
    ensures LiveAt(players, id) == 0
  {
  }

  lemma DepartsAfter(q: Party, s: Party, id: nat)
    requires IsLeader(q, id) && LiveAt(q.players, id) == 0 && LedByFirst(q) == Some(s)
    requires s.players != [] && LiveAt(s.players, id) == 0
    ensures Departed(q, id) == Some(Erase(s, 0))
  {
    hide LiveAt, LedByFirst, Erase;
  }

  lemma NewPartyGood(clanId: nat, number: nat, host: Member)
    ensures Good(NewParty(clanId, number, host))
  {
  }

  // ---------------------------------------------------------------- the rooms of all clans

  type Directory = map<nat, seq<Party>>

  function RoomsFor(d: Directory, c: nat): seq<Party> { if c in d then d[c] else [] }

  /** The first room with that number, or the length. */
  function NumberAt(rooms: seq<Party>, n: nat): (i: nat)
    ensures i <= |rooms| && (i < |rooms| ==> rooms[i].number == n)
    ensures forall j :: 0 <= j < i ==> rooms[j].number != n
  {
    if rooms == [] || rooms[0].number == n then 0 else 1 + NumberAt(rooms[1..], n)
  }

  function WithRoom(d: Directory, p: Party): Directory
  {
    d[p.clanId := RoomsFor(d, p.clanId) + [p]]
  }

  function LeastFree(rooms: seq<Party>, i: nat): (n: Option<nat>)
    decreases MAX_PARTIES + 1 - i
  {
    if i > MAX_PARTIES then None else if NumberAt(rooms, i) == |rooms| then Some(i) else LeastFree(rooms, i + 1)
  }

  /** `getNextAvailableRoomNumberFor`. */
  function NextNumber(d: Directory, c: nat): Option<nat>
  {
    if c !in d then Some(1) else LeastFree(d[c], 1)
  }

  function EraseRoom(d: Directory, c: nat, i: nat): Directory
    requires c in d && i < |d[c]|
  {
    var left := d[c][..i] + d[c][i + 1..];
    if left == [] then d - {c} else d[c := left]
  }

  /** `removeExactRoom`; nothing when it returns false. */
  function WithoutRoom(d: Directory, c: nat, n: nat): Option<Directory>
  {
    if c !in d then None
    else
      var i := NumberAt(d[c], n);
      if i == |d[c]| then None else Some(EraseRoom(d, c, i))
  }

  /** The player is removed from the first room that lets him go; a room left empty is erased. */
  function Purged(rooms: seq<Party>, id: nat): seq<Party>
    decreases |rooms|
  {
    if rooms == [] then []
    else match Departed(rooms[0], id)
      case None => [rooms[0]] + Purged(rooms[1..], id)
      case Some(q) => (if q.players == [] then [] else [q]) + rooms[1..]
  }

  /** `tryRemovePlayerFromParty`. */
  function WithoutPlayer(d: Directory, c: nat, id: nat): Directory
  {
    if c in d then d[c := Purged(d[c], id)] else d
  }

  /**
    What the handlers leave of a room: nothing when its last player left, when a player could not be removed, or when
    it is cleared.
   */
  function RoomAfter(p: Party, s: Step): Option<Party>
  {
    match s
    case Leave(id) =>
      (match Departed(p, id) case Some(q) => if q.players == [] then None else Some(q) case None => None)
    case Clear => None
    case _ => Some(Apply(p, s))
  }

  datatype Event = Create(c: nat, host: Member) | Act(c: nat, n: nat, step: Step) | Drop(c: nat, n: nat)
                 | Purge(c: nat, id: nat)

  /** What the handlers do with the directory. */
  function Handle(d: Directory, e: Event): Directory
  {
    match e
    case Create(c, host) => (match NextNumber(d, c) case Some(n) => WithRoom(d, NewParty(c, n, host)) case None => d)
    case Act(c, n, step) =>
      var rooms := RoomsFor(d, c);
      var i := NumberAt(rooms, n);
      if i == |rooms| then d
      else (match RoomAfter(rooms[i], step) case Some(q) => d[c := rooms[i := q]] case None => EraseRoom(d, c, i))
    case Drop(c, n) => (match WithoutRoom(d, c, n) case Some(e) => e case None => d)
    case Purge(c, id) => WithoutPlayer(d, c, id)
  }

  /** Rooms in use, with numbers from 1 to 4, none twice. */
  predicate OrderlyRooms(rooms: seq<Party>, c: nat)
  {
    && (forall i :: 0 <= i < |rooms| ==> Standing(rooms[i], c))
    && (forall i, j :: 0 <= i < j < |rooms| ==> rooms[i].number != rooms[j].number)
  }

  predicate Standing(p: Party, c: nat)
  {
    Counted(p) && p.players != [] && p.clanId == c && 1 <= p.number <= MAX_PARTIES
  }

  ghost predicate Orderly(d: Directory)
  {
    forall c :: c in d ==> OrderlyRooms(d[c], c)
  }

  /** The number given out is free and the least free one; none is given out exactly when 1 to 4 are all taken. */
  lemma {:induction false} LeastFreeIs(rooms: seq<Party>, i: nat)
    requires 1 <= i <= MAX_PARTIES + 1
    ensures LeastFree(rooms, i).Some? ==>
              var n := LeastFree(rooms, i).value;
              && i <= n <= MAX_PARTIES && NumberAt(rooms, n) == |rooms|
              && forall m :: i <= m < n ==> NumberAt(rooms, m) < |rooms|
    ensures LeastFree(rooms, i).None? <==> forall m :: i <= m <= MAX_PARTIES ==> NumberAt(rooms, m) < |rooms|
    decreases MAX_PARTIES + 1 - i
  {
    hide NumberAt;
    if i > MAX_PARTIES || NumberAt(rooms, i) == |rooms| {
    } else {
      LeastFreeIs(rooms, i + 1);
    }
  }

  function Numbers(rooms: seq<Party>): (s: set<nat>) { set i | 0 <= i < |rooms| :: rooms[i].number }

  lemma {:induction false} NumbersCount(rooms: seq<Party>)
    requires forall i, j :: 0 <= i < j < |rooms| ==> rooms[i].number != rooms[j].number
    ensures |Numbers(rooms)| == |rooms|
    decreases |rooms|
  {
    if rooms == [] {
    } else {
      var init, last := rooms[..|rooms| - 1], rooms[|rooms| - 1];
      NumbersCount(init);
      assert Numbers(rooms) == Numbers(init) + {last.number};
      assert last.number !in Numbers(init);
    }
  }

  lemma Subset4(s: set<nat>)
    requires forall x :: x in s ==> 1 <= x <= 4
    ensures |s| <= 4 && (|s| == 4 <==> s == {1, 2, 3, 4})
  {
    var all := {1, 2, 3, 4};
    assert s <= all;
    assert |all| == 4;
    assert |all - s| == 4 - |s|;
    assert s != all ==> exists x :: x in all - s;
  }

  lemma TakenIff(rooms: seq<Party>, m: nat)
    ensures m in Numbers(rooms) <==> NumberAt(rooms, m) < |rooms|
  {
    var i := NumberAt(rooms, m);
    assert i < |rooms| ==> rooms[i].number == m;
  }

  lemma NumbersSmall(rooms: seq<Party>, c: nat)
    requires OrderlyRooms(rooms, c)
    ensures |Numbers(rooms)| == |rooms| && forall x :: x in Numbers(rooms) ==> 1 <= x <= 4
  {
    hide Counted;
    NumbersCount(rooms);
  }

  /** A clan can open a party exactly while it has fewer than four, and gets the least free number. */
  lemma NextNumberIff(d: Directory, c: nat)
    requires Orderly(d)
    ensures |RoomsFor(d, c)| <= MAX_PARTIES
    ensures NextNumber(d, c).Some? <==> |RoomsFor(d, c)| < MAX_PARTIES
    ensures NextNumber(d, c).Some? ==>
              var n := NextNumber(d, c).value;
              && 1 <= n <= MAX_PARTIES && n !in Numbers(RoomsFor(d, c))
              && forall m :: 1 <= m < n ==> m in Numbers(RoomsFor(d, c))
  {
    if c in d {
      RoomsNumberIff(d[c], c);
    }
  }

  lemma RoomsNumberIff(rooms: seq<Party>, c: nat)
    requires OrderlyRooms(rooms, c)
    ensures |rooms| <= MAX_PARTIES && (LeastFree(rooms, 1).Some? <==> |rooms| < MAX_PARTIES)
    ensures LeastFree(rooms, 1).Some? ==>
              var n := LeastFree(rooms, 1).value;
              1 <= n <= MAX_PARTIES && n !in Numbers(rooms) && forall m :: 1 <= m < n ==> m in Numbers(rooms)
  {
    hide OrderlyRooms, NumberAt, Numbers, LeastFree;
    LeastFreeIs(rooms, 1);
    NumbersSmall(rooms, c);
    Subset4(Numbers(rooms));
    TakenIff(rooms, 1);
    TakenIff(rooms, 2);
    TakenIff(rooms, 3);
    TakenIff(rooms, 4);
    assert LeastFree(rooms, 1).None? <==> {1, 2, 3, 4} <= Numbers(rooms);
    if LeastFree(rooms, 1).Some? {
      var n := LeastFree(rooms, 1).value;
      TakenIff(rooms, n);
      forall m | 1 <= m < n ensures m in Numbers(rooms) {
        TakenIff(rooms, m);
      }
    }
  }

  // ---------------------------------------------------------------- runs of the directory

  lemma ReplacedOrderly(rooms: seq<Party>, c: nat, i: nat, p: Party)
    requires OrderlyRooms(rooms, c) && i < |rooms| && Standing(p, c) && p.number == rooms[i].number
    ensures OrderlyRooms(rooms[i := p], c)
  {
    hide Standing;
  }

  lemma ErasedOrderly(rooms: seq<Party>, c: nat, i: nat)
    requires OrderlyRooms(rooms, c) && i < |rooms|
    ensures OrderlyRooms(rooms[..i] + rooms[i + 1..], c)
  {
    hide Standing;
    var left := rooms[..i] + rooms[i + 1..];
    assert forall k :: 0 <= k < |left| ==> left[k] == rooms[if k < i then k else k + 1];
  }

  lemma RemovedStanding(p: Party, c: nat, id: nat)
    requires Standing(p, c) && Departed(p, id).Some?
    ensures var q := Departed(p, id).value;
            q.number == p.number && (q.players != [] ==> Standing(q, c))
  {
    RemovesOne(p, id);
  }

  lemma RoomAfterStanding(p: Party, c: nat, s: Step)
    requires Standing(p, c) && RoomAfter(p, s).Some?
    ensures Standing(RoomAfter(p, s).value, c) && RoomAfter(p, s).value.number == p.number
  {
    hide Counted, Departed;
    ApplyCounted(p, s);
    if s.Leave? && Departed(p, s.id).Some? {
      RemovedStanding(p, c, s.id);
    }
  }

  lemma {:induction false} PurgedOrderly(rooms: seq<Party>, c: nat, id: nat)
    requires OrderlyRooms(rooms, c)
    ensures OrderlyRooms(Purged(rooms, id), c) && Numbers(Purged(rooms, id)) <= Numbers(rooms)
    decreases |rooms|
  {
    hide Standing, Departed;
    if rooms == [] {
    } else {
      var rest, p := rooms[1..], rooms[0];
      assert rooms == [p] + rest;
      FirstRoom(p, rest, c);
      if Departed(p, id).None? {
        PurgedOrderly(rest, c, id);
        FirstRoom(p, Purged(rest, id), c);
      } else {
        var q := Departed(p, id).value;
        RemovedStanding(p, c, id);
        if q.players != [] {
          FirstRoom(q, rest, c);
        }
      }
    }
  }

  /** A list of rooms is orderly when its first room is in use, the others are, and its number is not among theirs. */
  lemma FirstRoom(p: Party, rest: seq<Party>, c: nat)
    ensures OrderlyRooms([p] + rest, c) <==> Standing(p, c) && OrderlyRooms(rest, c) && p.number !in Numbers(rest)
    ensures Numbers([p] + rest) == Numbers(rest) + {p.number}
  {
    hide Standing;
    var all := [p] + rest;
    assert forall k :: 0 <= k < |rest| ==> rest[k] == all[k + 1];
    forall x ensures x in Numbers(all) <==> x in Numbers(rest) + {p.number} {
      if x in Numbers(rest) {
        var k :| 0 <= k < |rest| && rest[k].number == x;
        assert all[k + 1].number == x;
      }
      if x == p.number {
        assert all[0].number == x;
      }
    }
    if OrderlyRooms(all, c) {
      assert Standing(all[0], c);
      forall k | 0 <= k < |rest| ensures Standing(rest[k], c) && rest[k].number != p.number {
        assert Standing(all[k + 1], c) && all[0].number != all[k + 1].number;
      }
      assert OrderlyRooms(rest, c);
    } else if Standing(p, c) && OrderlyRooms(rest, c) {
      assert forall k :: 0 < k < |all| ==> all[k] == rest[k - 1];
      assert exists j :: 0 < j < |all| && all[j].number == p.number;
    }
  }

  lemma SetOrderly(d: Directory, c: nat, rooms: seq<Party>)
    requires Orderly(d) && OrderlyRooms(rooms, c)
    ensures Orderly(d[c := rooms]) && Orderly(d - {c})
  {
  }

  lemma EraseRoomOrderly(d: Directory, c: nat, i: nat)
    requires Orderly(d) && c in d && i < |d[c]|
    ensures Orderly(EraseRoom(d, c, i))
  {
    hide OrderlyRooms;
    ErasedOrderly(d[c], c, i);
    SetOrderly(d, c, d[c][..i] + d[c][i + 1..]);
  }

  lemma NoRoomsOrderly(c: nat)
    ensures OrderlyRooms([], c)
  {
  }

  lemma CreatedOrderly(d: Directory, c: nat, host: Member)
    requires Orderly(d)
    ensures Orderly(Handle(d, Create(c, host)))
  {
    hide OrderlyRooms, Numbers, NextNumber;
    NoRoomsOrderly(c);
    NextNumberIff(d, c);
    var next := NextNumber(d, c);
    if next.Some? {
      var rooms, p := RoomsFor(d, c), NewParty(c, next.value, host);
      NewPartyGood(c, next.value, host);
      AppendedOrderly(rooms, c, p);
      SetOrderly(d, c, rooms + [p]);
    }
  }

  lemma AppendedOrderly(rooms: seq<Party>, c: nat, p: Party)
    requires OrderlyRooms(rooms, c) && Standing(p, c) && p.number !in Numbers(rooms)
    ensures OrderlyRooms(rooms + [p], c)
  {
    hide Standing;
    assert forall k :: 0 <= k < |rooms| ==> rooms[k].number in Numbers(rooms);
  }

  lemma RoomStanding(rooms: seq<Party>, c: nat, i: nat)
    requires OrderlyRooms(rooms, c) && i < |rooms|
    ensures Standing(rooms[i], c)
  {
  }

  lemma ActedOrderly(d: Directory, c: nat, n: nat, step: Step)
    requires Orderly(d)
    ensures Orderly(Handle(d, Act(c, n, step)))
  {
    hide OrderlyRooms, RoomAfter, EraseRoom, Standing;
    var rooms := RoomsFor(d, c);
    var i := NumberAt(rooms, n);
    if i < |rooms| {
      EraseRoomOrderly(d, c, i);
      RoomStanding(rooms, c, i);
      if RoomAfter(rooms[i], step).Some? {
        var q := RoomAfter(rooms[i], step).value;
        RoomAfterStanding(rooms[i], c, step);
        ReplacedOrderly(rooms, c, i, q);
        SetOrderly(d, c, rooms[i := q]);
      }
    }
  }

  lemma HandleOrderly(d: Directory, e: Event)
    requires Orderly(d)
    ensures Orderly(Handle(d, e))
  {
    hide Orderly, OrderlyRooms, Purged, EraseRoom;
    match e
    case Create(c, host) => CreatedOrderly(d, c, host);
    case Act(c, n, step) => ActedOrderly(d, c, n, step);
    case Drop(c, n) =>
      if WithoutRoom(d, c, n).Some? {
        EraseRoomOrderly(d, c, NumberAt(d[c], n));
      }
    case Purge(c, id) => PurgeOrderly(d, c, id);
  }

  lemma PurgeOrderly(d: Directory, c: nat, id: nat)
    requires Orderly(d)
    ensures Orderly(WithoutPlayer(d, c, id))
  {
    hide OrderlyRooms;
    if c in d {
      PurgedOrderly(d[c], c, id);
      SetOrderly(d, c, Purged(d[c], id));
    }
  }

  function HandleAll(d: Directory, events: seq<Event>): Directory
    decreases |events|
  {
    if events == [] then d else HandleAll(Handle(d, events[0]), events[1..])
  }

  /**
    Over every run of the handlers each clan has at most four rooms, all in use, under distinct numbers from 1 to 4,
    each with a true player count.
   */
  lemma {:induction false} HandleAllOrderly(d: Directory, events: seq<Event>)
    requires Orderly(d)
    ensures Orderly(HandleAll(d, events))
    ensures forall c :: c in HandleAll(d, events) ==> |HandleAll(d, events)[c]| <= MAX_PARTIES
    decreases |events|
  {
    hide Orderly, Handle;
    if events == [] {
      forall c | c in d ensures |d[c]| <= MAX_PARTIES {
        NextNumberIff(d, c);
      }
    } else {
      HandleOrderly(d, events[0]);
      HandleAllOrderly(Handle(d, events[0]), events[1..]);
    }
  }

  // ---------------------------------------------------------------- what an event does to one room

  /** The first room from position `from` on that lets the player go, or the length. */
  function LettingGo(rooms: seq<Party>, from: nat, id: nat): (i: nat)
    requires from <= |rooms|
    ensures from <= i <= |rooms| && (i < |rooms| ==> Departed(rooms[i], id).Some?)
    decreases |rooms| - from
  {
    if from == |rooms| || Departed(rooms[from], id).Some? then from else LettingGo(rooms, from + 1, id)
  }

  /** An event leaves the list of its clan as it is, puts a room at a position or behind the last, or erases one. */
  datatype Change = Same | Put(i: nat, p: Party) | Erased(i: nat)

  function Edited(rooms: seq<Party>, ch: Change): seq<Party>
  {
    match ch
    case Same => rooms
    case Put(i, p) => if i < |rooms| then rooms[i := p] else rooms + [p]
    case Erased(i) => if i < |rooms| then rooms[..i] + rooms[i + 1..] else rooms
  }

  function ChangeOf(d: Directory, e: Event): Change
  {
    var rooms := RoomsFor(d, e.c);
    match e
    case Create(c, host) =>
      (match NextNumber(d, c) case Some(n) => Put(|rooms|, NewParty(c, n, host)) case None => Same)
    case Act(c, n, step) =>
      var i := NumberAt(rooms, n);
      if i == |rooms| then Same
      else (match RoomAfter(rooms[i], step) case Some(q) => Put(i, q) case None => Erased(i))
    case Drop(c, n) =>
      var i := NumberAt(rooms, n);
      if i == |rooms| then Same else Erased(i)
    case Purge(c, id) =>
      var i := LettingGo(rooms, 0, id);
      if i == |rooms| then Same
      else
        var q := Departed(rooms[i], id).value;
        if q.players == [] then Erased(i) else Put(i, q)
  }

  lemma PurgedTurn(rooms: seq<Party>, i: nat, id: nat)
    requires i < |rooms|
    ensures rooms[..i] + Purged(rooms[i..], id)
         == match Departed(rooms[i], id)
            case None => rooms[..i + 1] + Purged(rooms[i + 1..], id)
            case Some(q) => if q.players == [] then rooms[..i] + rooms[i + 1..] else rooms[..i] + [q] + rooms[i + 1..]
  {
    hide Departed, Purged;
    var front, first, rest := rooms[..i], [rooms[i]], rooms[i + 1..];
    PurgedFirst(rooms[i..], id);
    assert rooms[i..][0] == rooms[i] && rooms[i..][1..] == rest;
    match Departed(rooms[i], id)
    case None =>
      assert front + first == rooms[..i + 1];
      Associate(front, first, Purged(rest, id));
    case Some(q) =>
      Associate(front, [q], rest);
      assert [] + rest == rest;
  }

  lemma PurgedFirst(rooms: seq<Party>, id: nat)
    requires rooms != []
    ensures Purged(rooms, id)
         == match Departed(rooms[0], id)
            case None => [rooms[0]] + Purged(rooms[1..], id)
            case Some(q) => (if q.players == [] then [] else [q]) + rooms[1..]
  {
    hide Departed;
  }

  lemma PurgedEnd(rooms: seq<Party>, id: nat)
    ensures rooms[..|rooms|] + Purged(rooms[|rooms|..], id) == rooms
  {
  }

  lemma SplitAt(rooms: seq<Party>, i: nat, q: Party)
    requires i < |rooms|
    ensures rooms[..i] + [q] + rooms[i + 1..] == rooms[i := q]
  {
  }

  lemma LettingGoTurn(rooms: seq<Party>, from: nat, id: nat)
    requires from <= |rooms|
    ensures LettingGo(rooms, from, id)
         == if from == |rooms| || Departed(rooms[from], id).Some? then from else LettingGo(rooms, from + 1, id)
  {
    hide Departed;
  }

  lemma {:induction false} PurgedIs(rooms: seq<Party>, from: nat, id: nat)
    requires from <= |rooms|
    ensures var i := LettingGo(rooms, from, id);
            rooms[..from] + Purged(rooms[from..], id)
            == if i == |rooms| then rooms
               else
                 var q := Departed(rooms[i], id).value;
                 if q.players == [] then rooms[..i] + rooms[i + 1..] else rooms[i := q]
    decreases |rooms| - from
  {
    hide Departed, Purged, LettingGo;
    LettingGoTurn(rooms, from, id);
    if from == |rooms| {
      PurgedEnd(rooms, id);
    } else {
      PurgedTurn(rooms, from, id);
      if Departed(rooms[from], id).None? {
        PurgedIs(rooms, from + 1, id);
      } else {
        SplitAt(rooms, from, Departed(rooms[from], id).value);
      }
    }
  }

  lemma PurgeIs(d: Directory, c: nat, id: nat)
    ensures RoomsFor(WithoutPlayer(d, c, id), c) == Edited(RoomsFor(d, c), ChangeOf(d, Purge(c, id)))
  {
    hide Departed, Purged, LettingGo;
    var rooms := RoomsFor(d, c);
    PurgedIs(rooms, 0, id);
    assert rooms[..0] + Purged(rooms[0..], id) == Purged(rooms, id) by { assert rooms[0..] == rooms; }
  }

  lemma CreateIs(d: Directory, c: nat, host: Member)
    ensures RoomsFor(Handle(d, Create(c, host)), c) == Edited(RoomsFor(d, c), ChangeOf(d, Create(c, host)))
  {
    hide NextNumber;
  }

  lemma EraseRoomIs(d: Directory, c: nat, i: nat)
    requires c in d && i < |d[c]|
    ensures RoomsFor(EraseRoom(d, c, i), c) == Edited(RoomsFor(d, c), Erased(i))
  {
  }

  lemma ActIs(d: Directory, c: nat, n: nat, step: Step)
    ensures RoomsFor(Handle(d, Act(c, n, step)), c) == Edited(RoomsFor(d, c), ChangeOf(d, Act(c, n, step)))
  {
    hide NumberAt, RoomAfter, EraseRoom;
    var rooms := RoomsFor(d, c);
    var i := NumberAt(rooms, n);
    if i < |rooms| {
      EraseRoomIs(d, c, i);
    }
  }

  lemma DropIs(d: Directory, c: nat, n: nat)
    ensures RoomsFor(Handle(d, Drop(c, n)), c) == Edited(RoomsFor(d, c), ChangeOf(d, Drop(c, n)))
  {
    hide NumberAt, EraseRoom;
    var rooms := RoomsFor(d, c);
    var i := NumberAt(rooms, n);
    if i < |rooms| {
      EraseRoomIs(d, c, i);
    }
  }

  lemma OtherClans(d: Directory, e: Event, c: nat)
    requires c != e.c
    ensures RoomsFor(Handle(d, e), c) == RoomsFor(d, c)
  {
    hide NumberAt, NextNumber, RoomAfter, Purged;
  }

  /** Only the list of the event's clan changes, and it changes in one place. */
  lemma HandleIs(d: Directory, e: Event)
    ensures RoomsFor(Handle(d, e), e.c) == Edited(RoomsFor(d, e.c), ChangeOf(d, e))
    ensures forall c :: c != e.c ==> RoomsFor(Handle(d, e), c) == RoomsFor(d, c)
  {
    forall c | c != e.c ensures RoomsFor(Handle(d, e), c) == RoomsFor(d, c) {
      OtherClans(d, e, c);
    }
    hide ChangeOf, Edited, RoomsFor;
    match e
    case Create(c, host) => CreateIs(d, c, host);
    case Act(c, n, step) => ActIs(d, c, n, step);
    case Drop(c, n) => DropIs(d, c, n);
    case Purge(c, id) => PurgeIs(d, c, id);
  }

  // ---------------------------------------------------------------- what a step does to its room

  /** Exactly when a leader change succeeds, and with what: the chosen entry and entry 0 trade places, and only they. */
  lemma PromoteIff(p: Party, idx: nat, q: Party)
    ensures LedBy(p, idx) == Some(q) <==>
              && 0 < idx < |p.players| == |q.players| && p.players[idx].alive
              && q.players[0] == p.players[idx] && q.players[idx] == p.players[0]
              && (forall k :: 0 < k < |p.players| && k != idx ==> q.players[k] == p.players[k])
              && q.leaderName == p.players[idx].name && q.leaderLevel == p.players[idx].level
              && q == p.(players := q.players, leaderName := q.leaderName, leaderLevel := q.leaderLevel)
  {
    if 0 < idx < |p.players| == |q.players| {
      SwappedIs(p.players, idx);
      assert q.players == Swapped(p.players, idx) <==>
        forall k :: 0 <= k < |p.players| ==> q.players[k] == Swapped(p.players, idx)[k];
    }
  }

  /**
    Exactly when the join handler lets a player in: somebody waits, the leader's session lives, and the count is below
    the limit. He is then the last entry, and the others stay in place; otherwise nothing changes.
   */
  lemma JoinIs(p: Party, m: Member)
    ensures var q := Apply(p, Join(m));
            if p.players != [] && p.players[0].alive && p.numPlayers < p.maxPlayers then
              && q.players == p.players + [Member(m.id, m.name, m.level, true)]
              && (p.numPlayers < 15 ==> q.numPlayers == p.numPlayers + 1)
              && q.maxPlayers == p.maxPlayers && q.clanId == p.clanId && q.number == p.number
              && q.leaderName == p.leaderName && q.leaderLevel == p.leaderLevel
            else q == p
  {
  }

  /** Resizing sets the limit, and only it, to what four bits hold of the number. */
  lemma ResizeIs(p: Party, n: nat)
    ensures n < 16 ==> Apply(p, Resize(n)) == p.(maxPlayers := n)
    ensures Apply(p, Resize(n + 16)) == Apply(p, Resize(n))
  {
  }

  /** A leader of others who leaves: his successor stands first, and the order of all others stays. */
  lemma LeaderLeaves(p: Party, id: nat)
    requires Good(p) && Departed(p, id).Some? && IsLeader(p, id) && |p.players| > 1
    ensures var first := FirstLive(p.players, 1);
            && first < |p.players|
            && Departed(p, id).value.players == [p.players[first]] + p.players[1..first] + p.players[first + 1..]
  {
    hide LiveAt, FirstLive, Swapped, LedByFirst;
    DepartedIs(p, id);
    var s, first := Succeeded(p, id), FirstLive(p.players, 1);
    SwappedIs(p.players, first);
    SuccessorDiffers(p, first);
    LedByKeeps(p, first);
    assert s.players[first] == p.players[0];
    OnlyLive(s.players, first, id);
    assert s.players[..first] == [p.players[first]] + p.players[1..first];
    assert s.players[first + 1..] == p.players[first + 1..];
  }

  lemma OnlyLive(players: seq<Member>, i: nat, id: nat)
    requires LiveIdsDistinct(players) && i < |players| && players[i].alive && players[i].id == id
    ensures LiveAt(players, id) == i
  {
  }

  // ---------------------------------------------------------------- what an event does to its clan

  lemma {:induction false} NumberBehind(a: seq<Party>, r: Party, b: seq<Party>, n: nat)
    requires r.number == n && forall k :: 0 <= k < |a| ==> a[k].number != n
    ensures NumberAt(a + [r] + b, n) == |a|
  {
    var rooms := a + [r] + b;
    assert rooms[|a|] == r;
    assert forall k :: 0 <= k < |a| ==> rooms[k] == a[k];
  }

  /** What is left of the room a step is for: a left or cleared one goes with its last player or a failed removal. */
  predicate Leaves(r: Party, step: Step, left: seq<Party>)
  {
    match step
    case Clear => left == []
    case Leave(id) =>
      var q := Departed(r, id);
      if q.Some? && q.value.players != [] then left == [q.value] else left == []
    case _ => left == [Apply(r, step)]
  }

  /** A step for a room reaches the first one with that number, and all others of the clan stay in order. */
  lemma ActReaches(d: Directory, c: nat, n: nat, step: Step, a: seq<Party>, r: Party, b: seq<Party>, left: seq<Party>)
    requires c in d && d[c] == a + [r] + b && r.number == n && forall k :: 0 <= k < |a| ==> a[k].number != n
    requires Leaves(r, step, left)
    ensures RoomsFor(Handle(d, Act(c, n, step)), c) == a + left + b
  {
    hide Departed, Apply;
    var rooms := a + [r] + b;
    NumberBehind(a, r, b, n);
    assert rooms[|a|] == r && rooms[..|a|] == a && rooms[|a| + 1..] == b;
    if RoomAfter(r, step).Some? {
      assert rooms[|a| := RoomAfter(r, step).value] == a + left + b;
    } else {
      assert a + left + b == a + b;
    }
  }

  /** Dropping a room takes out exactly the first one with that number; a step or drop for no room changes nothing. */
  lemma DropTakes(d: Directory, c: nat, n: nat, a: seq<Party>, r: Party, b: seq<Party>)
    requires c in d && d[c] == a + [r] + b && r.number == n && forall k :: 0 <= k < |a| ==> a[k].number != n
    ensures var e := Handle(d, Drop(c, n)); RoomsFor(e, c) == a + b && (c in e <==> a + b != [])
  {
    NumberBehind(a, r, b, n);
    assert d[c][..|a|] == a && d[c][|a| + 1..] == b;
  }

  lemma NoSuchRoom(d: Directory, c: nat, n: nat, step: Step)
    requires forall k :: 0 <= k < |RoomsFor(d, c)| ==> RoomsFor(d, c)[k].number != n
    ensures Handle(d, Drop(c, n)) == d && Handle(d, Act(c, n, step)) == d
  {
    var rooms := RoomsFor(d, c);
    assert NumberAt(rooms, n) == |rooms|;
    hide NumberAt, RoomAfter;
  }

  /** The first room that can let the player go loses him, and goes itself with its last one; the others stay. */
  lemma PurgeTakes(d: Directory, c: nat, id: nat, a: seq<Party>, r: Party, b: seq<Party>)
    requires c in d && d[c] == a + [r] + b && Departed(r, id).Some?
    requires forall k :: 0 <= k < |a| ==> Departed(a[k], id).None?
    ensures var q := Departed(r, id).value;
            RoomsFor(Handle(d, Purge(c, id)), c) == a + (if q.players == [] then [] else [q]) + b
  {
    hide Departed, Purged;
    var q, rest := Departed(r, id).value, [r] + b;
    var kept := if q.players == [] then [] else [q];
    Associate(a, [r], b);
    Associate(a, kept, b);
    assert rest[0] == r && rest[1..] == b;
    PurgedBehind(a, rest, id);
    PurgedFirst(rest, id);
  }

  lemma PurgeNobody(d: Directory, c: nat, id: nat)
    requires forall k :: 0 <= k < |RoomsFor(d, c)| ==> Departed(RoomsFor(d, c)[k], id).None?
    ensures Handle(d, Purge(c, id)) == d
  {
    hide Departed;
    if c in d {
      assert RoomsFor(d, c) == d[c];
      PurgedBehind(d[c], [], id);
      assert d[c] + [] == d[c];
    }
  }

  lemma {:induction false} PurgedBehind(a: seq<Party>, rest: seq<Party>, id: nat)
    requires forall k :: 0 <= k < |a| ==> Departed(a[k], id).None?
    ensures Purged(a + rest, id) == a + Purged(rest, id)
    decreases |a|
  {
    hide Departed;
    if a == [] {
      assert a + rest == rest;
    } else {
      assert (a + rest)[1..] == a[1..] + rest;
      PurgedBehind(a[1..], rest, id);
      assert [a[0]] + (a[1..] + Purged(rest, id)) == a + Purged(rest, id);
    }
  }

  predicate Taken(rooms: seq<Party>, n: nat) { exists k :: 0 <= k < |rooms| && rooms[k].number == n }

  /**
    Opening a party: while one of the numbers 1 to 4 is free the least free one goes to a new party of 1 out of 8 with
    the host as its only entry and leader, behind the clan's others; otherwise nothing changes.
   */
  lemma CreateOpens(d: Directory, c: nat, host: Member)
    ensures var rooms, e := RoomsFor(d, c), Handle(d, Create(c, host));
            if Taken(rooms, 1) && Taken(rooms, 2) && Taken(rooms, 3) && Taken(rooms, 4) then e == d
            else
              var high := if !Taken(rooms, 3) then 3 else 4;
              var n := if !Taken(rooms, 1) then 1 else if !Taken(rooms, 2) then 2 else high;
              RoomsFor(e, c) == rooms + [Party(c, n, 1, 8, host.name, host.level,
                                               [Member(host.id, host.name, host.level, true)])]
  {
    hide NumberAt, Taken;
    var rooms := RoomsFor(d, c);
    TakenAt(rooms, 1);
    TakenAt(rooms, 2);
    TakenAt(rooms, 3);
    TakenAt(rooms, 4);
    FirstOfFour(rooms);
  }

  lemma TakenAt(rooms: seq<Party>, n: nat)
    ensures Taken(rooms, n) <==> NumberAt(rooms, n) < |rooms|
  {
  }

  lemma FirstOfFour(rooms: seq<Party>)
    ensures LeastFree(rooms, 1) == if NumberAt(rooms, 1) == |rooms| then Some(1)
                                   else if NumberAt(rooms, 2) == |rooms| then Some(2)
                                   else if NumberAt(rooms, 3) == |rooms| then Some(3)
                                   else if NumberAt(rooms, 4) == |rooms| then Some(4) else None
  {
    hide NumberAt;
    assert LeastFree(rooms, 5) == None;
    assert LeastFree(rooms, 4) == if NumberAt(rooms, 4) == |rooms| then Some(4) else None;
    assert LeastFree(rooms, 3) == if NumberAt(rooms, 3) == |rooms| then Some(3) else LeastFree(rooms, 4);
    assert LeastFree(rooms, 2) == if NumberAt(rooms, 2) == |rooms| then Some(2) else LeastFree(rooms, 3);
  }

  // ---------------------------------------------------------------- leaders and sessions of all parties

  /** Every room of every clan has the property. */
  ghost predicate EveryRoom(d: Directory, holds: Party -> bool)
  {
    forall c, i :: 0 <= i < |RoomsFor(d, c)| ==> holds(RoomsFor(d, c)[i])
  }

  /** A property of every room is kept exactly when the room that the event puts has it. */
  lemma EveryRoomIff(d: Directory, e: Event, holds: Party -> bool)
    requires EveryRoom(d, holds)
    ensures EveryRoom(Handle(d, e), holds) <==> !(ChangeOf(d, e).Put? && !holds(ChangeOf(d, e).p))
  {
    hide Handle, ChangeOf, RoomsFor;
    HandleIs(d, e);
    var rooms, ch := RoomsFor(d, e.c), ChangeOf(d, e);
    var now := RoomsFor(Handle(d, e), e.c);
    match ch
    case Same =>
    case Put(i, p) =>
      var at := if i < |rooms| then i else |rooms|;
      assert now[at] == p && forall k :: 0 <= k < |now| && k != at ==> now[k] == rooms[k];
    case Erased(i) =>
      assert forall k :: 0 <= k < |now| ==> now[k] == rooms[if k < i then k else k + 1] || now == rooms;
  }

  ghost predicate AlwaysEveryRoom(d: Directory, events: seq<Event>, holds: Party -> bool)
    decreases |events|
  {
    EveryRoom(d, holds) && (events == [] || AlwaysEveryRoom(Handle(d, events[0]), events[1..], holds))
  }

  /** Whether the event makes a leader leave his party with a wrong cache. */
  predicate MakesStale(d: Directory, e: Event)
  {
    var rooms := RoomsFor(d, e.c);
    match e
    case Act(c, n, step) => var i := NumberAt(rooms, n); i < |rooms| && GoesStale(rooms[i], step)
    case Purge(c, id) => var i := LettingGo(rooms, 0, id); i < |rooms| && LeavesStale(rooms[i], id)
    case _ => false
  }

  lemma RoomAfterCachedIff(p: Party, s: Step)
    requires Cached(p)
    ensures RoomAfter(p, s).Some? && !Cached(RoomAfter(p, s).value) <==> GoesStale(p, s)
  {
    hide Cached, Departed, LeavesStale;
    ApplyCachedIff(p, s);
    if GoesStale(p, s) {
      StaleStays(p, s.id);
    }
  }

  lemma StaleStays(p: Party, id: nat)
    requires Cached(p) && Departed(p, id).Some? && LeavesStale(p, id)
    ensures Departed(p, id).value.players != []
  {
    hide Departed, FirstLive;
    RemovesOne(p, id);
  }

  lemma HandleCachedIff(d: Directory, e: Event)
    requires EveryRoom(d, Cached)
    ensures EveryRoom(Handle(d, e), Cached) <==> !MakesStale(d, e)
  {
    hide Handle, Cached, Departed, LeavesStale, NextNumber, RoomAfter, GoesStale;
    EveryRoomIff(d, e, Cached);
    var rooms := RoomsFor(d, e.c);
    match e
    case Create(c, host) =>
      if NextNumber(d, c).Some? {
        NewPartyGood(c, NextNumber(d, c).value, host);
      }
    case Act(c, n, step) =>
      if NumberAt(rooms, n) < |rooms| {
        RoomAfterCachedIff(rooms[NumberAt(rooms, n)], step);
      }
    case Drop(c, n) =>
    case Purge(c, id) =>
      var i := LettingGo(rooms, 0, id);
      if i < |rooms| {
        RemoveCachedIff(rooms[i], id);
        if LeavesStale(rooms[i], id) {
          StaleStays(rooms[i], id);
        } else {
          assert Cached(Departed(rooms[i], id).value);
        }
      }
  }

  predicate NeverMakesStale(d: Directory, events: seq<Event>)
    decreases |events|
  {
    events == [] || (!MakesStale(d, events[0]) && NeverMakesStale(Handle(d, events[0]), events[1..]))
  }

  /**
    Over a run of the handlers every party of every clan has a true leader cache in every state if and only if no
    leader leaves, by himself or purged, while the first live entry behind him is his own and an entry of other name
    or level moves up.
   */
  lemma {:induction false} HandleAllCachedIff(d: Directory, events: seq<Event>)
    requires EveryRoom(d, Cached)
    ensures AlwaysEveryRoom(d, events, Cached) <==> NeverMakesStale(d, events)
    decreases |events|
  {
    hide EveryRoom, Handle, MakesStale;
    if events == [] {
    } else {
      HandleCachedIff(d, events[0]);
      if EveryRoom(Handle(d, events[0]), Cached) {
        HandleAllCachedIff(Handle(d, events[0]), events[1..]);
      }
    }
  }

  /** Whether a player is let into a room that he is in already. */
  predicate LetsRejoin(d: Directory, e: Event)
  {
    e.Act? &&
    var rooms := RoomsFor(d, e.c);
    var i := NumberAt(rooms, e.n);
    i < |rooms| && Rejoins(rooms[i], e.step)
  }

  lemma RoomAfterGoodIff(p: Party, s: Step)
    requires Good(p)
    ensures RoomAfter(p, s).Some? && !Good(RoomAfter(p, s).value) <==> Rejoins(p, s)
  {
    hide Good, Departed;
    ApplyGoodIff(p, s);
  }

  lemma HandleGoodIff(d: Directory, e: Event)
    requires EveryRoom(d, Good)
    ensures EveryRoom(Handle(d, e), Good) <==> !LetsRejoin(d, e)
  {
    hide Handle, Good, Departed, NextNumber, RoomAfter, Rejoins;
    EveryRoomIff(d, e, Good);
    var rooms := RoomsFor(d, e.c);
    match e
    case Create(c, host) =>
      if NextNumber(d, c).Some? {
        NewPartyGood(c, NextNumber(d, c).value, host);
      }
    case Act(c, n, step) =>
      if NumberAt(rooms, n) < |rooms| {
        RoomAfterGoodIff(rooms[NumberAt(rooms, n)], step);
      }
    case Drop(c, n) =>
    case Purge(c, id) =>
      var i := LettingGo(rooms, 0, id);
      if i < |rooms| {
        RemoveExactly(rooms[i], id);
      }
  }

  predicate NeverLetsRejoin(d: Directory, events: seq<Event>)
    decreases |events|
  {
    events == [] || (!LetsRejoin(d, events[0]) && NeverLetsRejoin(Handle(d, events[0]), events[1..]))
  }

  /**
    Over a run of the handlers every state has true leader caches and distinct sessions in every room if and only if
    no player is ever let into a room that he is in already.
   */
  lemma {:induction false} HandleAllGoodIff(d: Directory, events: seq<Event>)
    requires EveryRoom(d, Good)
    ensures AlwaysEveryRoom(d, events, Good) <==> NeverLetsRejoin(d, events)
    decreases |events|
  {
    hide EveryRoom, Handle, LetsRejoin;
    if events == [] {
    } else {
      HandleGoodIff(d, events[0]);
      if EveryRoom(Handle(d, events[0]), Good) {
        HandleAllGoodIff(Handle(d, events[0]), events[1..]);
      }
    }
  }

  // ---------------------------------------------------------------- at most one party for each session

  function LiveIds(players: seq<Member>): (s: set<nat>)
  {
    set m | m in players && m.alive :: m.id
  }

  predicate SitsIn(rooms: seq<Party>, i: nat, id: nat)
  {
    i < |rooms| && id in LiveIds(rooms[i].players)
  }

  /** The live session sits in room `i` of the clan. */
  predicate Sits(d: Directory, c: nat, i: nat, id: nat) { SitsIn(RoomsFor(d, c), i, id) }

  /** No live session sits in two parties, of one clan or of two. */
  ghost predicate Solo(d: Directory)
  {
    forall c1, i1, c2, i2, id :: Sits(d, c1, i1, id) && Sits(d, c2, i2, id) ==> c1 == c2 && i1 == i2
  }

  ghost predicate SitsElsewhere(d: Directory, c: nat, i: nat, id: nat)
  {
    exists c1, i1 :: (c1 != c || i1 != i) && Sits(d, c1, i1, id)
  }

  /** Whether a party is opened by, or joined by, a player who sits in another one; neither handler looks. */
  ghost predicate Doubles(d: Directory, e: Event)
  {
    var rooms := RoomsFor(d, e.c);
    match e
    case Create(c, host) => NextNumber(d, c).Some? && SitsElsewhere(d, c, |rooms|, host.id)
    case Act(c, n, Join(m)) =>
      var i := NumberAt(rooms, n);
      i < |rooms| && Joinable(rooms[i]) && SitsElsewhere(d, c, i, m.id)
    case _ => false
  }

  lemma FewerLive(a: seq<Member>, b: seq<Member>)
    requires multiset(b) <= multiset(a)
    ensures LiveIds(b) <= LiveIds(a)
  {
    forall m | m in b ensures m in a {
      assert m in multiset(b);
    }
  }

  lemma DepartedLive(p: Party, id: nat)
    requires Counted(p) && Departed(p, id).Some?
    ensures LiveIds(Departed(p, id).value.players) <= LiveIds(p.players)
  {
    hide Departed, LiveIds;
    RemovesOne(p, id);
    FewerLive(p.players, Departed(p, id).value.players);
  }

  lemma ExpiredLive(players: seq<Member>, id: nat)
    ensures LiveIds(Expired(players, id)) <= LiveIds(players)
  {
    var r := Expired(players, id);
    forall m | m in r && m.alive ensures m in players {
      var k :| 0 <= k < |r| && r[k] == m;
      assert players[k] == m;
    }
  }

  lemma PromotedLive(p: Party, idx: nat)
    requires LedBy(p, idx).Some?
    ensures LiveIds(LedBy(p, idx).value.players) <= LiveIds(p.players)
  {
    hide LedBy, LiveIds;
    LedByKeeps(p, idx);
    FewerLive(p.players, LedBy(p, idx).value.players);
  }

  lemma JoinedLive(p: Party, m: Member)
    ensures LiveIds(Joined(p, m).players) == LiveIds(p.players) + {m.id}
  {
    var joined := m.(alive := true);
    assert joined in p.players + [joined];
  }

  /** What an event puts holds no session that was not in its place before, but the one that creates or joins. */
  lemma RoomAfterLive(p: Party, s: Step)
    requires Counted(p) && RoomAfter(p, s).Some?
    ensures var now := LiveIds(RoomAfter(p, s).value.players);
            if s.Join? && Joinable(p) then now == LiveIds(p.players) + {s.m.id} else now <= LiveIds(p.players)
  {
    hide LiveIds, Departed, LedBy, Joined, Expired, Joinable;
    match s
    case Join(m) => JoinedLive(p, m);
    case Leave(id) => DepartedLive(p, id);
    case Promote(idx) =>
      if LedBy(p, idx).Some? {
        PromotedLive(p, idx);
      }
    case Expire(id) => ExpiredLive(p.players, id);
    case Resize(n) =>
    case Clear =>
  }

  lemma EditedSits(rooms: seq<Party>, ch: Change, i: nat, id: nat)
    ensures SitsIn(Edited(rooms, ch), i, id)
            <==> match ch
                 case Same => SitsIn(rooms, i, id)
                 case Put(at, p) =>
                   if i == (if at < |rooms| then at else |rooms|) then id in LiveIds(p.players)
                   else SitsIn(rooms, i, id)
                 case Erased(at) => SitsIn(rooms, if at <= i && at < |rooms| then i + 1 else i, id)
  {
    hide LiveIds;
  }

  /** Where the sessions sit after an event: as before, but for the room that it puts or erases. */
  lemma SitsAfter(d: Directory, e: Event, c: nat, i: nat, id: nat)
    ensures var ch, rooms := ChangeOf(d, e), RoomsFor(d, e.c);
            Sits(Handle(d, e), c, i, id)
            <==> if c != e.c then Sits(d, c, i, id)
                 else match ch
                 case Same => Sits(d, c, i, id)
                 case Put(at, p) =>
                   if i == (if at < |rooms| then at else |rooms|) then id in LiveIds(p.players)
                   else Sits(d, c, i, id)
                 case Erased(at) => Sits(d, c, if at <= i && at < |rooms| then i + 1 else i, id)
  {
    hide Handle, ChangeOf, RoomsFor, SitsIn, Edited;
    HandleIs(d, e);
    EditedSits(RoomsFor(d, e.c), ChangeOf(d, e), i, id);
  }

  lemma ErasedSolo(d: Directory, e: Event)
    requires Solo(d) && !ChangeOf(d, e).Put?
    ensures Solo(Handle(d, e))
  {
    hide Handle, ChangeOf, RoomsFor, Sits;
    var ch, rooms := ChangeOf(d, e), RoomsFor(d, e.c);
    forall c1, i1, c2, i2, id | Sits(Handle(d, e), c1, i1, id) && Sits(Handle(d, e), c2, i2, id)
      ensures c1 == c2 && i1 == i2
    {
      SitsAfter(d, e, c1, i1, id);
      SitsAfter(d, e, c2, i2, id);
    }
  }

  /** A room put at position `at` keeps sessions single exactly when none of its live ones sits elsewhere. */
  lemma PutSoloIff(d: Directory, e: Event)
    requires Solo(d) && ChangeOf(d, e).Put? && ChangeOf(d, e).i <= |RoomsFor(d, e.c)|
    ensures Solo(Handle(d, e))
       <==> forall id :: id in LiveIds(ChangeOf(d, e).p.players) ==> !SitsElsewhere(d, e.c, ChangeOf(d, e).i, id)
  {
    hide Handle, ChangeOf, RoomsFor, Sits, LiveIds;
    var at, now := ChangeOf(d, e).i, ChangeOf(d, e).p;
    if Solo(Handle(d, e)) {
      forall id | id in LiveIds(now.players) ensures !SitsElsewhere(d, e.c, at, id) {
        SitsAfter(d, e, e.c, at, id);
        forall c, i | (c != e.c || i != at) && Sits(d, c, i, id) ensures false {
          SitsAfter(d, e, c, i, id);
        }
      }
    }
    if forall id :: id in LiveIds(now.players) ==> !SitsElsewhere(d, e.c, at, id) {
      forall c1, i1, c2, i2, id | Sits(Handle(d, e), c1, i1, id) && Sits(Handle(d, e), c2, i2, id)
        ensures c1 == c2 && i1 == i2
      {
        SitsAfter(d, e, c1, i1, id);
        SitsAfter(d, e, c2, i2, id);
      }
    }
  }

  /** Sessions that sat in the place before do not sit elsewhere. */
  lemma SingleStays(d: Directory, c: nat, i: nat, id: nat)
    requires Solo(d) && Sits(d, c, i, id)
    ensures !SitsElsewhere(d, c, i, id)
  {
    hide Sits;
  }

  lemma CreateSoloIff(d: Directory, c: nat, host: Member)
    requires Solo(d)
    ensures Solo(Handle(d, Create(c, host))) <==> !Doubles(d, Create(c, host))
  {
    hide Handle, NextNumber, RoomsFor, Sits, SitsElsewhere, Solo;
    var e := Create(c, host);
    if NextNumber(d, c).Some? {
      PutSoloIff(d, e);
      assert LiveIds(NewParty(c, NextNumber(d, c).value, host).players) == {host.id};
    } else {
      ErasedSolo(d, e);
    }
  }

  lemma ActSoloIff(d: Directory, c: nat, n: nat, step: Step)
    requires Solo(d) && EveryRoom(d, Counted)
    ensures Solo(Handle(d, Act(c, n, step))) <==> !Doubles(d, Act(c, n, step))
  {
    hide Handle, RoomsFor, SitsElsewhere, Solo, Apply, Departed, LiveIds, Counted, Joinable;
    var e, rooms := Act(c, n, step), RoomsFor(d, c);
    var i := NumberAt(rooms, n);
    if i == |rooms| || RoomAfter(rooms[i], step).None? {
      ErasedSolo(d, e);
    } else {
      PutSoloIff(d, e);
      RoomAfterLive(rooms[i], step);
      forall id | id in LiveIds(rooms[i].players) ensures !SitsElsewhere(d, c, i, id) {
        SingleStays(d, c, i, id);
      }
    }
  }

  lemma PurgeSolo(d: Directory, c: nat, id: nat)
    requires Solo(d) && EveryRoom(d, Counted)
    ensures Solo(Handle(d, Purge(c, id)))
  {
    hide Handle, RoomsFor, SitsElsewhere, Solo, Departed, LiveIds, Counted;
    var e, rooms := Purge(c, id), RoomsFor(d, c);
    var i := LettingGo(rooms, 0, id);
    if ChangeOf(d, e).Put? {
      PutSoloIff(d, e);
      DepartedLive(rooms[i], id);
      forall x | x in LiveIds(rooms[i].players) ensures !SitsElsewhere(d, c, i, x) {
        SingleStays(d, c, i, x);
      }
    } else {
      ErasedSolo(d, e);
    }
  }

  lemma HandleSoloIff(d: Directory, e: Event)
    requires Solo(d) && EveryRoom(d, Counted)
    ensures Solo(Handle(d, e)) <==> !Doubles(d, e)
  {
    hide Handle, Solo, EveryRoom, NextNumber, NumberAt, Joinable, SitsElsewhere;
    match e
    case Create(c, host) => CreateSoloIff(d, c, host);
    case Act(c, n, step) => ActSoloIff(d, c, n, step);
    case Drop(c, n) => ErasedSolo(d, e);
    case Purge(c, id) => PurgeSolo(d, c, id);
  }

  lemma OrderlyCounted(d: Directory)
    requires Orderly(d)
    ensures EveryRoom(d, Counted)
  {
    hide Counted;
    forall c, i | 0 <= i < |RoomsFor(d, c)| ensures Counted(RoomsFor(d, c)[i]) {
      assert OrderlyRooms(d[c], c) && Standing(d[c][i], c);
    }
  }

  ghost predicate NeverDoubles(d: Directory, events: seq<Event>)
    decreases |events|
  {
    events == [] || (!Doubles(d, events[0]) && NeverDoubles(Handle(d, events[0]), events[1..]))
  }

  ghost predicate AlwaysSolo(d: Directory, events: seq<Event>)
    decreases |events|
  {
    Solo(d) && (events == [] || AlwaysSolo(Handle(d, events[0]), events[1..]))
  }

  /**
    Over a run of the handlers no live session ever sits in two parties if and only if nobody who sits in a party
    ever opens one or is let into another.
   */
  lemma {:induction false} HandleAllSoloIff(d: Directory, events: seq<Event>)
    requires Orderly(d) && Solo(d)
    ensures AlwaysSolo(d, events) <==> NeverDoubles(d, events)
    decreases |events|
  {
    hide Orderly, Solo, Handle, Doubles, EveryRoom;
    if events == [] {
    } else {
      OrderlyCounted(d);
      HandleSoloIff(d, events[0]);
      if Solo(Handle(d, events[0])) {
        HandleOrderly(d, events[0]);
        HandleAllSoloIff(Handle(d, events[0]), events[1..]);
      }
    }
  }

  /** A host who opens two parties in turn sits in both. */
  lemma OpensTwice(c: nat, host: Member)
    ensures var d := Handle(map[], Create(c, host)); Solo(d) && !Solo(Handle(d, Create(c, host)))
  {
    hide Solo, Handle;
    var none: Directory := map[];
    var d := Handle(none, Create(c, host));
    NobodySits(none);
    CreateSoloIff(none, c, host);
    FirstParty(c, host);
    CreateSoloIff(d, c, host);
  }

  lemma NobodySits(d: Directory)
    requires d == map[]
    ensures Solo(d) && forall c, i, id :: !SitsElsewhere(d, c, i, id)
  {
  }

  lemma FirstParty(c: nat, host: Member)
    ensures var d := Handle(map[], Create(c, host)); Doubles(d, Create(c, host))
  {
    var d: Directory := Handle(map[], Create(c, host));
    var p := NewParty(c, 1, host);
    assert d[c] == [p];
    assert NumberAt([p], 2) == 1;
    assert LeastFree([p], 1) == LeastFree([p], 2) == Some(2);
    assert host.(alive := true) in p.players;
    assert Sits(d, c, 0, host.id);
  }

  // ---------------------------------------------------------------- the objects

  class ClanRoom {
    const clanId: nat
    const number: nat
    var numPlayers: nat
    var maxPlayers: nat
    var leaderName: string
    var leaderLevel: nat
    var players: seq<Member>

    function Contents(): Party
      reads this
    {
      Party(clanId, number, numPlayers, maxPlayers, leaderName, leaderLevel, players)
    }

    constructor (session: Member, clanRoomNumber: nat, clan: nat)
      ensures Contents() == NewParty(clan, clanRoomNumber, session)
    {
      clanId, number := clan, clanRoomNumber;
      leaderName, leaderLevel := session.name, session.level;
      numPlayers, maxPlayers := 1, 8;
      players := [session.(alive := true)];
    }

    /** The stored room of a vector, taken up to be changed. */
    constructor Of(p: Party)
      ensures Contents() == p
    {
      clanId, number, numPlayers, maxPlayers := p.clanId, p.number, p.numPlayers, p.maxPlayers;
      leaderName, leaderLevel, players := p.leaderName, p.leaderLevel, p.players;
    }

    method AddPlayer(session: Member)
      modifies this
      ensures Contents() == Joined(old(Contents()), session)
    {
      players := players + [session.(alive := true)];
      numPlayers := (numPlayers + 1) % 16;
    }

    /** `find_if` over the waiting list. */
    method FindPlayer(sessionId: nat) returns (it: nat)
      ensures it == LiveAt(players, sessionId)
    {
      it := 0;
      while it < |players| && !(players[it].alive && players[it].id == sessionId)
        invariant it <= |players|
        invariant forall j :: 0 <= j < it ==> !(players[j].alive && players[j].id == sessionId)
      {
        it := it + 1;
      }
    }

    /** Nothing when no value is returned; otherwise whether the room must be closed. */
    method RemovePlayer(sessionId: nat) returns (close: Option<bool>)
      modifies this
      ensures var r := Departed(old(Contents()), sessionId);
              if r.None? then close == None && Contents() == old(Contents())
              else Contents() == r.value && close == Some(players == [])
    {
      hide Swapped, Erase, LedByFirst, LiveAt;
      var it := FindPlayer(sessionId);
      if it == |players| {
        return None;
      }
      ghost var p := Contents();
      if IsLeader(Contents(), sessionId) {
        var found := ChangeLeaderToFirstAvailable();
        if !found {
          return None;
        }
      }
      // The second search cannot fail: a leader change only swaps entries.
      StillThere(p.players, players, sessionId);
      it := FindPlayer(sessionId);
      EraseAt(it);
      return Some(players == []);
    }

    method EraseAt(it: nat)
      requires it < |players|
      modifies this
      ensures Contents() == Erase(old(Contents()), it)
    {
      players := players[..it] + players[it + 1..];
      numPlayers := if numPlayers > 0 then numPlayers - 1 else 0;
      if players == [] {
        numPlayers := 0;
      }
    }

    method ChangeLeaderTo(idx: nat) returns (ok: bool)
      modifies this
      ensures var r := LedBy(old(Contents()), idx);
              ok == r.Some? && Contents() == if ok then r.value else old(Contents())
    {
      if idx == 0 || idx >= |players| || !players[idx].alive {
        return false;
      }
      var leader, other := players[0], players[idx];
      players := players[0 := other][idx := leader];
      leaderName, leaderLevel := players[0].name, players[0].level;
      return true;
    }

    method ChangeLeaderToFirstAvailable() returns (found: bool)
      modifies this
      ensures var r := LedByFirst(old(Contents()));
              found == r.Some? && Contents() == if found then r.value else old(Contents())
      ensures multiset(players) == multiset(old(players))
    {
      hide Swapped;
      if |players| <= 1 {
        return true;
      }
      var idx := 1;
      while idx < |players|
        invariant 1 <= idx <= |players| && Contents() == old(Contents())
        invariant FirstLive(players, idx) == FirstLive(players, 1)
      {
        if players[idx].alive {
          found := ChangeLeaderTo(idx % U16);
          return;
        }
        idx := idx + 1;
      }
      return false;
    }

    method RemoveAllPlayers()
      modifies this
      ensures Contents() == Emptied(old(Contents()))
    {
      numPlayers := 0;
      players := [];
    }

    method UpdatePlayersPerTeam(playersPerTeam: nat)
      modifies this
      ensures Contents() == Resized(old(Contents()), playersPerTeam)
    {
      maxPlayers := playersPerTeam % 16;
    }
  }

  class ClansManager {
    var clanRooms: Directory

    constructor ()
      ensures clanRooms == map[]
    {
      clanRooms := map[];
    }

    method AddRoom(room: ClanRoom)
      modifies this
      ensures clanRooms == WithRoom(old(clanRooms), room.Contents())
    {
      var rooms := if room.clanId in clanRooms then clanRooms[room.clanId] else [];
      clanRooms := clanRooms[room.clanId := rooms + [room.Contents()]];
    }

    static method FindRoom(rooms: seq<Party>, roomNumber: nat) returns (it: nat)
      ensures it == NumberAt(rooms, roomNumber)
    {
      it := 0;
      while it < |rooms| && rooms[it].number != roomNumber
        invariant it <= |rooms| && forall j :: 0 <= j < it ==> rooms[j].number != roomNumber
      {
        it := it + 1;
      }
    }

    method RemoveExactRoom(clan: nat, roomNumber: nat) returns (found: bool)
      modifies this
      ensures var r := WithoutRoom(old(clanRooms), clan, roomNumber);
              found == r.Some? && clanRooms == if found then r.value else old(clanRooms)
    {
      if clan !in clanRooms {
        return false;
      }
      var rooms := clanRooms[clan];
      var it := FindRoom(rooms, roomNumber);
      if it == |rooms| {
        return false;
      }
      rooms := rooms[..it] + rooms[it + 1..];
      if rooms == [] {
        clanRooms := clanRooms - {clan};
      } else {
        clanRooms := clanRooms[clan := rooms];
      }
      return true;
    }

    /** Each room of the vector is asked in turn; the first that answers ends the search. */
    method TryRemovePlayerFromParty(clan: nat, sessionId: nat)
      modifies this
      ensures clanRooms == WithoutPlayer(old(clanRooms), clan, sessionId)
    {
      hide Departed, Purged;
      if clan !in clanRooms {
        return;
      }
      var rooms, i := clanRooms[clan], 0;
      assert rooms[0..] == rooms;
      while i < |rooms|
        invariant i <= |rooms| && clanRooms == old(clanRooms)
        invariant rooms == clanRooms[clan]
        invariant rooms[..i] + Purged(rooms[i..], sessionId) == Purged(rooms, sessionId)
      {
        PurgedTurn(rooms, i, sessionId);
        var room := new ClanRoom.Of(rooms[i]);
        var close := room.RemovePlayer(sessionId);
        if close.Some? {
          clanRooms := clanRooms[clan := if close.value then rooms[..i] + rooms[i + 1..]
                                         else rooms[..i] + [room.Contents()] + rooms[i + 1..]];
          return;
        }
        i := i + 1;
      }
      PurgedEnd(rooms, sessionId);
      assert clanRooms[clan := rooms] == clanRooms;
    }

    method GetNextAvailableRoomNumberFor(clan: nat) returns (n: Option<nat>)
      ensures n == NextNumber(clanRooms, clan)
    {
      hide NumberAt;
      if clan !in clanRooms {
        return Some(1);
      }
      var i := 1;
      while i <= MAX_PARTIES
        invariant 1 <= i <= MAX_PARTIES + 1
        invariant LeastFree(clanRooms[clan], i) == LeastFree(clanRooms[clan], 1)
      {
        var it := FindRoom(clanRooms[clan], i);
        if it == |clanRooms[clan]| {
          return Some(i);
        }
        i := i + 1;
      }
      return None;
    }
  }
}
