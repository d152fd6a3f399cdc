/** The session-id allocator (SessionIdManager.h): a stack of free ids and a set of ids in use. */
module SessionIds {
  import opened Collections

  /** The free stack, top last, and the ids handed out. */
  datatype Pool = Pool(free: seq<nat>, used: set<nat>)

  /** The stack the constructor fills. */
  function UpTo(max: nat): (s: seq<nat>)
    ensures |s| == max
  {
    seq(max, i => i + 1)
  }

  function Fresh(max: nat): Pool { Pool(UpTo(max), {}) }

  /** `getNewSessionID`: the pool left behind and the id, if there is one. */
  function Acquire(p: Pool): (Pool, Option<nat>)
  {
    if p.free == [] then (p, None)
    else
      var id := p.free[|p.free| - 1];
      (Pool(p.free[..|p.free| - 1], p.used + {id}), Some(id))
  }

  function Release(p: Pool, id: nat): Pool
  {
    if id in p.used then Pool(p.free + [id], p.used - {id}) else p
  }

  // ---------------------------------------------------------------- the partition

  predicate IsId(x: nat, max: nat) { 1 <= x <= max }

  function Range(max: nat): set<nat> { set x: nat | x <= max && IsId(x, max) }

  /** The free stack holds no id twice, and free and used ids together are exactly 1 to `max`, none in both. */
  predicate Partition(p: Pool, max: nat)
  {
    Distinct(p.free) && Elements(p.free) !! p.used && Elements(p.free) + p.used == Range(max)
  }

  lemma FreshPartition(max: nat)
    ensures Partition(Fresh(max), max)
  {
    var s := UpTo(max);
    forall x ensures x in Elements(s) <==> x in Range(max) {
      if x in Range(max) {
        assert s[x - 1] == x;
      }
    }
  }

  lemma PopElements(s: seq<nat>)
    requires Distinct(s) && s != []
    ensures Elements(s[..|s| - 1]) == Elements(s) - {s[|s| - 1]} && Distinct(s[..|s| - 1])
  {
    var init, last := s[..|s| - 1], s[|s| - 1];
    assert s == init + [last];
    forall i | 0 <= i < |init| ensures init[i] != last {
      assert s[i] != s[|s| - 1];
    }
    DistinctSlice(s, 0, |s| - 1);
    assert s[0..|s| - 1] == init;
  }

  /** An id is handed out only when it was not in use, and none is handed out exactly when all of them are. */
  lemma AcquireKeeps(p: Pool, max: nat)
    requires Partition(p, max)
    ensures var (q, id) := Acquire(p);
            && Partition(q, max)
            && (id.None? <==> p.used == Range(max))
            && (id.Some? ==> 1 <= id.value <= max && id.value !in p.used && q.used == p.used + {id.value})
  {
    if p.free != [] {
      PopElements(p.free);
      assert p.free[|p.free| - 1] in Elements(p.free);
    } else {
      assert Elements(p.free) == {};
    }
  }

  lemma ReleaseKeeps(p: Pool, max: nat, id: nat)
    requires Partition(p, max)
    ensures Partition(Release(p, id), max) && Release(p, id).used == p.used - {id}
    ensures Release(p, id) == p <==> id !in p.used
  {
    if id in p.used {
      assert id !in Elements(p.free);
      AppendDistinct(p.free, id);
      assert Elements(p.free + [id]) == Elements(p.free) + {id};
    }
  }

  /** Giving an id back makes it the next one handed out. */
  lemma ReleaseThenAcquire(p: Pool, max: nat, id: nat)
    requires Partition(p, max) && id in p.used
    ensures Acquire(Release(p, id)) == (p, Some(id))
  {
    assert (p.free + [id])[..|p.free|] == p.free;
    assert p.used - {id} + {id} == p.used;
  }

  // ---------------------------------------------------------------- runs

  datatype Call = Get | GiveBack(id: nat)

  function Next(p: Pool, c: Call): Pool
  {
    match c
    case Get => Acquire(p).0
    case GiveBack(id) => Release(p, id)
  }

  function Run(p: Pool, calls: seq<Call>): Pool
  {
    if calls == [] then p else Next(Run(p, calls[..|calls| - 1]), calls[|calls| - 1])
  }

  function Gets(k: nat): (calls: seq<Call>)
    ensures |calls| == k
  {
    seq(k, _ => Get)
  }

  /** While none is given back, the ids of a new manager are handed out from the highest down. */
  lemma {:induction false} HandsOutDown(max: nat, k: nat)
    requires k < max
    ensures Run(Fresh(max), Gets(k)).free == UpTo(max - k)
    ensures Acquire(Run(Fresh(max), Gets(k))).1 == Some(max - k)
    decreases k
  {
    if k == 0 {
    } else {
      HandsOutDown(max, k - 1);
      assert Gets(k)[..k - 1] == Gets(k - 1);
      assert UpTo(max - k + 1)[..max - k] == UpTo(max - k);
    }
  }

  lemma {:induction false} RunKeeps(max: nat, calls: seq<Call>)
    ensures Partition(Run(Fresh(max), calls), max)
    decreases |calls|
  {
    hide Partition;
    if calls == [] {
      FreshPartition(max);
    } else {
      var p, last := Run(Fresh(max), calls[..|calls| - 1]), calls[|calls| - 1];
      RunKeeps(max, calls[..|calls| - 1]);
      match last
      case Get => AcquireKeeps(p, max);
      case GiveBack(id) => ReleaseKeeps(p, max, id);
    }
  }

  /** The id that call `k` of a run hands out. */
  function Issued(max: nat, calls: seq<Call>, k: nat): Option<nat>
    requires k < |calls|
  {
    if calls[k].Get? then Acquire(Run(Fresh(max), calls[..k])).1 else None
  }

  /** The id was given back by some call strictly between the two. */
  predicate GivenBack(calls: seq<Call>, i: nat, k: nat, id: nat)
    requires i < k <= |calls|
  {
    exists j :: i < j < k && calls[j] == GiveBack(id)
  }

  lemma {:induction false} StaysUsed(max: nat, calls: seq<Call>, i: nat, k: nat, id: nat)
    requires i < k <= |calls| && Issued(max, calls, i) == Some(id) && !GivenBack(calls, i, k, id)
    ensures id in Run(Fresh(max), calls[..k]).used
    decreases k
  {
    hide Partition, Fresh;
    var p := Run(Fresh(max), calls[..k - 1]);
    assert calls[..k][..k - 1] == calls[..k - 1];
    RunKeeps(max, calls[..k - 1]);
    if i == k - 1 {
      AcquireKeeps(p, max);
    } else {
      StaysUsed(max, calls, i, k - 1, id);
      assert calls[k - 1] != GiveBack(id);
      match calls[k - 1]
      case Get => AcquireKeeps(p, max);
      case GiveBack(other) => ReleaseKeeps(p, max, other);
    }
  }

  /** Over every run, an id is never handed out a second time unless it was given back in between. */
  lemma NoReissue(max: nat, calls: seq<Call>, i: nat, k: nat)
    requires i < k < |calls| && Issued(max, calls, i).Some? && Issued(max, calls, i) == Issued(max, calls, k)
    ensures GivenBack(calls, i, k, Issued(max, calls, i).value)
  {
    hide Partition, Fresh, GivenBack;
    var id := Issued(max, calls, i).value;
    if !GivenBack(calls, i, k, id) {
      StaysUsed(max, calls, i, k, id);
      RunKeeps(max, calls[..k]);
      AcquireKeeps(Run(Fresh(max), calls[..k]), max);
    }
  }

  // ---------------------------------------------------------------- the allocator

  class SessionIdManager {
    var availableIds: seq<nat>
    var usedIds: set<nat>

    function Contents(): Pool
      reads this
    {
      Pool(availableIds, usedIds)
    }

    constructor (maxIds: nat)
      ensures Contents() == Fresh(maxIds)
    {
      availableIds, usedIds := [], {};
      new;
      var i := 1;
      while i <= maxIds
        invariant 1 <= i <= maxIds + 1 && usedIds == {}
        invariant availableIds == UpTo(i - 1)
      {
        availableIds := availableIds + [i];
        i := i + 1;
      }
    }

    method GetNewSessionId() returns (id: Option<nat>)
      modifies this
      ensures (Contents(), id) == Acquire(old(Contents()))
    {
      if availableIds == [] {
        return None;
      }
      var newId := availableIds[|availableIds| - 1];
      availableIds := availableIds[..|availableIds| - 1];
      usedIds := usedIds + {newId};
      return Some(newId);
    }

    method ReleaseSessionId(id: nat)
      modifies this
      ensures Contents() == Release(old(Contents()), id)
    {
      if id in usedIds {
        usedIds := usedIds - {id};
        availableIds := availableIds + [id];
      }
    }
  }
}
