// The response cache: coalescing of computations in flight, bypass, expiry, racing failures, eviction.
module ResponseCache {
  import opened Results

  // A computation started by resolve; its index in the list of all of them stands for its Entry object.
  datatype Outcome = Pending | Stored(expiresAt: int) | Failed
  datatype Computation = Computation(key: string, outcome: Outcome)

  // An entry of the Map, in insertion order.
  datatype Slot = Slot(key: string, id: nat)

  datatype Settings = Settings(ttlMs: int, maxEntries: nat)
  datatype Cache = Cache(entries: seq<Slot>, computations: seq<Computation>)

  // What resolve hands back: a computation it found, one it started and stored, or one it did not store.
  datatype Served = Joined(id: nat) | Started(id: nat) | Uncached

  function IndexOf(entries: seq<Slot>, key: string): (i: nat)
    ensures i <= |entries|
    ensures i < |entries| ==> entries[i].key == key
    ensures forall j :: 0 <= j < i ==> entries[j].key != key
  {
    if entries == [] || entries[0].key == key then 0 else 1 + IndexOf(entries[1..], key)
  }

  function Get(entries: seq<Slot>, key: string): Option<nat> {
    var i := IndexOf(entries, key);
    if i < |entries| then Some(entries[i].id) else None
  }

  // Map.set: an existing key keeps its place.
  function Set(entries: seq<Slot>, key: string, id: nat): seq<Slot> {
    var i := IndexOf(entries, key);
    if i < |entries| then entries[i := Slot(key, id)] else entries + [Slot(key, id)]
  }

  function Delete(entries: seq<Slot>, key: string): seq<Slot> {
    var i := IndexOf(entries, key);
    if i < |entries| then entries[..i] + entries[i + 1..] else entries
  }

  predicate Expired(o: Outcome, now: int) {
    o.Stored? && o.expiresAt <= now
  }

  predicate Known(entries: seq<Slot>, computations: seq<Computation>) {
    forall k :: 0 <= k < |entries| ==> entries[k].id < |computations|
  }

  // The entries that are not past their expiry, in order.
  function Unexpired(entries: seq<Slot>, computations: seq<Computation>, now: int): (r: seq<Slot>)
    requires Known(entries, computations)
    ensures |r| <= |entries|
  {
    if entries == [] then []
    else
      var rest := Unexpired(entries[..|entries| - 1], computations, now);
      var last := entries[|entries| - 1];
      if Expired(computations[last.id].outcome, now) then rest else rest + [last]
  }

  function Newest(entries: seq<Slot>, max: nat): seq<Slot> {
    if |entries| <= max then entries else entries[|entries| - max..]
  }

  function Evicted(entries: seq<Slot>, computations: seq<Computation>, now: int, max: nat): seq<Slot>
    requires Known(entries, computations)
  {
    if |entries| <= max then entries else Newest(Unexpired(entries, computations, now), max)
  }

  datatype Event =
    | Resolve(key: string, bypass: bool, now: int)
    | Succeed(id: nat, now: int)
    | Fail(id: nat)

  // The computation resolve reuses, if any.
  function Reusable(settings: Settings, c: Cache, key: string, bypass: bool, now: int): Option<nat>
    requires Known(c.entries, c.computations)
  {
    if bypass then None
    else
      match Get(c.entries, key)
      case None => None
      case Some(id) => if Expired(c.computations[id].outcome, now) then None else Some(id)
  }

  function Serve(settings: Settings, c: Cache, key: string, bypass: bool, now: int): Served
    requires Known(c.entries, c.computations)
  {
    if settings.ttlMs <= 0 then Uncached
    else
      match Reusable(settings, c, key, bypass, now)
      case Some(id) => Joined(id)
      case None => Started(|c.computations|)
  }

  function Step(settings: Settings, c: Cache, e: Event): Cache
    requires Known(c.entries, c.computations)
  {
    match e
    case Resolve(key, bypass, now) =>
      if !Serve(settings, c, key, bypass, now).Started? then c
      else
        var id := |c.computations|;
        var computations := c.computations + [Computation(key, Pending)];
        var entries := Set(c.entries, key, id);
        Cache(Evicted(entries, computations, now, settings.maxEntries), computations)
    case Succeed(id, now) =>
      if id < |c.computations| && c.computations[id].outcome.Pending?
      then c.(computations := c.computations[id := c.computations[id].(outcome := Stored(now + settings.ttlMs))])
      else c
    case Fail(id) =>
      if id < |c.computations| && c.computations[id].outcome.Pending?
      then
        var key := c.computations[id].key;
        Cache(if Get(c.entries, key) == Some(id) then Delete(c.entries, key) else c.entries,
              c.computations[id := c.computations[id].(outcome := Failed)])
      else c
  }

  // ----- the invariant -----

  ghost predicate DistinctKeys(entries: seq<Slot>) {
    forall i, j :: 0 <= i < j < |entries| ==> entries[i].key != entries[j].key
  }

  // What is stored: computations that have not failed, each under its own key.
  ghost predicate Sound(entries: seq<Slot>, computations: seq<Computation>) {
    forall k :: 0 <= k < |entries| ==>
      && entries[k].id < |computations|
      && computations[entries[k].id].key == entries[k].key
      && !computations[entries[k].id].outcome.Failed?
  }

  ghost predicate Inv(settings: Settings, c: Cache) {
    DistinctKeys(c.entries) && Sound(c.entries, c.computations) && |c.entries| <= settings.maxEntries
  }

  lemma {:induction false} UnexpiredMembers(entries: seq<Slot>, computations: seq<Computation>, now: int)
    requires Known(entries, computations)
    ensures forall s :: s in Unexpired(entries, computations, now) <==> s in entries && !Expired(computations[s.id].outcome, now)
  {
    if entries != [] {
      var before, last := entries[..|entries| - 1], entries[|entries| - 1];
      UnexpiredMembers(before, computations, now);
      assert entries == before + [last];
    }
  }

  lemma DistinctAppend(entries: seq<Slot>, s: Slot)
    requires DistinctKeys(entries) && forall x :: x in entries ==> x.key != s.key
    ensures DistinctKeys(entries + [s])
  {
  }

  lemma {:induction false} UnexpiredDistinct(entries: seq<Slot>, computations: seq<Computation>, now: int)
    requires Known(entries, computations) && DistinctKeys(entries)
    ensures DistinctKeys(Unexpired(entries, computations, now))
  {
    if entries != [] {
      var before, last := entries[..|entries| - 1], entries[|entries| - 1];
      UnexpiredDistinct(before, computations, now);
      UnexpiredMembers(before, computations, now);
      if !Expired(computations[last.id].outcome, now) {
        DistinctAppend(Unexpired(before, computations, now), last);
      }
    }
  }

  lemma SoundMembers(entries: seq<Slot>, sub: seq<Slot>, computations: seq<Computation>)
    requires Sound(entries, computations) && forall s :: s in sub ==> s in entries
    ensures Sound(sub, computations)
  {
    forall k | 0 <= k < |sub|
      ensures sub[k].id < |computations| && computations[sub[k].id].key == sub[k].key && !computations[sub[k].id].outcome.Failed?
    {
      assert sub[k] in entries;
    }
  }

  lemma EvictedSound(entries: seq<Slot>, computations: seq<Computation>, now: int, max: nat)
    requires Known(entries, computations) && DistinctKeys(entries) && Sound(entries, computations)
    ensures
      var kept := Evicted(entries, computations, now, max);
      DistinctKeys(kept) && Sound(kept, computations) && |kept| <= max && forall s :: s in kept ==> s in entries
  {
    hide Sound, Known, Unexpired;
    var alive := Unexpired(entries, computations, now);
    UnexpiredDistinct(entries, computations, now);
    UnexpiredMembers(entries, computations, now);
    var kept := Evicted(entries, computations, now, max);
    assert forall s :: s in kept ==> s in alive || s in entries;
    SoundMembers(entries, kept, computations);
  }

  lemma SetSound(entries: seq<Slot>, computations: seq<Computation>, key: string)
    requires DistinctKeys(entries) && Sound(entries, computations)
    ensures
      var set' := Set(entries, key, |computations|);
      var grown := computations + [Computation(key, Pending)];
      && DistinctKeys(set') && Sound(set', grown) && Known(set', grown)
      && Slot(key, |computations|) in set'
      && (|set'| > |entries| ==> set'[|set'| - 1] == Slot(key, |computations|))
  {
    var set' := Set(entries, key, |computations|);
    assert set'[IndexOf(entries, key)] == Slot(key, |computations|);
  }

  lemma DeleteSound(entries: seq<Slot>, computations: seq<Computation>, key: string, id: nat)
    requires DistinctKeys(entries) && Sound(entries, computations)
    ensures DistinctKeys(Delete(entries, key)) && Sound(Delete(entries, key), computations)
    ensures forall s :: s in Delete(entries, key) <==> s in entries && s.key != key
  {
    var i, deleted := IndexOf(entries, key), Delete(entries, key);
    if i < |entries| {
      assert entries == entries[..i] + [entries[i]] + entries[i + 1..];
    }
    SoundMembers(entries, deleted, computations);
  }

  lemma {:induction false} GetExactly(entries: seq<Slot>, key: string, id: nat)
    requires DistinctKeys(entries)
    ensures Get(entries, key) == Some(id) <==> Slot(key, id) in entries
  {
    if Slot(key, id) in entries {
      var k :| 0 <= k < |entries| && entries[k] == Slot(key, id);
    }
  }

  // A settlement of computation id rewrites only that computation.
  lemma SoundUpdate(entries: seq<Slot>, computations: seq<Computation>, id: nat, outcome: Outcome)
    requires Sound(entries, computations) && id < |computations|
    requires outcome.Failed? ==> forall s :: s in entries ==> s.id != id
    ensures Sound(entries, computations[id := computations[id].(outcome := outcome)])
  {
    forall k | 0 <= k < |entries| ensures entries[k] in entries {
    }
  }

  lemma FailKeepsInv(settings: Settings, c: Cache, id: nat)
    requires Inv(settings, c) && id < |c.computations|
    ensures
      var key := c.computations[id].key;
      var entries := if Get(c.entries, key) == Some(id) then Delete(c.entries, key) else c.entries;
      Inv(settings, Cache(entries, c.computations[id := c.computations[id].(outcome := Failed)]))
  {
    var key := c.computations[id].key;
    var entries := if Get(c.entries, key) == Some(id) then Delete(c.entries, key) else c.entries;
    GetExactly(c.entries, key, id);
    DeleteSound(c.entries, c.computations, key, id);
    forall s | s in entries ensures s.id != id {
      assert s in c.entries && c.computations[s.id].key == s.key;
    }
    SoundUpdate(entries, c.computations, id, Failed);
  }

  lemma InvKnown(settings: Settings, c: Cache)
    requires Inv(settings, c)
    ensures Known(c.entries, c.computations)
  {
  }

  lemma StepKeepsInv(settings: Settings, c: Cache, e: Event)
    requires Inv(settings, c)
    ensures Known(c.entries, c.computations) && Inv(settings, Step(settings, c, e))
  {
    hide Sound, DistinctKeys, Set, Evicted, Delete, Get;
    InvKnown(settings, c);
    match e
    case Resolve(key, bypass, now) =>
      SetSound(c.entries, c.computations, key);
      EvictedSound(Set(c.entries, key, |c.computations|), c.computations + [Computation(key, Pending)], now, settings.maxEntries);
    case Succeed(id, now) =>
      if id < |c.computations| {
        SoundUpdate(c.entries, c.computations, id, Stored(now + settings.ttlMs));
      }
    case Fail(id) =>
      if id < |c.computations| {
        FailKeepsInv(settings, c, id);
      }
  }

  const EMPTY := Cache([], [])

  // Every reachable state, from the empty cache, by any sequence of calls and settlements.
  ghost function Run(settings: Settings, events: seq<Event>): (c: Cache)
    ensures Inv(settings, c)
  {
    if events == [] then EMPTY
    else
      var before := Run(settings, events[..|events| - 1]);
      StepKeepsInv(settings, before, events[|events| - 1]);
      Step(settings, before, events[|events| - 1])
  }

  // In every reachable state: nothing stored has failed, each key has one entry, holding a computation
  // for that key, and there are at most maxEntries of them.
  lemma NoFailureIsStored(settings: Settings, events: seq<Event>, key: string)
    ensures
      var c := Run(settings, events);
      && |c.entries| <= settings.maxEntries
      && (Get(c.entries, key).Some? ==>
           var id := Get(c.entries, key).value;
           id < |c.computations| && c.computations[id].key == key && !c.computations[id].outcome.Failed?)
  {
  }

  // Nothing past its expiry is served, and nothing that failed: what a caller joins is stored under
  // its key and either still in flight or settled with its expiry ahead; a bypass joins nothing.
  lemma JoinedIsFresh(settings: Settings, events: seq<Event>, key: string, bypass: bool, now: int)
    ensures
      var c := Run(settings, events);
      Known(c.entries, c.computations) &&
      var served := Serve(settings, c, key, bypass, now);
      && (served.Joined? ==>
           && !bypass && served.id < |c.computations| && c.computations[served.id].key == key
           && (c.computations[served.id].outcome.Pending?
               || (c.computations[served.id].outcome.Stored? && c.computations[served.id].outcome.expiresAt > now)))
  {
    InvKnown(settings, Run(settings, events));
  }

  // What a caller gets, exactly: its own computation, unstored, when the cache is off; the one stored for
  // its key when that is in flight or before its expiry and the caller does not bypass; otherwise a new one.
  lemma ServedExactly(settings: Settings, c: Cache, key: string, bypass: bool, now: int, id: nat)
    requires Inv(settings, c)
    ensures Known(c.entries, c.computations)
    ensures
      var served := Serve(settings, c, key, bypass, now);
      && (served == Uncached <==> settings.ttlMs <= 0)
      && (served == Joined(id) <==>
           && settings.ttlMs > 0 && !bypass && Slot(key, id) in c.entries && id < |c.computations|
           && match c.computations[id].outcome case Pending => true case Stored(expiresAt) => now < expiresAt case Failed => false)
      && (served.Started? ==> served.id == |c.computations|)
  {
    InvKnown(settings, c);
    GetExactly(c.entries, key, id);
    if Get(c.entries, key).Some? {
      GetExactly(c.entries, key, Get(c.entries, key).value);
    }
  }

  // A bypass is never served what is there: with the cache on it starts its own computation, which the
  // next caller for the key joins.
  lemma BypassIsShared(settings: Settings, c: Cache, key: string, now: int, later: int)
    requires Inv(settings, c) && settings.ttlMs > 0 && settings.maxEntries >= 1
    ensures Known(c.entries, c.computations) && Serve(settings, c, key, true, now) == Started(|c.computations|)
    ensures
      var next := Step(settings, c, Resolve(key, true, now));
      Known(next.entries, next.computations) && Serve(settings, next, key, false, later) == Joined(|c.computations|)
  {
    InvKnown(settings, c);
    ServedExactly(settings, c, key, true, now, |c.computations|);
    LifeOfAnEntry(settings, c, key, true, now, now, later);
  }

  // A new computation takes over the place of its key in the order of eviction; a new key goes last.
  lemma PlaceIsKept(settings: Settings, c: Cache, key: string, bypass: bool, now: int, i: nat)
    requires Inv(settings, c) && Known(c.entries, c.computations) && Serve(settings, c, key, bypass, now).Started?
    ensures
      var next := Step(settings, c, Resolve(key, bypass, now));
      && (i < |c.entries| && c.entries[i].key == key ==> next.entries == c.entries[i := Slot(key, |c.computations|)])
      && ((forall s :: s in c.entries ==> s.key != key) && |c.entries| < settings.maxEntries ==>
           next.entries == c.entries + [Slot(key, |c.computations|)])
  {
    hide Sound, Unexpired;
    var at := IndexOf(c.entries, key);
    assert i < |c.entries| && c.entries[i].key == key ==> at == i;
    assert at < |c.entries| ==> c.entries[at] in c.entries;
  }

  // A settlement, however late, leaves every other entry stored and every other computation alone; a
  // failure removes its own entry and nothing else.
  lemma SettlementIsLocal(settings: Settings, c: Cache, e: Event)
    requires Inv(settings, c) && !e.Resolve?
    ensures Known(c.entries, c.computations)
    ensures forall s: Slot :: s.id != e.id ==> (s in Step(settings, c, e).entries <==> s in c.entries)
    ensures forall k :: 0 <= k < |c.computations| && k != e.id ==>
      Step(settings, c, e).computations[k] == c.computations[k]
    ensures e.Fail? && e.id < |c.computations| && c.computations[e.id].outcome.Pending? ==>
      forall s :: s in Step(settings, c, e).entries ==> s.id != e.id
  {
    InvKnown(settings, c);
    if e.id < |c.computations| {
      var key := c.computations[e.id].key;
      DeleteSound(c.entries, c.computations, key, e.id);
      GetExactly(c.entries, key, e.id);
      forall s | s in c.entries ensures c.computations[s.id].key == s.key {
      }
      forall s | s in c.entries && s.key == key && Slot(key, e.id) in c.entries ensures s.id == e.id {
      }
    }
  }

  lemma {:induction false} UnexpiredConcat(a: seq<Slot>, b: seq<Slot>, computations: seq<Computation>, now: int)
    requires Known(a + b, computations) && Known(a, computations) && Known(b, computations)
    ensures Unexpired(a + b, computations, now) == Unexpired(a, computations, now) + Unexpired(b, computations, now)
  {
    if b == [] {
      assert a + b == a;
    } else {
      assert (a + b)[..|a + b| - 1] == a + b[..|b| - 1];
      UnexpiredConcat(a, b[..|b| - 1], computations, now);
    }
  }

  lemma NewestExactly(a: seq<Slot>, x: Slot, b: seq<Slot>, max: nat)
    requires DistinctKeys(a + [x] + b)
    ensures x in Newest(a + [x] + b, max) <==> |b| < max
  {
    var all := a + [x] + b;
    var newest := Newest(all, max);
    assert all[|a|] == x;
    var from := |all| - |newest|;
    assert forall k :: 0 <= k < |newest| ==> newest[k] == all[from + k];
    if |b| < max {
      assert newest[|a| - from] == x;
    }
  }

  // Eviction drops an unexpired entry only when maxEntries newer unexpired ones are there to keep.
  lemma OnlyTheOldestGo(entries: seq<Slot>, computations: seq<Computation>, now: int, max: nat, i: nat)
    requires Known(entries, computations) && DistinctKeys(entries)
    requires i < |entries| && !Expired(computations[entries[i].id].outcome, now)
    ensures Known(entries[i + 1..], computations)
    ensures entries[i] in Evicted(entries, computations, now, max) <==>
      |entries| <= max || |Unexpired(entries[i + 1..], computations, now)| < max
  {
    var front, slot, back := entries[..i], entries[i], entries[i + 1..];
    assert entries == (front + [slot]) + back;
    var head, tail := Unexpired(front, computations, now), Unexpired(back, computations, now);
    UnexpiredConcat(front + [slot], back, computations, now);
    assert (front + [slot])[..|front|] == front;
    assert Unexpired(entries, computations, now) == head + [slot] + tail;
    UnexpiredDistinct(entries, computations, now);
    NewestExactly(head, slot, tail, max);
  }

  // With room for at least one entry, the entry just stored survives the eviction that follows.
  lemma NewEntrySurvives(settings: Settings, c: Cache, key: string, bypass: bool, now: int)
    requires Inv(settings, c) && settings.maxEntries >= 1
    ensures Known(c.entries, c.computations)
    ensures Serve(settings, c, key, bypass, now).Started? ==>
      Get(Step(settings, c, Resolve(key, bypass, now)).entries, key) == Some(|c.computations|)
  {
    InvKnown(settings, c);
    var id, grown := |c.computations|, c.computations + [Computation(key, Pending)];
    var set' := Set(c.entries, key, id);
    SetSound(c.entries, c.computations, key);
    EvictedSound(set', grown, now, settings.maxEntries);
    if |set'| > settings.maxEntries {
      OnlyTheOldestGo(set', grown, now, settings.maxEntries, |set'| - 1);
    }
    GetExactly(Evicted(set', grown, now, settings.maxEntries), key, id);
  }

  // The life of a stored computation, seen by the next caller for its key: joined while in flight,
  // served for exactly ttlMs from the moment it settled, recomputed at once if it failed.
  lemma LifeOfAnEntry(settings: Settings, c: Cache, key: string, bypass: bool, now: int, settled: int, later: int)
    requires Inv(settings, c) && settings.ttlMs > 0 && settings.maxEntries >= 1
    requires Known(c.entries, c.computations) && Serve(settings, c, key, bypass, now).Started?
    ensures
      var id := |c.computations|;
      var stored := Step(settings, c, Resolve(key, bypass, now));
      Known(stored.entries, stored.computations) &&
      var done := Step(settings, stored, Succeed(id, settled));
      var failed := Step(settings, stored, Fail(id));
      && Known(done.entries, done.computations) && Known(failed.entries, failed.computations)
      && Serve(settings, stored, key, false, later) == Joined(id)
      && Serve(settings, done, key, false, later) == (if later < settled + settings.ttlMs then Joined(id) else Started(id + 1))
      && Serve(settings, failed, key, false, later) == Started(id + 1)
  {
    hide Sound, DistinctKeys, Evicted;
    var id := |c.computations|;
    var stored := Step(settings, c, Resolve(key, bypass, now));
    StepKeepsInv(settings, c, Resolve(key, bypass, now));
    NewEntrySurvives(settings, c, key, bypass, now);
    StepKeepsInv(settings, stored, Succeed(id, settled));
    StepKeepsInv(settings, stored, Fail(id));
    var failed := Step(settings, stored, Fail(id));
    InvKnown(settings, failed);
    InvKnown(settings, Step(settings, stored, Succeed(id, settled)));
    SettlementIsLocal(settings, stored, Fail(id));
    DeletedIsGone(settings, stored, key);
  }

  lemma DeletedIsGone(settings: Settings, c: Cache, key: string)
    requires Inv(settings, c)
    ensures Get(Delete(c.entries, key), key) == None
  {
    var deleted := Delete(c.entries, key);
    DeleteSound(c.entries, c.computations, key, 0);
    forall k | 0 <= k < |deleted| ensures deleted[k].key != key {
      assert deleted[k] in deleted;
    }
  }

  lemma UnexpiredNext(entries: seq<Slot>, computations: seq<Computation>, now: int, k: nat)
    requires Known(entries, computations) && k < |entries|
    ensures Unexpired(entries[..k + 1], computations, now) ==
      if Expired(computations[entries[k].id].outcome, now) then Unexpired(entries[..k], computations, now)
      else Unexpired(entries[..k], computations, now) + [entries[k]]
  {
    assert entries[..k + 1][..k] == entries[..k];
  }

  lemma SliceOut(s: seq<Slot>, k: nat)
    requires k < |s|
    ensures (s[..k] + s[k + 1..])[..k] == s[..k] && (s[..k] + s[k + 1..])[k..] == s[k + 1..]
    ensures s[k..][0] == s[k] && s[k..][1..] == s[k + 1..] && s[..k + 1] == s[..k] + [s[k]]
  {
  }

  lemma NothingUnexpired(computations: seq<Computation>, now: int)
    ensures Unexpired([], computations, now) == []
  {
  }

  // ----- the object -----

  class ResponseCache {
    const settings: Settings
    var entries: seq<Slot>
    var computations: seq<Computation>

    ghost function State(): Cache reads this {
      Cache(entries, computations)
    }

    ghost predicate Valid() reads this {
      Inv(settings, State())
    }

    constructor (ttlMs: int, maxEntries: nat)
      ensures settings == Settings(ttlMs, maxEntries) && State() == EMPTY && Valid()
    {
      settings := Settings(ttlMs, maxEntries);
      entries, computations := [], [];
    }

    // The synchronous part of resolve: it returns before any computation can settle.
    method Resolve(key: string, bypass: bool, now: int) returns (served: Served)
      requires Valid()
      modifies this
      ensures Valid() && old(Known(entries, computations))
      ensures State() == Step(settings, old(State()), Event.Resolve(key, bypass, now))
      ensures served == Serve(settings, old(State()), key, bypass, now)
    {
      InvKnown(settings, State());
      StepKeepsInv(settings, State(), Event.Resolve(key, bypass, now));
      if settings.ttlMs <= 0 { return Uncached; }
      if !bypass {
        var existing := Get(entries, key);
        if existing.Some? && (!computations[existing.value].outcome.Stored? || computations[existing.value].outcome.expiresAt > now) {
          return Joined(existing.value);
        }
      }
      var id := |computations|;
      SetSound(entries, computations, key);
      computations := computations + [Computation(key, Pending)];
      entries := Set(entries, key, id);
      Evict(now);
      return Started(id);
    }

    // Drop what has expired, then the oldest until the rest fit.
    method Evict(now: int)
      requires Known(entries, computations)
      modifies `entries
      ensures entries == Evicted(old(entries), computations, now, settings.maxEntries)
    {
      if |entries| <= settings.maxEntries { return; }
      DropExpired(now);
      hide Unexpired;
      ghost var alive := entries;
      while |entries| > settings.maxEntries
        invariant |entries| <= |alive| && entries == alive[|alive| - |entries|..]
        invariant |entries| >= settings.maxEntries || entries == alive
        decreases |entries|
      {
        entries := entries[1..];
      }
    }

    method DropExpired(now: int)
      requires Known(entries, computations)
      modifies `entries
      ensures entries == Unexpired(old(entries), computations, now)
    {
      hide Unexpired;
      var k := 0;
      ghost var was, seen := entries, 0;
      NothingUnexpired(computations, now);
      while k < |entries|
        invariant k <= |entries| && seen <= |was|
        invariant Known(entries, computations)
        invariant entries[..k] == Unexpired(was[..seen], computations, now) && entries[k..] == was[seen..]
        decreases |entries| - k
      {
        UnexpiredNext(was, computations, now, seen);
        SliceOut(entries, k);
        SliceOut(was, seen);
        assert entries[k] == was[seen];
        if Expired(computations[entries[k].id].outcome, now) {
          entries := entries[..k] + entries[k + 1..];
        } else {
          k := k + 1;
        }
        seen := seen + 1;
      }
      assert entries == entries[..k] && was == was[..seen];
    }

    // The computation's promise resolves.
    method Succeed(id: nat, now: int)
      requires Valid() && id < |computations| && computations[id].outcome.Pending?
      modifies `computations
      ensures Valid() && old(Known(entries, computations))
      ensures State() == Step(settings, old(State()), Event.Succeed(id, now))
    {
      InvKnown(settings, State());
      StepKeepsInv(settings, State(), Event.Succeed(id, now));
      computations := computations[id := computations[id].(outcome := Stored(now + settings.ttlMs))];
    }

    // The computation's promise rejects: its own entry goes, a newer one for the key stays.
    method Fail(id: nat)
      requires Valid() && id < |computations| && computations[id].outcome.Pending?
      modifies this
      ensures Valid() && old(Known(entries, computations))
      ensures State() == Step(settings, old(State()), Event.Fail(id))
    {
      InvKnown(settings, State());
      StepKeepsInv(settings, State(), Event.Fail(id));
      var key := computations[id].key;
      if Get(entries, key) == Some(id) {
        entries := Delete(entries, key);
      }
      computations := computations[id := computations[id].(outcome := Failed)];
    }
  }
}
