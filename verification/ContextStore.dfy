/** The keyed store: its maps, clocks and expiry, one critical section a method. */
module ContextStore {
  import opened Wrappers
  import opened HandOffLock

  type Key = string

  class StoreEntry {
    const key: Key
    var lastActivity: int
    var inFlight: int
    const lock: AsyncLock

    constructor (key: Key, now: int)
      ensures this.key == key && lastActivity == now && inFlight == 0
      ensures fresh(lock) && lock.View() == FREE
    {
      this.key, lastActivity, inFlight := key, now, 0;
      lock := new AsyncLock();
    }

    /** The second half of `lock()`: the grant is taken up and a guard comes into being. */
    method TakeUp()
      modifies `inFlight
      ensures inFlight == old(inFlight) + 1
    {
      inFlight := inFlight + 1;
    }

    /** The guard's release: refresh the activity, uncount, and pass the lock on. */
    method Drop(now: int) returns (next: Option<Task>)
      modifies `lastActivity, `inFlight, lock
      ensures lastActivity == now && inFlight == old(inFlight) - 1
      ensures (lock.View(), next) == ReleaseStep(old(lock.View()))
    {
      lastActivity := now;
      inFlight := inFlight - 1;
      next := lock.Release();
    }
  }

  /** `x / 4` as C++ divides: towards zero. */
  function Quarter(x: int): int {
    if x >= 0 then x / 4 else -(-x / 4)
  }

  class ContextStore {
    const idleTimeout: int
    var entries: map<Key, StoreEntry>
    var lastSweep: int

    ghost predicate Valid()
      reads this
    {
      forall k <- entries :: entries[k].key == k
    }

    predicate Expired(e: StoreEntry, now: int)
      reads e
    {
      !(e.inFlight > 0) && now - e.lastActivity > idleTimeout
    }

    /** A live entry owns the key. */
    predicate Taken(key: Key, now: int)
      reads this, entries.Values
    {
      key in entries && !Expired(entries[key], now)
    }

    /** The entries that are not expired at `now`. */
    ghost function LiveAt(now: int): map<Key, StoreEntry>
      reads this, entries.Values
    {
      map k | k in entries && !Expired(entries[k], now) :: entries[k]
    }

    predicate SweepDue(now: int)
      reads this
    {
      now - lastSweep >= Quarter(idleTimeout)
    }

    /** What the opportunistic sweep leaves. */
    ghost function AfterSweep(now: int): map<Key, StoreEntry>
      reads this, entries.Values
    {
      if SweepDue(now) then LiveAt(now) else entries
    }

    constructor (idleTimeout: int, now: int)
      ensures Valid() && entries == map[] && lastSweep == now && this.idleTimeout == idleTimeout
    {
      this.idleTimeout, entries, lastSweep := idleTimeout, map[], now;
    }

    /** Remove every expired entry: the rest stay, and the count is the number removed. */
    method Sweep(now: int) returns (removed: nat)
      requires Valid()
      modifies this
      ensures Valid() && entries == old(LiveAt(now)) && lastSweep == now
      ensures forall k :: k in entries <==>
                k in old(entries) && (old(entries)[k].inFlight > 0 || now - old(entries)[k].lastActivity <= idleTimeout)
      ensures removed == |old(entries)| - |entries|
    {
      lastSweep := now;
      removed := 0;
      var todo := entries.Keys;
      while todo != {}
        invariant Valid() && todo <= entries.Keys && lastSweep == now
        invariant entries.Keys <= old(entries).Keys && forall k <- entries :: entries[k] == old(entries)[k]
        invariant forall k <- old(entries) | k !in todo :: k in entries <==> !Expired(old(entries)[k], now)
        invariant removed == |old(entries)| - |entries|
        decreases todo
      {
        var k :| k in todo;
        if Expired(entries[k], now) {
          assert entries.Keys == (entries - {k}).Keys + {k};
          entries := entries - {k};
          removed := removed + 1;
        }
        todo := todo - {k};
      }
    }

    method MaybeSweep(now: int)
      requires Valid()
      modifies this
      ensures Valid() && entries == old(AfterSweep(now))
      ensures lastSweep == if old(SweepDue(now)) then now else old(lastSweep)
    {
      if SweepDue(now) { var _ := Sweep(now); }
    }

    /** Look a key up: an expired entry is unknown, and gone; a hit is refreshed, and nothing else. */
    method Find(key: Key, now: int) returns (e: StoreEntry?)
      requires Valid()
      modifies this, entries.Values
      ensures Valid()
      ensures old(Taken(key, now)) <==> e != null
      ensures e != null ==> e == old(entries)[key] && e.lastActivity == now && entries == old(AfterSweep(now))
      ensures e == null ==> entries == old(AfterSweep(now)) - {key}
      ensures forall x <- old(entries).Values | x != e :: unchanged(x)
      ensures forall x <- old(entries).Values :: x.inFlight == old(x.inFlight)
    {
      MaybeSweep(now);
      if key !in entries {
        assert entries - {key} == entries;
        return null;
      }
      if Expired(entries[key], now) {
        entries := entries - {key};
        return null;
      }
      e := entries[key];
      e.lastActivity := now;
    }

    /** The live entry of a key, refreshed, or a new one stored over whatever was there. */
    method Emplace(key: Key, now: int) returns (e: StoreEntry)
      requires Valid()
      modifies this, entries.Values
      ensures Valid() && e.key == key && e.lastActivity == now
      ensures entries == old(AfterSweep(now))[key := e]
      ensures old(Taken(key, now)) ==> e == old(entries)[key]
      ensures !old(Taken(key, now)) ==> fresh(e) && e.inFlight == 0
      ensures forall x <- old(entries).Values | x != e :: unchanged(x)
      ensures forall x <- old(entries).Values :: x.inFlight == old(x.inFlight)
    {
      MaybeSweep(now);
      if Taken(key, now) {
        e := entries[key];
        e.lastActivity := now;
        assert entries == entries[key := e];
        return;
      }
      e := new StoreEntry(key, now);
      entries := entries[key := e];
    }

    /** Draw keys until one has no live entry, and store a new entry under it. `draws` are the keys the
        generator would produce; nothing is stored if all of them are taken. */
    method Create(draws: seq<Key>, now: int) returns (r: Option<StoreEntry>)
      requires Valid()
      modifies this
      ensures Valid()
      ensures r.None? <==> forall k <- draws :: old(Taken(k, now))
      ensures r.None? ==> entries == old(AfterSweep(now))
      ensures r.Some? ==>
                var e := r.value;
                fresh(e) && e.inFlight == 0 && e.lastActivity == now &&
                entries == old(AfterSweep(now))[e.key := e] &&
                exists i :: 0 <= i < |draws| && draws[i] == e.key && !old(Taken(draws[i], now)) &&
                  forall j | 0 <= j < i :: old(Taken(draws[j], now))
    {
      MaybeSweep(now);
      for i := 0 to |draws|
        invariant Valid() && entries == old(AfterSweep(now))
        invariant forall j | 0 <= j < i :: old(Taken(draws[j], now))
      {
        var key := draws[i];
        if !Taken(key, now) {
          var e := new StoreEntry(key, now);
          entries := entries[key := e];
          assert key in draws && !old(Taken(key, now));
          return Some(e);
        }
      }
      return None;
    }

    /** Look a key up without refreshing or sweeping. */
    method Peek(key: Key, now: int) returns (e: StoreEntry?)
      requires Valid()
      ensures e != null <==> key in LiveAt(now)
      ensures e != null ==> e == LiveAt(now)[key]
    {
      if key !in entries || Expired(entries[key], now) { return null; }
      return entries[key];
    }

    /** Remove a key, live or not. */
    method Erase(key: Key) returns (removed: bool)
      requires Valid()
      modifies `entries
      ensures Valid() && entries == old(entries) - {key} && removed == (key in old(entries))
    {
      removed := key in entries;
      entries := entries - {key};
    }
  }

  // ---- When entries count as live, and when a sweep is due, in numbers -------------------------------

  /** A key is taken while its entry is guarded or was active within the timeout. */
  lemma TakenMeans(s: ContextStore, key: Key, now: int)
    ensures s.Taken(key, now) <==>
              key in s.entries && (s.entries[key].inFlight > 0 || now - s.entries[key].lastActivity <= s.idleTimeout)
    ensures key in s.LiveAt(now) <==> s.Taken(key, now)
  {
  }

  /** A sweep is due once a quarter of the timeout, rounded towards zero, has passed since the last one; what
      it leaves is what is taken. */
  lemma SweepDueMeans(s: ContextStore, now: int)
    ensures s.idleTimeout >= 0 ==> (s.SweepDue(now) <==> 4 * (now - s.lastSweep) + 3 >= s.idleTimeout)
    ensures s.idleTimeout < 0 ==> (s.SweepDue(now) <==> 4 * (now - s.lastSweep) >= s.idleTimeout)
    ensures s.AfterSweep(now).Keys == (set k <- s.entries | !s.SweepDue(now) || s.Taken(k, now))
  {
  }
}
