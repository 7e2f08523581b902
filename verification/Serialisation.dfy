/** Per-entry serialisation in a context store, over all interleavings.

    Tasks lock entries and drop their guards; one task at a time holds the store mutex and looks
    up, inserts, touches, inspects and removes entries. Each atomic read or write is a step. */
module Serialisation {
  import opened Wrappers
  import opened HandOffLock

  type EntryId = nat
  type Key = string

  /** Where a task stands. `Granted` is resumed but has not counted itself yet; `Dropped` has
      uncounted itself but still has to release the lock. */
  datatype Stage =
    | Idle
    | Queued(entry: EntryId)
    | Granted(entry: EntryId)
    | Guarding(entry: EntryId)
    | Touched(entry: EntryId)
    | Dropped(entry: EntryId)

  /** `owner`, `requests` and `grants` are history: who has the lock, the order in which it was asked
      for, and the order in which it was given. */
  datatype Entry = Entry(
    lastActivity: int,
    inFlight: int,
    lock: Lock,
    owner: Option<Task>,
    requests: seq<Task>,
    grants: seq<Task>)

  /** How far the holder of the store mutex has got with an entry it may remove. `guarded` is history:
      a guard of this entry was created since its in-flight count was read, and still counts. */
  datatype Inspection =
    | Nothing
    | NotInFlight(key: Key, entry: EntryId, guarded: bool)
    | Doomed(key: Key, entry: EntryId, guarded: bool)

  datatype System = System(
    idleTimeout: int,
    heap: map<EntryId, Entry>,
    nextId: EntryId,
    entries: map<Key, EntryId>,
    mutexHeld: bool,
    inspection: Inspection,
    stages: Stages)

  datatype Action =
    | Ask(t: Task, e: EntryId)            // async_acquire
    | Resume(t: Task)                     // the grant is taken up: in_flight_ + 1, the guard exists
    | TouchBack(t: Task, now: int)        // the guard's release: touch,
    | Uncount(t: Task)                    //   in_flight_ - 1,
    | LetGo(t: Task)                      //   lock release
    | Enter                               // take the store mutex
    | Leave
    | ReadInFlight(k: Key)                // first half of expired()
    | ReadIdle(now: int)                  // second half
    | Remove                              // erase an entry found expired
    | Insert(k: Key, now: int)            // emplace / create, over nothing or over an expired entry
    | Refresh(k: Key, now: int)           // find / emplace hit
    | EraseKey(k: Key)                    // the public erase

  type Stages = map<Task, Stage>

  function At(stages: Stages, t: Task): Stage {
    if t in stages then stages[t] else Idle
  }

  function StageOf(s: System, t: Task): Stage {
    At(s.stages, t)
  }

  predicate Enabled(s: System, a: Action) {
    match a
    case Ask(t, e) => StageOf(s, t) == Idle && e in s.heap
    case Resume(t) => StageOf(s, t).Granted? && StageOf(s, t).entry in s.heap
    case TouchBack(t, _) => StageOf(s, t).Guarding? && StageOf(s, t).entry in s.heap
    case Uncount(t) => StageOf(s, t).Touched? && StageOf(s, t).entry in s.heap
    case LetGo(t) => StageOf(s, t).Dropped? && StageOf(s, t).entry in s.heap
    case Enter => !s.mutexHeld
    case Leave => s.mutexHeld && s.inspection.Nothing?
    case ReadInFlight(k) => s.mutexHeld && s.inspection.Nothing? && k in s.entries && s.entries[k] in s.heap
    case ReadIdle(_) => s.mutexHeld && s.inspection.NotInFlight? && s.inspection.entry in s.heap
    case Remove => s.mutexHeld && s.inspection.Doomed?
    case Insert(k, _) =>
      s.mutexHeld &&
      ((s.inspection.Nothing? && k !in s.entries) || (s.inspection.Doomed? && s.inspection.key == k))
    case Refresh(k, _) => s.mutexHeld && s.inspection.Nothing? && k in s.entries && s.entries[k] in s.heap
    case EraseKey(k) => s.mutexHeld && s.inspection.Nothing?
  }

  function NewEntry(now: int): Entry {
    Entry(now, 0, FREE, None, [], [])
  }

  function Init(idleTimeout: int): System {
    System(idleTimeout, map[], 0, map[], false, Nothing, map[])
  }

  function MoveTo(s: System, t: Task, stage: Stage, e: EntryId, entry: Entry): System {
    s.(heap := s.heap[e := entry], stages := s.stages[t := stage])
  }

  /** A guard of `e` begins or ceases to count. */
  function Note(i: Inspection, e: EntryId, guarded: bool): Inspection {
    if i.Nothing? || i.entry != e then i else i.(guarded := guarded)
  }

  /** The entry and the asker's stage after `t` asks for the lock. */
  function Asked(x: Entry, e: EntryId, t: Task): (Entry, Stage) {
    var (lock, now) := AcquireStep(x.lock, t);
    var asked := x.(lock := lock, requests := x.requests + [t]);
    if now then (asked.(owner := Some(t), grants := x.grants + [t]), Granted(e)) else (asked, Queued(e))
  }

  /** The entry and all stages after `t` lets go. */
  function LetGoOf(x: Entry, stages: Stages, e: EntryId, t: Task): (Entry, Stages) {
    var (lock, next) := ReleaseStep(x.lock);
    match next
    case None => (x.(lock := lock, owner := None), stages[t := Idle])
    case Some(n) => (x.(lock := lock, owner := Some(n), grants := x.grants + [n]), stages[t := Idle][n := Granted(e)])
  }

  function Apply(s: System, a: Action): System
    requires Enabled(s, a)
  {
    match a
    case Ask(t, e) =>
      var (x, stage) := Asked(s.heap[e], e, t);
      MoveTo(s, t, stage, e, x)
    case Resume(t) =>
      var e := s.stages[t].entry;
      var x := s.heap[e];
      MoveTo(s, t, Guarding(e), e, x.(inFlight := x.inFlight + 1)).(inspection := Note(s.inspection, e, true))
    case TouchBack(t, now) =>
      var e := s.stages[t].entry;
      MoveTo(s, t, Touched(e), e, s.heap[e].(lastActivity := now))
    case Uncount(t) =>
      var e := s.stages[t].entry;
      MoveTo(s, t, Dropped(e), e, s.heap[e].(inFlight := s.heap[e].inFlight - 1)).(inspection := Note(s.inspection, e, false))
    case LetGo(t) =>
      var e := s.stages[t].entry;
      var (x, stages) := LetGoOf(s.heap[e], s.stages, e, t);
      s.(heap := s.heap[e := x], stages := stages)
    case Enter => s.(mutexHeld := true)
    case Leave => s.(mutexHeld := false)
    case ReadInFlight(k) =>
      if s.heap[s.entries[k]].inFlight > 0 then s
      else s.(inspection := NotInFlight(k, s.entries[k], false))
    case ReadIdle(now) =>
      var i := s.inspection;
      if now - s.heap[i.entry].lastActivity > s.idleTimeout then s.(inspection := Doomed(i.key, i.entry, i.guarded))
      else s.(inspection := Nothing)
    case Remove => s.(entries := s.entries - {s.inspection.key}, inspection := Nothing)
    case Insert(k, now) =>
      s.(heap := s.heap[s.nextId := NewEntry(now)], nextId := s.nextId + 1,
         entries := s.entries[k := s.nextId], inspection := Nothing)
    case Refresh(k, now) =>
      var e := s.entries[k];
      s.(heap := s.heap[e := s.heap[e].(lastActivity := now)])
    case EraseKey(k) => s.(entries := s.entries - {k})
  }

  /** The task has the lock of `e`, at whatever point between being resumed and letting go. */
  predicate Holds(stage: Stage, e: EntryId) {
    !stage.Idle? && !stage.Queued? && stage.entry == e
  }

  /** A guard of `e` exists and still counts. */
  predicate Guards(stage: Stage, e: EntryId) {
    (stage.Guarding? || stage.Touched?) && stage.entry == e
  }

  /** Exactly the owner holds the lock, and the count is 1 while its guard counts, else 0. */
  ghost predicate OwnerInv(stages: Stages, e: EntryId, x: Entry) {
    (forall t: Task :: Holds(At(stages, t), e) <==> x.owner == Some(t)) &&
    x.lock.locked == x.owner.Some? &&
    x.inFlight == (if x.owner.Some? && Guards(At(stages, x.owner.value), e) then 1 else 0)
  }

  /** Exactly the queued tasks wait, once each and never on a free lock, and the lock is given in
      the order in which it was asked for. */
  ghost predicate QueueInv(stages: Stages, e: EntryId, x: Entry) {
    (forall t: Task :: At(stages, t) == Queued(e) <==> t in x.lock.waiters) &&
    (forall i, j | 0 <= i < j < |x.lock.waiters| :: x.lock.waiters[i] != x.lock.waiters[j]) &&
    (x.lock.waiters != [] ==> x.lock.locked) &&
    x.requests == x.grants + x.lock.waiters
  }

  ghost predicate EntryInv(stages: Stages, e: EntryId, x: Entry) {
    OwnerInv(stages, e, x) && QueueInv(stages, e, x)
  }

  ghost predicate InspectionInv(s: System) {
    match s.inspection
    case Nothing => true
    case NotInFlight(k, e, guarded) => InspectedInv(s, k, e, guarded)
    case Doomed(k, e, guarded) => InspectedInv(s, k, e, guarded)
  }

  /** An entry under inspection is the one stored, and guarded exactly by a guard that came since. */
  ghost predicate InspectedInv(s: System, k: Key, e: EntryId, guarded: bool) {
    s.mutexHeld && k in s.entries && s.entries[k] == e && e in s.heap && (s.heap[e].inFlight > 0 <==> guarded)
  }

  ghost predicate Inv(s: System) {
    (forall e <- s.heap :: e < s.nextId) &&
    (forall k <- s.entries :: s.entries[k] in s.heap) &&
    (forall t: Task :: At(s.stages, t) != Idle ==> At(s.stages, t).entry in s.heap) &&
    (forall e <- s.heap :: EntryInv(s.stages, e, s.heap[e])) &&
    InspectionInv(s)
  }

  /** Entries other than `e` do not notice tasks that move within `e`, or between `e` and idle. */
  lemma ElsewhereUnchanged(stages: Stages, stages1: Stages, e: EntryId, y: EntryId, x: Entry)
    requires y != e && EntryInv(stages, y, x)
    requires forall t: Task :: At(stages1, t) == At(stages, t) ||
               ((At(stages, t) == Idle || At(stages, t).entry == e) && (At(stages1, t) == Idle || At(stages1, t).entry == e))
    ensures EntryInv(stages1, y, x)
  {
  }

  lemma AskKeeps(stages: Stages, e: EntryId, x: Entry, t: Task)
    requires EntryInv(stages, e, x) && At(stages, t) == Idle
    ensures var (x1, stage) := Asked(x, e, t); EntryInv(stages[t := stage], e, x1)
  {
    var (x1, stage) := Asked(x, e, t);
    var stages1 := stages[t := stage];
    assert forall u: Task :: At(stages1, u) == if u == t then stage else At(stages, u);
    assert x1.requests == x1.grants + x1.lock.waiters;
  }

  /** The owner's own progress: taking the grant up, touching, uncounting. */
  lemma OwnerMoves(stages: Stages, e: EntryId, x: Entry, t: Task, stage: Stage, x1: Entry)
    requires EntryInv(stages, e, x) && Holds(At(stages, t), e) && Holds(stage, e)
    requires x1.owner == x.owner && x1.lock == x.lock && x1.requests == x.requests && x1.grants == x.grants
    requires x1.inFlight == if Guards(stage, e) then 1 else 0
    ensures EntryInv(stages[t := stage], e, x1)
  {
    assert forall u: Task :: At(stages[t := stage], u) == if u == t then stage else At(stages, u);
  }

  lemma LetGoKeeps(stages: Stages, e: EntryId, x: Entry, t: Task)
    requires EntryInv(stages, e, x) && At(stages, t) == Dropped(e)
    ensures var (x1, stages1) := LetGoOf(x, stages, e, t); EntryInv(stages1, e, x1)
  {
    var (x1, stages1) := LetGoOf(x, stages, e, t);
    if x.lock.waiters == [] {
      assert forall u: Task :: At(stages1, u) == if u == t then Idle else At(stages, u);
    } else {
      var n := x.lock.waiters[0];
      assert At(stages, n) == Queued(e);
      assert forall u: Task :: At(stages1, u) == if u == n then Granted(e) else if u == t then Idle else At(stages, u);
      assert x1.grants + x1.lock.waiters == x.grants + ([n] + x.lock.waiters[1..]);
      assert x.lock.waiters == [n] + x1.lock.waiters;
      assert n !in x1.lock.waiters;
    }
  }

  /** What a step at `e` must establish for the whole system. */
  lemma EntryStepKeepsInv(s: System, s1: System, e: EntryId)
    requires Inv(s) && e in s.heap
    requires s1.heap.Keys == s.heap.Keys && (forall y <- s.heap | y != e :: s1.heap[y] == s.heap[y])
    requires s1.entries == s.entries && s1.nextId == s.nextId && s1.mutexHeld == s.mutexHeld
    requires EntryInv(s1.stages, e, s1.heap[e])
    requires forall t: Task :: At(s1.stages, t) == At(s.stages, t) ||
               ((At(s.stages, t) == Idle || At(s.stages, t).entry == e) && (At(s1.stages, t) == Idle || At(s1.stages, t).entry == e))
    requires InspectionInv(s1)
    ensures Inv(s1)
  {
    forall y <- s1.heap ensures EntryInv(s1.stages, y, s1.heap[y]) {
      if y != e { ElsewhereUnchanged(s.stages, s1.stages, e, y, s.heap[y]); }
    }
  }

  lemma AskStepKeepsInv(s: System, t: Task, e: EntryId)
    requires Inv(s) && Enabled(s, Ask(t, e))
    ensures Inv(Apply(s, Ask(t, e)))
  {
    hide EntryInv;
    AskKeeps(s.stages, e, s.heap[e], t);
    EntryStepKeepsInv(s, Apply(s, Ask(t, e)), e);
  }

  lemma OwnerStepKeepsInv(s: System, a: Action)
    requires Inv(s) && Enabled(s, a)
    requires a.Resume? || a.TouchBack? || a.Uncount?
    ensures Inv(Apply(s, a))
  {
    var s1 := Apply(s, a);
    var e := s.stages[a.t].entry;
    OwnerMoves(s.stages, e, s.heap[e], a.t, s1.stages[a.t], s1.heap[e]);
    EntryStepKeepsInv(s, s1, e);
  }

  lemma LetGoStepKeepsInv(s: System, t: Task)
    requires Inv(s) && Enabled(s, LetGo(t))
    ensures Inv(Apply(s, LetGo(t)))
  {
    var e := s.stages[t].entry;
    LetGoKeeps(s.stages, e, s.heap[e], t);
    if s.heap[e].lock.waiters != [] { assert At(s.stages, s.heap[e].lock.waiters[0]) == Queued(e); }
    EntryStepKeepsInv(s, Apply(s, LetGo(t)), e);
  }

  lemma StoreStepKeepsInv(s: System, a: Action)
    requires Inv(s) && Enabled(s, a)
    requires !(a.Ask? || a.Resume? || a.TouchBack? || a.Uncount? || a.LetGo?)
    ensures Inv(Apply(s, a))
  {
    var s1 := Apply(s, a);
    forall e <- s1.heap ensures EntryInv(s1.stages, e, s1.heap[e]) {
      if e in s.heap { assert EntryInv(s.stages, e, s.heap[e]); }
    }
  }

  /** Every step of every task keeps the invariant. */
  lemma StepKeepsInv(s: System, a: Action)
    requires Inv(s) && Enabled(s, a)
    ensures Inv(Apply(s, a))
  {
    match a
    case Ask(t, e) => AskStepKeepsInv(s, t, e);
    case Resume(_) => OwnerStepKeepsInv(s, a);
    case TouchBack(_, _) => OwnerStepKeepsInv(s, a);
    case Uncount(_) => OwnerStepKeepsInv(s, a);
    case LetGo(t) => LetGoStepKeepsInv(s, t);
    case _ => StoreStepKeepsInv(s, a);
  }

  // ---- Whole runs --------------------------------------------------------------------------

  /** The state after a run, or nothing if some action was not possible. */
  function Run(s: System, actions: seq<Action>): Option<System>
    decreases |actions|
  {
    if actions == [] then Some(s)
    else if !Enabled(s, actions[0]) then None
    else Run(Apply(s, actions[0]), actions[1..])
  }

  lemma {:induction false} RunKeepsInv(s: System, actions: seq<Action>)
    requires Inv(s) && Run(s, actions).Some?
    ensures Inv(Run(s, actions).value)
    decreases |actions|
  {
    if actions != [] {
      StepKeepsInv(s, actions[0]);
      RunKeepsInv(Apply(s, actions[0]), actions[1..]);
    }
  }

  /** Per entry, over every run: one guard at most, the count is 0 or 1 and counts it, waiters never
      queue on a free lock, and the lock has been given in the order in which it was asked for. */
  lemma Serialised(idleTimeout: int, actions: seq<Action>, e: EntryId)
    requires var end := Run(Init(idleTimeout), actions); end.Some? && e in end.value.heap
    ensures var s := Run(Init(idleTimeout), actions).value;
            var x := s.heap[e];
            (forall t: Task, u: Task | Holds(StageOf(s, t), e) && Holds(StageOf(s, u), e) :: t == u) &&
            0 <= x.inFlight <= 1 &&
            (x.inFlight == 1 <==> exists t: Task :: Guards(StageOf(s, t), e)) &&
            (x.lock.waiters != [] ==> x.lock.locked) &&
            x.grants <= x.requests && x.requests[|x.grants|..] == x.lock.waiters
  {
    RunKeepsInv(Init(idleTimeout), actions);
    var s := Run(Init(idleTimeout), actions).value;
    assert EntryInv(s.stages, e, s.heap[e]);
    var x := s.heap[e];
    if x.inFlight == 1 { assert Guards(StageOf(s, x.owner.value), e); }
    forall t: Task | Guards(StageOf(s, t), e) ensures x.inFlight == 1 { assert Holds(StageOf(s, t), e); }
  }

  /** The entry an expiry removal takes out of the store, by `find`, `emplace`, `create` or `sweep`. */
  function Removed(s: System, a: Action): Option<EntryId> {
    if (a.Remove? || a.Insert?) && s.inspection.Doomed? then Some(s.inspection.entry) else None
  }

  /** An entry is guarded when an expiry removes it exactly when a guard taken up after its in-flight
      count was read still counts: a guard that existed at the reading always keeps its entry. */
  lemma GuardedWhenReadIsKept(idleTimeout: int, actions: seq<Action>, a: Action)
    requires var end := Run(Init(idleTimeout), actions); end.Some? && Enabled(end.value, a)
    ensures var s := Run(Init(idleTimeout), actions).value;
            var e := Removed(s, a);
            e.Some? ==> ((exists t: Task :: Guards(StageOf(s, t), e.value)) <==> s.inspection.guarded)
  {
    RunKeepsInv(Init(idleTimeout), actions);
    var s := Run(Init(idleTimeout), actions).value;
    var e := Removed(s, a);
    if e.Some? { GuardedIsCounted(s, e.value); }
  }

  /** An entry's count says whether it is guarded. */
  lemma GuardedIsCounted(s: System, e: EntryId)
    requires Inv(s) && e in s.heap
    ensures (exists t: Task :: Guards(StageOf(s, t), e)) <==> s.heap[e].inFlight > 0
  {
    var x := s.heap[e];
    assert EntryInv(s.stages, e, x);
    if x.inFlight > 0 { assert Guards(StageOf(s, x.owner.value), e); }
    forall t: Task | Guards(StageOf(s, t), e) ensures x.inFlight > 0 { assert Holds(At(s.stages, t), e); }
  }

  /** A task that has the lock of `e` without being counted: before it is resumed, or on its way out. */
  predicate Uncounted(stage: Stage, e: EntryId) {
    stage == Granted(e) || stage == Dropped(e)
  }

  lemma LockedIsHeld(s: System, e: EntryId)
    requires Inv(s) && e in s.heap
    ensures s.heap[e].lock.locked <==> s.heap[e].inFlight > 0 || exists t: Task :: Uncounted(StageOf(s, t), e)
    ensures (exists t: Task :: Uncounted(StageOf(s, t), e)) ==> s.heap[e].inFlight == 0
  {
    var x := s.heap[e];
    assert EntryInv(s.stages, e, x);
    if x.lock.locked && x.inFlight <= 0 {
      assert Holds(At(s.stages, x.owner.value), e);
      assert Uncounted(StageOf(s, x.owner.value), e);
    }
    forall t: Task | Uncounted(StageOf(s, t), e) ensures x.lock.locked && x.inFlight == 0 { assert Holds(At(s.stages, t), e); }
  }

  lemma RunCons(s: System, a: Action, rest: seq<Action>)
    ensures Run(s, [a] + rest) == if Enabled(s, a) then Run(Apply(s, a), rest) else None
  {
    assert ([a] + rest)[1..] == rest;
  }

  /** The expiry of the entry under `k`, as one uninterrupted piece of work. */
  function Expiry(k: Key, now: int): seq<Action> {
    [ReadInFlight(k)] + ([ReadIdle(now)] + ([Remove] + []))
  }

  /** Uninterrupted, an expiry succeeds exactly on an entry that nobody is counted for and that has been
      idle for longer than the timeout. */
  lemma UninterruptedExpiryExactly(s: System, k: Key, now: int)
    requires Inv(s) && s.mutexHeld && s.inspection == Nothing && k in s.entries
    ensures var x := s.heap[s.entries[k]];
            Run(s, Expiry(k, now)).Some? <==> x.inFlight == 0 && now - x.lastActivity > s.idleTimeout
  {
    var x := s.heap[s.entries[k]];
    assert EntryInv(s.stages, s.entries[k], x);
    var s1 := Apply(s, ReadInFlight(k));
    RunCons(s, ReadInFlight(k), [ReadIdle(now)] + ([Remove] + []));
    RunCons(s1, ReadIdle(now), [Remove] + []);
    if x.inFlight == 0 {
      var s2 := Apply(s1, ReadIdle(now));
      RunCons(s2, Remove, []);
      assert Enabled(s2, Remove) <==> now - x.lastActivity > s.idleTimeout;
    }
    hide Run, Inv;
  }

  /** Uninterrupted, an expiry removes no guarded entry. */
  lemma UninterruptedExpiryIsSafe(idleTimeout: int, actions: seq<Action>, k: Key, now: int, t: Task)
    requires Run(Init(idleTimeout), actions).Some?
    requires Run(Run(Init(idleTimeout), actions).value, Expiry(k, now)).Some?
    ensures var s := Run(Init(idleTimeout), actions).value;
            k in s.entries && !Guards(StageOf(s, t), s.entries[k])
  {
    RunKeepsInv(Init(idleTimeout), actions);
    var s := Run(Init(idleTimeout), actions).value;
    RunCons(s, ReadInFlight(k), [ReadIdle(now)] + ([Remove] + []));
    hide Run, Inv;
    UninterruptedExpiryExactly(s, k, now);
    GuardedIsCounted(s, s.entries[k]);
  }

  /** So over every run a locked entry is swept, uninterrupted, exactly when it is idle and its holder has
      the lock but is not counted: granted and not yet resumed, or dropped and not yet let go. */
  lemma LockedEntryIsSweptExactly(idleTimeout: int, actions: seq<Action>, k: Key, now: int)
    requires var end := Run(Init(idleTimeout), actions);
             end.Some? && end.value.mutexHeld && end.value.inspection == Nothing && k in end.value.entries
    ensures var s := Run(Init(idleTimeout), actions).value;
            var e := s.entries[k];
            e in s.heap &&
            (s.heap[e].lock.locked && Run(s, Expiry(k, now)).Some? <==>
               now - s.heap[e].lastActivity > s.idleTimeout && exists t: Task :: Uncounted(StageOf(s, t), e))
  {
    RunKeepsInv(Init(idleTimeout), actions);
    var s := Run(Init(idleTimeout), actions).value;
    hide Run;
    LockedIsHeld(s, s.entries[k]);
    UninterruptedExpiryExactly(s, k, now);
  }

  /** And with any interruptions: an entry is locked when an expiry removes it exactly when a guard taken
      up after the in-flight count was read still counts, or its holder is not counted. */
  lemma LockedEntryRemovedExactlyInWindow(idleTimeout: int, actions: seq<Action>, a: Action)
    requires var end := Run(Init(idleTimeout), actions); end.Some? && Enabled(end.value, a)
    ensures var s := Run(Init(idleTimeout), actions).value;
            var e := Removed(s, a);
            e.Some? ==>
              e.value in s.heap &&
              (s.heap[e.value].lock.locked <==>
                 s.inspection.guarded || exists t: Task :: Uncounted(StageOf(s, t), e.value))
  {
    RunKeepsInv(Init(idleTimeout), actions);
    var s := Run(Init(idleTimeout), actions).value;
    var e := Removed(s, a);
    if e.Some? { LockedIsHeld(s, e.value); }
  }

  // ---- The windows are real -------------------------------------------------------------------

  /** Entry 0 is stored under "k" at time 0 and its lock is handed to task 7. */
  const OPENING: seq<Action> := [Enter] + ([Insert("k", 0)] + ([Leave] + ([Ask(7, 0)] + [])))

  function AfterOpening(): System {
    System(10, map[0 := Entry(0, 0, Lock(true, []), Some(7), [7], [7])], 1, map["k" := 0], false, Nothing, map[7 := Granted(0)])
  }

  lemma OpeningRuns()
    ensures Run(Init(10), OPENING) == Some(AfterOpening())
  {
    var s1 := Apply(Init(10), Enter);
    var s2 := Apply(s1, Insert("k", 0));
    var s3 := Apply(s2, Leave);
    RunCons(Init(10), Enter, [Insert("k", 0)] + ([Leave] + ([Ask(7, 0)] + [])));
    RunCons(s1, Insert("k", 0), [Leave] + ([Ask(7, 0)] + []));
    RunCons(s2, Leave, [Ask(7, 0)] + []);
    RunCons(s3, Ask(7, 0), []);
    assert [] + [7] == [7];
    assert s3.heap[0 := Asked(s3.heap[0], 0, 7).0] == AfterOpening().heap;
    assert Apply(s3, Ask(7, 0)) == AfterOpening();
  }

  lemma {:induction false} RunConcat(s: System, a: seq<Action>, b: seq<Action>)
    requires Run(s, a).Some?
    ensures Run(s, a + b) == Run(Run(s, a).value, b)
    decreases |a|
  {
    if a == [] {
      assert a + b == b;
    } else {
      assert a + b == [a[0]] + (a[1..] + b);
      RunCons(s, a[0], a[1..] + b);
      RunConcat(Apply(s, a[0]), a[1..], b);
    }
  }

  /** Contrary to the store's documentation, a locked entry can be swept: between the grant and the
      count, with no interruption of the sweeper at all. */
  lemma LockedEntryCanBeSwept()
    ensures exists actions: seq<Action> ::
              var end := Run(Init(10), actions);
              end.Some? && 0 in end.value.heap && end.value.heap[0].lock.locked && "k" !in end.value.entries
  {
    var sweep := [Enter] + Expiry("k", 100);
    var s1 := Apply(AfterOpening(), Enter);
    OpeningRuns();
    RunConcat(Init(10), OPENING, sweep);
    RunCons(AfterOpening(), Enter, Expiry("k", 100));
    SweepRuns(s1, Expiry("k", 100));
    assert Run(Init(10), OPENING + sweep).Some?;
  }

  lemma SweepRuns(s: System, work: seq<Action>)
    requires s == AfterOpening().(mutexHeld := true) && work == Expiry("k", 100)
    ensures Run(s, work) == Some(s.(entries := map[]))
  {
    var s1 := Apply(s, ReadInFlight("k"));
    var s2 := Apply(s1, ReadIdle(100));
    RunCons(s, ReadInFlight("k"), [ReadIdle(100)] + ([Remove] + []));
    RunCons(s1, ReadIdle(100), [Remove] + []);
    RunCons(s2, Remove, []);
    assert s2.entries - {"k"} == map[];
  }

  /** And a guard taken up between the two halves of the sweeper's work does not save its entry. */
  lemma GuardedEntryCanBeSwept()
    ensures exists actions: seq<Action> ::
              var end := Run(Init(10), actions);
              end.Some? && StageOf(end.value, 7) == Guarding(0) && "k" !in end.value.entries
  {
    var finish := [ReadIdle(100)] + ([Remove] + []);
    var work := [Enter] + ([ReadInFlight("k")] + ([Resume(7)] + finish));
    var s1 := Apply(AfterOpening(), Enter);
    var s2 := Apply(s1, ReadInFlight("k"));
    var s3 := Apply(s2, Resume(7));
    var s4 := Apply(s3, ReadIdle(100));
    OpeningRuns();
    RunConcat(Init(10), OPENING, work);
    RunCons(AfterOpening(), Enter, [ReadInFlight("k")] + ([Resume(7)] + finish));
    RunCons(s1, ReadInFlight("k"), [Resume(7)] + finish);
    RunCons(s2, Resume(7), finish);
    RunCons(s3, ReadIdle(100), [Remove] + []);
    RunCons(s4, Remove, []);
    hide Run;
    assert s3.heap[0].inFlight == 1 && StageOf(s4, 7) == Guarding(0);
    assert Run(Init(10), OPENING + work).Some?;
  }

  /** Exclusion is per entry, not per key: after an `erase` a second entry can live under the key, and
      both can be guarded at once. */
  lemma OneKeyTwoGuards()
    ensures exists before: seq<Action>, after: seq<Action> ::
              var mid, end := Run(Init(10), before), Run(Init(10), before + after);
              mid.Some? && end.Some? &&
              "k" in mid.value.entries && mid.value.entries["k"] == 0 && StageOf(mid.value, 7) == Guarding(0) &&
              "k" in end.value.entries && end.value.entries["k"] == 1 &&
              StageOf(end.value, 7) == Guarding(0) && StageOf(end.value, 8) == Guarding(1)
  {
    hide Run, Apply;
    var before := OPENING + ([Resume(7)] + []);
    var tail := [Leave] + ([Ask(8, 1)] + ([Resume(8)] + []));
    var after := [Enter] + ([EraseKey("k")] + ([Insert("k", 1)] + tail));
    var s0 := FirstGuard(before);
    var s3 := SecondEntry(s0, after, tail);
    RunConcat(Init(10), before, after);
    SecondGuard(s3, tail);
    assert Run(Init(10), before + after) == Run(s3, tail);
  }

  lemma FirstGuard(before: seq<Action>) returns (s0: System)
    requires before == OPENING + ([Resume(7)] + [])
    ensures Run(Init(10), before) == Some(s0) && s0.entries == map["k" := 0] && StageOf(s0, 7) == Guarding(0)
    ensures !s0.mutexHeld && s0.inspection == Nothing && s0.nextId == 1 && 1 !in s0.heap && StageOf(s0, 8) == Idle
  {
    s0 := Apply(AfterOpening(), Resume(7));
    OpeningRuns();
    RunConcat(Init(10), OPENING, [Resume(7)] + []);
    RunCons(AfterOpening(), Resume(7), []);
  }

  lemma SecondEntry(s0: System, after: seq<Action>, tail: seq<Action>) returns (s3: System)
    requires !s0.mutexHeld && s0.inspection == Nothing && s0.nextId == 1 && s0.entries == map["k" := 0]
    requires after == [Enter] + ([EraseKey("k")] + ([Insert("k", 1)] + tail))
    ensures Run(s0, after) == Run(s3, tail) && s3.entries == map["k" := 1] && s3.stages == s0.stages
    ensures s3.mutexHeld && s3.inspection == Nothing && 1 in s3.heap && s3.heap[1] == NewEntry(1)
  {
    var s1 := Apply(s0, Enter);
    var s2 := Apply(s1, EraseKey("k"));
    s3 := Apply(s2, Insert("k", 1));
    RunCons(s0, Enter, [EraseKey("k")] + ([Insert("k", 1)] + tail));
    RunCons(s1, EraseKey("k"), [Insert("k", 1)] + tail);
    RunCons(s2, Insert("k", 1), tail);
  }

  lemma SecondGuard(s: System, tail: seq<Action>)
    requires s.mutexHeld && s.inspection.Nothing? && 1 in s.heap && s.heap[1] == NewEntry(1)
    requires StageOf(s, 8) == Idle && StageOf(s, 7) == Guarding(0)
    requires tail == [Leave] + ([Ask(8, 1)] + ([Resume(8)] + []))
    ensures Run(s, tail).Some? && Run(s, tail).value.entries == s.entries
    ensures StageOf(Run(s, tail).value, 7) == Guarding(0) && StageOf(Run(s, tail).value, 8) == Guarding(1)
  {
    var s1 := Apply(s, Leave);
    var s2 := Apply(s1, Ask(8, 1));
    RunCons(s, Leave, [Ask(8, 1)] + ([Resume(8)] + []));
    RunCons(s1, Ask(8, 1), [Resume(8)] + []);
    RunCons(s2, Resume(8), []);
  }
}
