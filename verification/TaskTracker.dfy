/**
 * krsm's tracker of tasks handed to a worker thread: it follows the runtime's pending reasons,
 * collects the worker's responses and feeds them back, one per async step.
 */
module TaskTrackers {
  import opened Wrappers
  import opened SlotSearch
  import opened FixedSizedMaps
  import opened FutureTrees
  import opened AsyncRuntimes

  type Tasks<+R> = map<Key, Option<R>>

  /** Nothing is tracked. */
  ghost predicate Idle<R>(tasks: Tasks<R>) {
    forall k :: k !in tasks
  }

  /** No task is of a pending reason. */
  ghost predicate NoneWanted<R>(tasks: Tasks<R>, pending: Counts) {
    forall k :: k in tasks ==> k !in pending
  }

  /** Only tasks of pending reasons are left, unchanged. */
  ghost predicate Kept<R>(before: Tasks<R>, pending: Counts, after: Tasks<R>) {
    forall k :: k in after ==> k in before && k in pending && after[k] == before[k]
  }

  /** Every task is still there; the new ones are unfinished tasks of matching pending reasons. */
  ghost predicate Grown<R>(before: Tasks<R>, pending: Counts, matches: Key -> bool, after: Tasks<R>) {
    && (forall k :: k in before ==> k in after && after[k] == before[k])
    && forall k :: k in after && k !in before ==> k in pending && matches(k) && after[k] == None
  }

  ghost predicate Complete<R>(pending: Counts, matches: Key -> bool, after: Tasks<R>) {
    forall k :: k in pending && matches(k) ==> k in after
  }

  /** Where new tasks find no room, those of the least reasons are the ones that were added. */
  ghost predicate LeastFirst<R>(before: Tasks<R>, pending: Counts, matches: Key -> bool, after: Tasks<R>) {
    forall k, u :: k in after && k !in before && u in pending && matches(u) && u !in after ==> k < u
  }

  /** The tasks left by the key join. */
  ghost function Survivors<R>(entries: seq<Entry<Option<R>>>, capacity: nat, pending: seq<Entry<nat>>): Tasks<R> {
    MapOf(Join(Pack(entries, capacity), KeysOf(pending)))
  }

  ghost predicate Finished<R>(tasks: Tasks<R>, k: Key) {
    k in tasks && tasks[k].Some?
  }

  ghost predicate AnyFinished<R>(tasks: Tasks<R>) {
    exists k :: Finished(tasks, k)
  }

  ghost predicate FirstFinished<R>(tasks: Tasks<R>, k: Key) {
    Finished(tasks, k) && forall j :: Finished(tasks, j) ==> k <= j
  }

  /** Sync returns, or it panics on a second response before the next async step. */
  datatype SyncOutcome = Returned(ready: bool) | Panicked

  /**
   * What sync does to the tasks that survived the join and to the response slot. The first finished task
   * leaves the tracker, and its response goes into the slot; if that is taken, sync panics.
   */
  ghost predicate FedBack<R>(kept: Tasks<R>, slot: Slot<R>, after: Tasks<R>, slot': Slot<R>, outcome: SyncOutcome) {
    if AnyFinished(kept) then
      exists k :: FirstFinished(kept, k) && Unblocked(kept, slot, k, after, slot', outcome)
    else
      after == kept && slot' == slot && outcome.Returned? && (outcome.ready <==> Idle(after))
  }

  ghost predicate Unblocked<R>(kept: Tasks<R>, slot: Slot<R>, k: Key, after: Tasks<R>, slot': Slot<R>,
                               outcome: SyncOutcome)
    requires Finished(kept, k)
  {
    && after == kept - {k}
    && (slot.None? ==> slot' == Some((k, kept[k].value)) && outcome == Returned(false))
    && (slot.Some? ==> slot' == slot && outcome == Panicked)
  }

  /** The join keeps the p-th task. */
  ghost predicate SurvivesAt<R>(entries: seq<Entry<Option<R>>>, capacity: nat, pending: seq<Entry<nat>>, p: nat)
    requires p < |entries| <= capacity
  {
    Survives(Pack(entries, capacity), KeysOf(pending), p)
  }

  /** Some finished task is of a pending reason, and no task that the join keeps sits at one of its left probes. */
  ghost predicate FinishedSurvives<R>(entries: seq<Entry<Option<R>>>, capacity: nat, pending: seq<Entry<nat>>)
    requires |entries| <= capacity
  {
    exists p: nat :: p < |entries| && entries[p].val.Some? && SurvivesAt(entries, capacity, pending, p)
  }

  /** Every task of a pending reason survives the join. */
  ghost predicate JoinKeepsAll<R>(entries: seq<Entry<Option<R>>>, capacity: nat, pending: seq<Entry<nat>>) {
    forall k :: k in MapOf(entries) && k in MapOf(pending) ==> k in Survivors(entries, capacity, pending)
  }

  lemma {:induction false} SurvivorsKept<R>(entries: seq<Entry<Option<R>>>, capacity: nat, pending: seq<Entry<nat>>)
    requires Sorted(entries) && Sorted(pending) && |entries| <= capacity
    ensures Kept(MapOf(entries), MapOf(pending), Survivors(entries, capacity, pending))
  {
    JoinedMaps(entries, capacity, pending);
  }

  lemma {:induction false} SurvivorsFewer<R>(entries: seq<Entry<Option<R>>>, capacity: nat, pending: seq<Entry<nat>>)
    requires Sorted(entries) && Sorted(pending) && |entries| <= capacity
    ensures |Survivors(entries, capacity, pending)| <= |MapOf(entries)|
  {
    JoinedMaps(entries, capacity, pending);
    MapOfRepresents(entries);
    MapOfRepresents(Join(Pack(entries, capacity), KeysOf(pending)));
  }

  lemma {:induction false} JoinedWholeExactly<R>(entries: seq<Entry<Option<R>>>, capacity: nat,
                                                 pending: seq<Entry<nat>>)
    requires Sorted(entries) && Sorted(pending) && |entries| <= capacity
    ensures JoinKeepsAll(entries, capacity, pending) <==> ProbeFreeEntries(entries, capacity, KeysOf(pending))
  {
    JoinedMaps(entries, capacity, pending);
  }

  /** A task survives just if its entry does, with the value it had. */
  lemma {:induction false} SurvivorAt<R>(entries: seq<Entry<Option<R>>>, capacity: nat, pending: seq<Entry<nat>>,
                                         p: nat)
    requires Sorted(entries) && Sorted(pending) && p < |entries| <= capacity
    ensures var k, kept := entries[p].key, Survivors(entries, capacity, pending);
            && k in MapOf(entries) && MapOf(entries)[k] == entries[p].val
            && (k in kept <==> SurvivesAt(entries, capacity, pending, p))
            && (Finished(kept, k) <==> entries[p].val.Some? && SurvivesAt(entries, capacity, pending, p))
            && (entries[p].key in KeysOf(pending) <==> k in MapOf(pending))
  {
    KeysOfMap(pending);
    JoinedKey(entries, capacity, KeysOf(pending), p);
    SurvivorsKept(entries, capacity, pending);
    MapOfRepresents(entries);
  }

  lemma {:induction false} AnyFinishedExactly<R>(entries: seq<Entry<Option<R>>>, capacity: nat,
                                                 pending: seq<Entry<nat>>)
    requires Sorted(entries) && Sorted(pending) && |entries| <= capacity
    ensures AnyFinished(Survivors(entries, capacity, pending)) <==> FinishedSurvives(entries, capacity, pending)
  {
    var kept := Survivors(entries, capacity, pending);
    if k :| Finished(kept, k) {
      SurvivorsKept(entries, capacity, pending);
      MapOfRepresents(entries);
      var p: nat :| p < |entries| && entries[p].key == k;
      SurvivorAt(entries, capacity, pending, p);
    } else if p: nat :| p < |entries| && entries[p].val.Some? && SurvivesAt(entries, capacity, pending, p) {
      SurvivorAt(entries, capacity, pending, p);
    }
  }

  /** The join may lose tasks of pending reasons, but never all of them. */
  lemma {:induction false} IdleExactly<R>(entries: seq<Entry<Option<R>>>, capacity: nat, pending: seq<Entry<nat>>)
    requires Sorted(entries) && Sorted(pending) && |entries| <= capacity
    ensures Idle(Survivors(entries, capacity, pending)) <==> NoneWanted(MapOf(entries), MapOf(pending))
  {
    SurvivorsKept(entries, capacity, pending);
    if k :| k in MapOf(entries) && k in MapOf(pending) {
      MapOfRepresents(entries);
      var p: nat :| p < |entries| && entries[p].key == k;
      SurvivorAt(entries, capacity, pending, p);
      FirstSurvives(Pack(entries, capacity), KeysOf(pending), p);
      var m: nat :| m <= p && Survives(Pack(entries, capacity), KeysOf(pending), m);
      SurvivorAt(entries, capacity, pending, m);
    }
  }

  /** What sync returns, in terms of the tasks and reasons before it. */
  lemma {:induction false} SyncOutcomeExactly<R>(entries: seq<Entry<Option<R>>>, capacity: nat,
                                                 pending: seq<Entry<nat>>, slot: Slot<R>, after: Tasks<R>,
                                                 slot': Slot<R>, outcome: SyncOutcome)
    requires Sorted(entries) && Sorted(pending) && |entries| <= capacity
    requires FedBack(Survivors(entries, capacity, pending), slot, after, slot', outcome)
    ensures outcome.Panicked? <==> slot.Some? && FinishedSurvives(entries, capacity, pending)
    ensures outcome == Returned(true) <==> NoneWanted(MapOf(entries), MapOf(pending))
  {
    AnyFinishedExactly(entries, capacity, pending);
    IdleExactly(entries, capacity, pending);
  }

  class TaskTracker<R> {
    const tasks: FixedSizedMap<Option<R>>

    ghost predicate Apart(runtime: AsyncRuntime<R>) {
      && tasks as object != runtime.pending as object
      && tasks.items as object != runtime.pending.items as object
      && tasks.items.Length == runtime.pending.items.Length
    }

    constructor (maxPending: nat)
      ensures tasks.Valid() && tasks.View() == map[] && tasks.size == 0 && tasks.items.Length == maxPending
      ensures fresh(tasks) && fresh(tasks.items)
    {
      tasks := new FixedSizedMap(maxPending);
      new;
      assert |tasks.View()| == tasks.size by { MapOfRepresents(tasks.entries); }
    }

    /** The least pending reason whose task is complete. */
    method FirstCompleted(runtime: AsyncRuntime<R>) returns (r: Option<Key>)
      requires tasks.Valid() && runtime.Valid()
      ensures r.Some? ==> r.value in runtime.live && Finished(tasks.View(), r.value)
      ensures r.Some? ==> forall k :: k in runtime.live && Finished(tasks.View(), k) ==> r.value <= k
      ensures r.None? ==> forall k :: k in runtime.live ==> !Finished(tasks.View(), k)
    {
      ghost var entries := runtime.pending.entries;
      assert Represents(entries, MapOf(entries)) by { MapOfRepresents(entries); }
      for i := 0 to runtime.pending.size
        invariant forall j :: 0 <= j < i ==> !Finished(tasks.View(), entries[j].key)
      {
        var key := runtime.pending.items[i].value.key;
        assert key == entries[i].key by { assert runtime.pending.items[..][i] == Some(entries[i]); }
        var complete := tasks.Read(key, (x: Option<R>) => x.Some?);
        if complete == Some(true) {
          SortedPairs(entries);
          return Some(key);
        }
      }
      r := None;
    }

    /**
     * Drops tasks nobody waits for, then feeds back at most one response. The unwrap of the removed response
     * is safe; a panic comes exactly from a finished task that meets an undelivered response.
     */
    method Sync(runtime: AsyncRuntime<R>) returns (outcome: SyncOutcome)
      requires tasks.Valid() && runtime.Valid() && Apart(runtime)
      modifies tasks, tasks.items, runtime`hasUnblock
      ensures tasks.Valid() && runtime.Valid()
      ensures var kept := Survivors(old(tasks.entries), tasks.items.Length, runtime.pending.entries);
              && Kept(old(tasks.View()), runtime.pending.View(), kept)
              && FedBack(kept, old(runtime.hasUnblock), tasks.View(), runtime.hasUnblock, outcome)
              && tasks.size <= old(tasks.size) && (AnyFinished(kept) ==> tasks.size < old(tasks.size))
      ensures JoinKeepsAll(old(tasks.entries), tasks.items.Length, runtime.pending.entries) <==>
              ProbeFreeEntries(old(tasks.entries), tasks.items.Length, KeysOf(runtime.pending.entries))
      ensures outcome.Panicked? <==>
              old(runtime.hasUnblock).Some?
              && FinishedSurvives(old(tasks.entries), tasks.items.Length, runtime.pending.entries)
      ensures outcome == Returned(true) <==> NoneWanted(old(tasks.View()), runtime.pending.View())
    {
      ghost var entries, capacity, pending := tasks.entries, tasks.items.Length, runtime.pending.entries;
      ghost var slot := runtime.hasUnblock;
      Prune(runtime);
      outcome := FeedBack(runtime);
      JoinedWholeExactly(entries, capacity, pending);
      SyncOutcomeExactly(entries, capacity, pending, slot, tasks.View(), runtime.hasUnblock, outcome);
    }

    method Prune(runtime: AsyncRuntime<R>)
      requires tasks.Valid() && runtime.Valid() && Apart(runtime)
      modifies tasks, tasks.items
      ensures tasks.Valid() && tasks.size <= old(tasks.size) && runtime.Valid()
      ensures tasks.View() == Survivors(old(tasks.entries), tasks.items.Length, runtime.pending.entries)
      ensures Kept(old(tasks.View()), runtime.pending.View(), tasks.View())
    {
      tasks.InnerJoinKeys(runtime.pending);
    }

    /** Removes the first finished task, if there is one, and stores its response in the runtime's slot. */
    method FeedBack(runtime: AsyncRuntime<R>) returns (outcome: SyncOutcome)
      requires tasks.Valid() && runtime.Valid() && Apart(runtime)
      requires forall k :: k in tasks.View() ==> k in runtime.pending.View()
      modifies tasks, tasks.items, runtime`hasUnblock
      ensures tasks.Valid() && runtime.Valid()
      ensures FedBack(old(tasks.View()), old(runtime.hasUnblock), tasks.View(), runtime.hasUnblock, outcome)
      ensures outcome.Panicked? <==> old(runtime.hasUnblock).Some? && AnyFinished(old(tasks.View()))
      ensures tasks.size == old(tasks.size) - if AnyFinished(old(tasks.View())) then 1 else 0
    {
      ghost var kept := tasks.View();
      assert forall k :: k in runtime.pending.View() <==> k in runtime.live;
      var completed := FirstCompleted(runtime);
      if completed.Some? {
        assert FirstFinished(kept, completed.value);
        var response := tasks.Remove(completed.value);
        var panics := runtime.UnblockFutures(completed.value, response.value.value);
        return if panics then Panicked else Returned(false);
      }
      outcome := Returned(tasks.size == 0);
      assert |tasks.View()| == tasks.size && Represents(tasks.entries, tasks.View()) by {
        MapOfRepresents(tasks.entries);
      }
      if tasks.size > 0 {
        assert tasks.entries[0].key in tasks.View();
      }
    }

    /** Adds one unfinished task, unless the reason is tracked already or the tracker is full. */
    method Register(reason: Key) returns (r: Result<(), AsyncRuntimeError>)
      requires tasks.Valid()
      modifies tasks, tasks.items
      ensures tasks.Valid()
      ensures r.Ok? <==> reason in tasks.View()
      ensures |old(tasks.View())| <= tasks.items.Length
      ensures tasks.View() == Registered(old(tasks.View()), reason, tasks.items.Length)
    {
      var added := tasks.SetDefault(reason, None);
      r := if added.Err? then Err(added.error) else Ok(());
    }

    /** Tracks every pending reason that matches; existing tasks keep their state, also when the tracker is full. */
    method RegisterIf(runtime: AsyncRuntime<R>, matches: Key -> bool) returns (r: Result<(), AsyncRuntimeError>)
      requires tasks.Valid() && runtime.Valid() && Apart(runtime)
      modifies tasks, tasks.items
      ensures tasks.Valid()
      ensures Grown(old(tasks.View()), runtime.pending.View(), matches, tasks.View())
      ensures r.Ok? <==> Complete(runtime.pending.View(), matches, tasks.View())
      ensures r.Err? ==> |tasks.View()| == tasks.items.Length
      ensures LeastFirst(old(tasks.View()), runtime.pending.View(), matches, tasks.View())
    {
      ghost var before := tasks.View();
      r := RegisterLoop(runtime, matches);
      assert |tasks.View()| <= tasks.items.Length by { MapOfRepresents(tasks.entries); }
      ProgressEnds(before, runtime.pending.entries, runtime.pending.View(), matches, tasks.items.Length, tasks.View());
    }

    /** The loop over the pending reasons. */
    method RegisterLoop(runtime: AsyncRuntime<R>, matches: Key -> bool) returns (r: Result<(), AsyncRuntimeError>)
      requires tasks.Valid() && runtime.Valid() && Apart(runtime)
      modifies tasks, tasks.items
      ensures tasks.Valid() && runtime.Valid()
      ensures var entries := runtime.pending.entries;
              && Progress(old(tasks.View()), entries, |entries|, matches, tasks.items.Length, tasks.View())
              && (r.Ok? <==> AllTracked(entries, |entries|, matches, tasks.View()))
    {
      ghost var entries, before, capacity := runtime.pending.entries, tasks.View(), tasks.items.Length;
      r := Ok(());
      for i := 0 to runtime.pending.size
        invariant tasks.Valid()
        invariant Progress(before, entries, i, matches, capacity, tasks.View())
        invariant r.Ok? <==> AllTracked(entries, i, matches, tasks.View())
      {
        ghost var mid := tasks.View();
        var one := RegisterAt(runtime, i, matches);
        ProgressStep(before, entries, i, matches, capacity, mid, tasks.View());
        if one.Err? {
          r := one;
        }
      }
    }

    /** The callback of that loop on the i-th pending reason. */
    method RegisterAt(runtime: AsyncRuntime<R>, i: nat, matches: Key -> bool) returns (r: Result<(), AsyncRuntimeError>)
      requires tasks.Valid() && runtime.Valid() && Apart(runtime) && i < runtime.pending.size
      modifies tasks, tasks.items
      ensures tasks.Valid()
      ensures var key := runtime.pending.entries[i].key;
              && (r.Ok? <==> matches(key) ==> key in tasks.View())
              && tasks.View() == if matches(key) then Registered(old(tasks.View()), key, tasks.items.Length)
                                 else old(tasks.View())
    {
      ghost var entries := runtime.pending.entries;
      var key := runtime.pending.items[i].value.key;
      assert key == entries[i].key by { assert runtime.pending.items[..][i] == Some(entries[i]); }
      r := Ok(());
      if matches(key) {
        r := Register(key);
      }
    }

    /** Asks the worker once per task; a failed task keeps what it had, and the last failure is reported. */
    method Work<E>(worker: Key -> Result<R, E>) returns (r: Result<(), E>)
      requires tasks.Valid()
      modifies tasks, tasks.items
      ensures tasks.Valid() && tasks.size == old(tasks.size)
      ensures Worked(old(tasks.View()), worker, tasks.View())
      ensures r.Ok? <==> AllWork(old(tasks.View()), worker)
      ensures r.Err? ==> LastToFail(old(tasks.View()), worker, r.error)
    {
      var err: Option<E> := tasks.MapEdit(None, WorkOn(worker));
      ghost var was := old(tasks.entries);
      WorkedEntries(None, was, worker);
      WorkedMap(was, tasks.entries, worker);
      LastFailureMap(was, worker, err);
      r := if err.Some? then Err(err.value) else Ok(());
    }
  }

  /** The worker's answer is stored in the task; a failure is kept aside. The iteration never stops early. */
  function WorkOn<R, E>(worker: Key -> Result<R, E>): Editor<Option<E>, Option<R>> {
    (err: Option<E>, e: Entry<Option<R>>) =>
      match worker(e.key)
      case Ok(x) => (err, Entry(e.key, Some(x)), false)
      case Err(x) => (Some(x), e, false)
  }

  /** The entries after all of them were worked on. */
  ghost predicate WorkedOn<R, E>(c: seq<Entry<Option<R>>>, worker: Key -> Result<R, E>, d: seq<Entry<Option<R>>>) {
    && |c| == |d|
    && forall i :: 0 <= i < |c| ==>
         d[i] == if worker(c[i].key).Ok? then Entry(c[i].key, Some(worker(c[i].key).value)) else c[i]
  }

  /** The failure of the last entry that has one, or the error there was before. */
  ghost predicate LastFailure<R, E>(err: Option<E>, c: seq<Entry<Option<R>>>, worker: Key -> Result<R, E>,
                                    end: Option<E>)
  {
    if exists i :: 0 <= i < |c| && worker(c[i].key).Err? then
      exists i :: && 0 <= i < |c| && worker(c[i].key).Err? && end == Some(worker(c[i].key).error)
                  && forall j :: i < j < |c| ==> worker(c[j].key).Ok?
    else end == err
  }

  lemma {:induction false} WorkedEntries<R, E>(err: Option<E>, c: seq<Entry<Option<R>>>, worker: Key -> Result<R, E>)
    ensures var (end, after) := Edited(err, c, WorkOn(worker));
            WorkedOn(c, worker, after) && LastFailure(err, c, worker, end)
    decreases |c|
  {
    if c != [] {
      var (err', e, stop) := WorkOn(worker)(err, c[0]);
      var rest := c[1..];
      WorkedEntries(err', rest, worker);
      assert forall i :: 0 < i < |c| ==> c[i] == rest[i - 1];
      var (end, _) := Edited(err', rest, WorkOn(worker));
      LastFailureCons(err, c, worker, end);
    }
  }

  lemma {:induction false} LastFailureCons<R, E>(err: Option<E>, c: seq<Entry<Option<R>>>,
                                                 worker: Key -> Result<R, E>, end: Option<E>)
    requires c != []
    requires LastFailure(if worker(c[0].key).Err? then Some(worker(c[0].key).error) else err, c[1..], worker, end)
    ensures LastFailure(err, c, worker, end)
  {
    var rest := c[1..];
    assert forall i :: 0 <= i < |rest| ==> rest[i] == c[i + 1];
    if exists i :: 0 <= i < |rest| && worker(rest[i].key).Err? {
      var i :| && 0 <= i < |rest| && worker(rest[i].key).Err? && end == Some(worker(rest[i].key).error)
               && forall j :: i < j < |rest| ==> worker(rest[j].key).Ok?;
      assert worker(c[i + 1].key).Err?;
      forall j | i + 1 < j < |c| ensures worker(c[j].key).Ok? {
        assert rest[j - 1] == c[j];
      }
    } else {
      forall j | 0 < j < |c| ensures worker(c[j].key).Ok? {
        assert rest[j - 1] == c[j];
      }
    }
  }

  lemma {:induction false} WorkedMap<R, E>(c: seq<Entry<Option<R>>>, d: seq<Entry<Option<R>>>,
                                           worker: Key -> Result<R, E>)
    requires Sorted(c) && WorkedOn(c, worker, d)
    ensures Sorted(d) && Worked(MapOf(c), worker, MapOf(d))
  {
    RevalueAll(c, d);
    MapOfRepresents(c);
  }

  ghost predicate AllWork<R, E>(tasks: Tasks<R>, worker: Key -> Result<R, E>) {
    forall k :: k in tasks ==> worker(k).Ok?
  }

  /** The error came from the task with the greatest reason among those that failed. */
  ghost predicate LastToFail<R, E>(tasks: Tasks<R>, worker: Key -> Result<R, E>, error: E) {
    exists k :: k in tasks && worker(k) == Err(error) && forall j :: j in tasks && worker(j).Err? ==> j <= k
  }

  lemma {:induction false} LastFailureMap<R, E>(c: seq<Entry<Option<R>>>, worker: Key -> Result<R, E>, end: Option<E>)
    requires Sorted(c) && LastFailure(None, c, worker, end)
    ensures end.None? <==> AllWork(MapOf(c), worker)
    ensures end.Some? ==> LastToFail(MapOf(c), worker, end.value)
  {
    var m := MapOf(c);
    MapOfRepresents(c);
    if exists i :: 0 <= i < |c| && worker(c[i].key).Err? {
      var i :| && 0 <= i < |c| && worker(c[i].key).Err? && end == Some(worker(c[i].key).error)
               && forall j :: i < j < |c| ==> worker(c[j].key).Ok?;
      LastFailureAt(c, m, worker, i);
    } else {
      forall k | k in m ensures worker(k).Ok? {
        var i :| 0 <= i < |c| && c[i].key == k;
      }
    }
  }

  lemma {:induction false} LastFailureAt<R, E>(c: seq<Entry<Option<R>>>, m: Tasks<R>, worker: Key -> Result<R, E>,
                                               i: nat)
    requires Sorted(c) && Represents(c, m) && i < |c| && worker(c[i].key).Err?
    requires forall j :: i < j < |c| ==> worker(c[j].key).Ok?
    ensures !AllWork(m, worker) && LastToFail(m, worker, worker(c[i].key).error)
  {
    var k := c[i].key;
    assert k in m && worker(k) == Err(worker(k).error);
    forall j | j in m && worker(j).Err? ensures j <= k {
      var x :| 0 <= x < |c| && c[x].key == j;
      if x < i {
        SortedAt(c, x, i);
      }
    }
  }

  ghost predicate AllTracked<R>(entries: seq<Entry<nat>>, n: nat, matches: Key -> bool, tasks: Tasks<R>)
    requires n <= |entries|
  {
    forall j :: 0 <= j < n && matches(entries[j].key) ==> entries[j].key in tasks
  }

  /** An unfinished task is added unless the key is tracked already or there is no room. */
  ghost function Registered<R>(before: Tasks<R>, key: Key, capacity: nat): Tasks<R> {
    if key !in before && |before| < capacity then before[key := None] else before
  }

  /** After n pending reasons: new tasks are of matching ones among them, and one is left out only by a full tracker. */
  ghost predicate Progress<R>(before: Tasks<R>, entries: seq<Entry<nat>>, n: nat, matches: Key -> bool, capacity: nat,
                              mid: Tasks<R>)
  {
    && n <= |entries|
    && (forall k :: k in before ==> k in mid && mid[k] == before[k])
    && (forall k :: k in mid && k !in before ==> mid[k] == None && matches(k) && AmongFirst(entries, n, k))
    && (!AllTracked(entries, n, matches, mid) ==> |mid| >= capacity)
    && (forall k, j :: k in mid && k !in before && 0 <= j < n && matches(entries[j].key) && entries[j].key !in mid ==>
          k < entries[j].key)
  }

  ghost predicate AmongFirst(entries: seq<Entry<nat>>, n: nat, k: Key)
    requires n <= |entries|
  {
    exists j :: 0 <= j < n && entries[j].key == k
  }

  lemma {:induction false} ProgressStep<R>(before: Tasks<R>, entries: seq<Entry<nat>>, n: nat, matches: Key -> bool,
                                           capacity: nat, mid: Tasks<R>, after: Tasks<R>)
    requires Sorted(entries) && n < |entries| && Progress(before, entries, n, matches, capacity, mid)
    requires var key := entries[n].key;
             after == if matches(key) then Registered(mid, key, capacity) else mid
    ensures Progress(before, entries, n + 1, matches, capacity, after)
    ensures AllTracked(entries, n + 1, matches, after) <==>
            AllTracked(entries, n, matches, mid) && (matches(entries[n].key) ==> entries[n].key in after)
  {
    var key := entries[n].key;
    AmongOneMore(entries, n);
    if matches(key) && key !in mid && |mid| < capacity {
      ProgressAdded(before, entries, n, matches, capacity, mid);
    } else {
      ProgressUnchanged(before, entries, n, matches, capacity, mid);
    }
  }

  lemma {:induction false} AmongOneMore(entries: seq<Entry<nat>>, n: nat)
    requires Sorted(entries) && n < |entries|
    ensures AmongFirst(entries, n + 1, entries[n].key)
    ensures forall k :: AmongFirst(entries, n, k) ==> AmongFirst(entries, n + 1, k) && k < entries[n].key
  {
    SortedPairs(entries);
  }

  lemma {:induction false} ProgressAdded<R>(before: Tasks<R>, entries: seq<Entry<nat>>, n: nat, matches: Key -> bool,
                                            capacity: nat, mid: Tasks<R>)
    requires n < |entries| && Progress(before, entries, n, matches, capacity, mid)
    requires AmongFirst(entries, n + 1, entries[n].key)
    requires forall k :: AmongFirst(entries, n, k) ==> AmongFirst(entries, n + 1, k)
    requires matches(entries[n].key) && entries[n].key !in mid && |mid| < capacity
    ensures AllTracked(entries, n, matches, mid) && AllTracked(entries, n + 1, matches, mid[entries[n].key := None])
    ensures Progress(before, entries, n + 1, matches, capacity, mid[entries[n].key := None])
  {
  }

  lemma {:induction false} ProgressUnchanged<R>(before: Tasks<R>, entries: seq<Entry<nat>>, n: nat,
                                                matches: Key -> bool, capacity: nat, mid: Tasks<R>)
    requires n < |entries| && Progress(before, entries, n, matches, capacity, mid)
    requires forall k :: AmongFirst(entries, n, k) ==> AmongFirst(entries, n + 1, k) && k < entries[n].key
    requires matches(entries[n].key) && entries[n].key !in mid ==> |mid| >= capacity
    ensures Progress(before, entries, n + 1, matches, capacity, mid)
    ensures AllTracked(entries, n + 1, matches, mid) <==>
            AllTracked(entries, n, matches, mid) && (matches(entries[n].key) ==> entries[n].key in mid)
  {
  }

  lemma {:induction false} ProgressEnds<R>(before: Tasks<R>, entries: seq<Entry<nat>>, pending: Counts,
                                           matches: Key -> bool, capacity: nat, after: Tasks<R>)
    requires Sorted(entries) && pending == MapOf(entries)
    requires Progress(before, entries, |entries|, matches, capacity, after)
    ensures Grown(before, pending, matches, after) && LeastFirst(before, pending, matches, after)
    ensures AllTracked(entries, |entries|, matches, after) <==> Complete(pending, matches, after)
    ensures !Complete(pending, matches, after) ==> |after| >= capacity
  {
    MapOfRepresents(entries);
  }

  ghost predicate Worked<R, E>(before: Tasks<R>, worker: Key -> Result<R, E>, after: Tasks<R>) {
    && (forall k :: k in after <==> k in before)
    && forall k :: k in before ==> after[k] == if worker(k).Ok? then Some(worker(k).value) else before[k]
  }
}
