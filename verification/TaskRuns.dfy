/**
 * Whole runs of a tracker beside its runtime: any interleaving of sync, register, register_if, work
 * and async steps. A run may end in a sync that panics.
 */
module TaskRuns {
  import opened Wrappers
  import opened SlotSearch
  import opened FutureTrees
  import opened TaskTrackers

  /** The entries of the tracker and of the runtime's pending map; `answers` records what the worker has said so far. */
  datatype TrackerState<R(==)> = TrackerState(entries: seq<Entry<Option<R>>>, pending: seq<Entry<nat>>, slot: Slot<R>,
                                              answers: set<(Key, R)>)

  datatype TrackerStep<!R> =
    | SyncStep(outcome: SyncOutcome)
    | AddStep(reason: Key)
    | RegisterStep(matches: Key -> bool)
    | WorkStep(worker: Key -> Result<R, int>)
    | AsyncStep

  ghost function TasksOf<R>(s: TrackerState<R>): Tasks<R> {
    MapOf(s.entries)
  }

  ghost predicate WellFormed<R>(s: TrackerState<R>, capacity: nat) {
    Sorted(s.entries) && Sorted(s.pending) && |s.entries| <= capacity && |s.pending| <= capacity
  }

  /** What the key join leaves of the tasks. */
  ghost function KeptOf<R>(s: TrackerState<R>, capacity: nat): Tasks<R> {
    Survivors(s.entries, capacity, s.pending)
  }

  /** The contracts of the tracker's methods as steps; an async step empties the slot and may change what is pending. */
  ghost predicate Next<R>(capacity: nat, s: TrackerState<R>, step: TrackerStep<R>, s': TrackerState<R>) {
    match step
    case SyncStep(outcome) =>
      && FedBack(KeptOf(s, capacity), s.slot, TasksOf(s'), s'.slot, outcome)
      && s'.pending == s.pending && s'.answers == s.answers
    case AddStep(reason) =>
      && TasksOf(s') == Registered(TasksOf(s), reason, capacity)
      && s'.pending == s.pending && s'.slot == s.slot && s'.answers == s.answers
    case RegisterStep(matches) =>
      && Grown(TasksOf(s), MapOf(s.pending), matches, TasksOf(s'))
      && LeastFirst(TasksOf(s), MapOf(s.pending), matches, TasksOf(s'))
      && (Complete(MapOf(s.pending), matches, TasksOf(s')) || |s'.entries| == capacity)
      && s'.pending == s.pending && s'.slot == s.slot && s'.answers == s.answers
    case WorkStep(worker) =>
      && Worked(TasksOf(s), worker, TasksOf(s'))
      && s'.pending == s.pending && s'.slot == s.slot
      && s'.answers == s.answers + set k | k in TasksOf(s) && worker(k).Ok? :: (k, worker(k).value)
    case AsyncStep =>
      s'.slot.None? && s'.entries == s.entries && s'.answers == s.answers
  }

  predicate Panics<R>(step: TrackerStep<R>) {
    step.SyncStep? && step.outcome.Panicked?
  }

  ghost predicate Run<R>(capacity: nat, states: seq<TrackerState<R>>, steps: seq<TrackerStep<R>>) {
    && |states| == |steps| + 1
    && states[0].entries == [] && states[0].slot.None?
    && WellFormed(states[0], capacity)
    && (forall i :: 0 <= i < |steps| ==> StepAt(capacity, states, steps, i))
    && forall i :: 0 <= i < |steps| - 1 ==> !Panics(steps[i])
  }

  /** Step number i leads from well-formed state to well-formed state. */
  ghost predicate StepAt<R>(capacity: nat, states: seq<TrackerState<R>>, steps: seq<TrackerStep<R>>, i: nat)
    requires |states| == |steps| + 1 && i < |steps|
  {
    && WellFormed(states[i], capacity) && WellFormed(states[i + 1], capacity)
    && Next(capacity, states[i], steps[i], states[i + 1])
  }

  /** The response of a task goes into the empty slot. */
  ghost predicate HandedOver<R>(s: TrackerState<R>, k: Key, s': TrackerState<R>) {
    Finished(TasksOf(s), k) && s.slot.None? && s'.slot == Some((k, TasksOf(s)[k].value))
  }

  /** A sync that hands a response to the runtime. */
  ghost predicate Unblocks<R>(s: TrackerState<R>, step: TrackerStep<R>, s': TrackerState<R>) {
    step.SyncStep? && s.slot.None? && s'.slot.Some?
  }

  // ---- Justified responses ----

  /** Every finished task carries something the worker said about that reason. */
  ghost predicate Answered<R>(s: TrackerState<R>) {
    forall k :: Finished(TasksOf(s), k) ==> (k, TasksOf(s)[k].value) in s.answers
  }

  lemma {:induction false} StepKeepsAnswers<R>(capacity: nat, s: TrackerState<R>, step: TrackerStep<R>,
                                               s': TrackerState<R>)
    requires WellFormed(s, capacity) && Answered(s) && Next(capacity, s, step, s')
    ensures Answered(s')
  {
    if step.SyncStep? {
      SurvivorsKept(s.entries, capacity, s.pending);
    }
    forall k | Finished(TasksOf(s'), k) ensures (k, TasksOf(s')[k].value) in s'.answers {
      match step
      case SyncStep(_) =>
        assert k in KeptOf(s, capacity) && KeptOf(s, capacity)[k] == TasksOf(s')[k];
        assert Finished(TasksOf(s), k);
      case AddStep(_) =>
        assert Finished(TasksOf(s), k);
      case RegisterStep(_) =>
        assert Finished(TasksOf(s), k);
      case WorkStep(worker) =>
        assert worker(k).Err? ==> Finished(TasksOf(s), k);
      case AsyncStep =>
        assert Finished(TasksOf(s), k);
    }
  }

  lemma {:induction false} RunKeepsAnswers<R>(capacity: nat, states: seq<TrackerState<R>>, steps: seq<TrackerStep<R>>,
                                              i: nat)
    requires Run(capacity, states, steps) && i < |states|
    ensures Answered(states[i])
  {
    if i > 0 {
      RunKeepsAnswers(capacity, states, steps, i - 1);
      assert StepAt(capacity, states, steps, i - 1);
      StepKeepsAnswers(capacity, states[i - 1], steps[i - 1], states[i]);
    }
  }

  lemma {:induction false} SizeOfRemoval<K, V>(m: map<K, V>, k: K)
    requires k in m
    ensures |m - {k}| < |m|
  {
    assert m == (m - {k})[k := m[k]];
  }

  /**
   * In every run a response is fed back only for a reason pending at that moment, it is one the worker
   * gave for that reason, and its task leaves the tracker, which shrinks.
   */
  lemma {:induction false} UnblocksAreJustified<R>(capacity: nat, states: seq<TrackerState<R>>,
                                                   steps: seq<TrackerStep<R>>, i: nat)
    requires Run(capacity, states, steps) && i < |steps| && Unblocks(states[i], steps[i], states[i + 1])
    ensures var s, s' := states[i], states[i + 1];
            var k := s'.slot.value.0;
            && HandedOver(s, k, s') && k in MapOf(s.pending) && s'.slot.value in s.answers
            && k !in TasksOf(s') && |TasksOf(s')| < |TasksOf(s)|
  {
    var s, s' := states[i], states[i + 1];
    var k := s'.slot.value.0;
    RunKeepsAnswers(capacity, states, steps, i);
    assert StepAt(capacity, states, steps, i);
    SurvivorsKept(s.entries, capacity, s.pending);
    assert Finished(KeptOf(s, capacity), k) && Finished(TasksOf(s), k);
    SurvivorsFewer(s.entries, capacity, s.pending);
    SizeOfRemoval(KeptOf(s, capacity), k);
  }

  /**
   * Sync reports readiness if and only if no task is of a pending reason, although the join may lose such
   * tasks. It does so without touching the slot.
   */
  lemma {:induction false} ReadyExactly<R>(capacity: nat, states: seq<TrackerState<R>>, steps: seq<TrackerStep<R>>,
                                           i: nat)
    requires Run(capacity, states, steps) && i < |steps| && steps[i].SyncStep?
    ensures steps[i].outcome == Returned(true) <==> NoneWanted(TasksOf(states[i]), MapOf(states[i].pending))
    ensures steps[i].outcome == Returned(true) ==>
              Idle(TasksOf(states[i + 1])) && states[i + 1].slot == states[i].slot
  {
    var s, s' := states[i], states[i + 1];
    assert StepAt(capacity, states, steps, i);
    SyncOutcomeExactly(s.entries, capacity, s.pending, s.slot, TasksOf(s'), s'.slot, steps[i].outcome);
  }

  // ---- Panics ----

  /** A response stays in the slot until an async step. */
  lemma {:induction false} SlotStays<R>(capacity: nat, states: seq<TrackerState<R>>, steps: seq<TrackerStep<R>>,
                                        i: nat, j: nat)
    requires Run(capacity, states, steps) && i <= j < |states| && states[i].slot.Some?
    requires forall m :: i <= m < j ==> !steps[m].AsyncStep?
    ensures states[j].slot == states[i].slot
    decreases j
  {
    if i < j {
      SlotStays(capacity, states, steps, i, j - 1);
      assert StepAt(capacity, states, steps, j - 1);
    }
  }

  /** So the tracker unblocks at most one future per async step. */
  lemma {:induction false} OneUnblockPerStep<R>(capacity: nat, states: seq<TrackerState<R>>,
                                                steps: seq<TrackerStep<R>>, i: nat, j: nat)
    requires Run(capacity, states, steps) && i < j < |steps|
    requires Unblocks(states[i], steps[i], states[i + 1]) && Unblocks(states[j], steps[j], states[j + 1])
    ensures exists m :: i < m < j && steps[m].AsyncStep?
  {
    if forall m :: i < m < j ==> !steps[m].AsyncStep? {
      SlotStays(capacity, states, steps, i + 1, j);
    }
  }

  /**
   * A sync behind an unblocking one, with no async step between them, panics exactly if some finished task
   * survives the join: its reason is pending and no survivor sits at one of its left probes. The response in
   * the slot stays in any case.
   */
  lemma {:induction false} SecondSyncPanics<R>(capacity: nat, states: seq<TrackerState<R>>,
                                               steps: seq<TrackerStep<R>>, i: nat, j: nat)
    requires Run(capacity, states, steps) && i < j < |steps|
    requires Unblocks(states[i], steps[i], states[i + 1]) && steps[j].SyncStep?
    requires forall m :: i < m < j ==> !steps[m].AsyncStep?
    ensures WellFormed(states[j], capacity)
    ensures Panics(steps[j]) <==> FinishedSurvives(states[j].entries, capacity, states[j].pending)
    ensures states[j + 1].slot == states[i + 1].slot
  {
    SlotStays(capacity, states, steps, i + 1, j);
    var s, s' := states[j], states[j + 1];
    assert StepAt(capacity, states, steps, j);
    SyncOutcomeExactly(s.entries, capacity, s.pending, s.slot, TasksOf(s'), s'.slot, steps[j].outcome);
  }

  // ---- Lost responses ----

  /** A finished task of a pending reason. */
  ghost predicate Wanted<R>(s: TrackerState<R>, k: Key) {
    Finished(TasksOf(s), k) && k in MapOf(s.pending)
  }

  /** No response of a pending reason gets lost: it stays where it is, or it is handed over. */
  ghost predicate LosesNothing<R>(s: TrackerState<R>, s': TrackerState<R>) {
    forall k :: Wanted(s, k) ==>
      (k in TasksOf(s') && TasksOf(s')[k] == TasksOf(s)[k]) || HandedOver(s, k, s')
  }

  /** The p-th task is finished and of a pending reason. */
  ghost predicate WantedAt<R>(s: TrackerState<R>, p: nat)
    requires p < |s.entries|
  {
    s.entries[p].val.Some? && s.entries[p].key in KeysOf(s.pending)
  }

  /** No survivor sits at a left probe of a finished task of a pending reason, and no such task meets a full slot. */
  ghost predicate Clear<R>(s: TrackerState<R>, capacity: nat)
    requires WellFormed(s, capacity)
  {
    forall p: nat :: p < |s.entries| && WantedAt(s, p) ==>
      s.slot.None? && forall m: nat :: m < p && LeftProbe(0, capacity, p, m) ==>
                        !SurvivesAt(s.entries, capacity, s.pending, m)
  }

  /** The same in terms of reasons: every response that is wanted survives the join. */
  lemma {:induction false} ClearKeeps<R>(s: TrackerState<R>, capacity: nat)
    requires WellFormed(s, capacity)
    ensures Clear(s, capacity) <==>
            forall k :: Wanted(s, k) ==> s.slot.None? && Finished(KeptOf(s, capacity), k)
  {
    MapOfRepresents(s.entries);
    forall p: nat | p < |s.entries|
      ensures WantedAt(s, p) <==> Wanted(s, s.entries[p].key)
      ensures WantedAt(s, p) && SurvivesAt(s.entries, capacity, s.pending, p) <==>
              Wanted(s, s.entries[p].key) && Finished(KeptOf(s, capacity), s.entries[p].key)
    {
      SurvivorAt(s.entries, capacity, s.pending, p);
    }
    forall k | Wanted(s, k) ensures exists p: nat :: p < |s.entries| && s.entries[p].key == k {
    }
  }

  /** A sync loses no response of a pending reason if and only if the state before it is clear. */
  lemma {:induction false} SyncLosesNothingExactly<R>(capacity: nat, s: TrackerState<R>, step: TrackerStep<R>,
                                                      s': TrackerState<R>)
    requires WellFormed(s, capacity) && step.SyncStep? && Next(capacity, s, step, s')
    ensures LosesNothing(s, s') <==> Clear(s, capacity)
  {
    var kept := KeptOf(s, capacity);
    ClearKeeps(s, capacity);
    SurvivorsKept(s.entries, capacity, s.pending);
    if forall k :: Wanted(s, k) ==> s.slot.None? && Finished(kept, k) {
      forall k | Wanted(s, k)
        ensures (k in TasksOf(s') && TasksOf(s')[k] == TasksOf(s)[k]) || HandedOver(s, k, s')
      {
        assert Finished(kept, k);
      }
    } else {
      var k :| Wanted(s, k) && !(s.slot.None? && Finished(kept, k));
      if Finished(kept, k) {
        var first :| FirstFinished(kept, first) && first !in TasksOf(s');
        assert Wanted(s, first) && !HandedOver(s, first, s');
      } else {
        assert k !in TasksOf(s') && !HandedOver(s, k, s');
      }
    }
  }

  ghost predicate LossFree<R>(states: seq<TrackerState<R>>, steps: seq<TrackerStep<R>>)
    requires |states| == |steps| + 1
  {
    forall i :: 0 <= i < |steps| && steps[i].SyncStep? ==> LosesNothing(states[i], states[i + 1])
  }

  ghost predicate SyncsClear<R>(capacity: nat, states: seq<TrackerState<R>>, steps: seq<TrackerStep<R>>)
    requires |states| == |steps| + 1
  {
    forall i :: 0 <= i < |steps| && steps[i].SyncStep? ==> WellFormed(states[i], capacity) && Clear(states[i], capacity)
  }

  /** A run loses no response of a reason that stays pending if and only if every sync starts from a clear state. */
  lemma {:induction false} RunLosesNothingExactly<R>(capacity: nat, states: seq<TrackerState<R>>,
                                                     steps: seq<TrackerStep<R>>)
    requires Run(capacity, states, steps)
    ensures LossFree(states, steps) <==> SyncsClear(capacity, states, steps)
  {
    forall i | 0 <= i < |steps| && steps[i].SyncStep?
      ensures WellFormed(states[i], capacity)
      ensures LosesNothing(states[i], states[i + 1]) <==> Clear(states[i], capacity)
    {
      assert StepAt(capacity, states, steps, i);
      SyncLosesNothingExactly(capacity, states[i], steps[i], states[i + 1]);
    }
    if !SyncsClear(capacity, states, steps) {
      var i :| 0 <= i < |steps| && steps[i].SyncStep? && !Clear(states[i], capacity);
      assert !LosesNothing(states[i], states[i + 1]);
    }
  }

  /** In such a run a response that stays wanted is in the tracker until it is handed over. */
  lemma {:induction false} ResponseArrives<R>(capacity: nat, states: seq<TrackerState<R>>, steps: seq<TrackerStep<R>>,
                                              k: Key, i: nat, j: nat)
    requires Run(capacity, states, steps) && i <= j < |states| && Finished(TasksOf(states[i]), k)
    requires SyncsClear(capacity, states, steps)
    requires forall m :: i <= m < j && steps[m].SyncStep? ==> k in MapOf(states[m].pending)
    ensures Finished(TasksOf(states[j]), k) ||
            exists m :: i <= m < j && steps[m].SyncStep? && HandedOver(states[m], k, states[m + 1])
    decreases j
  {
    if i < j {
      ResponseArrives(capacity, states, steps, k, i, j - 1);
      var s, step, s' := states[j - 1], steps[j - 1], states[j];
      assert StepAt(capacity, states, steps, j - 1);
      if Finished(TasksOf(s), k) && step.SyncStep? {
        SyncLosesNothingExactly(capacity, s, step, s');
        assert Wanted(s, k);
        if HandedOver(s, k, s') {
          assert HandedOver(states[j - 1], k, states[j - 1 + 1]);
        }
      }
    }
  }

  ghost predicate ProbeFreeState<R>(s: TrackerState<R>, capacity: nat) {
    |s.entries| <= capacity && ProbeFreeEntries(s.entries, capacity, KeysOf(s.pending))
  }

  /** Every task of a pending reason, finished or not, survives all joins of a run just if these are probe-free. */
  lemma {:induction false} RunKeepsTasksExactly<R>(capacity: nat, states: seq<TrackerState<R>>,
                                                   steps: seq<TrackerStep<R>>)
    requires Run(capacity, states, steps)
    ensures (forall i :: 0 <= i < |steps| && steps[i].SyncStep? ==>
               JoinKeepsAll(states[i].entries, capacity, states[i].pending)) <==>
            (forall i :: 0 <= i < |steps| && steps[i].SyncStep? ==> ProbeFreeState(states[i], capacity))
  {
    forall i | 0 <= i < |steps| && steps[i].SyncStep?
      ensures JoinKeepsAll(states[i].entries, capacity, states[i].pending) <==> ProbeFreeState(states[i], capacity)
    {
      assert StepAt(capacity, states, steps, i);
      JoinedWholeExactly(states[i].entries, capacity, states[i].pending);
    }
  }

  /** A probe-free state with an empty slot is clear. */
  lemma {:induction false} ProbeFreeIsClear<R>(s: TrackerState<R>, capacity: nat)
    requires WellFormed(s, capacity) && s.slot.None? && ProbeFreeState(s, capacity)
    ensures Clear(s, capacity)
  {
    forall p: nat, m: nat | p < |s.entries| && WantedAt(s, p) && m < p && LeftProbe(0, capacity, p, m)
      ensures !SurvivesAt(s.entries, capacity, s.pending, m)
    {
    }
  }

  // ---- A lost response ----

  /** The reasons 1 to 5 are pending. */
  ghost predicate FivePending(pending: seq<Entry<nat>>) {
    |pending| == 5 && forall i :: 0 <= i < 5 ==> pending[i].key == i + 1
  }

  /** The tasks 2 to 5; the last one has the given response, the others are unfinished. */
  ghost predicate TwoToFive<R>(entries: seq<Entry<Option<R>>>, response: Option<R>) {
    && |entries| == 4
    && forall i :: 0 <= i < 4 ==> entries[i] == Entry(i + 2, if i == 3 then response else None)
  }

  lemma {:induction false} FiveKeys(pending: seq<Entry<nat>>)
    requires FivePending(pending)
    ensures Sorted(pending) && forall k :: k in MapOf(pending) <==> 1 <= k <= 5
  {
    SortedPairs(pending);
    MapOfRepresents(pending);
    forall k | 1 <= k <= 5 ensures k in MapOf(pending) {
      assert pending[k - 1].key in MapOf(pending);
    }
  }

  /** A join of at least three of the five keeps just three tasks. */
  lemma {:induction false} JoinKeepsThree<R>(entries: seq<Entry<Option<R>>>, pending: seq<Entry<nat>>)
    requires Sorted(entries) && 3 <= |entries| <= 5 && FivePending(pending)
    requires forall i :: 0 <= i < 3 ==> 1 <= entries[i].key <= 5
    ensures Survivors(entries, 5, pending) == MapOf(entries[..3])
  {
    var o, keys := Pack(entries, 5), KeysOf(pending);
    PackOrdered(entries, 5);
    assert forall i :: 0 <= i < 5 ==> keys[i] == i + 1;
    forall i | 0 <= i < 3 ensures o[i].value.key in keys {
      assert keys[o[i].value.key - 1] == o[i].value.key;
    }
    JoinOfFive(o, |entries|, keys);
    FirstThree(entries, [o[0].value, o[1].value, o[2].value]);
  }

  lemma {:induction false} FirstThree<T>(c: seq<T>, d: seq<T>)
    requires |c| >= 3 && |d| == 3 && d[0] == c[0] && d[1] == c[1] && d[2] == c[2]
    ensures c[..3] == d
  {
  }

  lemma {:induction false} NoneFinished<R>(c: seq<Entry<Option<R>>>)
    requires Sorted(c) && forall i :: 0 <= i < |c| ==> c[i].val.None?
    ensures !AnyFinished(MapOf(c))
  {
    MapOfRepresents(c);
  }

  lemma {:induction false} TaskAt<R>(c: seq<Entry<Option<R>>>, i: nat)
    requires Sorted(c) && i < |c|
    ensures c[i].key in MapOf(c) && MapOf(c)[c[i].key] == c[i].val
  {
    MapOfRepresents(c);
  }

  lemma {:induction false} TaskAbsent<R>(c: seq<Entry<Option<R>>>, k: Key)
    requires Sorted(c) && forall i :: 0 <= i < |c| ==> c[i].key != k
    ensures k !in MapOf(c)
  {
    MapOfRepresents(c);
  }

  /**
   * At capacity 5, with the reasons 1 to 5 pending, the tasks 2, 3 and 4 unfinished and 5 finished, a sync over
   * a full slot does not panic: the join loses the finished task, and its response with it.
   */
  lemma {:induction false} FinishedTaskLost<R>(s: TrackerState<R>, response: R, outcome: SyncOutcome,
                                               s': TrackerState<R>)
    requires TwoToFive(s.entries, Some(response)) && FivePending(s.pending) && s.slot.Some?
    requires Next(5, s, SyncStep(outcome), s')
    ensures WellFormed(s, 5) && Wanted(s, 5)
    ensures outcome == Returned(false) && 5 !in TasksOf(s') && s'.slot == s.slot
  {
    var c, kept := s.entries, s.entries[..3];
    SortedPairs(c);
    SortedPairs(kept);
    FiveKeys(s.pending);
    TaskAt(c, 3);
    JoinKeepsThree(c, s.pending);
    NoneFinished(kept);
    TaskAt(kept, 0);
    TaskAbsent(kept, 5);
  }

  /** Unfinished tasks for n reasons from k on. */
  function Unfinished<R>(k: Key, n: nat): (c: seq<Entry<Option<R>>>)
    ensures |c| == n && forall i :: 0 <= i < n ==> c[i] == Entry(k + i, None)
  {
    if n == 0 then [] else Unfinished(k, n - 1) + [Entry(k + n - 1, None)]
  }

  function OneEach(n: nat): (c: seq<Entry<nat>>)
    ensures |c| == n && forall i :: 0 <= i < n ==> c[i] == Entry(1 + i, 1)
  {
    if n == 0 then [] else OneEach(n - 1) + [Entry(n, 1)]
  }

  function Answer<R>(k: Key, response: R): Key -> Result<R, int> {
    j => if j == k then Ok(response) else Err(0)
  }

  ghost predicate HasKey<R>(c: seq<Entry<Option<R>>>, k: Key) {
    exists j :: 0 <= j < |c| && c[j].key == k
  }

  lemma {:induction false} HasRange<R>(c: seq<Entry<Option<R>>>, lo: Key)
    requires forall i :: 0 <= i < |c| ==> c[i].key == lo + i
    ensures Sorted(c) && forall k :: lo <= k < lo + |c| ==> HasKey(c, k)
  {
    SortedPairs(c);
    forall k | lo <= k < lo + |c| ensures HasKey(c, k) {
      assert c[k - lo].key == k;
    }
  }

  lemma {:induction false} RegistersRest<R>(n: nat, after: seq<Entry<Option<R>>>, pending: seq<Entry<nat>>,
                                            matches: Key -> bool)
    requires Sorted(after) && n <= |after| && Sorted(after[..n]) && FivePending(pending)
    requires forall j :: n <= j < |after| ==>
               after[j].val.None? && matches(after[j].key) && 1 <= after[j].key <= 5
    requires forall k :: 1 <= k <= 5 && matches(k) ==> HasKey(after, k)
    ensures Grown(MapOf(after[..n]), MapOf(pending), matches, MapOf(after))
    ensures Complete(MapOf(pending), matches, MapOf(after))
  {
    var before := after[..n];
    FiveKeys(pending);
    MapOfRepresents(before);
    MapOfRepresents(after);
    forall k | k in MapOf(before) ensures k in MapOf(after) && MapOf(after)[k] == MapOf(before)[k] {
      var i :| 0 <= i < n && before[i].key == k;
      assert after[i] == before[i];
    }
    assert forall i :: 0 <= i < n ==> before[i].key in MapOf(before) && after[i] == before[i];
    forall k | k in MapOf(after) && k !in MapOf(before)
      ensures k in MapOf(pending) && matches(k) && MapOf(after)[k] == None
    {
      var i :| 0 <= i < |after| && after[i].key == k;
    }
  }

  /** A sync that hands over the first of three finished or unfinished tasks. */
  lemma {:induction false} HandsOverFirst<R>(c: seq<Entry<Option<R>>>, pending: seq<Entry<nat>>, response: R)
    requires Sorted(c) && |c| == 3 && FivePending(pending) && c[0].val == Some(response)
    requires forall i :: 0 <= i < 3 ==> 1 <= c[i].key <= 5
    ensures FedBack(Survivors(c, 5, pending), None, MapOf(c[1..]), Some((c[0].key, response)), Returned(false))
  {
    JoinKeepsThree(c, pending);
    assert c[..3] == c && c[..0] + c[1..] == c[1..];
    RemoveAt(c, 0);
    FirstOfAll(c);
    FeedsFirst(MapOf(c), c[0].key, response);
  }

  lemma {:induction false} FeedsFirst<R>(kept: Tasks<R>, k: Key, response: R)
    requires FirstFinished(kept, k) && kept[k] == Some(response)
    ensures FedBack(kept, None, kept - {k}, Some((k, response)), Returned(false))
  {
  }

  lemma {:induction false} FirstOfAll<R>(c: seq<Entry<Option<R>>>)
    requires Sorted(c) && c != [] && c[0].val.Some?
    ensures FirstFinished(MapOf(c), c[0].key) && MapOf(c)[c[0].key] == c[0].val
  {
    TaskAt(c, 0);
    SortedPairs(c);
    MapOfRepresents(c);
  }

  /** A sync over a full slot that finds nothing finished among the three tasks it keeps. */
  lemma {:induction false} HandsOverNothing<R>(c: seq<Entry<Option<R>>>, pending: seq<Entry<nat>>, slot: Slot<R>)
    requires Sorted(c) && 3 <= |c| <= 5 && FivePending(pending)
    requires forall i :: 0 <= i < 3 ==> 1 <= c[i].key <= 5 && c[i].val.None?
    ensures FedBack(Survivors(c, 5, pending), slot, MapOf(c[..3]), slot, Returned(false))
  {
    JoinKeepsThree(c, pending);
    SortedPairs(c);
    SortedPairs(c[..3]);
    NoneFinished(c[..3]);
    TaskAt(c[..3], 0);
  }

  ghost function Answers<R>(s: TrackerState<R>, worker: Key -> Result<R, int>): set<(Key, R)> {
    s.answers + set k | k in TasksOf(s) && worker(k).Ok? :: (k, worker(k).value)
  }

  /** The worker answers the i-th task. */
  lemma {:induction false} WorkNext<R>(s: TrackerState<R>, i: nat, response: R) returns (s': TrackerState<R>)
    requires Sorted(s.entries) && i < |s.entries|
    ensures Next(5, s, WorkStep(Answer(s.entries[i].key, response)), s')
    ensures s'.entries == s.entries[i := Entry(s.entries[i].key, Some(response))] && Sorted(s'.entries)
    ensures s'.pending == s.pending && s'.slot == s.slot
  {
    var c, worker := s.entries, Answer(s.entries[i].key, response);
    var d := c[i := Entry(c[i].key, Some(response))];
    SortedPairs(c);
    WorkedMap(c, d, worker);
    s' := s.(entries := d, answers := Answers(s, worker));
  }

  lemma {:induction false} RegisterNext<R>(s: TrackerState<R>, after: seq<Entry<Option<R>>>, matches: Key -> bool)
    returns (s': TrackerState<R>)
    requires Sorted(after) && s.entries <= after && Sorted(s.entries) && FivePending(s.pending)
    requires forall j :: |s.entries| <= j < |after| ==>
               after[j].val.None? && matches(after[j].key) && 1 <= after[j].key <= 5
    requires forall k :: 1 <= k <= 5 && matches(k) ==> HasKey(after, k)
    ensures Next(5, s, RegisterStep(matches), s') && s' == s.(entries := after)
  {
    s' := s.(entries := after);
    assert after[..|s.entries|] == s.entries;
    RegistersRest(|s.entries|, after, s.pending, matches);
  }

  lemma {:induction false} SyncNext<R>(s: TrackerState<R>) returns (s': TrackerState<R>)
    requires Sorted(s.entries) && |s.entries| == 3 && FivePending(s.pending) && s.slot.None?
    requires s.entries[0].val.Some? && forall i :: 0 <= i < 3 ==> 1 <= s.entries[i].key <= 5
    ensures Next(5, s, SyncStep(Returned(false)), s')
    ensures s' == s.(entries := s.entries[1..], slot := Some((s.entries[0].key, s.entries[0].val.value)))
  {
    s' := s.(entries := s.entries[1..], slot := Some((s.entries[0].key, s.entries[0].val.value)));
    HandsOverFirst(s.entries, s.pending, s.entries[0].val.value);
  }

  lemma {:induction false} LosingNext<R>(s: TrackerState<R>, response: R) returns (s': TrackerState<R>)
    requires TwoToFive(s.entries, Some(response)) && Sorted(s.entries) && FivePending(s.pending) && s.slot.Some?
    ensures Next(5, s, SyncStep(Returned(false)), s') && s' == s.(entries := s.entries[..3])
    ensures Wanted(s, 5) && 5 !in TasksOf(s')
  {
    s' := s.(entries := s.entries[..3]);
    HandsOverNothing(s.entries, s.pending, s.slot);
    FinishedTaskLost(s, response, Returned(false), s');
  }

  function UpToThree(): Key -> bool {
    k => k <= 3
  }

  function AllButOne(): Key -> bool {
    k => k != 1
  }

  /** A run one step longer. */
  lemma {:induction false} LongerRun<R>(capacity: nat, states: seq<TrackerState<R>>, steps: seq<TrackerStep<R>>,
                                        step: TrackerStep<R>, s': TrackerState<R>)
    requires Run(capacity, states, steps) && (steps != [] ==> !Panics(steps[|steps| - 1]))
    requires WellFormed(states[|steps|], capacity) && WellFormed(s', capacity)
    requires Next(capacity, states[|steps|], step, s')
    ensures Run(capacity, states + [s'], steps + [step])
  {
    var longer, more := states + [s'], steps + [step];
    forall i | 0 <= i < |more| ensures StepAt(capacity, longer, more, i) {
      if i < |steps| {
        assert StepAt(capacity, states, steps, i);
      }
    }
  }

  /** A run without panics at capacity 5 that has come to state s. */
  ghost predicate Reaches<R>(states: seq<TrackerState<R>>, steps: seq<TrackerStep<R>>, s: TrackerState<R>) {
    && Run(5, states, steps) && states[|steps|] == s && WellFormed(s, 5)
    && (steps != [] ==> !Panics(steps[|steps| - 1]))
  }

  lemma {:induction false} Extend<R>(states: seq<TrackerState<R>>, steps: seq<TrackerStep<R>>, s: TrackerState<R>,
                                     step: TrackerStep<R>, s': TrackerState<R>)
    requires Reaches(states, steps, s) && WellFormed(s', 5) && Next(5, s, step, s') && !Panics(step)
    ensures Reaches(states + [s'], steps + [step], s')
  {
    LongerRun(5, states, steps, step, s');
  }

  lemma {:induction false} ExtendTwice<R>(states: seq<TrackerState<R>>, steps: seq<TrackerStep<R>>, s: TrackerState<R>,
                                          first: TrackerStep<R>, mid: TrackerState<R>, second: TrackerStep<R>,
                                          s': TrackerState<R>)
    returns (longer: seq<TrackerState<R>>, more: seq<TrackerStep<R>>)
    requires Reaches(states, steps, s) && WellFormed(mid, 5) && WellFormed(s', 5)
    requires Next(5, s, first, mid) && !Panics(first) && Next(5, mid, second, s') && !Panics(second)
    ensures longer == states + [mid, s'] && more == steps + [first, second] && Reaches(longer, more, s')
  {
    Extend(states, steps, s, first, mid);
    Extend(states + [mid], steps + [first], mid, second, s');
    longer, more := states + [mid] + [s'], steps + [first] + [second];
    assert longer == states + [mid, s'] && more == steps + [first, second];
  }

  lemma {:induction false} RegisterThree<R>(s: TrackerState<R>) returns (s': TrackerState<R>)
    requires s.entries == [] && FivePending(s.pending) && WellFormed(s, 5)
    ensures s' == s.(entries := Unfinished(1, 3)) && WellFormed(s', 5)
    ensures Next(5, s, RegisterStep(UpToThree()), s')
  {
    HasRange<R>(Unfinished(1, 3), 1);
    s' := RegisterNext(s, Unfinished(1, 3), UpToThree());
  }

  /** The tasks 1 to 3 are registered. */
  lemma {:induction false} FirstTasks<R>() returns (s: TrackerState<R>, states: seq<TrackerState<R>>,
                                                    steps: seq<TrackerStep<R>>)
    ensures Reaches(states, steps, s) && |steps| == 2
    ensures FivePending(s.pending) && s.entries == Unfinished(1, 3) && s.slot.None?
  {
    var s0: TrackerState<R> := TrackerState([], [], None, {});
    var s1 := s0.(pending := OneEach(5));
    FiveKeys(s1.pending);
    s := RegisterThree(s1);
    states, steps := ExtendTwice([s0], [], s0, AsyncStep, s1, RegisterStep(UpToThree()), s);
  }

  lemma {:induction false} AnswerAndSync<R>(s: TrackerState<R>, first: R)
    returns (mid: TrackerState<R>, s': TrackerState<R>)
    requires WellFormed(s, 5) && FivePending(s.pending) && s.entries == Unfinished(1, 3) && s.slot.None?
    ensures WellFormed(mid, 5) && WellFormed(s', 5) && mid.slot.None?
    ensures Next(5, s, WorkStep(Answer(1, first)), mid) && Next(5, mid, SyncStep(Returned(false)), s')
    ensures FivePending(s'.pending) && s'.entries == Unfinished(2, 2) && s'.slot == Some((1, first))
  {
    mid := WorkNext(s, 0, first);
    s' := SyncNext(mid);
    HasRange(s'.entries, 2);
  }

  /** Task 1 is answered and handed over. */
  lemma {:induction false} FirstAnswer<R>(s: TrackerState<R>, states: seq<TrackerState<R>>,
                                          steps: seq<TrackerStep<R>>, first: R)
    returns (s': TrackerState<R>, longer: seq<TrackerState<R>>, more: seq<TrackerStep<R>>)
    requires Reaches(states, steps, s) && |steps| == 2
    requires FivePending(s.pending) && s.entries == Unfinished(1, 3) && s.slot.None?
    ensures Reaches(longer, more, s') && |more| == 4 && Unblocks(longer[3], more[3], longer[4])
    ensures FivePending(s'.pending) && s'.entries == Unfinished(2, 2) && s'.slot == Some((1, first))
  {
    var mid;
    mid, s' := AnswerAndSync(s, first);
    longer, more := ExtendTwice(states, steps, s, WorkStep(Answer(1, first)), mid, SyncStep(Returned(false)), s');
  }

  /** The others are registered, and 5 is answered. */
  lemma {:induction false} LastAnswer<R>(s: TrackerState<R>, states: seq<TrackerState<R>>,
                                         steps: seq<TrackerStep<R>>, second: R)
    returns (s': TrackerState<R>, longer: seq<TrackerState<R>>, more: seq<TrackerStep<R>>)
    requires Reaches(states, steps, s) && |steps| == 4
    requires FivePending(s.pending) && s.entries == Unfinished(2, 2) && s.slot.Some?
    ensures Reaches(longer, more, s') && |more| == 6 && longer[..5] == states && more[..4] == steps
    ensures !more[4].AsyncStep? && !more[5].AsyncStep?
    ensures TwoToFive(s'.entries, Some(second)) && FivePending(s'.pending) && s'.slot == s.slot
  {
    HasRange<R>(Unfinished(2, 4), 2);
    var mid := RegisterNext(s, Unfinished(2, 4), AllButOne());
    s' := WorkNext(mid, 3, second);
    longer, more := ExtendTwice(states, steps, s, RegisterStep(AllButOne()), mid, WorkStep(Answer(5, second)), s');
  }

  /**
   * A run that loses a response in this way: the tasks 1 to 3 are registered, 1 is answered and handed over, the
   * others are registered, 5 is answered, and there is one more sync before the async step.
   */
  lemma {:induction false} LosingRun<R>(first: R, second: R)
    returns (states: seq<TrackerState<R>>, steps: seq<TrackerStep<R>>)
    ensures Run(5, states, steps) && |steps| == 7
    ensures Unblocks(states[3], steps[3], states[4]) && forall m :: 3 < m < 7 ==> !steps[m].AsyncStep?
    ensures steps[6] == SyncStep(Returned(false)) && Wanted(states[6], 5) && 5 !in TasksOf(states[7])
    ensures states[4].slot == states[6].slot == states[7].slot == Some((1, first))
  {
    var s, before, did := FirstTasks<R>();
    var s4, before4, did4 := FirstAnswer(s, before, did, first);
    var s6, before6, did6 := LastAnswer(s4, before4, did4, second);
    var s7 := LosingNext(s6, second);
    HasRange(s7.entries, 2);
    Extend(before6, did6, s6, SyncStep(Returned(false)), s7);
    states, steps := before6 + [s7], did6 + [SyncStep(Returned(false))];
    assert states[3] == before6[..5][3] && states[4] == before6[..5][4] && steps[3] == did6[..4][3];
  }
}
