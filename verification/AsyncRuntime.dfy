/**
 * krsm's runtime: the response slot, and the count of registered futures per reason that the
 * synchronous side reads to learn what the async code waits for.
 */
module AsyncRuntimes {
  import opened Wrappers
  import opened SlotSearch
  import opened FixedSizedMaps
  import opened FutureTrees

  /** The counts per reason agree with the registered futures, and no reason is listed with count zero. */
  ghost predicate Tallies(counts: Counts, live: multiset<Key>) {
    forall k :: (k in counts <==> live[k] > 0) && (k in counts ==> counts[k] == live[k])
  }

  // ---- Whole runs of registrations and drops ----

  datatype FutureEvent = FirstPoll(reason: Key) | Dropped(reason: Key)

  /** The counts and the registered futures. */
  datatype Ledger = Ledger(counts: Counts, live: multiset<Key>)

  /** A first poll registers, or fails on a full map and drops its guard; a drop ends one registered future. */
  ghost function Happens(l: Ledger, event: FutureEvent, capacity: nat): Ledger {
    match event
    case FirstPoll(reason) =>
      if !HasRoom(l.counts, reason, capacity) then Ledger(CountedDown(l.counts, reason), l.live)
      else Ledger(CountedUp(l.counts, reason), l.live + multiset{reason})
    case Dropped(reason) =>
      Ledger(CountedDown(l.counts, reason), l.live - multiset{reason})
  }

  ghost function HistoryOf(events: seq<FutureEvent>, capacity: nat): Ledger {
    if events == [] then Ledger(map[], multiset{})
    else Happens(HistoryOf(events[..|events| - 1], capacity), events[|events| - 1], capacity)
  }

  /** Only registered futures are dropped. */
  ghost predicate DropsAreLive(events: seq<FutureEvent>, capacity: nat) {
    events == [] ||
    var before, last := events[..|events| - 1], events[|events| - 1];
    DropsAreLive(before, capacity) && (last.Dropped? ==> last.reason in HistoryOf(before, capacity).live)
  }

  /** In every history of polls, drops and failed registrations the counts agree with the registered futures. */
  lemma {:induction false} CountsAgreeAlways(events: seq<FutureEvent>, capacity: nat)
    requires DropsAreLive(events, capacity)
    ensures Tallies(HistoryOf(events, capacity).counts, HistoryOf(events, capacity).live)
  {
    if events != [] {
      var before, last := events[..|events| - 1], events[|events| - 1];
      CountsAgreeAlways(before, capacity);
      HappensKeepsTallies(HistoryOf(before, capacity), last, capacity);
    }
  }

  /** So every drop finds a positive count: the saturating branch is never needed. */
  lemma {:induction false} DropsNeverSaturate(events: seq<FutureEvent>, capacity: nat, i: nat)
    requires DropsAreLive(events, capacity) && i < |events| && events[i].Dropped?
    ensures var counts := HistoryOf(events[..i], capacity).counts;
            events[i].reason in counts && counts[events[i].reason] > 0
    decreases |events|
  {
    var before := events[..|events| - 1];
    if i == |events| - 1 {
      CountsAgreeAlways(before, capacity);
    } else {
      assert before[..i] == events[..i];
      DropsNeverSaturate(before, capacity, i);
    }
  }

  lemma {:induction false} HappensKeepsTallies(l: Ledger, event: FutureEvent, capacity: nat)
    requires Tallies(l.counts, l.live) && (event.Dropped? ==> event.reason in l.live)
    ensures Tallies(Happens(l, event, capacity).counts, Happens(l, event, capacity).live)
  {
  }

  class AsyncRuntime<R> {
    var hasUnblock: Slot<R>
    const pending: FixedSizedMap<nat>
    /** One occurrence for every future that is registered and not yet dropped. */
    ghost var live: multiset<Key>

    ghost predicate Valid()
      reads this, pending, pending.items
    {
      pending.Valid() && Tallies(pending.View(), live)
    }

    constructor (maxPending: nat)
      ensures Valid() && hasUnblock == None && live == multiset{} && pending.items.Length == maxPending
      ensures fresh(pending) && fresh(pending.items)
    {
      hasUnblock := None;
      pending := new FixedSizedMap(maxPending);
      live := multiset{};
    }

    /**
     * The registration done by the first poll of new_pending_future. When the reason is new and the map
     * is full it fails, and dropping the guard that was created before the failure changes nothing.
     */
    method Register(reason: Key) returns (r: Result<(), AsyncRuntimeError>)
      requires Valid()
      modifies this`live, pending, pending.items
      ensures Valid()
      ensures r.Ok? <==> HasRoom(old(pending.View()), reason, pending.items.Length)
      ensures pending.View() == if r.Ok? then CountedUp(old(pending.View()), reason) else old(pending.View())
      ensures live == if r.Ok? then old(live) + multiset{reason} else old(live)
      ensures Ledger(pending.View(), live) ==
              Happens(Ledger(old(pending.View()), old(live)), FirstPoll(reason), pending.items.Length)
    {
      var fresh' := pending.SetDefault(reason, 0);
      if fresh'.Err? {
        DropGuard(reason);
        return Err(TooManyPending);
      }
      var _ := pending.Edit(reason, x => x + 1);
      live := live + multiset{reason};
      r := Ok(());
    }

    /** The body of the guard's drop: count down, and remove the reason at zero. */
    method DropGuard(reason: Key)
      requires pending.Valid()
      requires reason in pending.View() ==> pending.View()[reason] > 0
      modifies pending, pending.items
      ensures pending.Valid()
      ensures pending.View() == CountedDown(old(pending.View()), reason)
    {
      var _ := pending.Edit(reason, x => if x > 0 then x - 1 else 0);
      var isEmpty := pending.Read(reason, x => x == 0);
      if isEmpty == Some(true) {
        var _ := pending.Remove(reason);
        assert pending.View() == old(pending.View()) - {reason};
      }
    }

    /** Dropping one registered future, finished or not. Its reason has a positive count, so nothing saturates. */
    method Release(reason: Key)
      requires Valid() && reason in live
      modifies this`live, pending, pending.items
      ensures old(pending.View())[reason] > 0
      ensures Valid() && live == old(live) - multiset{reason}
      ensures pending.View() == CountedDown(old(pending.View()), reason)
      ensures Ledger(pending.View(), live) ==
              Happens(Ledger(old(pending.View()), old(live)), Dropped(reason), pending.items.Length)
    {
      DropGuard(reason);
      live := live - multiset{reason};
    }

    /** Stores a response for the next step. A second one before that step is a panic, which is the result here. */
    method UnblockFutures(reason: Key, response: R) returns (panics: bool)
      modifies this`hasUnblock
      ensures panics <==> old(hasUnblock).Some?
      ensures hasUnblock == if panics then old(hasUnblock) else Some((reason, response))
    {
      if hasUnblock.Some? {
        return true;
      }
      hasUnblock := Some((reason, response));
      panics := false;
    }

    /** The least pending reason that satisfies the callback. */
    method CheckPendingReasons(p: Key -> bool) returns (r: Option<Key>)
      requires Valid()
      ensures r.Some? ==> r.value in live && p(r.value) && forall k :: k in live && p(k) ==> r.value <= k
      ensures r.None? ==> forall k :: k in live ==> !p(k)
    {
      var q := (k: Key, n: nat) => p(k);
      var e := pending.Find(q);
      r := if e.Some? then Some(e.value.key) else None;
      assert forall k :: k in live ==> k in pending.View() && q(k, pending.View()[k]) == p(k);
    }

    /** The counts cover the leaves of a tree. */
    ghost predicate Holds(t: Fut<R>)
      reads this, pending, pending.items
    {
      Valid() && forall k :: Count(t, k) <= live[k]
    }

    /** What every step keeps: the counts differ from before only by the leaves that came and went. */
    ghost predicate Settled(before: multiset<Key>, t: Fut<R>, t': Fut<R>)
      reads this, pending, pending.items
    {
      Valid() && forall k :: live[k] == before[k] - Count(t, k) + Count(t', k)
    }

    /** Drops the guards of a tree that is abandoned. */
    method DropTree(t: Fut<R>)
      requires Holds(t)
      modifies this`live, pending, pending.items
      ensures Valid() && forall k :: live[k] == old(live)[k] - Count(t, k)
      ensures pending.View() == Abandoned(old(pending.View()), t)
      decreases t
    {
      match t
      case Done(_) =>
      case Leaf(reason, _) =>
        assert Count(t, reason) == 1;
        Release(reason);
      case Or(l, r, _) =>
        Halves(t);
        DropTree(l);
        DropTree(r);
      case Zip(l, r, _) =>
        Halves(t);
        DropTree(l);
        DropTree(r);
    }

    lemma {:induction false} Halves(t: Fut<R>)
      requires t.Or? || t.Zip?
      ensures forall k :: Count(t, k) == Count(t.l, k) + Count(t.r, k)
    {
    }

    /** The first poll of a tree: leaves register, or end with the error and have their code go on. */
    method StartTree(t: Fut<R>, program: Program<R>, ghost fuel: nat) returns (t': Fut<R>)
      requires Valid() && Start(t, pending.View(), program, pending.items.Length, fuel).Some?
      modifies this`live, pending, pending.items
      ensures Some(Started(t', pending.View())) == Start(t, old(pending.View()), program, pending.items.Length, fuel)
      ensures Valid() && forall k :: live[k] == old(live)[k] + Count(t', k)
      decreases fuel, 1, t, 1
    {
      match t
      case Done(_) => t' := t;
      case Leaf(reason, next) =>
        var r := Register(reason);
        if r.Ok? {
          t' := t;
        } else {
          t' := RunOn(next, TooMany, program, fuel);
        }
      case Or(_, _, _) => t' := StartOr(t, program, fuel);
      case Zip(_, _, _) => t' := StartZip(t, program, fuel);
    }

    method StartOr(t: Fut<R>, program: Program<R>, ghost fuel: nat) returns (t': Fut<R>)
      requires t.Or?
      requires Valid() && Start(t, pending.View(), program, pending.items.Length, fuel).Some?
      modifies this`live, pending, pending.items
      ensures Some(Started(t', pending.View())) == Start(t, old(pending.View()), program, pending.items.Length, fuel)
      ensures Valid() && forall k :: live[k] == old(live)[k] + Count(t', k)
      decreases fuel, 1, t, 0
    {
      var l' := StartTree(t.l, program, fuel);
      if l'.Done? {
        t' := RunOn(t.next, l'.val, program, fuel);
      } else {
        var r' := StartTree(t.r, program, fuel);
        if r'.Done? {
          DropTree(l');
          t' := RunOn(t.next, r'.val, program, fuel);
        } else {
          t' := Or(l', r', t.next);
          Halves(t');
        }
      }
    }

    method StartZip(t: Fut<R>, program: Program<R>, ghost fuel: nat) returns (t': Fut<R>)
      requires t.Zip?
      requires Valid() && Start(t, pending.View(), program, pending.items.Length, fuel).Some?
      modifies this`live, pending, pending.items
      ensures Some(Started(t', pending.View())) == Start(t, old(pending.View()), program, pending.items.Length, fuel)
      ensures Valid() && forall k :: live[k] == old(live)[k] + Count(t', k)
      decreases fuel, 1, t, 0
    {
      var l' := StartTree(t.l, program, fuel);
      var r' := StartTree(t.r, program, fuel);
      if l'.Done? && r'.Done? {
        t' := RunOn(t.next, Pair(l'.val, r'.val), program, fuel);
      } else {
        t' := Zip(l', r', t.next);
        Halves(t');
      }
    }

    /** Runs the code behind an await within the same poll. */
    method RunOn(next: nat, val: Val<R>, program: Program<R>, ghost fuel: nat) returns (t': Fut<R>)
      requires Valid() && GoOn(next, val, pending.View(), program, pending.items.Length, fuel).Some?
      modifies this`live, pending, pending.items
      ensures Some(Started(t', pending.View())) ==
              GoOn(next, val, old(pending.View()), program, pending.items.Length, fuel)
      ensures Valid() && forall k :: live[k] == old(live)[k] + Count(t', k)
      decreases fuel, 0
    {
      t' := StartTree(program(next, val), program, fuel - 1);
    }

    /** What the poll function says about polling a tree in the current state. */
    ghost function Outcome(t: Fut<R>, program: Program<R>, fuel: nat): (res: Option<Polled<R>>)
      reads this, pending, pending.items
      requires t.Done? || Blocked(t)
    {
      PollUnlessDone(t, hasUnblock, pending.View(), program, pending.items.Length, fuel)
    }

    /** Polls a started tree: a matching leaf takes the slot, ended futures are dropped, new ones registered. */
    method PollTree(t: Fut<R>, program: Program<R>, ghost fuel: nat) returns (t': Fut<R>)
      requires Holds(t) && Blocked(t) && Outcome(t, program, fuel).Some?
      modifies this, pending, pending.items
      ensures Some(Polled(t', hasUnblock, pending.View())) == old(Outcome(t, program, fuel))
      ensures Settled(old(live), t, t')
      decreases t, 1
    {
      match t
      case Leaf(_, _) => t' := PollLeaf(t, program, fuel);
      case Or(_, _, _) => t' := PollOr(t, program, fuel);
      case Zip(_, _, _) => t' := PollZip(t, program, fuel);
    }

    method PollLeaf(t: Fut<R>, program: Program<R>, ghost fuel: nat) returns (t': Fut<R>)
      requires t.Leaf?
      requires Holds(t) && Blocked(t) && Outcome(t, program, fuel).Some?
      modifies this, pending, pending.items
      ensures Some(Polled(t', hasUnblock, pending.View())) == old(Outcome(t, program, fuel))
      ensures Settled(old(live), t, t')
    {
      assert Outcome(t, program, fuel) ==
             Poll(t, hasUnblock, pending.View(), program, pending.items.Length, fuel);
      if hasUnblock.Some? && hasUnblock.value.0 == t.reason {
        var response := hasUnblock.value.1;
        hasUnblock := None;
        assert Count(t, t.reason) == 1;
        Release(t.reason);
        t' := RunOn(t.next, Response(response), program, fuel);
      } else {
        t' := t;
      }
    }

    method PollOr(t: Fut<R>, program: Program<R>, ghost fuel: nat) returns (t': Fut<R>)
      requires t.Or?
      requires Holds(t) && Blocked(t) && Outcome(t, program, fuel).Some?
      modifies this, pending, pending.items
      ensures Some(Polled(t', hasUnblock, pending.View())) == old(Outcome(t, program, fuel))
      ensures Settled(old(live), t, t')
      decreases t, 0
    {
      var l, r := t.l, t.r;
      Halves(t);
      PollOfOr(t, hasUnblock, pending.View(), program, pending.items.Length, fuel);
      var l' := PollHalf(l, r, program, fuel);
      if l'.Done? {
        DropTree(r);
        t' := RunOn(t.next, l'.val, program, fuel);
      } else {
        t' := PollRight(l', r, t.next, program, fuel);
        Halves(Or(l', r, t.next));
      }
    }

    /** Polls the right half of an or() whose left half waits. */
    method PollRight(l: Fut<R>, r: Fut<R>, next: nat, program: Program<R>, ghost fuel: nat) returns (t': Fut<R>)
      requires HoldsBoth(r, l) && Blocked(r)
      requires AfterRight(l, Outcome(r, program, fuel), next, program, pending.items.Length, fuel).Some?
      modifies this, pending, pending.items
      ensures Some(Polled(t', hasUnblock, pending.View())) ==
              old(AfterRight(l, Outcome(r, program, fuel), next, program, pending.items.Length, fuel))
      ensures Settled(old(live), Or(l, r, next), t')
      decreases r, 3
    {
      var r' := PollHalf(r, l, program, fuel);
      if r'.Done? {
        DropTree(l);
        t' := RunOn(next, r'.val, program, fuel);
      } else {
        t' := Or(l, r', next);
        Halves(t');
      }
    }

    method PollZip(t: Fut<R>, program: Program<R>, ghost fuel: nat) returns (t': Fut<R>)
      requires t.Zip?
      requires Holds(t) && Blocked(t) && Outcome(t, program, fuel).Some?
      modifies this, pending, pending.items
      ensures Some(Polled(t', hasUnblock, pending.View())) == old(Outcome(t, program, fuel))
      ensures Settled(old(live), t, t')
      decreases t, 0
    {
      Halves(t);
      PollOfZip(t, hasUnblock, pending.View(), program, pending.items.Length, fuel);
      var l' := PollHalf(t.l, t.r, program, fuel);
      var r' := PollHalf(t.r, l', program, fuel);
      if l'.Done? && r'.Done? {
        t' := RunOn(t.next, Pair(l'.val, r'.val), program, fuel);
      } else {
        t' := Zip(l', r', t.next);
        Halves(t');
      }
    }

    /** The counts cover both halves of a tree. */
    ghost predicate HoldsBoth(l: Fut<R>, r: Fut<R>)
      reads this, pending, pending.items
    {
      Valid() && forall k :: Count(l, k) + Count(r, k) <= live[k]
    }

    /** Polls one half of a tree unless it is finished; the counts still cover the other half. */
    method PollHalf(t: Fut<R>, other: Fut<R>, program: Program<R>, ghost fuel: nat) returns (t': Fut<R>)
      requires HoldsBoth(t, other) && (t.Done? || Blocked(t)) && Outcome(t, program, fuel).Some?
      modifies this, pending, pending.items
      ensures Some(Polled(t', hasUnblock, pending.View())) == old(Outcome(t, program, fuel))
      ensures Settled(old(live), t, t') && HoldsBoth(other, t')
      decreases t, 2
    {
      if t.Done? {
        t' := t;
      } else {
        t' := PollTree(t, program, fuel);
      }
    }

    /** The first step: the whole program is polled for the first time, before any response is stored. */
    method RunFirstStep(t: Fut<R>, program: Program<R>, ghost fuel: nat) returns (t': Fut<R>)
      requires Valid() && hasUnblock.None? && live == multiset{}
      requires Start(t, pending.View(), program, pending.items.Length, fuel).Some?
      modifies this, pending, pending.items
      ensures Some(Started(t', pending.View())) == Start(t, old(pending.View()), program, pending.items.Length, fuel)
      ensures Valid() && hasUnblock.None? && forall k :: live[k] == Count(t', k)
    {
      t' := StartTree(t, program, fuel);
      hasUnblock := None;
    }

    /** One later step: a single poll, after which no response is left over for the next step. */
    method RunAsyncStep(t: Fut<R>, program: Program<R>, ghost fuel: nat) returns (t': Fut<R>)
      requires Valid() && Blocked(t) && Outcome(t, program, fuel).Some?
      requires forall k :: live[k] == Count(t, k)
      modifies this, pending, pending.items
      ensures Valid() && hasUnblock == None
      ensures forall k :: live[k] == Count(t', k)
      ensures old(hasUnblock).None? || old(hasUnblock).value.0 !in Leaves(t) ==>
                t' == t && pending.View() == old(pending.View())
      ensures old(hasUnblock).Some? ==>
                forall i :: IsFirst(Leaves(t), old(hasUnblock).value.0, i) ==>
                  Some(Started(t', pending.View())) ==
                  Deliver(t, i, old(hasUnblock).value.1, old(pending.View()), program, pending.items.Length, fuel)
    {
      ghost var slot, counts, capacity := hasUnblock, pending.View(), pending.items.Length;
      t' := PollTree(t, program, fuel);
      hasUnblock := None;
      if slot.None? || slot.value.0 !in Leaves(t) {
        PollUnmatched(t, slot, counts, program, capacity, fuel);
      } else {
        forall i | IsFirst(Leaves(t), slot.value.0, i)
          ensures Some(Started(t', pending.View())) == Deliver(t, i, slot.value.1, counts, program, capacity, fuel)
        {
          PollDelivers(t, slot.value.0, slot.value.1, counts, program, capacity, fuel, i);
        }
      }
    }
  }
}
