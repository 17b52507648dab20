/**
 * Trees of krsm futures under or() and zip(), and how one poll hands a stored response through them.
 *
 * A leaf awaits one reason. Async code that follows an await is named by a number; the program maps
 * that number and the awaited value to the next place where the code blocks, or to its final value.
 * A leaf that finds no room for its reason ends at once, and its code goes on with the error.
 */
module FutureTrees {
  import opened Wrappers
  import opened SlotSearch

  datatype Val<+R> = Response(response: R) | TooMany | Pair(first: Val<R>, second: Val<R>) | Other(tag: int)

  datatype Fut<+R> =
    | Done(val: Val<R>)
    | Leaf(reason: Key, next: nat)
    | Or(l: Fut<R>, r: Fut<R>, next: nat)
    | Zip(l: Fut<R>, r: Fut<R>, next: nat)

  type Program<!R> = (nat, Val<R>) -> Fut<R>

  type Slot<+R> = Option<(Key, R)>

  /** How many futures are registered per reason. */
  type Counts = map<Key, nat>

  predicate HasRoom(counts: Counts, reason: Key, capacity: nat) {
    reason in counts || |counts| < capacity
  }

  function CountedUp(counts: Counts, reason: Key): Counts {
    counts[reason := (if reason in counts then counts[reason] else 0) + 1]
  }

  /** One future less: a reason leaves the map with its last future, and a reason that is not there stays away. */
  function CountedDown(counts: Counts, reason: Key): Counts {
    if reason !in counts then counts
    else if counts[reason] <= 1 then counts - {reason}
    else counts[reason := counts[reason] - 1]
  }

  /** The counts after a tree is dropped. */
  function Abandoned<R>(counts: Counts, t: Fut<R>): Counts
    decreases t
  {
    match t
    case Done(_) => counts
    case Leaf(reason, _) => CountedDown(counts, reason)
    case Or(l, r, _) => Abandoned(Abandoned(counts, l), r)
    case Zip(l, r, _) => Abandoned(Abandoned(counts, l), r)
  }

  /** A started tree that waits: a zip may hold one finished half, an or() holds none. */
  predicate Blocked<R>(t: Fut<R>) {
    match t
    case Done(_) => false
    case Leaf(_, _) => true
    case Or(l, r, _) => Blocked(l) && Blocked(r)
    case Zip(l, r, _) => (Blocked(l) && Blocked(r)) || (l.Done? && Blocked(r)) || (Blocked(l) && r.Done?)
  }

  // ---- Going on within a poll ----

  datatype Started<+R> = Started(tree: Fut<R>, counts: Counts)

  /**
   * The first poll of a tree, with no response stored: leaves register in poll order. The result is None if
   * more than `fuel` resumptions follow one another, for example in code that tries again after every error.
   */
  function Start<R>(t: Fut<R>, counts: Counts, program: Program<R>, capacity: nat, fuel: nat)
    : (res: Option<Started<R>>)
    ensures res.Some? ==> res.value.tree.Done? || Blocked(res.value.tree)
    decreases fuel, 1, t
  {
    match t
    case Done(_) => Some(Started(t, counts))
    case Leaf(reason, next) =>
      if HasRoom(counts, reason, capacity) then Some(Started(t, CountedUp(counts, reason)))
      else GoOn(next, TooMany, CountedDown(counts, reason), program, capacity, fuel)
    case Or(l, r, next) =>
      (match Start(l, counts, program, capacity, fuel)
       case None => None
       case Some(Started(l', counts1)) =>
         if l'.Done? then GoOn(next, l'.val, counts1, program, capacity, fuel)
         else match Start(r, counts1, program, capacity, fuel)
           case None => None
           case Some(Started(r', counts2)) =>
             if r'.Done? then GoOn(next, r'.val, Abandoned(counts2, l'), program, capacity, fuel)
             else Some(Started(Or(l', r', next), counts2)))
    case Zip(l, r, next) =>
      (match Start(l, counts, program, capacity, fuel)
       case None => None
       case Some(Started(l', counts1)) =>
         match Start(r, counts1, program, capacity, fuel)
         case None => None
         case Some(Started(r', counts2)) =>
           if l'.Done? && r'.Done? then GoOn(next, Pair(l'.val, r'.val), counts2, program, capacity, fuel)
           else Some(Started(Zip(l', r', next), counts2)))
  }

  /** The code behind an await runs on within the same poll. */
  function GoOn<R>(next: nat, val: Val<R>, counts: Counts, program: Program<R>, capacity: nat, fuel: nat)
    : (res: Option<Started<R>>)
    ensures res.Some? ==> res.value.tree.Done? || Blocked(res.value.tree)
    decreases fuel, 0
  {
    if fuel == 0 then None else Start(program(next, val), counts, program, capacity, fuel - 1)
  }

  /** A leaf with room waits and is counted; one without room has its code go on with the error, and is not. */
  lemma {:induction false} StartedLeaf<R>(reason: Key, next: nat, counts: Counts, program: Program<R>, capacity: nat,
                                          fuel: nat)
    ensures var s := Start(Leaf(reason, next), counts, program, capacity, fuel);
            && (reason in counts || |counts| < capacity ==>
                  s == Some(Started(Leaf(reason, next),
                                    counts[reason := if reason in counts then counts[reason] + 1 else 1])))
            && (reason !in counts && |counts| >= capacity && fuel > 0 ==>
                  s == Start(program(next, TooMany), counts, program, capacity, fuel - 1))
  {
  }

  /**
   * An or() starts its left half first. The half that ends hands its value to the code behind the or(), and the
   * other one is dropped, or never started. If both wait, so does the or().
   */
  lemma {:induction false} StartedOr<R>(l: Fut<R>, r: Fut<R>, next: nat, counts: Counts, program: Program<R>,
                                        capacity: nat, fuel: nat)
    requires fuel > 0 && Start(l, counts, program, capacity, fuel).Some?
    ensures var s := Start(Or(l, r, next), counts, program, capacity, fuel);
            var s1 := Start(l, counts, program, capacity, fuel).value;
            if s1.tree.Done? then s == Start(program(next, s1.tree.val), s1.counts, program, capacity, fuel - 1)
            else
              var right := Start(r, s1.counts, program, capacity, fuel);
              if right.None? then s == None
              else if right.value.tree.Done? then
                s == Start(program(next, right.value.tree.val), Abandoned(right.value.counts, s1.tree), program, capacity,
                           fuel - 1)
              else s == Some(Started(Or(s1.tree, right.value.tree, next), right.value.counts))
  {
  }

  /** A zip() starts both halves. If both end, the code behind it gets the pair, the left value first. */
  lemma {:induction false} StartedZip<R>(l: Fut<R>, r: Fut<R>, next: nat, counts: Counts, program: Program<R>,
                                         capacity: nat, fuel: nat)
    requires fuel > 0 && Start(l, counts, program, capacity, fuel).Some?
    ensures var s := Start(Zip(l, r, next), counts, program, capacity, fuel);
            var s1 := Start(l, counts, program, capacity, fuel).value;
            var right := Start(r, s1.counts, program, capacity, fuel);
            if right.None? then s == None
            else if s1.tree.Done? && right.value.tree.Done? then
              s == Start(program(next, Pair(s1.tree.val, right.value.tree.val)), right.value.counts, program, capacity,
                         fuel - 1)
            else s == Some(Started(Zip(s1.tree, right.value.tree, next), right.value.counts))
  {
  }

  /** The bound is only there for polls that never end: where it suffices, more of it changes nothing. */
  lemma {:induction false} MoreFuel<R>(t: Fut<R>, counts: Counts, program: Program<R>, capacity: nat, fuel: nat,
                                       more: nat)
    requires Start(t, counts, program, capacity, fuel).Some? && fuel <= more
    ensures Start(t, counts, program, capacity, more) == Start(t, counts, program, capacity, fuel)
    decreases fuel, 1, t
  {
    match t
    case Done(_) =>
    case Leaf(reason, next) =>
      if !HasRoom(counts, reason, capacity) {
        MoreFuelToGoOn(next, TooMany, CountedDown(counts, reason), program, capacity, fuel, more);
      }
    case Or(l, r, next) =>
      MoreFuel(l, counts, program, capacity, fuel, more);
      var s := Start(l, counts, program, capacity, fuel).value;
      if s.tree.Done? {
        MoreFuelToGoOn(next, s.tree.val, s.counts, program, capacity, fuel, more);
      } else {
        MoreFuel(r, s.counts, program, capacity, fuel, more);
        var s' := Start(r, s.counts, program, capacity, fuel).value;
        if s'.tree.Done? {
          MoreFuelToGoOn(next, s'.tree.val, Abandoned(s'.counts, s.tree), program, capacity, fuel, more);
        }
      }
    case Zip(l, r, next) =>
      MoreFuel(l, counts, program, capacity, fuel, more);
      var s := Start(l, counts, program, capacity, fuel).value;
      MoreFuel(r, s.counts, program, capacity, fuel, more);
      var s' := Start(r, s.counts, program, capacity, fuel).value;
      if s.tree.Done? && s'.tree.Done? {
        MoreFuelToGoOn(next, Pair(s.tree.val, s'.tree.val), s'.counts, program, capacity, fuel, more);
      }
  }

  lemma {:induction false} MoreFuelToGoOn<R>(next: nat, val: Val<R>, counts: Counts, program: Program<R>,
                                             capacity: nat, fuel: nat, more: nat)
    requires GoOn(next, val, counts, program, capacity, fuel).Some? && fuel <= more
    ensures GoOn(next, val, counts, program, capacity, more) == GoOn(next, val, counts, program, capacity, fuel)
    decreases fuel, 0
  {
    MoreFuel(program(next, val), counts, program, capacity, fuel - 1, more - 1);
  }

  // ---- One poll ----

  datatype Polled<+R> = Polled(tree: Fut<R>, slot: Slot<R>, counts: Counts)

  /** The outcome of a poll that has emptied the slot. */
  function Emptied<R>(s: Option<Started<R>>): Option<Polled<R>> {
    match s
    case None => None
    case Some(Started(t, counts)) => Some(Polled(t, None, counts))
  }

  /** One poll of a started tree: what becomes of the tree, the runtime's response slot and the counts. */
  function Poll<R>(t: Fut<R>, slot: Slot<R>, counts: Counts, program: Program<R>, capacity: nat, fuel: nat)
    : (res: Option<Polled<R>>)
    requires Blocked(t)
    ensures res.Some? ==> res.value.tree.Done? || Blocked(res.value.tree)
    ensures slot.None? ==> res == Some(Polled(t, slot, counts))
    ensures res.Some? && res.value.tree.Done? ==> res.value.slot.None?
    decreases t, 0
  {
    match t
    case Leaf(reason, next) =>
      if slot.Some? && slot.value.0 == reason then
        Emptied(GoOn(next, Response(slot.value.1), CountedDown(counts, reason), program, capacity, fuel))
      else Some(Polled(t, slot, counts))
    case Or(l, r, next) =>
      (match Poll(l, slot, counts, program, capacity, fuel)
       case None => None
       case Some(Polled(l', slot1, counts1)) =>
         if l'.Done? then Emptied(GoOn(next, l'.val, Abandoned(counts1, r), program, capacity, fuel))
         else AfterRight(l', Poll(r, slot1, counts1, program, capacity, fuel), next, program, capacity, fuel))
    case Zip(l, r, next) =>
      assert !(l.Done? && r.Done?) by { assert l.Done? && r.Done? ==> !Blocked(l) && !Blocked(r); }
      (match PollUnlessDone(l, slot, counts, program, capacity, fuel)
       case None => None
       case Some(Polled(l', slot1, counts1)) =>
         match PollUnlessDone(r, slot1, counts1, program, capacity, fuel)
         case None => None
         case Some(Polled(r', slot2, counts2)) =>
           if l'.Done? && r'.Done? then
             Emptied(GoOn(next, Pair(l'.val, r'.val), counts2, program, capacity, fuel))
           else Some(Polled(Zip(l', r', next), slot2, counts2)))
  }

  /** What becomes of an or() whose left half l waits, once its right half has been polled. */
  function AfterRight<R>(l: Fut<R>, polled: Option<Polled<R>>, next: nat, program: Program<R>, capacity: nat, fuel: nat)
    : Option<Polled<R>>
  {
    match polled
    case None => None
    case Some(Polled(r, slot, counts)) =>
      if r.Done? then Emptied(GoOn(next, r.val, Abandoned(counts, l), program, capacity, fuel))
      else Some(Polled(Or(l, r, next), slot, counts))
  }

  function PollUnlessDone<R>(t: Fut<R>, slot: Slot<R>, counts: Counts, program: Program<R>, capacity: nat, fuel: nat)
    : (res: Option<Polled<R>>)
    requires t.Done? || Blocked(t)
    ensures res.Some? ==> res.value.tree.Done? || Blocked(res.value.tree)
    ensures slot.None? || t.Done? ==> res == Some(Polled(t, slot, counts))
    ensures res.Some? && res.value.tree.Done? && !t.Done? ==> res.value.slot.None?
    decreases t, 1
  {
    if t.Done? then Some(Polled(t, slot, counts)) else Poll(t, slot, counts, program, capacity, fuel)
  }

  /** The poll of an or() in terms of its halves. */
  lemma {:induction false} PollOfOr<R>(t: Fut<R>, slot: Slot<R>, counts: Counts, program: Program<R>, capacity: nat,
                                       fuel: nat)
    requires t.Or? && Blocked(t)
    ensures Blocked(t.l) && Blocked(t.r)
    ensures PollUnlessDone(t, slot, counts, program, capacity, fuel) ==
            match PollUnlessDone(t.l, slot, counts, program, capacity, fuel)
            case None => None
            case Some(p) =>
              if p.tree.Done? then Emptied(GoOn(t.next, p.tree.val, Abandoned(p.counts, t.r), program, capacity, fuel))
              else
                AfterRight(p.tree, PollUnlessDone(t.r, p.slot, p.counts, program, capacity, fuel), t.next,
                           program, capacity, fuel)
  {
  }

  /** The poll of a zip() in terms of its halves. */
  lemma {:induction false} PollOfZip<R>(t: Fut<R>, slot: Slot<R>, counts: Counts, program: Program<R>, capacity: nat,
                                        fuel: nat)
    requires t.Zip? && Blocked(t)
    ensures t.l.Done? || Blocked(t.l)
    ensures t.r.Done? || Blocked(t.r)
    ensures PollUnlessDone(t, slot, counts, program, capacity, fuel) ==
            match PollUnlessDone(t.l, slot, counts, program, capacity, fuel)
            case None => None
            case Some(p) =>
              match PollUnlessDone(t.r, p.slot, p.counts, program, capacity, fuel)
              case None => None
              case Some(q) =>
                if p.tree.Done? && q.tree.Done? then
                  Emptied(GoOn(t.next, Pair(p.tree.val, q.tree.val), q.counts, program, capacity, fuel))
                else Some(Polled(Zip(p.tree, q.tree, t.next), q.slot, q.counts))
  {
  }

  /** The awaited reasons in poll order. */
  ghost function Leaves<R>(t: Fut<R>): seq<Key> {
    match t
    case Done(_) => []
    case Leaf(reason, _) => [reason]
    case Or(l, r, _) => Leaves(l) + Leaves(r)
    case Zip(l, r, _) => Leaves(l) + Leaves(r)
  }

  /**
   * Reference semantics without any slot: leaf number i, in poll order, receives the response, and only the
   * code that this completes goes on. Code behind a leaf runs with the response, code behind an or() with the
   * value of the half that is finished, and code behind a zip() with both values, the left one first.
   */
  ghost function Deliver<R>(t: Fut<R>, i: nat, response: R, counts: Counts, program: Program<R>, capacity: nat,
                            fuel: nat): Option<Started<R>>
    requires i < |Leaves(t)|
  {
    match t
    case Leaf(reason, next) =>
      if fuel == 0 then None
      else Start(program(next, Response(response)), CountedDown(counts, reason), program, capacity, fuel - 1)
    case Or(l, r, next) =>
      var left := i < |Leaves(l)|;
      var half := if left then Deliver(l, i, response, counts, program, capacity, fuel)
                  else Deliver(r, i - |Leaves(l)|, response, counts, program, capacity, fuel);
      (match half
       case None => None
       case Some(Started(h, counts1)) =>
         if !h.Done? then Some(Started(if left then Or(h, r, next) else Or(l, h, next), counts1))
         else if fuel == 0 then None
         else Start(program(next, h.val), Abandoned(counts1, if left then r else l), program, capacity, fuel - 1))
    case Zip(l, r, next) =>
      var left := i < |Leaves(l)|;
      var half := if left then Deliver(l, i, response, counts, program, capacity, fuel)
                  else Deliver(r, i - |Leaves(l)|, response, counts, program, capacity, fuel);
      (match half
       case None => None
       case Some(Started(h, counts1)) =>
         var l', r' := if left then h else l, if left then r else h;
         if l'.Done? && r'.Done? then
           if fuel == 0 then None
           else Start(program(next, Pair(l'.val, r'.val)), counts1, program, capacity, fuel - 1)
         else Some(Started(Zip(l', r', next), counts1)))
  }

  ghost predicate IsFirst(keys: seq<Key>, reason: Key, i: nat) {
    i < |keys| && keys[i] == reason && forall j :: 0 <= j < i ==> keys[j] != reason
  }

  /** No leaf awaits the stored reason: the poll changes neither the tree nor the slot nor the counts. */
  lemma {:induction false} PollUnmatched<R>(t: Fut<R>, slot: Slot<R>, counts: Counts, program: Program<R>,
                                            capacity: nat, fuel: nat)
    requires Blocked(t)
    requires slot.Some? ==> slot.value.0 !in Leaves(t)
    ensures Poll(t, slot, counts, program, capacity, fuel) == Some(Polled(t, slot, counts))
  {
    match t
    case Leaf(_, _) =>
    case Or(l, r, _) =>
      PollUnmatched(l, slot, counts, program, capacity, fuel);
      PollUnmatched(r, slot, counts, program, capacity, fuel);
    case Zip(l, r, _) =>
      if Blocked(l) {
        PollUnmatched(l, slot, counts, program, capacity, fuel);
      }
      if Blocked(r) {
        PollUnmatched(r, slot, counts, program, capacity, fuel);
      }
  }

  /**
   * Otherwise the poll acts as a direct hand-over to the first awaiting leaf: no other leaf, and no
   * future that the resumed code creates at once, gets the response, and the slot is left empty.
   */
  lemma {:induction false} PollDelivers<R>(t: Fut<R>, reason: Key, response: R, counts: Counts, program: Program<R>,
                                           capacity: nat, fuel: nat, i: nat)
    requires Blocked(t) && IsFirst(Leaves(t), reason, i)
    ensures Poll(t, Some((reason, response)), counts, program, capacity, fuel) ==
            Emptied(Deliver(t, i, response, counts, program, capacity, fuel))
    decreases t, 1
  {
    match t
    case Leaf(_, _) =>
    case Or(_, _, _) => PollOrDelivers(t, reason, response, counts, program, capacity, fuel, i);
    case Zip(_, _, _) => PollZipDelivers(t, reason, response, counts, program, capacity, fuel, i);
  }

  lemma {:induction false} PollOrDelivers<R>(t: Fut<R>, reason: Key, response: R, counts: Counts, program: Program<R>,
                                             capacity: nat, fuel: nat, i: nat)
    requires t.Or? && Blocked(t) && IsFirst(Leaves(t), reason, i)
    ensures Poll(t, Some((reason, response)), counts, program, capacity, fuel) ==
            Emptied(Deliver(t, i, response, counts, program, capacity, fuel))
    decreases t, 0
  {
    var l, r := t.l, t.r;
    if i < |Leaves(l)| {
      KeepLeft(Leaves(l), Leaves(r), reason, i);
      PollDelivers(l, reason, response, counts, program, capacity, fuel, i);
    } else {
      SkipLeft(Leaves(l), Leaves(r), reason, i);
      PollUnmatched(l, Some((reason, response)), counts, program, capacity, fuel);
      PollDelivers(r, reason, response, counts, program, capacity, fuel, i - |Leaves(l)|);
    }
  }

  lemma {:induction false} PollZipDelivers<R>(t: Fut<R>, reason: Key, response: R, counts: Counts, program: Program<R>,
                                              capacity: nat, fuel: nat, i: nat)
    requires t.Zip? && Blocked(t) && IsFirst(Leaves(t), reason, i)
    ensures Poll(t, Some((reason, response)), counts, program, capacity, fuel) ==
            Emptied(Deliver(t, i, response, counts, program, capacity, fuel))
    decreases t, 0
  {
    var l, r := t.l, t.r;
    if i < |Leaves(l)| {
      KeepLeft(Leaves(l), Leaves(r), reason, i);
      PollDelivers(l, reason, response, counts, program, capacity, fuel, i);
    } else {
      SkipLeft(Leaves(l), Leaves(r), reason, i);
      if Blocked(l) {
        PollUnmatched(l, Some((reason, response)), counts, program, capacity, fuel);
      }
      PollDelivers(r, reason, response, counts, program, capacity, fuel, i - |Leaves(l)|);
    }
  }

  /** A single awaiting future: its code runs on with the very response that was stored. */
  lemma {:induction false} LeafReceives<R>(reason: Key, next: nat, response: R, counts: Counts, program: Program<R>,
                                           capacity: nat, fuel: nat)
    requires fuel > 0 && program(next, Response(response)).Done?
    ensures Poll(Leaf(reason, next), Some((reason, response)), counts, program, capacity, fuel) ==
            Some(Polled(program(next, Response(response)), None, CountedDown(counts, reason)))
  {
    var t, after := program(next, Response(response)), CountedDown(counts, reason);
    assert GoOn(next, Response(response), after, program, capacity, fuel) ==
           Start(t, after, program, capacity, fuel - 1) == Some(Started(t, after));
  }

  /** Of two futures for the same reason the left one gets the response, and ends the or() or its half of the zip(). */
  lemma {:induction false} LeftReceives<R>(l: Fut<R>, r: Fut<R>, next: nat, response: R, counts: Counts,
                                           program: Program<R>, capacity: nat, fuel: nat)
    requires l.Leaf? && r.Leaf? && l.reason == r.reason
    requires fuel > 0 && program(l.next, Response(response)).Done?
    ensures Blocked(l) && Blocked(r) && Blocked(Or(l, r, next)) && Blocked(Zip(l, r, next))
    ensures Poll(Or(l, r, next), Some((l.reason, response)), counts, program, capacity, fuel) ==
            Emptied(Start(program(next, program(l.next, Response(response)).val),
                          CountedDown(CountedDown(counts, l.reason), l.reason), program, capacity, fuel - 1))
    ensures Poll(Zip(l, r, next), Some((l.reason, response)), counts, program, capacity, fuel) ==
            Some(Polled(Zip(program(l.next, Response(response)), r, next), None, CountedDown(counts, l.reason)))
  {
    var slot := Some((l.reason, response));
    PollOfOr(Or(l, r, next), slot, counts, program, capacity, fuel);
    PollOfZip(Zip(l, r, next), slot, counts, program, capacity, fuel);
    LeafReceives(l.reason, l.next, response, counts, program, capacity, fuel);
  }

  lemma {:induction false} KeepLeft(a: seq<Key>, b: seq<Key>, reason: Key, i: nat)
    requires i < |a| && IsFirst(a + b, reason, i)
    ensures IsFirst(a, reason, i)
  {
    forall j | 0 <= j < i ensures a[j] != reason {
      assert (a + b)[j] == a[j];
    }
  }

  lemma {:induction false} SkipLeft(a: seq<Key>, b: seq<Key>, reason: Key, i: nat)
    requires |a| <= i && IsFirst(a + b, reason, i)
    ensures reason !in a && IsFirst(b, reason, i - |a|)
  {
    forall j | 0 <= j < |a| ensures a[j] != reason {
      assert (a + b)[j] == a[j];
    }
    forall j | 0 <= j < i - |a| ensures b[j] != reason {
      assert (a + b)[j + |a|] == b[j];
    }
  }

  /** How many leaves await a reason. */
  ghost function Count<R>(t: Fut<R>, key: Key): nat {
    match t
    case Done(_) => 0
    case Leaf(reason, _) => if reason == key then 1 else 0
    case Or(l, r, _) => Count(l, key) + Count(r, key)
    case Zip(l, r, _) => Count(l, key) + Count(r, key)
  }
}
