/**
 * krsm's map of fixed capacity: a sorted array of slots, changed in place.
 * Every operation is specified against the finite map that the array stands for.
 */
module FixedSizedMaps {
  import opened Wrappers
  import opened SlotSearch

  datatype AsyncRuntimeError = TooManyPending

  /**
   * Moves the block [from, to) to newStart by swaps. The block keeps its order, cells outside the
   * span of the two ranges are untouched, and the displaced cells are only permuted.
   */
  method MoveWithin<T>(a: array<T>, from: nat, to: nat, newStart: nat)
    requires from <= to <= a.Length && newStart + (to - from) <= a.Length
    modifies a
    ensures forall x :: newStart <= x < newStart + (to - from) ==> a[x] == old(a[x - newStart + from])
    ensures forall x :: 0 <= x < a.Length && ((x < from && x < newStart) || (to <= x && newStart + (to - from) <= x))
                        ==> a[x] == old(a[x])
    ensures multiset(a[..]) == old(multiset(a[..]))
  {
    if newStart < from {
      MoveLeft(a, from, to, newStart);
    } else if newStart > from {
      MoveRight(a, from, to, newStart);
    }
  }

  method MoveLeft<T>(a: array<T>, from: nat, to: nat, newStart: nat)
    requires newStart < from <= to <= a.Length
    modifies a
    ensures forall x :: newStart <= x < newStart + (to - from) ==> a[x] == old(a[x - newStart + from])
    ensures forall x :: 0 <= x < newStart || to <= x < a.Length ==> a[x] == old(a[x])
    ensures multiset(a[..]) == old(multiset(a[..]))
  {
    var j := newStart;
    for i := from to to
      invariant j == i - from + newStart
      invariant forall x :: newStart <= x < j ==> a[x] == old(a[x - newStart + from])
      invariant forall x :: 0 <= x < newStart || i <= x < a.Length ==> a[x] == old(a[x])
      invariant multiset(a[..]) == old(multiset(a[..]))
    {
      a[i], a[j] := a[j], a[i];
      j := j + 1;
    }
  }

  method MoveRight<T>(a: array<T>, from: nat, to: nat, newStart: nat)
    requires from <= to && from < newStart && newStart + (to - from) <= a.Length
    modifies a
    ensures forall x :: newStart <= x < newStart + (to - from) ==> a[x] == old(a[x - newStart + from])
    ensures forall x :: 0 <= x < from || newStart + (to - from) <= x < a.Length ==> a[x] == old(a[x])
    ensures multiset(a[..]) == old(multiset(a[..]))
  {
    var j := newStart + (to - from) - 1;
    for i := to downto from
      invariant j == i - 1 - from + newStart
      invariant forall x :: j < x < newStart + (to - from) ==> a[x] == old(a[x - newStart + from])
      invariant forall x :: 0 <= x < i || newStart + (to - from) <= x < a.Length ==> a[x] == old(a[x])
      invariant multiset(a[..]) == old(multiset(a[..]))
    {
      a[i], a[j] := a[j], a[i];
      j := j - 1;
    }
  }

  /** Empties slot index and moves the entries behind it up by one. */
  method CloseGap<V>(a: array<Option<Entry<V>>>, index: nat, size: nat, ghost c: seq<Entry<V>>)
    requires index < size == |c| <= a.Length && a[..] == Pack(c, a.Length)
    modifies a
    ensures a[..] == Pack(c[..index] + c[index + 1..], a.Length)
  {
    assert forall x :: 0 <= x < a.Length ==> a[x] == a[..][x];
    a[index] := None;
    MoveWithin(a, index + 1, size, index);
    a[size - 1] := None;
  }

  /** Moves the entries from slot index on down by one and puts e in front of them. */
  method OpenGap<V>(a: array<Option<Entry<V>>>, index: nat, size: nat, e: Entry<V>, ghost c: seq<Entry<V>>)
    requires index <= size == |c| < a.Length && a[..] == Pack(c, a.Length)
    modifies a
    ensures a[..] == Pack(c[..index] + [e] + c[index..], a.Length)
  {
    assert forall x :: 0 <= x < a.Length ==> a[x] == a[..][x];
    MoveWithin(a, index, size, index + 1);
    a[index] := Some(e);
  }

  /** Every entry is an unchanged old one whose key the other map has too. */
  ghost predicate JoinedFrom<V, U>(before: map<Key, V>, other: map<Key, U>, after: map<Key, V>) {
    forall k :: k in after ==> k in before && k in other && after[k] == before[k]
  }

  /** No common key is missing. */
  ghost predicate JoinedWhole<V, U>(before: map<Key, V>, other: map<Key, U>, after: map<Key, V>) {
    forall k :: k in before && k in other ==> k in after
  }

  lemma {:induction false} JoinedMaps<V, U>(c: seq<Entry<V>>, capacity: nat, d: seq<Entry<U>>)
    requires Sorted(c) && Sorted(d) && |c| <= capacity
    ensures var r := Join(Pack(c, capacity), KeysOf(d));
            && Sorted(r) && |r| <= |c|
            && JoinedFrom(MapOf(c), MapOf(d), MapOf(r))
            && (ProbeFreeEntries(c, capacity, KeysOf(d)) <==> JoinedWhole(MapOf(c), MapOf(d), MapOf(r)))
  {
    KeysOfMap(d);
    JoinPacked(c, capacity, KeysOf(d));
  }

  /** A callback of the iteration: from its own state and an entry to both of them anew, and whether to stop. */
  type Editor<!S, !V> = (S, Entry<V>) -> (S, Entry<V>, bool)

  /** The callback's state and the entries after the iteration. */
  function Edited<S, V>(state: S, c: seq<Entry<V>>, f: Editor<S, V>): (r: (S, seq<Entry<V>>))
    ensures |r.1| == |c|
  {
    if c == [] then (state, [])
    else
      var (state', e, stop) := f(state, c[0]);
      if stop then (state', [e] + c[1..])
      else
        var (end, rest) := Edited(state', c[1..], f);
        (end, [e] + rest)
  }

  /** The first i entries are edited, and editing the others from the current state yields the outcome. */
  ghost predicate EditedSoFar<S, V>(outcome: (S, seq<Entry<V>>), now: seq<Entry<V>>, i: nat, state: S,
                                    was: seq<Entry<V>>, f: Editor<S, V>)
  {
    && i <= |was| == |now| && now[i..] == was[i..]
    && outcome.0 == Edited(state, was[i..], f).0
    && outcome.1 == now[..i] + Edited(state, was[i..], f).1
  }

  lemma {:induction false} EditStarts<S, V>(start: S, was: seq<Entry<V>>, f: Editor<S, V>)
    ensures EditedSoFar(Edited(start, was, f), was, 0, start, was, f)
  {
    assert was[0..] == was && was[..0] + Edited(start, was, f).1 == Edited(start, was, f).1;
  }

  lemma {:induction false} EditStep<S, V>(outcome: (S, seq<Entry<V>>), now: seq<Entry<V>>, i: nat, state: S,
                                          was: seq<Entry<V>>, f: Editor<S, V>)
    requires i < |was| && EditedSoFar(outcome, now, i, state, was, f)
    ensures var (state', e, stop) := f(state, now[i]);
            if stop then outcome == (state', now[i := e])
            else EditedSoFar(outcome, now[i := e], i + 1, state', was, f)
  {
    var (state', e, stop) := f(state, now[i]);
    var rest := was[i..];
    assert rest[0] == now[i..][0] == now[i] && rest[1..] == was[i + 1..];
    assert now[i + 1..] == now[i..][1..] == was[i + 1..];
    var next := now[i := e];
    assert next[i + 1..] == was[i + 1..];
    var later := if stop then rest[1..] else Edited(state', rest[1..], f).1;
    assert now[..i] + ([e] + later) == next[..i + 1] + later;
    if stop {
      assert next[..i + 1] + next[i + 1..] == next;
    }
  }

  lemma {:induction false} EditEnds<S, V>(outcome: (S, seq<Entry<V>>), now: seq<Entry<V>>, state: S,
                                          was: seq<Entry<V>>, f: Editor<S, V>)
    requires EditedSoFar(outcome, now, |was|, state, was, f)
    ensures outcome == (state, now)
  {
    assert now[..|was|] + [] == now && was[|was|..] == [];
  }

  /** The callback's state when it is handed entry i. */
  function StateAt<S, V>(state: S, c: seq<Entry<V>>, f: Editor<S, V>, i: nat): S
    requires i <= |c|
  {
    if i == 0 then state else f(StateAt(state, c, f, i - 1), c[i - 1]).0
  }

  lemma {:induction false} StateAtLater<S, V>(state: S, c: seq<Entry<V>>, f: Editor<S, V>, i: nat)
    requires c != [] && i < |c|
    ensures StateAt(f(state, c[0]).0, c[1..], f, i) == StateAt(state, c, f, i + 1)
  {
    if i > 0 {
      StateAtLater(state, c, f, i - 1);
    }
  }

  /** Whether the callback stops at entry n, or runs through all n entries. */
  ghost predicate StopsAt<S, V>(state: S, c: seq<Entry<V>>, f: Editor<S, V>, n: nat) {
    && n <= |c|
    && (forall i :: 0 <= i < n ==> !f(StateAt(state, c, f, i), c[i]).2)
    && (n < |c| ==> f(StateAt(state, c, f, n), c[n]).2)
  }

  /** Each entry up to the one at which the callback stops is edited, in order and once; later ones stay. */
  lemma {:induction false} EditedUpToStop<S, V>(state: S, c: seq<Entry<V>>, f: Editor<S, V>, n: nat)
    requires StopsAt(state, c, f, n)
    ensures var (end, after) := Edited(state, c, f);
            && end == StateAt(state, c, f, if n < |c| then n + 1 else n)
            && forall i :: 0 <= i < |c| ==> after[i] == if i <= n then f(StateAt(state, c, f, i), c[i]).1 else c[i]
  {
    if c != [] {
      var (state', e, stop) := f(state, c[0]);
      assert StateAt(state, c, f, 0) == state && StateAt(state, c, f, 1) == state';
      if n > 0 {
        var rest := c[1..];
        forall i | 0 <= i < |rest| ensures StateAt(state', rest, f, i) == StateAt(state, c, f, i + 1) {
          StateAtLater(state, c, f, i);
        }
        if n == |c| {
          StateAtLater(state, c, f, n - 1);
        }
        EditedUpToStop(state', rest, f, n - 1);
      }
    }
  }

  lemma {:induction false} EditedSameKeys<S, V>(state: S, c: seq<Entry<V>>, f: Editor<S, V>)
    requires forall s, e :: f(s, e).1.key == e.key
    ensures SameKeys(c, Edited(state, c, f).1)
  {
    if c != [] {
      var (state', e, stop) := f(state, c[0]);
      if !stop {
        EditedSameKeys(state', c[1..], f);
        assert forall i :: 0 < i < |c| ==> c[i] == c[1..][i - 1];
      }
    }
  }

  ghost predicate SameKeys<V>(c: seq<Entry<V>>, d: seq<Entry<V>>) {
    |c| == |d| && forall i :: 0 <= i < |c| ==> d[i].key == c[i].key
  }

  lemma {:induction false} SameKeysSorted<V>(c: seq<Entry<V>>, d: seq<Entry<V>>)
    requires SameKeys(c, d)
    ensures Sorted(c) <==> Sorted(d)
  {
    SortedPairs(c);
    SortedPairs(d);
  }

  /** A callback that leaves keys alone keeps them and their order, however it stops. */
  lemma {:induction false} EditedKeys<S, V>(state: S, c: seq<Entry<V>>, f: Editor<S, V>)
    requires forall s, e :: f(s, e).1.key == e.key
    ensures SameKeys(c, Edited(state, c, f).1) && (Sorted(c) <==> Sorted(Edited(state, c, f).1))
  {
    EditedSameKeys(state, c, f);
    SameKeysSorted(c, Edited(state, c, f).1);
  }

  /** What the join yields if `joined` was taken in front of the i-th key. */
  ghost function JoinBehind<V>(joined: seq<Entry<V>>, s: Slots<V>, keys: seq<Key>, i: nat): (r: seq<Entry<V>>)
    requires i <= |keys|
    ensures i == |keys| ==> r == joined
  {
    joined + Join(s, keys[i..])
  }

  lemma {:induction false} JoinOneMore<V>(joined: seq<Entry<V>>, s: Slots<V>, keys: seq<Key>, i: nat)
    requires i < |keys|
    ensures JoinBehind(joined, s, keys, i) ==
            match Search(s, keys[i])
            case Hit(j) => JoinBehind(joined + [s[j].value], s[j := None], keys, i + 1)
            case Miss(_) => JoinBehind(joined + [], s, keys, i + 1)
  {
    assert keys[i..][0] == keys[i] && keys[i..][1..] == keys[i + 1..];
    JoinUnfold(s, keys[i..]);
    var r := Search(s, keys[i]);
    if r.Hit? {
      var e, later := s[r.index].value, Join(s[r.index := None], keys[i + 1..]);
      assert joined + ([e] + later) == joined + [e] + later;
    } else {
      assert joined + [] == joined;
    }
  }

  lemma {:induction false} FirstMatch<V>(c: seq<Entry<V>>, p: (Key, V) -> bool, i: nat)
    requires Sorted(c) && i < |c| && forall j :: 0 <= j < i ==> !p(c[j].key, c[j].val)
    ensures c[i].key in MapOf(c) && MapOf(c)[c[i].key] == c[i].val
    ensures forall k :: k in MapOf(c) && p(k, MapOf(c)[k]) ==> c[i].key <= k
  {
    MapOfRepresents(c);
    forall k | k in MapOf(c) && p(k, MapOf(c)[k]) ensures c[i].key <= k {
      var j :| 0 <= j < |c| && c[j].key == k;
      if i < j {
        SortedAt(c, i, j);
      }
    }
  }

  lemma {:induction false} NoMatch<V>(c: seq<Entry<V>>, p: (Key, V) -> bool)
    requires Sorted(c) && forall j :: 0 <= j < |c| ==> !p(c[j].key, c[j].val)
    ensures forall k :: k in MapOf(c) ==> !p(k, MapOf(c)[k])
  {
    MapOfRepresents(c);
  }

  class FixedSizedMap<V> {
    const items: array<Option<Entry<V>>>
    var size: nat
    ghost var entries: seq<Entry<V>>

    /** The array holds the entries in ascending key order, empty slots packed at its end. */
    ghost predicate Valid()
      reads this, items
    {
      size == |entries| <= items.Length && items[..] == Pack(entries, items.Length) && Sorted(entries)
    }

    ghost function View(): map<Key, V>
      reads this
    {
      MapOf(entries)
    }

    constructor (capacity: nat)
      ensures Valid() && View() == map[] && items.Length == capacity && fresh(items)
    {
      items := new Option<Entry<V>>[capacity](_ => None);
      size := 0;
      entries := [];
      new;
      assert items[..] == Pack([], capacity);
    }

    /** The halving loop; it follows the search function on every array, ordered or not. */
    method FindSlot(key: Key) returns (r: Found)
      ensures r == Search(items[..], key)
    {
      var n: nat := items.Length;
      if n == 0 {
        return Miss(0);
      }
      var base: nat := 0;
      while n > 1
        invariant 1 <= n && base + n <= items.Length
        invariant Halve(items[..], key, base, n) == Halve(items[..], key, 0, items.Length)
        decreases n
      {
        var half := n / 2;
        if Compare(items[base + half], key) != Greater {
          base := base + half;
        }
        n := n - half;
      }
      match Compare(items[base], key)
      case Equal => r := Hit(base);
      case Less => r := Miss(base + 1);
      case Greater => r := Miss(base);
    }

    method Edit(key: Key, f: V -> V) returns (found: bool)
      requires Valid()
      modifies this, items
      ensures Valid()
      ensures found == (key in old(View()))
      ensures View() == if found then old(View())[key := f(old(View())[key])] else old(View())
    {
      var r := FindSlot(key);
      SearchPacked(entries, items.Length, key);
      if r.Hit? {
        var e := items[r.index].value;
        items[r.index] := Some(Entry(e.key, f(e.val)));
        entries := entries[r.index := Entry(e.key, f(e.val))];
        assert items[..] == Pack(entries, items.Length);
        RevalueOne(old(entries), r.index, f(e.val));
      }
      found := r.Hit?;
    }

    method Read<T>(key: Key, f: V -> T) returns (r: Option<T>)
      requires Valid()
      ensures r == if key in View() then Some(f(View()[key])) else None
    {
      var slot := FindSlot(key);
      SearchPacked(entries, items.Length, key);
      r := if slot.Hit? then Some(f(items[slot.index].value.val)) else None;
    }

    /** The entry with the least key among those that match. */
    method Find(p: (Key, V) -> bool) returns (r: Option<Entry<V>>)
      requires Valid()
      ensures r.Some? ==> r.value.key in View() && View()[r.value.key] == r.value.val && p(r.value.key, r.value.val)
      ensures r.Some? ==> forall k :: k in View() && p(k, View()[k]) ==> r.value.key <= k
      ensures r.None? ==> forall k :: k in View() ==> !p(k, View()[k])
    {
      for i := 0 to size
        invariant forall j :: 0 <= j < i ==> !p(entries[j].key, entries[j].val)
      {
        var e := items[i].value;
        assert e == entries[i] by { assert items[..][i] == Some(entries[i]); }
        if p(e.key, e.val) {
          FirstMatch(entries, p, i);
          return Some(e);
        }
      }
      NoMatch(entries, p);
      r := None;
    }

    /**
     * Keeps entries whose keys the other map has too. Nothing is kept that should go and nothing is
     * altered; the whole intersection is kept exactly when no common key sits at a left probe of another.
     */
    method InnerJoinKeys<U>(other: FixedSizedMap<U>)
      requires Valid() && other.Valid()
      requires other.items.Length == items.Length
      requires other.items as object != items as object && other as object != this as object
      modifies this, items
      ensures Valid() && other.Valid()
      ensures entries == Join(Pack(old(entries), items.Length), KeysOf(other.entries))
      ensures size <= old(size)
      ensures JoinedFrom(old(View()), other.View(), View())
      ensures ProbeFreeEntries(old(entries), items.Length, KeysOf(other.entries)) <==>
              JoinedWhole(old(View()), other.View(), View())
    {
      var n := size;
      var joined := TakeCommon(other);
      JoinedMaps(entries, items.Length, other.entries);
      WriteBack(joined, n);
    }

    /** Takes the entries out, one by one, for which the search finds a key of the other map. */
    method TakeCommon<U>(other: FixedSizedMap<U>) returns (joined: seq<Entry<V>>)
      requires other.Valid() && other.items as object != items as object && size <= items.Length
      requires forall x :: size <= x < items.Length ==> items[x].None?
      modifies items
      ensures joined == Join(old(items[..]), KeysOf(other.entries))
      ensures forall x :: size <= x < items.Length ==> items[x].None?
    {
      ghost var keys := KeysOf(other.entries);
      joined := [];
      assert keys[0..] == keys && JoinBehind([], items[..], keys, 0) == Join(items[..], keys);
      for i := 0 to other.size
        invariant JoinBehind(joined, items[..], keys, i) == Join(old(items[..]), keys)
        invariant forall x :: size <= x < items.Length ==> items[x].None?
      {
        var key := other.items[i].value.key;
        assert key == keys[i] by { assert other.items[..][i] == Some(other.entries[i]); }
        JoinOneMore(joined, items[..], keys, i);
        var taken := TakeOne(key);
        joined := joined + taken;
      }
    }

    /** Takes the entry out that the search finds, if it finds one. */
    method TakeOne(key: Key) returns (taken: seq<Entry<V>>)
      modifies items
      ensures match Search(old(items[..]), key)
              case Hit(j) => taken == [old(items[j]).value] && items[..] == old(items[..])[j := None]
              case Miss(_) => taken == [] && items[..] == old(items[..])
      ensures forall x :: 0 <= x < items.Length && old(items[x]).None? ==> items[x].None?
    {
      taken := [];
      var r := FindSlot(key);
      if r.Hit? {
        ghost var before := items[..];
        taken := [items[r.index].value];
        items[r.index] := None;
        assert items[..] == before[r.index := None];
      }
    }

    /** The two loops that copy the join back and clear the slots behind it. */
    method WriteBack(joined: seq<Entry<V>>, oldSize: nat)
      requires |joined| <= oldSize <= items.Length
      requires forall i :: oldSize <= i < items.Length ==> items[i].None?
      modifies this, items
      ensures size == |joined| && entries == joined
      ensures items[..] == Pack(joined, items.Length)
    {
      size := |joined|;
      entries := joined;
      for i := 0 to size
        invariant size == |joined| && entries == joined
        invariant forall j :: 0 <= j < i ==> items[j] == Some(joined[j])
        invariant forall j :: oldSize <= j < items.Length ==> items[j].None?
      {
        items[i] := Some(joined[i]);
      }
      for i := size to oldSize
        invariant size == |joined| && entries == joined
        invariant forall j :: 0 <= j < size ==> items[j] == Some(joined[j])
        invariant forall j :: size <= j < i || oldSize <= j < items.Length ==> items[j].None?
      {
        items[i] := None;
      }
    }

    /**
     * Hands every entry to a callback that may change it, keys included, and may stop the iteration. The
     * slots stay packed in any case; the map stays valid exactly if the keys are still in ascending order.
     */
    method MapEdit<S>(start: S, f: Editor<S, V>) returns (end: S)
      requires Valid()
      modifies this, items
      ensures size == old(size) == |entries| && items[..] == Pack(entries, items.Length)
      ensures (end, entries) == Edited(start, old(entries), f)
      ensures Valid() <==> Sorted(entries)
    {
      ghost var was, outcome := entries, Edited(start, entries, f);
      end := start;
      EditStarts(start, was, f);
      for i := 0 to size
        invariant size == |was| == |entries| && items[..] == Pack(entries, items.Length)
        invariant EditedSoFar(outcome, entries, i, end, was, f)
      {
        assert items[i] == items[..][i];
        var edited := f(end, items[i].value);
        items[i] := Some(edited.1);
        EditStep(outcome, entries, i, end, was, f);
        entries := entries[i := edited.1];
        assert items[..] == Pack(entries, items.Length);
        end := edited.0;
        if edited.2 {
          return;
        }
      }
      EditEnds(outcome, entries, end, was, f);
    }

    method Remove(key: Key) returns (r: Option<V>)
      requires Valid()
      modifies this, items
      ensures Valid()
      ensures r == if key in old(View()) then Some(old(View())[key]) else None
      ensures View() == old(View()) - {key}
      ensures size == old(size) - if key in old(View()) then 1 else 0
    {
      var slot := FindSlot(key);
      SearchPacked(entries, items.Length, key);
      if slot.Hit? {
        var index := slot.index;
        r := Some(items[index].value.val);
        CloseGap(items, index, size, entries);
        size := size - 1;
        entries := entries[..index] + entries[index + 1..];
        RemoveAt(old(entries), index);
      } else {
        r := None;
        assert View() == View() - {key};
      }
    }

    /** False if the key exists already; an error, and no change, if a new key finds the map full. */
    method SetDefault(key: Key, val: V) returns (r: Result<bool, AsyncRuntimeError>)
      requires Valid()
      modifies this, items
      ensures Valid()
      ensures |old(View())| <= items.Length
      ensures key in old(View()) ==> r == Ok(false) && View() == old(View())
      ensures key !in old(View()) && |old(View())| == items.Length ==> r == Err(TooManyPending) && View() == old(View())
      ensures key !in old(View()) && |old(View())| < items.Length ==> r == Ok(true) && View() == old(View())[key := val]
    {
      var slot := FindSlot(key);
      SearchPacked(entries, items.Length, key);
      assert |View()| == size by { MapOfRepresents(entries); }
      if slot.Hit? {
        return Ok(false);
      }
      if size == items.Length {
        return Err(TooManyPending);
      }
      var index := slot.index;
      OpenGap(items, index, size, Entry(key, val), entries);
      size := size + 1;
      entries := entries[..index] + [Entry(key, val)] + entries[index..];
      InsertAt(old(entries), index, Entry(key, val));
      r := Ok(true);
    }
  }
}
