/**
 * The sorted slot array behind krsm's FixedSizedMap, as a value: its order, the halving
 * search over it, the map it stands for, and the key join that punches holes into it.
 */
module SlotSearch {
  import opened Wrappers

  /** Only the total order of the key type is used, so keys are integers. */
  type Key = int

  datatype Entry<+V> = Entry(key: Key, val: V)

  type Slots<+V> = seq<Option<Entry<V>>>

  datatype Order = Less | Equal | Greater

  datatype Found = Hit(index: nat) | Miss(index: nat)

  /** An empty slot sorts after every key. */
  function Compare<V>(slot: Option<Entry<V>>, key: Key): Order {
    match slot
    case None => Greater
    case Some(e) => if e.key < key then Less else if e.key == key then Equal else Greater
  }

  /** The halving loop of the standard library's slice search: the window [base, base + size) shrinks to one slot. */
  function Halve<V>(s: Slots<V>, key: Key, base: nat, size: nat): (r: nat)
    requires 1 <= size && base + size <= |s|
    ensures base <= r < base + size
    decreases size
  {
    if size == 1 then base
    else
      var half := size / 2;
      Halve(s, key, if Compare(s[base + half], key) == Greater then base else base + half, size - half)
  }

  function Search<V>(s: Slots<V>, key: Key): (r: Found)
    ensures r.Hit? ==> r.index < |s| && s[r.index].Some? && s[r.index].value.key == key
    ensures r.Miss? ==> r.index <= |s|
  {
    if |s| == 0 then Miss(0)
    else
      var b := Halve(s, key, 0, |s|);
      match Compare(s[b], key)
      case Equal => Hit(b)
      case Less => Miss(b + 1)
      case Greater => Miss(b)
  }

  ghost predicate Filled<V>(s: Slots<V>, n: nat) {
    n <= |s| && forall i :: 0 <= i < n ==> s[i].Some?
  }

  /** Strictly ascending keys in the first n slots, empty slots packed behind them. */
  ghost predicate Ordered<V>(s: Slots<V>, n: nat) {
    && Filled(s, n)
    && (forall i :: n <= i < |s| ==> s[i].None?)
    && (forall i, j :: 0 <= i < j < n ==> s[i].value.key < s[j].value.key)
  }

  /** If exactly the slots from c on compare greater, the halving loop ends on the last slot before c. */
  lemma {:induction false} HalveCut<V>(s: Slots<V>, key: Key, base: nat, size: nat, c: nat)
    requires 1 <= size && base + size <= |s|
    requires forall i :: 0 <= i < |s| ==> (Compare(s[i], key) == Greater <==> c <= i)
    requires (base < c || base == c == 0) && c <= base + size
    ensures Halve(s, key, base, size) == if c == 0 then 0 else c - 1
    decreases size
  {
    if size > 1 {
      var half := size / 2;
      if Compare(s[base + half], key) == Greater {
        HalveCut(s, key, base, size - half, c);
      } else {
        HalveCut(s, key, base + half, size - half, c);
      }
    }
  }

  /** The number of leading entries whose key is at most the given one. */
  ghost function CutOf<V>(s: Slots<V>, n: nat, key: Key): (c: nat)
    requires Ordered(s, n)
    ensures c <= n
    ensures forall i :: 0 <= i < |s| ==> (Compare(s[i], key) == Greater <==> c <= i)
  {
    CutFrom(s, n, key, n)
  }

  ghost function CutFrom<V>(s: Slots<V>, n: nat, key: Key, c: nat): (r: nat)
    requires Ordered(s, n) && c <= n
    requires forall i :: c <= i < |s| ==> Compare(s[i], key) == Greater
    ensures r <= n
    ensures forall i :: 0 <= i < |s| ==> (Compare(s[i], key) == Greater <==> r <= i)
  {
    if c == 0 || Compare(s[c - 1], key) != Greater then c else CutFrom(s, n, key, c - 1)
  }

  /** On an ordered array the search hits a present key, and misses at the insertion point of an absent one. */
  lemma {:induction false} SearchOrdered<V>(s: Slots<V>, n: nat, key: Key)
    requires Ordered(s, n)
    ensures match Search(s, key)
            case Hit(i) => i < n && s[i].value.key == key
            case Miss(i) =>
              && i <= n
              && (forall j :: 0 <= j < i ==> s[j].value.key < key)
              && (forall j :: i <= j < n ==> key < s[j].value.key)
  {
    if |s| > 0 {
      var c := CutOf(s, n, key);
      HalveCut(s, key, 0, |s|, c);
      assert forall j :: 0 <= j < n ==> (Compare(s[j], key) == Greater <==> c <= j);
    }
  }

  // ---- Joining the keys of another map ----

  /** Each key found in the slots is taken out of them, so later searches see a hole there. */
  function Join<V>(s: Slots<V>, keys: seq<Key>): seq<Entry<V>>
    decreases |keys|
  {
    if keys == [] then []
    else match Search(s, keys[0])
      case Hit(j) => [s[j].value] + Join(s[j := None], keys[1..])
      case Miss(_) => Join(s, keys[1..])
  }

  ghost predicate Ascending(keys: seq<Key>) {
    forall i, j :: 0 <= i < j < |keys| ==> keys[i] < keys[j]
  }

  /** Slot m lies left of slot p and is probed when a window of the halving loop is narrowed to p. */
  predicate LeftProbe(base: nat, size: nat, p: nat, m: nat)
    requires base <= p < base + size
    decreases size
  {
    if size == 1 then false
    else
      var half := size / 2;
      if p < base + half then LeftProbe(base, size - half, p, m)
      else (base + half < p && m == base + half) || LeftProbe(base + half, size - half, p, m)
  }

  /** s is the ordered array o with some of the slots before p emptied. */
  ghost predicate Punched<V>(o: Slots<V>, s: Slots<V>, holes: set<nat>) {
    && |s| == |o|
    && forall i :: 0 <= i < |o| ==> s[i] == if i in holes then None else o[i]
  }

  /** How the slots compare with the key of slot p: the holes before p look as if they lay beyond it. */
  ghost predicate Sighted<V>(s: Slots<V>, key: Key, holes: set<nat>, p: nat) {
    && p < |s|
    && forall i :: 0 <= i < |s| ==> (Compare(s[i], key) == Greater <==> p < i || (i < p && i in holes))
  }

  /** If no hole is a left probe of p, the halving loop reaches p. */
  lemma {:induction false} HalveReaches<V>(s: Slots<V>, key: Key, holes: set<nat>, p: nat, base: nat, size: nat)
    requires Sighted(s, key, holes, p)
    requires 1 <= size && base <= p < base + size <= |s|
    requires forall h :: h in holes ==> !LeftProbe(base, size, p, h)
    ensures Halve(s, key, base, size) == p
    decreases size
  {
    if size > 1 {
      var half := size / 2;
      var mid := base + half;
      if p < mid {
        assert forall h :: h in holes ==> !LeftProbe(base, size - half, p, h) by {
          forall h | h in holes ensures !LeftProbe(base, size - half, p, h) {
            assert !LeftProbe(base, size, p, h);
          }
        }
        HalveReaches(s, key, holes, p, base, size - half);
      } else {
        assert mid < p ==> LeftProbe(base, size, p, mid);
        forall h | h in holes ensures !LeftProbe(mid, size - half, p, h) {
          assert !LeftProbe(base, size, p, h);
        }
        HalveReaches(s, key, holes, p, mid, size - half);
      }
    }
  }

  /** One hole at a left probe diverts it for good. */
  lemma {:induction false} HalveDiverted<V>(s: Slots<V>, key: Key, holes: set<nat>, p: nat, h: nat, base: nat,
                                            size: nat)
    requires Sighted(s, key, holes, p) && h in holes
    requires 1 <= size && base <= p < base + size <= |s|
    requires LeftProbe(base, size, p, h)
    ensures Halve(s, key, base, size) != p
    decreases size
  {
    var half := size / 2;
    var mid := base + half;
    if p < mid {
      HalveDiverted(s, key, holes, p, h, base, size - half);
    } else if mid == p || mid !in holes {
      HalveDiverted(s, key, holes, p, h, mid, size - half);
    }
  }

  /** A remaining key is found exactly when no hole is one of its left probes; otherwise the search misses. */
  lemma {:induction false} SearchPunched<V>(o: Slots<V>, n: nat, s: Slots<V>, holes: set<nat>, p: nat)
    requires Ordered(o, n) && Punched(o, s, holes) && p < n && p !in holes
    ensures (forall h :: h in holes ==> !LeftProbe(0, |o|, p, h)) ==> Search(s, o[p].value.key) == Hit(p)
    ensures (exists h :: h in holes && LeftProbe(0, |o|, p, h)) ==> Search(s, o[p].value.key).Miss?
  {
    var key := o[p].value.key;
    assert forall i :: 0 <= i < |s| && s[i].Some? ==> s[i] == o[i];
    assert Sighted(s, key, holes, p);
    if h :| h in holes && LeftProbe(0, |o|, p, h) {
      HalveDiverted(s, key, holes, p, h, 0, |s|);
    } else {
      HalveReaches(s, key, holes, p, 0, |s|);
    }
    assert forall i :: 0 <= i < |s| && i != p ==> Compare(s[i], key) != Equal;
  }

  /** No two joined keys sit in slots of which one is a left probe of the other. */
  ghost predicate ProbeFree<V>(o: Slots<V>, n: nat, keys: seq<Key>)
    requires Ordered(o, n)
  {
    forall p, m :: 0 <= m < p < n && o[p].value.key in keys && o[m].value.key in keys ==> !LeftProbe(0, |o|, p, m)
  }

  /** The result has exactly the entries of o whose keys are listed. */
  ghost predicate ExactJoin<V>(o: Slots<V>, n: nat, keys: seq<Key>, r: seq<Entry<V>>)
    requires Ordered(o, n)
  {
    forall i :: 0 <= i < n ==> (o[i].value.key in keys <==> o[i].value in r)
  }

  ghost function CountFilled<V>(s: Slots<V>): nat {
    if s == [] then 0 else CountFilled(s[..|s| - 1]) + if s[|s| - 1].Some? then 1 else 0
  }

  lemma {:induction false} CountPunched<V>(s: Slots<V>, j: nat)
    requires j < |s| && s[j].Some?
    ensures CountFilled(s[j := None]) == CountFilled(s) - 1
  {
    if j < |s| - 1 {
      CountPunched(s[..|s| - 1], j);
      assert s[j := None][..|s| - 1] == s[..|s| - 1][j := None];
    } else {
      assert s[j := None][..|s| - 1] == s[..|s| - 1];
    }
  }

  /** A join never yields more entries than there are filled slots. */
  lemma {:induction false} JoinCount<V>(s: Slots<V>, keys: seq<Key>)
    ensures |Join(s, keys)| <= CountFilled(s)
    decreases |keys|
  {
    if keys != [] {
      match Search(s, keys[0])
      case Hit(j) =>
        CountPunched(s, j);
        JoinCount(s[j := None], keys[1..]);
      case Miss(_) =>
        JoinCount(s, keys[1..]);
    }
  }

  /** Every joined entry is an untouched old entry under a listed key. */
  lemma {:induction false} JoinMember<V>(s: Slots<V>, keys: seq<Key>, e: Entry<V>)
    requires e in Join(s, keys)
    ensures Some(e) in s && e.key in keys
    decreases |keys|
  {
    match Search(s, keys[0])
    case Hit(j) =>
      if e == s[j].value {
        assert s[j] == Some(e);
      } else {
        var t := s[j := None];
        JoinMember(t, keys[1..], e);
        var i :| 0 <= i < |t| && t[i] == Some(e);
        assert s[i] == Some(e);
      }
    case Miss(_) =>
      JoinMember(s, keys[1..], e);
  }

  /** Joined entries come in ascending key order. */
  lemma {:induction false} JoinAscending<V>(s: Slots<V>, keys: seq<Key>, i: nat, j: nat)
    requires Ascending(keys) && i < j < |Join(s, keys)|
    ensures Join(s, keys)[i].key < Join(s, keys)[j].key
    decreases |keys|
  {
    var rest := keys[1..];
    match Search(s, keys[0])
    case Hit(x) =>
      var t := Join(s[x := None], rest);
      assert Join(s, keys) == [s[x].value] + t;
      if i == 0 {
        JoinMember(s[x := None], rest, t[j - 1]);
        var m :| 0 <= m < |rest| && rest[m] == t[j - 1].key;
        assert keys[0] < keys[m + 1];
      } else {
        JoinAscending(s[x := None], rest, i - 1, j - 1);
      }
    case Miss(_) =>
      JoinAscending(s, rest, i, j);
  }

  ghost predicate HolesBefore<V>(o: Slots<V>, n: nat, s: Slots<V>, holes: set<nat>, keys: seq<Key>) {
    && Ordered(o, n) && Punched(o, s, holes) && Ascending(keys)
    && (forall h :: h in holes ==> h < n && forall i :: 0 <= i < |keys| ==> o[h].value.key < keys[i])
  }

  /** Taking the hit slot out keeps the picture: the new hole carries the smallest of the listed keys. */
  lemma {:induction false} PunchStep<V>(o: Slots<V>, n: nat, s: Slots<V>, holes: set<nat>, keys: seq<Key>)
    requires HolesBefore(o, n, s, holes, keys) && keys != []
    ensures match Search(s, keys[0])
            case Hit(j) =>
              && j < n && s[j] == o[j] && o[j].value.key == keys[0]
              && HolesBefore(o, n, s[j := None], holes + {j}, keys[1..])
            case Miss(_) => HolesBefore(o, n, s, holes, keys[1..])
  {
    match Search(s, keys[0])
    case Hit(j) =>
      assert s[j] == o[j] && j < n;
      var s', holes' := s[j := None], holes + {j};
      assert forall i :: 0 <= i < |o| ==> s'[i] == if i in holes' then None else o[i];
    case Miss(_) =>
  }

  /**
   * Whether the join keeps the entry in slot p: its key is common, and no entry that the join keeps sits at a
   * left probe of p. All of this can be read off the two maps before the join.
   */
  ghost predicate Survives<V>(o: Slots<V>, keys: seq<Key>, p: nat)
    requires Filled(o, p + 1)
    decreases p
  {
    && o[p].value.key in keys
    && forall m: nat :: m < p && LeftProbe(0, |o|, p, m) ==> !Survives(o, keys, m)
  }

  /** The holes are those of the survivors whose keys are no longer listed. */
  ghost predicate HolesOfSurvivors<V>(o: Slots<V>, n: nat, holes: set<nat>, keys: seq<Key>, all: seq<Key>)
    requires Filled(o, n)
  {
    && (forall h :: h in holes ==> h < n && Survives(o, all, h))
    && (forall h: nat :: h < n && Survives(o, all, h) ==> h in holes || o[h].value.key in keys)
  }

  /** The search for the key of slot p hits exactly if p survives. */
  lemma {:induction false} SurvivorFound<V>(o: Slots<V>, n: nat, s: Slots<V>, holes: set<nat>, keys: seq<Key>,
                                            all: seq<Key>, p: nat)
    requires HolesBefore(o, n, s, holes, keys) && HolesOfSurvivors(o, n, holes, keys, all)
    requires p < n && keys != [] && o[p].value.key == keys[0] && keys[0] in all
    ensures Search(s, keys[0]) == Hit(p) <==> Survives(o, all, p)
    ensures Search(s, keys[0]).Hit? <==> Survives(o, all, p)
  {
    SearchPunched(o, n, s, holes, p);
    assert forall h :: h in holes ==> h < p;
    if m: nat :| m < p && LeftProbe(0, |o|, p, m) && Survives(o, all, m) {
      assert o[m].value.key < keys[0];
      assert m in holes;
    }
  }

  /** A key that is searched in vain is that of no survivor. */
  lemma {:induction false} MissStep<V>(o: Slots<V>, n: nat, s: Slots<V>, holes: set<nat>, keys: seq<Key>, all: seq<Key>)
    requires HolesBefore(o, n, s, holes, keys) && HolesOfSurvivors(o, n, holes, keys, all)
    requires keys != [] && keys[0] in all && Search(s, keys[0]).Miss?
    ensures HolesOfSurvivors(o, n, holes, keys[1..], all)
    ensures forall p: nat :: p < n && o[p].value.key == keys[0] ==> !Survives(o, all, p)
  {
    forall p: nat | p < n && o[p].value.key == keys[0] ensures !Survives(o, all, p) {
      SurvivorFound(o, n, s, holes, keys, all, p);
    }
  }

  /** A hit is a survivor and the next hole. */
  lemma {:induction false} HitStep<V>(o: Slots<V>, n: nat, s: Slots<V>, holes: set<nat>, keys: seq<Key>, all: seq<Key>,
                                      j: nat)
    requires HolesBefore(o, n, s, holes, keys) && HolesOfSurvivors(o, n, holes, keys, all)
    requires keys != [] && keys[0] in all && Search(s, keys[0]) == Hit(j)
    ensures j < n && s[j] == o[j] && o[j].value.key == keys[0] && Survives(o, all, j)
    ensures HolesOfSurvivors(o, n, holes + {j}, keys[1..], all)
  {
    PunchStep(o, n, s, holes, keys);
    SurvivorFound(o, n, s, holes, keys, all, j);
  }

  ghost predicate JoinsSurvivors<V>(o: Slots<V>, n: nat, keys: seq<Key>, all: seq<Key>, r: seq<Entry<V>>)
    requires Filled(o, n)
  {
    forall p: nat :: p < n && o[p].value.key in keys ==> (o[p].value in r <==> Survives(o, all, p))
  }

  /** What is left to be joined are the survivors among the slots with listed keys. */
  lemma {:induction false} JoinRest<V>(o: Slots<V>, n: nat, s: Slots<V>, holes: set<nat>, keys: seq<Key>,
                                       all: seq<Key>)
    requires HolesBefore(o, n, s, holes, keys) && HolesOfSurvivors(o, n, holes, keys, all)
    requires forall k :: k in keys ==> k in all
    ensures JoinsSurvivors(o, n, keys, all, Join(s, keys))
    decreases |keys|
  {
    if keys != [] {
      var rest := keys[1..];
      PunchStep(o, n, s, holes, keys);
      JoinUnfold(s, keys);
      match Search(s, keys[0])
      case Hit(j) =>
        HitStep(o, n, s, holes, keys, all, j);
        JoinRest(o, n, s[j := None], holes + {j}, rest, all);
        HitJoins(o, n, keys, all, j, Join(s[j := None], rest));
      case Miss(_) =>
        MissStep(o, n, s, holes, keys, all);
        JoinRest(o, n, s, holes, rest, all);
        JoinedAreListed(s, rest);
        MissJoins(o, n, keys, all, Join(s, rest));
    }
  }

  lemma {:induction false} JoinedAreListed<V>(s: Slots<V>, keys: seq<Key>)
    ensures forall e :: e in Join(s, keys) ==> e.key in keys
  {
    forall e | e in Join(s, keys) ensures e.key in keys {
      JoinMember(s, keys, e);
    }
  }

  lemma {:induction false} HitJoins<V>(o: Slots<V>, n: nat, keys: seq<Key>, all: seq<Key>, j: nat, r: seq<Entry<V>>)
    requires Ordered(o, n) && keys != [] && j < n && o[j].value.key == keys[0] && Survives(o, all, j)
    requires JoinsSurvivors(o, n, keys[1..], all, r)
    ensures JoinsSurvivors(o, n, keys, all, [o[j].value] + r)
  {
  }

  lemma {:induction false} MissJoins<V>(o: Slots<V>, n: nat, keys: seq<Key>, all: seq<Key>, r: seq<Entry<V>>)
    requires Ordered(o, n) && keys != [] && Ascending(keys) && JoinsSurvivors(o, n, keys[1..], all, r)
    requires forall p: nat :: p < n && o[p].value.key == keys[0] ==> !Survives(o, all, p)
    requires forall e :: e in r ==> e.key in keys[1..]
    ensures JoinsSurvivors(o, n, keys, all, r)
  {
  }

  /** An entry is joined if and only if its key is common and no joined entry sits at one of its left probes. */
  lemma {:induction false} JoinSurvivors<V>(o: Slots<V>, n: nat, keys: seq<Key>)
    requires Ordered(o, n) && Ascending(keys)
    ensures forall p: nat :: p < n ==> (o[p].value in Join(o, keys) <==> Survives(o, keys, p))
  {
    var none: set<nat> := {};
    assert HolesBefore(o, n, o, none, keys);
    JoinRest(o, n, o, none, keys, keys);
    forall p: nat | p < n && o[p].value in Join(o, keys) ensures o[p].value.key in keys {
      JoinMember(o, keys, o[p].value);
    }
  }

  /** The surviving entries among the first n slots, in slot order. */
  ghost function SurvivorsUpTo<V>(o: Slots<V>, keys: seq<Key>, n: nat): seq<Entry<V>>
    requires Filled(o, n)
  {
    if n == 0 then []
    else SurvivorsUpTo(o, keys, n - 1) + if Survives(o, keys, n - 1) then [o[n - 1].value] else []
  }

  lemma {:induction false} SurvivorsMembers<V>(o: Slots<V>, keys: seq<Key>, n: nat)
    requires Filled(o, n)
    ensures forall e :: e in SurvivorsUpTo(o, keys, n) ==>
              exists p: nat :: p < n && Survives(o, keys, p) && e == o[p].value
    ensures forall p: nat :: p < n && Survives(o, keys, p) ==> o[p].value in SurvivorsUpTo(o, keys, n)
  {
    if n > 0 {
      SurvivorsMembers(o, keys, n - 1);
    }
  }

  lemma {:induction false} SurvivorsSorted<V>(o: Slots<V>, n: nat, keys: seq<Key>, m: nat)
    requires Ordered(o, n) && m <= n
    ensures Sorted(SurvivorsUpTo(o, keys, m))
  {
    if m > 0 {
      SurvivorsSorted(o, n, keys, m - 1);
      var b := SurvivorsUpTo(o, keys, m - 1);
      SurvivorsMembers(o, keys, m - 1);
      if b != [] {
        assert b[|b| - 1] in b;
      }
      AppendSortedOnly(b, o[m - 1].value);
      assert b + [] == b;
    }
  }

  lemma {:induction false} AppendSortedOnly<V>(c: seq<Entry<V>>, e: Entry<V>)
    requires Sorted(c) && (c == [] || c[|c| - 1].key < e.key)
    ensures Sorted(c + [e])
  {
    assert (c + [e])[..|c|] == c;
  }

  /** Sorted entries are determined by their members. */
  lemma {:induction false} SortedSame<V>(r: seq<Entry<V>>, q: seq<Entry<V>>)
    requires Sorted(r) && Sorted(q)
    requires (forall e :: e in r ==> e in q) && forall e :: e in q ==> e in r
    ensures r == q
  {
    assert r == [] || r[0] in r;
    assert q == [] || q[0] in q;
    if r != [] {
      var a, b, x, y := r[..|r| - 1], q[..|q| - 1], r[|r| - 1], q[|q| - 1];
      SortedLast(r);
      SortedLast(q);
      assert x in r && y in q;
      assert x == y;
      assert r == a + [x] && q == b + [x];
      forall e | e in a ensures e in b {
        assert e in r && e != x;
      }
      forall e | e in b ensures e in a {
        assert e in q && e != x;
      }
      SortedSame(a, b);
    }
  }

  lemma {:induction false} SortedLast<V>(c: seq<Entry<V>>)
    requires Sorted(c) && c != []
    ensures forall e :: e in c[..|c| - 1] ==> e.key < c[|c| - 1].key
    ensures forall e :: e in c ==> e == c[|c| - 1] || e in c[..|c| - 1]
  {
    forall e | e in c[..|c| - 1] ensures e.key < c[|c| - 1].key {
      var i :| 0 <= i < |c| - 1 && c[i] == e;
      SortedAt(c, i, |c| - 1);
    }
    assert c == c[..|c| - 1] + [c[|c| - 1]];
  }

  /** The join is the sequence of the survivors. */
  lemma {:induction false} JoinIsSurvivors<V>(o: Slots<V>, n: nat, keys: seq<Key>)
    requires Ordered(o, n) && Ascending(keys)
    ensures Join(o, keys) == SurvivorsUpTo(o, keys, n)
  {
    var r := Join(o, keys);
    JoinSurvivors(o, n, keys);
    SurvivorsMembers(o, keys, n);
    SurvivorsSorted(o, n, keys, n);
    forall i, j | 0 <= i < j < |r| ensures r[i].key < r[j].key {
      JoinAscending(o, keys, i, j);
    }
    SortedPairs(r);
    forall e | e in r ensures e in SurvivorsUpTo(o, keys, n) {
      JoinMember(o, keys, e);
    }
    SortedSame(r, SurvivorsUpTo(o, keys, n));
  }

  /** Of the common keys at least the least one survives. */
  lemma {:induction false} FirstSurvives<V>(o: Slots<V>, keys: seq<Key>, p: nat)
    requires Filled(o, p + 1) && o[p].value.key in keys
    ensures exists m: nat :: m <= p && Survives(o, keys, m)
    decreases p
  {
    if m: nat :| m < p && o[m].value.key in keys {
      FirstSurvives(o, keys, m);
    } else {
      assert Survives(o, keys, p);
    }
  }

  /**
   * The key join yields the intersection exactly when no joined key sits at a left probe of another joined key.
   * Both sides of the condition can be read off the two maps before the join.
   */
  lemma {:induction false} JoinExact<V>(o: Slots<V>, n: nat, keys: seq<Key>)
    requires Ordered(o, n) && Ascending(keys)
    ensures ExactJoin(o, n, keys, Join(o, keys)) <==> ProbeFree(o, n, keys)
  {
    JoinSurvivors(o, n, keys);
    if !ProbeFree(o, n, keys) {
      var p, m :| 0 <= m < p < n && o[p].value.key in keys && o[m].value.key in keys && LeftProbe(0, |o|, p, m);
      assert !(Survives(o, keys, p) && Survives(o, keys, m));
    }
  }

  /** At the default capacity of 1024, joining both the third and the fourth entry always loses one of them. */
  lemma {:induction false} JoinLosesFourth<V>(o: Slots<V>, n: nat, keys: seq<Key>)
    requires Ordered(o, n) && Ascending(keys) && |o| == 1024 && n >= 4
    requires o[2].value.key in keys && o[3].value.key in keys
    ensures !(o[2].value in Join(o, keys) && o[3].value in Join(o, keys))
    ensures !ExactJoin(o, n, keys, Join(o, keys))
  {
    assert LeftProbe(0, 4, 3, 2);
    assert LeftProbe(0, 16, 3, 2) by { assert LeftProbe(0, 8, 3, 2); }
    assert LeftProbe(0, 64, 3, 2) by { assert LeftProbe(0, 32, 3, 2); }
    assert LeftProbe(0, 256, 3, 2) by { assert LeftProbe(0, 128, 3, 2); }
    assert LeftProbe(0, 1024, 3, 2) by { assert LeftProbe(0, 512, 3, 2); }
    JoinSurvivors(o, n, keys);
    assert !(Survives(o, keys, 3) && Survives(o, keys, 2));
  }

  /** Of five slots the third is a left probe of both behind it, and none of the first three is one of another. */
  lemma {:induction false} ProbesOfFive()
    ensures LeftProbe(0, 5, 3, 2) && LeftProbe(0, 5, 4, 2)
    ensures forall p: nat, m: nat :: p < 3 && m < p ==> !LeftProbe(0, 5, p, m)
  {
    forall p: nat, m: nat | p < 3 && m < p ensures !LeftProbe(0, 5, p, m) {
      assert LeftProbe(0, 5, p, m) == if p < 2 then LeftProbe(0, 3, p, m) else LeftProbe(2, 3, p, m);
    }
  }

  lemma {:induction false} SurvivorsOfFive<V>(o: Slots<V>, keys: seq<Key>)
    requires |o| == 5 && Filled(o, 3) && forall i :: 0 <= i < 3 ==> o[i].value.key in keys
    ensures Survives(o, keys, 0) && Survives(o, keys, 1) && Survives(o, keys, 2)
    ensures forall p: nat :: 3 <= p < 5 && Filled(o, p + 1) ==> !Survives(o, keys, p)
  {
    ProbesOfFive();
    assert Survives(o, keys, 2);
  }

  /** If a join of five slots keeps the first three entries, it keeps nothing else. */
  lemma {:induction false} JoinOfFive<V>(o: Slots<V>, n: nat, keys: seq<Key>)
    requires Ordered(o, n) && Ascending(keys) && |o| == 5 && n >= 3
    requires forall i :: 0 <= i < 3 ==> o[i].value.key in keys
    ensures Join(o, keys) == [o[0].value, o[1].value, o[2].value]
  {
    SurvivorsOfFive(o, keys);
    JoinIsSurvivors(o, n, keys);
    assert SurvivorsUpTo(o, keys, 1) == [o[0].value];
    assert SurvivorsUpTo(o, keys, 2) == [o[0].value, o[1].value];
    assert SurvivorsUpTo(o, keys, 3) == [o[0].value, o[1].value, o[2].value];
    NoMoreSurvivors(o, keys, 3, n);
  }

  lemma {:induction false} NoMoreSurvivors<V>(o: Slots<V>, keys: seq<Key>, m: nat, n: nat)
    requires m <= n && Filled(o, n) && forall p: nat :: m <= p < n ==> !Survives(o, keys, p)
    ensures SurvivorsUpTo(o, keys, n) == SurvivorsUpTo(o, keys, m)
  {
    if m < n {
      NoMoreSurvivors(o, keys, m, n - 1);
    }
  }

  /** Joining a full map of the keys 1 to 5 with itself keeps only the first three of them. */
  lemma {:induction false} SelfJoinLosesKeys(s: Slots<int>)
    requires |s| == 5 && forall i :: 0 <= i < 5 ==> s[i] == Some(Entry(i + 1, 0))
    ensures Ordered(s, 5) && Join(s, [1, 2, 3, 4, 5]) == [Entry(1, 0), Entry(2, 0), Entry(3, 0)]
  {
    JoinOfFive(s, 5, [1, 2, 3, 4, 5]);
  }

  lemma {:induction false} JoinUnfold<V>(s: Slots<V>, keys: seq<Key>)
    requires keys != []
    ensures Join(s, keys) == match Search(s, keys[0])
                             case Hit(j) => [s[j].value] + Join(s[j := None], keys[1..])
                             case Miss(_) => Join(s, keys[1..])
  {
  }

  /** The variant that leaves the searched array alone: entries are copied out instead of taken. */
  function JoinKeeping<V>(s: Slots<V>, keys: seq<Key>): seq<Entry<V>> {
    if keys == [] then []
    else match Search(s, keys[0])
      case Hit(j) => [s[j].value] + JoinKeeping(s, keys[1..])
      case Miss(_) => JoinKeeping(s, keys[1..])
  }

  lemma {:induction false} JoinKeepingExact<V>(s: Slots<V>, n: nat, keys: seq<Key>)
    requires Ordered(s, n) && Ascending(keys)
    ensures ExactJoin(s, n, keys, JoinKeeping(s, keys))
    ensures forall e :: e in JoinKeeping(s, keys) ==> Some(e) in s
  {
    if keys != [] {
      JoinKeepingExact(s, n, keys[1..]);
      SearchOrdered(s, n, keys[0]);
    }
  }

  // ---- Packed entries ----

  /** Strictly ascending keys, checked pair by pair. */
  ghost predicate Sorted<V>(c: seq<Entry<V>>) {
    |c| <= 1 || (c[|c| - 2].key < c[|c| - 1].key && Sorted(c[..|c| - 1]))
  }

  lemma {:induction false} SortedPairs<V>(c: seq<Entry<V>>)
    ensures Sorted(c) <==> forall i, j :: 0 <= i < j < |c| ==> c[i].key < c[j].key
  {
    if |c| > 1 {
      var d := c[..|c| - 1];
      SortedPairs(d);
      assert forall i :: 0 <= i < |d| ==> d[i] == c[i];
      if Sorted(c) {
        forall i, j | 0 <= i < j < |c| ensures c[i].key < c[j].key {
          assert d[|d| - 1].key < c[|c| - 1].key;
          assert i < |d| - 1 ==> d[i].key < d[|d| - 1].key;
        }
      }
    }
  }

  /** The entries in the first slots, empty slots behind them. */
  ghost function Pack<V>(c: seq<Entry<V>>, capacity: nat): (s: Slots<V>)
    ensures |s| == capacity
    ensures forall i :: 0 <= i < capacity ==> s[i] == if i < |c| then Some(c[i]) else None
  {
    if capacity == 0 then []
    else Pack(c, capacity - 1) + [if capacity <= |c| then Some(c[capacity - 1]) else None]
  }

  lemma {:induction false} CountPacked<V>(c: seq<Entry<V>>, capacity: nat)
    ensures CountFilled(Pack(c, capacity)) == if |c| <= capacity then |c| else capacity
  {
    if capacity > 0 {
      CountPacked(c, capacity - 1);
      assert Pack(c, capacity)[..capacity - 1] == Pack(c, capacity - 1);
    }
  }

  lemma {:induction false} PackOrdered<V>(c: seq<Entry<V>>, capacity: nat)
    requires Sorted(c) && |c| <= capacity
    ensures Ordered(Pack(c, capacity), |c|)
  {
    SortedPairs(c);
  }

  ghost function MapOf<V>(c: seq<Entry<V>>): map<Key, V> {
    if c == [] then map[] else MapOf(c[..|c| - 1])[c[|c| - 1].key := c[|c| - 1].val]
  }

  /** The entries and the map hold the same associations. */
  ghost predicate Represents<V>(c: seq<Entry<V>>, m: map<Key, V>) {
    && (forall i :: 0 <= i < |c| ==> c[i].key in m && m[c[i].key] == c[i].val)
    && (forall k :: k in m ==> exists i :: 0 <= i < |c| && c[i].key == k)
  }

  lemma {:induction false} MapOfRepresents<V>(c: seq<Entry<V>>)
    requires Sorted(c)
    ensures Represents(c, MapOf(c)) && |MapOf(c)| == |c|
  {
    if c != [] {
      var d, last := c[..|c| - 1], c[|c| - 1];
      MapOfRepresents(d);
      forall i | 0 <= i < |d| ensures d[i].key < last.key {
        SortedAt(c, i, |c| - 1);
      }
      RepresentsOneMore(d, MapOf(d), last);
      assert d + [last] == c;
    }
  }

  lemma {:induction false} RepresentsOneMore<V>(c: seq<Entry<V>>, m: map<Key, V>, e: Entry<V>)
    requires Represents(c, m) && forall i :: 0 <= i < |c| ==> c[i].key < e.key
    ensures Represents(c + [e], m[e.key := e.val]) && |m[e.key := e.val]| == |m| + 1
  {
    var d, n := c + [e], m[e.key := e.val];
    assert e.key !in m;
    assert d[|c|] == e;
    forall k | k in n ensures exists i :: 0 <= i < |d| && d[i].key == k {
      if k != e.key {
        var i :| 0 <= i < |c| && c[i].key == k;
        assert d[i].key == k;
      }
    }
    SizeOfUpdate(m, e.key, e.val);
  }

  lemma {:induction false} SizeOfUpdate<K, V>(m: map<K, V>, k: K, v: V)
    requires k !in m
    ensures |m[k := v]| == |m| + 1
  {
    assert m[k := v] - {k} == m;
  }

  lemma {:induction false} SearchPacked<V>(c: seq<Entry<V>>, capacity: nat, key: Key)
    requires Sorted(c) && |c| <= capacity
    ensures match Search(Pack(c, capacity), key)
            case Hit(i) => i < |c| && c[i].key == key && key in MapOf(c) && MapOf(c)[key] == c[i].val
            case Miss(i) =>
              && i <= |c| && key !in MapOf(c)
              && (forall j :: 0 <= j < i ==> c[j].key < key)
              && (forall j :: i <= j < |c| ==> key < c[j].key)
  {
    var s := Pack(c, capacity);
    PackOrdered(c, capacity);
    SearchOrdered(s, |c|, key);
    MapOfRepresents(c);
    assert forall j :: 0 <= j < |c| ==> s[j] == Some(c[j]);
  }

  lemma {:induction false} SortedAt<V>(c: seq<Entry<V>>, i: nat, j: nat)
    requires Sorted(c) && i < j < |c|
    ensures c[i].key < c[j].key
  {
    if j < |c| - 1 {
      SortedAt(c[..|c| - 1], i, j);
    } else if i < |c| - 2 {
      SortedAt(c[..|c| - 1], i, j - 1);
    }
  }

  lemma {:induction false} KeysAtMost<V>(c: seq<Entry<V>>, k: Key)
    requires Sorted(c) && k in MapOf(c)
    ensures k <= c[|c| - 1].key
  {
    if k != c[|c| - 1].key {
      KeysAtMost(c[..|c| - 1], k);
    }
  }

  lemma {:induction false} UpdatesCommute<K, V>(m: map<K, V>, a: K, x: V, b: K, y: V)
    requires a != b
    ensures m[a := x][b := y] == m[b := y][a := x]
    ensures (m - {a})[b := y] == m[b := y] - {a}
  {
  }

  lemma {:induction false} UpdateUndone<K, V>(m: map<K, V>, a: K, x: V)
    requires a !in m
    ensures m[a := x] - {a} == m
  {
  }

  lemma {:induction false} AppendSorted<V>(c: seq<Entry<V>>, e: Entry<V>)
    requires Sorted(c) && (c == [] || c[|c| - 1].key < e.key)
    ensures Sorted(c + [e]) && MapOf(c + [e]) == MapOf(c)[e.key := e.val]
  {
    assert (c + [e])[..|c|] == c;
  }

  lemma {:induction false} InsertAt<V>(c: seq<Entry<V>>, i: nat, e: Entry<V>)
    requires Sorted(c) && i <= |c|
    requires i == 0 || c[i - 1].key < e.key
    requires i == |c| || e.key < c[i].key
    ensures Sorted(c[..i] + [e] + c[i..]) && MapOf(c[..i] + [e] + c[i..]) == MapOf(c)[e.key := e.val]
  {
    var d := c[..i] + [e] + c[i..];
    if i == |c| {
      assert d == c + [e];
      AppendSorted(c, e);
    } else {
      var b, last := c[..|c| - 1], c[|c| - 1];
      InsertAt(b, i, e);
      if i < |c| - 1 {
        SortedAt(c, i, |c| - 1);
      }
      var shorter := b[..i] + [e] + b[i..];
      assert d == shorter + [last];
      AppendSorted(shorter, last);
      UpdatesCommute(MapOf(b), e.key, e.val, last.key, last.val);
    }
  }

  /** The entries without the one in place i, when that is not the last. */
  lemma {:induction false} RemoveBefore<V>(c: seq<Entry<V>>, i: nat)
    requires Sorted(c) && i < |c| - 1
    ensures var b := c[..|c| - 1];
            var shorter := b[..i] + b[i + 1..];
            && c[..i] + c[i + 1..] == shorter + [c[|c| - 1]]
            && (shorter == [] || shorter[|shorter| - 1].key < c[|c| - 1].key)
  {
    var b := c[..|c| - 1];
    var shorter := b[..i] + b[i + 1..];
    if shorter != [] {
      var x := if i == |c| - 2 then |c| - 3 else |c| - 2;
      assert shorter[|shorter| - 1] == c[x];
      SortedAt(c, x, |c| - 1);
    }
  }

  lemma {:induction false} RemoveAt<V>(c: seq<Entry<V>>, i: nat)
    requires Sorted(c) && i < |c|
    ensures Sorted(c[..i] + c[i + 1..]) && MapOf(c[..i] + c[i + 1..]) == MapOf(c) - {c[i].key}
  {
    var b, last := c[..|c| - 1], c[|c| - 1];
    if i == |c| - 1 {
      assert c[..i] + c[i + 1..] == b;
      if last.key in MapOf(b) {
        KeysAtMost(b, last.key);
      }
      UpdateUndone(MapOf(b), last.key, last.val);
    } else {
      RemoveAt(b, i);
      RemoveBefore(c, i);
      SortedAt(c, i, |c| - 1);
      AppendSorted(b[..i] + b[i + 1..], last);
      UpdatesCommute(MapOf(b), c[i].key, c[i].val, last.key, last.val);
    }
  }

  lemma {:induction false} SortedSameKeys<V>(c: seq<Entry<V>>, d: seq<Entry<V>>)
    requires Sorted(c) && |c| == |d| && forall i :: 0 <= i < |c| ==> d[i].key == c[i].key
    ensures Sorted(d)
  {
    SortedPairs(c);
    SortedPairs(d);
  }

  /** Keys of the one map are keys of the other. */
  lemma {:induction false} KeysIncluded<V>(c: seq<Entry<V>>, m: map<Key, V>, d: seq<Entry<V>>, n: map<Key, V>)
    requires Represents(c, m) && Represents(d, n)
    requires |c| == |d| && forall i :: 0 <= i < |c| ==> d[i].key == c[i].key
    ensures forall k :: k in m ==> k in n
  {
    forall k | k in m ensures k in n {
      var i :| 0 <= i < |c| && c[i].key == k;
      assert d[i].key == k;
    }
  }

  /** Changing values under unchanged keys. */
  lemma {:induction false} RevalueAll<V>(c: seq<Entry<V>>, d: seq<Entry<V>>)
    requires Sorted(c) && |c| == |d| && forall i :: 0 <= i < |c| ==> d[i].key == c[i].key
    ensures Sorted(d) && forall k :: k in MapOf(d) <==> k in MapOf(c)
    ensures forall i :: 0 <= i < |c| ==> c[i].key in MapOf(d) && MapOf(d)[c[i].key] == d[i].val
  {
    SortedSameKeys(c, d);
    MapOfRepresents(c);
    MapOfRepresents(d);
    KeysIncluded(c, MapOf(c), d, MapOf(d));
    KeysIncluded(d, MapOf(d), c, MapOf(c));
  }

  lemma {:induction false} UpdateTwice<K, V>(m: map<K, V>, k: K, x: V, y: V)
    ensures m[k := x][k := y] == m[k := y]
  {
  }

  lemma {:induction false} RevalueOne<V>(c: seq<Entry<V>>, i: nat, v: V)
    requires Sorted(c) && i < |c|
    ensures Sorted(c[i := Entry(c[i].key, v)])
    ensures MapOf(c[i := Entry(c[i].key, v)]) == MapOf(c)[c[i].key := v]
  {
    var d, b, last := c[i := Entry(c[i].key, v)], c[..|c| - 1], c[|c| - 1];
    SortedSameKeys(c, d);
    if i == |c| - 1 {
      assert d[..|c| - 1] == b;
      UpdateTwice(MapOf(b), last.key, last.val, v);
    } else {
      RevalueOne(b, i, v);
      SortedAt(c, i, |c| - 1);
      assert d[..|c| - 1] == b[i := Entry(c[i].key, v)];
      UpdatesCommute(MapOf(b), c[i].key, v, last.key, last.val);
    }
  }

  ghost function KeysOf<V>(c: seq<Entry<V>>): (r: seq<Key>)
    ensures |r| == |c| && forall i :: 0 <= i < |c| ==> r[i] == c[i].key
  {
    if c == [] then [] else KeysOf(c[..|c| - 1]) + [c[|c| - 1].key]
  }

  lemma {:induction false} KeysOfMap<V>(c: seq<Entry<V>>)
    requires Sorted(c)
    ensures Ascending(KeysOf(c))
    ensures forall k :: k in KeysOf(c) <==> k in MapOf(c)
  {
    SortedPairs(c);
    MapOfRepresents(c);
    var keys, m := KeysOf(c), MapOf(c);
    forall k | k in m ensures k in keys {
      var i :| 0 <= i < |c| && c[i].key == k;
      assert keys[i] == k;
    }
    forall k | k in keys ensures k in m {
      var i :| 0 <= i < |keys| && keys[i] == k;
      assert c[i].key in m;
    }
  }

  ghost predicate Subsumed<V>(m: map<Key, V>, n: map<Key, V>, keys: seq<Key>) {
    forall k :: k in m ==> k in n && k in keys && m[k] == n[k]
  }

  /** No entry with a common key sits at a left probe of another one. */
  ghost predicate ProbeFreeEntries<V>(c: seq<Entry<V>>, capacity: nat, keys: seq<Key>)
    requires |c| <= capacity
  {
    forall p, m :: 0 <= m < p < |c| && c[p].key in keys && c[m].key in keys ==> !LeftProbe(0, capacity, p, m)
  }

  /** A join leaves sorted old entries under common keys, and all of those just if they are probe-free. */
  lemma {:induction false} JoinPacked<V>(c: seq<Entry<V>>, capacity: nat, keys: seq<Key>)
    requires Sorted(c) && |c| <= capacity && Ascending(keys)
    ensures var r := Join(Pack(c, capacity), keys);
            && Sorted(r) && |r| <= |c|
            && Subsumed(MapOf(r), MapOf(c), keys)
            && (ProbeFreeEntries(c, capacity, keys) <==> forall k :: k in MapOf(c) && k in keys ==> k in MapOf(r))
  {
    JoinSorted(c, capacity, keys);
    JoinSubsumed(c, capacity, keys);
    JoinCount(Pack(c, capacity), keys);
    CountPacked(c, capacity);
    JoinPackedWhole(c, capacity, keys, MapOf(Join(Pack(c, capacity), keys)));
  }

  lemma {:induction false} JoinPackedWhole<V>(c: seq<Entry<V>>, capacity: nat, keys: seq<Key>, m: map<Key, V>)
    requires Sorted(c) && |c| <= capacity && Ascending(keys) && m == MapOf(Join(Pack(c, capacity), keys))
    ensures ProbeFreeEntries(c, capacity, keys) <==> forall k :: k in MapOf(c) && k in keys ==> k in m
  {
    if ProbeFreeEntries(c, capacity, keys) {
      forall k | k in MapOf(c) && k in keys ensures k in m {
        var p :| 0 <= p < |c| && c[p].key == k by { MapOfRepresents(c); }
        JoinedKey(c, capacity, keys, p);
      }
    } else {
      var p, q :| 0 <= q < p < |c| && c[p].key in keys && c[q].key in keys && LeftProbe(0, capacity, p, q);
      JoinedKey(c, capacity, keys, p);
      JoinedKey(c, capacity, keys, q);
    }
  }

  lemma {:induction false} JoinSorted<V>(c: seq<Entry<V>>, capacity: nat, keys: seq<Key>)
    requires Ascending(keys)
    ensures Sorted(Join(Pack(c, capacity), keys))
  {
    var r := Join(Pack(c, capacity), keys);
    forall i, j | 0 <= i < j < |r| ensures r[i].key < r[j].key {
      JoinAscending(Pack(c, capacity), keys, i, j);
    }
    SortedPairs(r);
  }

  lemma {:induction false} JoinSubsumed<V>(c: seq<Entry<V>>, capacity: nat, keys: seq<Key>)
    requires Sorted(c) && |c| <= capacity && Ascending(keys) && Sorted(Join(Pack(c, capacity), keys))
    ensures Subsumed(MapOf(Join(Pack(c, capacity), keys)), MapOf(c), keys)
  {
    var s := Pack(c, capacity);
    var r := Join(s, keys);
    MapOfRepresents(r);
    MapOfRepresents(c);
    var m, n := MapOf(r), MapOf(c);
    forall k | k in m ensures k in n && k in keys && m[k] == n[k] {
      var i :| 0 <= i < |r| && r[i].key == k;
      JoinMember(s, keys, r[i]);
      var j :| 0 <= j < |s| && s[j] == Some(r[i]);
      assert c[j] == r[i];
    }
  }

  /** A key survives the join of sorted entries just if its entry does. */
  lemma {:induction false} JoinedKey<V>(c: seq<Entry<V>>, capacity: nat, keys: seq<Key>, p: nat)
    requires Sorted(c) && |c| <= capacity && Ascending(keys) && p < |c|
    ensures c[p].key in MapOf(c)
    ensures c[p].key in MapOf(Join(Pack(c, capacity), keys)) <==> Survives(Pack(c, capacity), keys, p)
  {
    var s := Pack(c, capacity);
    var r := Join(s, keys);
    PackOrdered(c, capacity);
    JoinSurvivors(s, |c|, keys);
    assert s[p].value == c[p];
    JoinSorted(c, capacity, keys);
    JoinSubsumed(c, capacity, keys);
    MapOfRepresents(c);
    MapOfRepresents(r);
    if c[p] in r {
      var j :| 0 <= j < |r| && r[j] == c[p];
    }
    if c[p].key in MapOf(r) {
      JoinedEntry(c, r, p);
    }
  }

  lemma {:induction false} JoinedEntry<V>(c: seq<Entry<V>>, r: seq<Entry<V>>, i: nat)
    requires Sorted(c) && Sorted(r) && i < |c| && c[i].key in MapOf(r) && c[i].key in MapOf(c)
    requires MapOf(r)[c[i].key] == MapOf(c)[c[i].key]
    ensures c[i] in r
  {
    MapOfRepresents(c);
    MapOfRepresents(r);
    var j :| 0 <= j < |r| && r[j].key == c[i].key;
    assert r[j] == c[i];
  }
}
