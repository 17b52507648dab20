/**
 * The regions of one shared mapping that the tracer hands out to tracees, one thread per tracee.
 * Each thread is to see a private region that starts out zeroed.
 */
module SharedRegions {
  import opened Wrappers
  import opened Bytes

  type Thread = nat
  type Pid = nat

  const REGION_SIZE: nat := STACK_SAFE_ZONE_SIZE
  const MAX_TRACEES: nat := 8192
  const PAGE: nat := 4096

  datatype RegionError = MaxTracee | OffsetTooBig | BufferOverflow | LockGlobalMmap

  /** `bytes` put over `s` at `offset`. */
  function Overlay(s: seq<Byte>, offset: nat, bytes: seq<Byte>): (r: seq<Byte>)
    requires offset + |bytes| <= |s|
    ensures |r| == |s|
    ensures forall i :: 0 <= i < |s| ==> r[i] == if offset <= i < offset + |bytes| then bytes[i - offset] else s[i]
  {
    s[..offset] + bytes + s[offset + |bytes|..]
  }

  const MAPPING_SIZE: nat := MAX_TRACEES * REGION_SIZE

  /** Where byte i of a region lies in the mapping, for the tracer. */
  function Position(id: nat, i: nat): nat {
    id * REGION_SIZE + i
  }

  /** A region and a byte in it are told from the position by dividing it. */
  lemma {:induction false} PositionDivides(id: nat, i: nat)
    requires i < REGION_SIZE
    ensures Position(id, i) / REGION_SIZE == id && Position(id, i) % REGION_SIZE == i
  {
    var p := Position(id, i);
    var q, r := p / REGION_SIZE, p % REGION_SIZE;
    assert (q - id) * REGION_SIZE == i - r;
  }

  /** Bytes of different regions never coincide, all lie inside the mapping, and regions start on pages. */
  lemma {:induction false} RegionsApart(id: nat, i: nat, id': nat, i': nat)
    requires id < MAX_TRACEES && id' < MAX_TRACEES && i < REGION_SIZE && i' < REGION_SIZE
    ensures Position(id, i) == Position(id', i') ==> id == id' && i == i'
    ensures Position(id, i) < MAPPING_SIZE
    ensures id * REGION_SIZE / PAGE * PAGE == Position(id, 0)
  {
    PositionDivides(id, i);
    PositionDivides(id', i');
    var pages := REGION_SIZE / PAGE;
    assert id * REGION_SIZE == id * pages * PAGE;
    assert id * pages * PAGE / PAGE == id * pages;
  }

  /** The bytes of one region. */
  function Region(mapping: seq<Byte>, id: nat): (r: seq<Byte>)
    requires |mapping| == MAPPING_SIZE && id < MAX_TRACEES
    ensures |r| == REGION_SIZE
  {
    mapping[Position(id, 0)..Position(id, 0) + REGION_SIZE]
  }

  /** A write inside one region is a write to that region alone. */
  lemma {:induction false} WriteInRegion(mapping: seq<Byte>, id: nat, offset: nat, bytes: seq<Byte>)
    requires |mapping| == MAPPING_SIZE && id < MAX_TRACEES && offset + |bytes| <= REGION_SIZE
    ensures Position(id, offset) + |bytes| <= MAPPING_SIZE
    ensures var after := Overlay(mapping, Position(id, offset), bytes);
            && Region(after, id) == Overlay(Region(mapping, id), offset, bytes)
            && forall other :: 0 <= other < MAX_TRACEES && other != id ==>
                 Region(after, other) == Region(mapping, other)
  {
    var at := Position(id, offset);
    var after := Overlay(mapping, at, bytes);
    assert Region(after, id) == Overlay(Region(mapping, id), offset, bytes);
    forall other, i | 0 <= other < MAX_TRACEES && other != id && 0 <= i < REGION_SIZE
      ensures Region(after, other)[i] == Region(mapping, other)[i]
    {
      forall x: nat | x < REGION_SIZE ensures Position(id, x) != Position(other, i) {
        RegionsApart(id, x, other, i);
      }
    }
  }

  lemma {:induction false} OverlayAll(s: seq<Byte>, bytes: seq<Byte>)
    requires |s| == |bytes|
    ensures Overlay(s, 0, bytes) == bytes
  {
  }

  ghost predicate Distinct(ids: seq<nat>) {
    forall i, j :: 0 <= i < j < |ids| ==> ids[i] != ids[j]
  }

  /** Free ids are distinct, and their regions are all zero. */
  ghost predicate FreeAndZero(mapping: seq<Byte>, ids: seq<nat>)
    requires |mapping| == MAPPING_SIZE
  {
    && Distinct(ids)
    && forall i :: 0 <= i < |ids| ==> ids[i] < MAX_TRACEES && Region(mapping, ids[i]) == Zeros(REGION_SIZE)
  }

  lemma {:induction false} OneMoreFree(mapping: seq<Byte>, ids: seq<nat>, id: nat, after: seq<Byte>)
    requires |mapping| == |after| == MAPPING_SIZE && id < MAX_TRACEES && id !in ids
    requires FreeAndZero(mapping, ids) && OthersStay(mapping, id, after) && Region(after, id) == Zeros(REGION_SIZE)
    ensures FreeAndZero(after, ids + [id])
  {
  }

  lemma {:induction false} OneLessFree(mapping: seq<Byte>, ids: seq<nat>)
    requires |mapping| == MAPPING_SIZE && ids != [] && FreeAndZero(mapping, ids)
    ensures var id, rest := ids[|ids| - 1], ids[..|ids| - 1];
            id < MAX_TRACEES && Region(mapping, id) == Zeros(REGION_SIZE) && id !in rest && FreeAndZero(mapping, rest)
  {
    assert forall i :: 0 <= i < |ids| - 1 ==> ids[..|ids| - 1][i] == ids[i];
  }

  lemma {:induction false} SizeOfUpdate<K, V>(m: map<K, V>, k: K, v: V)
    requires k !in m
    ensures |m[k := v]| == |m| + 1
  {
    assert m[k := v] - {k} == m;
  }

  lemma {:induction false} SizeOfRemoval<K, V>(m: map<K, V>, k: K)
    requires k in m
    ensures |m - {k}| == |m| - 1
  {
    assert m == (m - {k})[k := m[k]];
  }

  ghost predicate OthersStay(mapping: seq<Byte>, id: nat, after: seq<Byte>)
    requires |mapping| == |after| == MAPPING_SIZE
  {
    forall other :: 0 <= other < MAX_TRACEES && other != id ==> Region(after, other) == Region(mapping, other)
  }

  /** The fields of the allocator and its ghost fields, as a value. */
  datatype Table = Table(available: seq<nat>, byPid: map<Pid, nat>, cache: map<Thread, nat>, mapping: seq<Byte>,
                         open: map<Thread, Pid>, own: map<Thread, seq<Byte>>)

  /** What one open thread may rely on. */
  ghost predicate Holds(s: Table, t: Thread)
    requires t in s.open && |s.mapping| == MAPPING_SIZE
  {
    && t in s.cache && s.open[t] in s.byPid && s.byPid[s.open[t]] == s.cache[t]
    && s.cache[t] < MAX_TRACEES && s.cache[t] !in s.available
    && t in s.own && s.own[t] == Region(s.mapping, s.cache[t])
  }

  /** No two open threads share an id or a tracee. */
  ghost predicate Unshared(s: Table)
    requires forall t :: t in s.open ==> t in s.cache
  {
    forall t, u :: t in s.open && u in s.open && t != u ==> s.cache[t] != s.cache[u] && s.open[t] != s.open[u]
  }

  /** Every id is either free or held by just one open thread. */
  ghost predicate Sound(s: Table) {
    && |s.mapping| == MAPPING_SIZE && FreeAndZero(s.mapping, s.available)
    && |s.available| + |s.open| == MAX_TRACEES
    && (forall t :: t in s.open ==> t in s.cache && Holds(s, t))
    && Unshared(s)
  }

  lemma {:induction false} WithoutLast<T>(s: seq<T>)
    requires s != []
    ensures s == s[..|s| - 1] + [s[|s| - 1]]
  {
  }

  /** The last free id goes to a thread. */
  ghost function Taken(s: Table, t: Thread, pid: Pid): Table
    requires s.available != []
  {
    var id := s.available[|s.available| - 1];
    Table(s.available[..|s.available| - 1], s.byPid[pid := id], s.cache[t := id], s.mapping, s.open[t := pid],
          s.own[t := Zeros(REGION_SIZE)])
  }

  lemma {:induction false} TakenHolds(s: Table, t: Thread, pid: Pid, u: Thread)
    requires Sound(s) && t !in s.cache && s.available != [] && u in s.open[t := pid]
    requires forall u :: u in s.open ==> s.open[u] != pid
    ensures Holds(Taken(s, t, pid), u)
  {
    OneLessFree(s.mapping, s.available);
    if u != t {
      assert Holds(s, u);
      assert s.cache[u] !in s.available[..|s.available| - 1];
    }
  }

  lemma {:induction false} TakenSound(s: Table, t: Thread, pid: Pid)
    requires Sound(s) && t !in s.cache && s.available != []
    requires forall u :: u in s.open ==> s.open[u] != pid
    ensures Sound(Taken(s, t, pid)) && s.available[|s.available| - 1] < MAX_TRACEES
  {
    var s', id := Taken(s, t, pid), s.available[|s.available| - 1];
    OneLessFree(s.mapping, s.available);
    SizeOfUpdate(s.open, t, pid);
    forall u | u in s'.open ensures Holds(s', u) {
      TakenHolds(s, t, pid, u);
    }
    forall u | u in s.open ensures s.cache[u] != id {
      assert Holds(s, u) && id in s.available;
    }
  }

  lemma {:induction false} WrittenSound(s: Table, t: Thread, offset: nat, bytes: seq<Byte>)
    requires Sound(s) && t in s.open && Holds(s, t) && offset + |bytes| <= REGION_SIZE
    ensures Position(s.cache[t], offset) + |bytes| <= MAPPING_SIZE
    ensures var after := Overlay(s.mapping, Position(s.cache[t], offset), bytes);
            && OthersStay(s.mapping, s.cache[t], after)
            && Sound(s.(mapping := after, own := s.own[t := Overlay(s.own[t], offset, bytes)]))
  {
    WriteInRegion(s.mapping, s.cache[t], offset, bytes);
    var s' := s.(mapping := Overlay(s.mapping, Position(s.cache[t], offset), bytes),
                 own := s.own[t := Overlay(s.own[t], offset, bytes)]);
    forall u | u in s'.open ensures Holds(s', u) {
      assert Holds(s, u);
    }
  }

  /** The region of a thread is zeroed, and its id is free again. */
  ghost function Closed(s: Table, t: Thread, pid: Pid): Table
    requires t in s.cache && |s.mapping| == MAPPING_SIZE && s.cache[t] < MAX_TRACEES
  {
    s.(byPid := s.byPid - {pid}, mapping := Overlay(s.mapping, Position(s.cache[t], 0), Zeros(REGION_SIZE)),
       available := s.available + [s.cache[t]], open := s.open - {t})
  }

  lemma {:induction false} ClosedSound(s: Table, t: Thread)
    requires Sound(s) && t in s.open && Holds(s, t)
    ensures Sound(Closed(s, t, s.open[t])) && OthersStay(s.mapping, s.cache[t], Closed(s, t, s.open[t]).mapping)
  {
    var s', id := Closed(s, t, s.open[t]), s.cache[t];
    WriteInRegion(s.mapping, id, 0, Zeros(REGION_SIZE));
    OverlayAll(Region(s.mapping, id), Zeros(REGION_SIZE));
    OneMoreFree(s.mapping, s.available, id, s'.mapping);
    SizeOfRemoval(s.open, t);
    forall u | u in s'.open ensures Holds(s', u) {
      assert Holds(s, u) && u in s.open && u != t;
    }
  }

  class Regions {
    /** Free ids, taken and returned at the end. */
    var available: seq<nat>
    var byPid: map<Pid, nat>
    /** The id that a thread has cached for itself; it is never cleared. */
    var cache: map<Thread, nat>
    /** All regions, one behind the other. */
    var mapping: seq<Byte>
    /** Threads that hold a region, with their tracees. */
    ghost var open: map<Thread, Pid>
    /** What each of them wrote, as if it had memory of its own. */
    ghost var own: map<Thread, seq<Byte>>

    ghost function Abs(): Table
      reads this
    {
      Table(available, byPid, cache, mapping, open, own)
    }

    ghost predicate Valid()
      reads this
    {
      Sound(Abs())
    }

    constructor ()
      ensures Valid() && open == map[] && cache == map[]
      ensures |available| == MAX_TRACEES
    {
      available := seq(MAX_TRACEES, i => i);
      byPid, cache := map[], map[];
      mapping := Zeros(MAPPING_SIZE);
      open, own := map[], map[];
    }

    /** Gets the thread's region or takes a free one. A new region is all zero and nobody else's. */
    method GetOwnRegionId(t: Thread, pid: Pid) returns (r: Result<nat, RegionError>)
      requires Valid()
      requires t in cache ==> t in open && open[t] == pid
      requires t !in cache ==> forall u :: u in open ==> open[u] != pid
      modifies this
      ensures Valid() && mapping == old(mapping)
      ensures r.Err? <==> t !in old(cache) && |old(open)| == MAX_TRACEES
      ensures available == if r.Err? || t in old(cache) then old(available)
                           else old(available)[..|old(available)| - 1]
      ensures r.Ok? && t !in old(cache) ==> old(available) == available + [r.value]
      ensures r.Err? ==> r.error == MaxTracee && open == old(open) && own == old(own)
      ensures r.Ok? ==> t in open && open == old(open)[t := pid] && t in cache && cache[t] == r.value < MAX_TRACEES
      ensures r.Ok? ==> own == if t in old(open) then old(own) else old(own)[t := Zeros(REGION_SIZE)]
      ensures cache == if r.Ok? then old(cache)[t := r.value] else old(cache)
    {
      if t in cache {
        assert Holds(Abs(), t);
        assert open == open[t := pid] && cache == cache[t := cache[t]];
        return Ok(cache[t]);
      }
      if available == [] {
        return Err(MaxTracee);
      }
      var id := TakeRegion(t, pid);
      r := Ok(id);
    }

    method TakeRegion(t: Thread, pid: Pid) returns (id: nat)
      requires Valid() && t !in cache && available != []
      requires forall u :: u in open ==> open[u] != pid
      modifies this
      ensures Valid() && id < MAX_TRACEES && old(available) == available + [id]
      ensures Abs() == Taken(old(Abs()), t, pid)
    {
      ghost var after := Taken(Abs(), t, pid);
      TakenSound(Abs(), t, pid);
      WithoutLast(available);
      id := available[|available| - 1];
      available := available[..|available| - 1];
      cache := cache[t := id];
      byPid := byPid[pid := id];
      open, own := after.open, after.own;
    }

    /** Writes into the thread's own region only; a write that does not fit changes nothing. */
    method WriteBytes(t: Thread, pid: Pid, base: nat, offset: nat, bytes: seq<Byte>)
      returns (r: Result<(nat, nat), RegionError>)
      requires Valid() && t in open && open[t] == pid
      modifies this
      ensures Valid() && open == old(open) && cache == old(cache) && available == old(available)
      ensures r.Ok? <==> offset < REGION_SIZE && offset + |bytes| <= REGION_SIZE
      ensures r.Ok? ==> r.value == (base + offset, offset + |bytes|)
      ensures r.Err? ==> mapping == old(mapping) && own == old(own)
      ensures r.Ok? ==> Position(cache[t], offset) + |bytes| <= |old(mapping)|
                        && mapping == Overlay(old(mapping), Position(cache[t], offset), bytes)
      ensures r.Ok? ==> own == old(own)[t := Overlay(old(own)[t], offset, bytes)]
      ensures r.Ok? ==> OthersStay(old(mapping), cache[t], mapping)
    {
      assert Holds(Abs(), t);
      var newOffset := offset + |bytes|;
      if offset >= REGION_SIZE {
        return Err(OffsetTooBig);
      }
      if newOffset > REGION_SIZE {
        return Err(BufferOverflow);
      }
      var id := cache[t];
      WrittenSound(Abs(), t, offset, bytes);
      mapping := Overlay(mapping, Position(id, offset), bytes);
      own := own[t := Overlay(own[t], offset, bytes)];
      r := Ok((base + offset, newOffset));
    }

    /** Zeroes the region and puts its id back. The lookup cannot fail for a thread that holds a region. */
    method CloseTracee(t: Thread, pid: Pid) returns (r: Result<(), RegionError>)
      requires Valid() && t in open && open[t] == pid
      modifies this
      ensures r.Ok?
      ensures Valid() && open == old(open) - {t} && cache == old(cache)
      ensures available == old(available) + [old(cache)[t]]
      ensures Position(cache[t], 0) + REGION_SIZE <= |old(mapping)|
              && mapping == Overlay(old(mapping), Position(cache[t], 0), Zeros(REGION_SIZE))
      ensures own == old(own)
      ensures OthersStay(old(mapping), cache[t], mapping)
    {
      assert Holds(Abs(), t);
      if pid !in byPid {
        return Err(LockGlobalMmap);
      }
      ClosedSound(Abs(), t);
      var id := byPid[pid];
      byPid := byPid - {pid};
      mapping := Overlay(mapping, Position(id, 0), Zeros(REGION_SIZE));
      available := available + [id];
      open := open - {t};
      assert Abs() == Closed(old(Abs()), t, pid);
      r := Ok(());
    }
  }
}
