/**
 * How pocker reads a program's argument vector from tracee memory and rebuilds it behind an
 * interpreter. The vector is scanned as bytes up to eight zeroes in a row.
 */
module ArgvRebuild {
  import opened Wrappers
  import opened Bytes

  /** A pointer as it lies in memory: eight bytes. */
  type Pointer = seq<Byte>

  // ---- Scanning ----

  /**
   * The bytes in front of the one that completes a run of n0 zeroes, after `zeros` of them; None if there
   * is no such run.
   */
  function Scan(mem: seq<Byte>, n0: nat, zeros: nat): Option<seq<Byte>> {
    if mem == [] then None
    else if mem[0] == 0 && zeros + 1 >= n0 then Some([])
    else Cons(mem[0], Scan(mem[1..], n0, if mem[0] == 0 then zeros + 1 else 0))
  }

  function Cons(b: Byte, r: Option<seq<Byte>>): Option<seq<Byte>> {
    match r
    case None => None
    case Some(bs) => Some([b] + bs)
  }

  function Prepend(bs: seq<Byte>, r: Option<seq<Byte>>): Option<seq<Byte>> {
    match r
    case None => None
    case Some(more) => Some(bs + more)
  }

  /**
   * Both readers: memory is fetched in chunks of a word or of 1024 bytes, and each byte is examined in
   * turn. For every chunk size the outcome is that of the scan, provided the last chunk can be read whole.
   */
  method ReadUntilZeroes(mem: seq<Byte>, n0: nat, chunk: nat) returns (r: Option<seq<Byte>>)
    requires chunk > 0
    ensures r.Some? ==> r == Scan(mem, n0, 0)
    ensures r.None? ==> Scan(mem, n0, 0).None? || |Scan(mem, n0, 0).value| + chunk > |mem|
  {
    var result: seq<Byte> := [];
    var totalZeroes: nat := 0;
    var curr: nat := 0;
    assert mem[0..] == mem;
    PrependNothing(Scan(mem, n0, 0));
    while curr + chunk <= |mem|
      invariant |result| == curr <= |mem|
      invariant Scan(mem, n0, 0) == Prepend(result, Scan(mem[curr..], n0, totalZeroes))
      decreases |mem| - curr
    {
      for i := curr to curr + chunk
        invariant |result| == i
        invariant Scan(mem, n0, 0) == Prepend(result, Scan(mem[i..], n0, totalZeroes))
      {
        var byte := mem[i];
        assert mem[i..][0] == byte && mem[i..][1..] == mem[i + 1..];
        PrependCons(result, byte, Scan(mem[i + 1..], n0, if byte == 0 then totalZeroes + 1 else 0));
        if byte == 0 {
          totalZeroes := totalZeroes + 1;
          if totalZeroes >= n0 {
            assert result + [] == result;
            return Some(result);
          }
        } else {
          totalZeroes := 0;
        }
        result := result + [byte];
      }
      curr := curr + chunk;
    }
    r := None;
  }

  lemma {:induction false} PrependNothing(r: Option<seq<Byte>>)
    ensures Prepend([], r) == r
  {
    if r.Some? {
      assert [] + r.value == r.value;
    }
  }

  lemma {:induction false} PrependCons(bs: seq<Byte>, b: Byte, r: Option<seq<Byte>>)
    ensures Prepend(bs, Cons(b, r)) == Prepend(bs + [b], r)
  {
    if r.Some? {
      assert bs + ([b] + r.value) == bs + [b] + r.value;
    }
  }

  /** The n0 bytes that end with byte i are all zero. */
  ghost predicate RunEndsAt(mem: seq<Byte>, n0: nat, i: nat)
    requires i < |mem|
  {
    n0 <= i + 1 && forall x :: i + 1 - n0 <= x <= i ==> mem[x] == 0
  }

  /** With `zeros` zero bytes in front of the memory, the n0 bytes that end with byte i are all zero. */
  ghost predicate RunEndsBehind(mem: seq<Byte>, n0: nat, zeros: nat, i: nat)
    requires i < |mem|
  {
    n0 <= zeros + i + 1 && forall x :: 0 <= x <= i && i + 1 - n0 <= x ==> mem[x] == 0
  }

  /** The scan yields what lies in front of the byte that ends the first run of n0 zeroes, and None if there is none. */
  lemma {:induction false} ScanExactly(mem: seq<Byte>, n0: nat)
    requires n0 > 0
    ensures match Scan(mem, n0, 0)
            case None => forall i: nat :: i < |mem| ==> !RunEndsAt(mem, n0, i)
            case Some(bs) =>
              && |bs| < |mem| && bs == mem[..|bs|] && RunEndsAt(mem, n0, |bs|)
              && forall i: nat :: i < |bs| ==> !RunEndsAt(mem, n0, i)
  {
    ScanBehind(mem, n0, 0);
    forall i: nat | i < |mem| ensures RunEndsAt(mem, n0, i) <==> RunEndsBehind(mem, n0, 0, i) {
    }
  }

  lemma {:induction false} ScanBehind(mem: seq<Byte>, n0: nat, zeros: nat)
    requires n0 > 0 && zeros < n0
    ensures match Scan(mem, n0, zeros)
            case None => forall i: nat :: i < |mem| ==> !RunEndsBehind(mem, n0, zeros, i)
            case Some(bs) =>
              && |bs| < |mem| && bs == mem[..|bs|] && RunEndsBehind(mem, n0, zeros, |bs|)
              && forall i: nat :: i < |bs| ==> !RunEndsBehind(mem, n0, zeros, i)
  {
    if mem != [] && !(mem[0] == 0 && zeros + 1 >= n0) {
      var rest, next := mem[1..], if mem[0] == 0 then zeros + 1 else 0;
      ScanBehind(rest, n0, next);
      forall i: nat | i < |rest| ensures RunEndsBehind(mem, n0, zeros, i + 1) <==> RunEndsBehind(rest, n0, next, i) {
        RunBehindRest(mem, n0, zeros, i);
      }
      assert !RunEndsBehind(mem, n0, zeros, 0);
      forall i: nat | 0 < i < |mem| ensures RunEndsBehind(mem, n0, zeros, i) <==> RunEndsBehind(rest, n0, next, i - 1) {
        assert i - 1 + 1 == i;
      }
    }
  }

  lemma {:induction false} RunBehindRest(mem: seq<Byte>, n0: nat, zeros: nat, i: nat)
    requires n0 > 0 && zeros < n0 && i + 1 < |mem|
    ensures var next := if mem[0] == 0 then zeros + 1 else 0;
            RunEndsBehind(mem, n0, zeros, i + 1) <==> RunEndsBehind(mem[1..], n0, next, i)
  {
    var rest := mem[1..];
    assert forall x :: 0 < x < |mem| ==> mem[x] == rest[x - 1];
    assert forall x :: 0 <= x < |rest| ==> rest[x] == mem[x + 1];
  }

  // ---- Zero runs across pointers ----

  function Lead(bs: seq<Byte>): nat {
    if bs == [] || bs[0] != 0 then 0 else 1 + Lead(bs[1..])
  }

  /** The length of the zero run at the end, given the run before the first byte. */
  function RunEnd(bs: seq<Byte>, zeros: nat): nat {
    if bs == [] then zeros else RunEnd(bs[1..], if bs[0] == 0 then zeros + 1 else 0)
  }

  function Trail(bs: seq<Byte>): nat {
    RunEnd(bs, 0)
  }

  /** Scanning these bytes does not complete a run. */
  predicate NoHit(bs: seq<Byte>, n0: nat, zeros: nat) {
    bs == [] ||
    if bs[0] == 0 then zeros + 1 < n0 && NoHit(bs[1..], n0, zeros + 1) else NoHit(bs[1..], n0, 0)
  }

  lemma {:induction false} ScanPast(bs: seq<Byte>, more: seq<Byte>, n0: nat, zeros: nat)
    requires NoHit(bs, n0, zeros)
    ensures Scan(bs + more, n0, zeros) == Prepend(bs, Scan(more, n0, RunEnd(bs, zeros)))
  {
    if bs == [] {
      assert bs + more == more;
      PrependNothing(Scan(more, n0, zeros));
    } else {
      var z := if bs[0] == 0 then zeros + 1 else 0;
      assert (bs + more)[1..] == bs[1..] + more;
      ScanPast(bs[1..], more, n0, z);
      var r := Scan(more, n0, RunEnd(bs, zeros));
      assert r.Some? ==> [bs[0]] + (bs[1..] + r.value) == bs + r.value;
    }
  }

  lemma {:induction false} FewBytesNoHit(bs: seq<Byte>, n0: nat, zeros: nat)
    requires zeros + |bs| < n0
    ensures NoHit(bs, n0, zeros)
  {
    if bs != [] {
      FewBytesNoHit(bs[1..], n0, if bs[0] == 0 then zeros + 1 else 0);
    }
  }

  /** A word that is not zero is passed if the run before it and its leading zeroes stay below a word. */
  lemma {:induction false} WordNoHit(w: seq<Byte>, zeros: nat)
    requires |w| <= WORD && zeros + Lead(w) < WORD && Lead(w) < |w|
    ensures NoHit(w, WORD, zeros) && RunEnd(w, zeros) == Trail(w) && Trail(w) < |w|
  {
    if w[0] == 0 {
      WordNoHit(w[1..], zeros + 1);
      WordNoHit(w[1..], 1);
    } else {
      FewBytesNoHit(w[1..], WORD, 0);
      RunEndBound(w[1..], 0);
    }
  }

  lemma {:induction false} RunEndBound(bs: seq<Byte>, zeros: nat)
    ensures RunEnd(bs, zeros) <= zeros + |bs|
  {
    if bs != [] {
      RunEndBound(bs[1..], if bs[0] == 0 then zeros + 1 else 0);
    }
  }

  /** A run that is completed by the next zeroes. */
  lemma {:induction false} ScanZeroRun(mem: seq<Byte>, zeros: nat)
    requires zeros < WORD && |mem| >= WORD - zeros
    requires forall i :: 0 <= i < WORD - zeros ==> mem[i] == 0
    ensures Scan(mem, WORD, zeros) == Some(Zeros(WORD - 1 - zeros))
    decreases WORD - zeros
  {
    if zeros + 1 < WORD {
      ScanZeroRun(mem[1..], zeros + 1);
      assert [0] + Zeros(WORD - 2 - zeros) == Zeros(WORD - 1 - zeros);
    }
  }

  lemma {:induction false} LeadAreZeros(bs: seq<Byte>)
    ensures Lead(bs) <= |bs| && forall i :: 0 <= i < Lead(bs) ==> bs[i] == 0
  {
    if bs != [] && bs[0] == 0 {
      LeadAreZeros(bs[1..]);
      assert forall i :: 1 <= i < Lead(bs) ==> bs[i] == bs[1..][i - 1];
    }
  }

  /** The zero bytes at the front, and no more of them. */
  lemma {:induction false} LeadExactly(bs: seq<Byte>)
    ensures Lead(bs) <= |bs| && (forall i :: 0 <= i < Lead(bs) ==> bs[i] == 0)
    ensures Lead(bs) < |bs| ==> bs[Lead(bs)] != 0
  {
    LeadAreZeros(bs);
    if bs != [] && bs[0] == 0 {
      LeadExactly(bs[1..]);
    }
  }

  /** The zero bytes at the end, and no more of them. */
  lemma {:induction false} TrailExactly(bs: seq<Byte>)
    ensures Trail(bs) <= |bs| && forall i :: |bs| - Trail(bs) <= i < |bs| ==> bs[i] == 0
    ensures Trail(bs) < |bs| ==> bs[|bs| - Trail(bs) - 1] != 0
  {
    RunEndExactly(bs, 0);
  }

  lemma {:induction false} RunEndExactly(bs: seq<Byte>, zeros: nat)
    ensures RunEnd(bs, zeros) <= |bs| + zeros
    ensures forall i :: 0 <= i < |bs| && |bs| - RunEnd(bs, zeros) <= i ==> bs[i] == 0
    ensures RunEnd(bs, zeros) < |bs| ==> bs[|bs| - RunEnd(bs, zeros) - 1] != 0
    ensures |bs| <= RunEnd(bs, zeros) ==> RunEnd(bs, zeros) == |bs| + zeros || (bs != [] && bs[0] != 0)
  {
    if bs != [] {
      RunEndExactly(bs[1..], if bs[0] == 0 then zeros + 1 else 0);
    }
  }

  // ---- Argument vectors ----

  /** A pointer that is not null. */
  predicate IsPointer(p: seq<Byte>) {
    |p| == WORD && Lead(p) < WORD
  }

  ghost predicate Pointers(ps: seq<Pointer>) {
    forall i :: 0 <= i < |ps| ==> IsPointer(ps[i])
  }

  function Flat(ps: seq<Pointer>): seq<Byte> {
    if ps == [] then [] else ps[0] + Flat(ps[1..])
  }

  /** Pointer i of a flat vector stands at byte 8 * i. */
  lemma {:induction false} FlatAt(ps: seq<Pointer>, i: nat)
    requires i < |ps| && forall j :: 0 <= j < |ps| ==> |ps[j]| == WORD
    ensures |Flat(ps)| == WORD * |ps| && Flat(ps)[WORD * i..WORD * (i + 1)] == ps[i]
  {
    FlatLength(ps);
    if i > 0 {
      FlatAt(ps[1..], i - 1);
      assert Flat(ps)[WORD * i..WORD * (i + 1)] == Flat(ps[1..])[WORD * (i - 1)..WORD * i];
    }
  }

  lemma {:induction false} FlatLength(ps: seq<Pointer>)
    requires forall j :: 0 <= j < |ps| ==> |ps[j]| == WORD
    ensures |Flat(ps)| == WORD * |ps|
  {
    if ps != [] {
      FlatLength(ps[1..]);
    }
  }

  /** No eight zero bytes in a row span two neighbouring pointers. */
  ghost predicate NoStraddle(ps: seq<Pointer>) {
    forall i :: 0 < i < |ps| ==> Trail(ps[i - 1]) + Lead(ps[i]) < WORD
  }

  /** The number of pointers the scan gets past, after a run of `zeros`. */
  function Reached(ps: seq<Pointer>, zeros: nat): (m: nat)
    ensures m <= |ps|
  {
    if ps == [] || zeros + Lead(ps[0]) >= WORD then 0 else 1 + Reached(ps[1..], Trail(ps[0]))
  }

  lemma {:induction false} ReachedAll(ps: seq<Pointer>, zeros: nat)
    requires ps != []
    ensures Reached(ps, zeros) == |ps| <==> zeros + Lead(ps[0]) < WORD && NoStraddle(ps)
  {
    if zeros + Lead(ps[0]) < WORD && |ps| > 1 {
      var rest := ps[1..];
      ReachedAll(rest, Trail(ps[0]));
      if NoStraddle(ps) {
        assert Trail(ps[0]) + Lead(ps[1]) < WORD;
        forall i | 0 < i < |rest| ensures Trail(rest[i - 1]) + Lead(rest[i]) < WORD {
          assert Trail(ps[i + 1 - 1]) + Lead(ps[i + 1]) < WORD;
        }
      } else {
        var i :| 0 < i < |ps| && Trail(ps[i - 1]) + Lead(ps[i]) >= WORD;
        assert i > 1 ==> Trail(rest[i - 1 - 1]) + Lead(rest[i - 1]) >= WORD;
      }
    }
  }

  /** The zero run in front of the point where the scan stops. */
  function RunBefore(ps: seq<Pointer>, zeros: nat): nat {
    var m := Reached(ps, zeros);
    if m == 0 then zeros else Trail(ps[m - 1])
  }

  /** The scan of a null-terminated vector yields the pointers it gets past and the zeroes of the final run but one. */
  lemma {:induction false} ScanVector(ps: seq<Pointer>, rest: seq<Byte>, zeros: nat)
    requires Pointers(ps) && zeros < WORD
    ensures RunBefore(ps, zeros) < WORD
    ensures Scan(Flat(ps) + Zeros(WORD) + rest, WORD, zeros) ==
            Some(Flat(ps[..Reached(ps, zeros)]) + Zeros(WORD - 1 - RunBefore(ps, zeros)))
    decreases |ps|
  {
    var mem := Flat(ps) + Zeros(WORD) + rest;
    if Reached(ps, zeros) == 0 {
      if ps != [] {
        LeadAreZeros(ps[0]);
        assert forall i :: 0 <= i < WORD - zeros ==> mem[i] == ps[0][i];
      }
      ScanZeroRun(mem, zeros);
      assert Flat(ps[..0]) + Zeros(WORD - 1 - zeros) == Zeros(WORD - 1 - zeros);
    } else {
      var w, later := ps[0], ps[1..];
      WordNoHit(w, zeros);
      var more := Flat(later) + Zeros(WORD) + rest;
      assert mem == w + more;
      ScanPast(w, more, WORD, zeros);
      ScanVector(later, rest, Trail(w));
      var m := Reached(later, Trail(w));
      assert ps[..m + 1][1..] == later[..m];
      assert RunBefore(ps, zeros) == RunBefore(later, Trail(w));
      var z := Zeros(WORD - 1 - RunBefore(ps, zeros));
      assert w + (Flat(later[..m]) + z) == w + Flat(later[..m]) + z;
    }
  }

  /** The vector as the kernel reads it: words up to the null pointer. */
  function KernelArgv(bs: seq<Byte>): Option<seq<Pointer>> {
    if |bs| < WORD then None
    else if Lead(bs[..WORD]) >= WORD then Some([])
    else match KernelArgv(bs[WORD..])
      case None => None
      case Some(ps) => Some([bs[..WORD]] + ps)
  }

  ghost predicate AllZero(bs: seq<Byte>) {
    forall j :: 0 <= j < |bs| ==> bs[j] == 0
  }

  lemma {:induction false} TailSlice(bs: seq<Byte>, n: nat, from: nat, to: nat)
    requires n <= |bs| && from <= to <= |bs| - n
    ensures bs[n..][from..to] == bs[n + from..n + to]
  {
  }

  /** The kernel's pointers are the words of the vector in order, up to the first null word. */
  lemma {:induction false} KernelArgvAt(bs: seq<Byte>)
    requires KernelArgv(bs).Some?
    ensures var ps := KernelArgv(bs).value;
            && WORD * (|ps| + 1) <= |bs|
            && (forall i :: 0 <= i < |ps| ==> ps[i] == bs[WORD * i..WORD * (i + 1)] && !AllZero(ps[i]))
            && AllZero(bs[WORD * |ps|..WORD * (|ps| + 1)])
  {
    LeadExactly(bs[..WORD]);
    if Lead(bs[..WORD]) < WORD {
      var rest := bs[WORD..];
      KernelArgvAt(rest);
      var ps, later := KernelArgv(bs).value, KernelArgv(rest).value;
      assert ps[0] == bs[..WORD] && ps[1..] == later;
      assert !AllZero(ps[0]);
      forall i | 0 < i < |ps| ensures ps[i] == bs[WORD * i..WORD * (i + 1)] && !AllZero(ps[i]) {
        assert ps[i] == later[i - 1] && !AllZero(later[i - 1]);
        assert later[i - 1] == rest[WORD * (i - 1)..WORD * ((i - 1) + 1)];
        TailSlice(bs, WORD, WORD * (i - 1), WORD * i);
        assert WORD + WORD * (i - 1) == WORD * i && WORD + WORD * i == WORD * (i + 1);
      }
      var n := |later|;
      TailSlice(bs, WORD, WORD * n, WORD * (n + 1));
      assert |ps| == n + 1 && WORD + WORD * n == WORD * |ps| && WORD + WORD * (n + 1) == WORD * (|ps| + 1);
    }
  }

  lemma {:induction false} LeadOfZeros(n: nat)
    ensures Lead(Zeros(n)) == n
  {
    if n > 0 {
      assert Zeros(n)[1..] == Zeros(n - 1);
      LeadOfZeros(n - 1);
    }
  }

  /** The kernel sees the pointers of a null-terminated vector, whatever follows. */
  lemma {:induction false} KernelReads(ps: seq<Pointer>, rest: seq<Byte>)
    requires Pointers(ps)
    ensures KernelArgv(Flat(ps) + Zeros(WORD) + rest) == Some(ps)
  {
    var bs := Flat(ps) + Zeros(WORD) + rest;
    if ps == [] {
      assert bs[..WORD] == Zeros(WORD);
      LeadOfZeros(WORD);
    } else {
      assert bs[..WORD] == ps[0] && bs[WORD..] == Flat(ps[1..]) + Zeros(WORD) + rest;
      KernelReads(ps[1..], rest);
      assert [ps[0]] + ps[1..] == ps;
    }
  }

  /** The new vector: the prefix, the old bytes without their first pointer, and a null pointer. */
  method Rebuild(prefix: seq<Pointer>, argvBytes: seq<Byte>) returns (newArgv: seq<Byte>)
    requires |argvBytes| >= WORD
    ensures newArgv == Flat(prefix) + argvBytes[WORD..] + Zeros(WORD)
  {
    newArgv := [];
    assert prefix[0..] == prefix;
    for i := 0 to |prefix|
      invariant newArgv + Flat(prefix[i..]) == Flat(prefix)
    {
      assert prefix[i..][0] == prefix[i] && prefix[i..][1..] == prefix[i + 1..];
      assert newArgv + (prefix[i] + Flat(prefix[i + 1..])) == newArgv + prefix[i] + Flat(prefix[i + 1..]);
      newArgv := newArgv + prefix[i];
    }
    assert newArgv == Flat(prefix);
    newArgv := newArgv + argvBytes[WORD..];
    newArgv := newArgv + Zeros(WORD);
  }

  lemma {:induction false} FlatAppend(ps: seq<Pointer>, qs: seq<Pointer>)
    ensures Flat(ps + qs) == Flat(ps) + Flat(qs)
  {
    if ps == [] {
      assert ps + qs == qs;
    } else {
      assert (ps + qs)[0] == ps[0] && (ps + qs)[1..] == ps[1..] + qs;
      FlatAppend(ps[1..], qs);
    }
  }

  /** What the kernel sees of the rebuilt vector: the prefix and the later old arguments, as far as the scan got. */
  lemma {:induction false} RebuiltArgv(prefix: seq<Pointer>, ps: seq<Pointer>, rest: seq<Byte>)
    requires Pointers(prefix) && Pointers(ps) && ps != []
    ensures var m := Reached(ps, 0);
            var bytes := Scan(Flat(ps) + Zeros(WORD) + rest, WORD, 0);
            && 1 <= m && bytes.Some? && |bytes.value| >= WORD
            && KernelArgv(Flat(prefix) + bytes.value[WORD..] + Zeros(WORD)) == Some(prefix + ps[1..m])
  {
    var n := RebuiltBytes(prefix, ps, rest);
    KernelReads(prefix + ps[1..Reached(ps, 0)], Zeros(n));
  }

  /**
   * The program gets interpreter, program and its old arguments exactly when no eight zero bytes span two
   * neighbouring pointers; otherwise its arguments are cut off at the first such place.
   */
  lemma {:induction false} ArgvKeptIffNoStraddle(prefix: seq<Pointer>, ps: seq<Pointer>, rest: seq<Byte>)
    requires Pointers(prefix) && Pointers(ps) && ps != []
    ensures var bytes := Scan(Flat(ps) + Zeros(WORD) + rest, WORD, 0);
            && bytes.Some? && |bytes.value| >= WORD
            && (KernelArgv(Flat(prefix) + bytes.value[WORD..] + Zeros(WORD)) == Some(prefix + ps[1..]) <==>
                NoStraddle(ps))
  {
    RebuiltArgv(prefix, ps, rest);
    ReachedAll(ps, 0);
    var m := Reached(ps, 0);
    assert IsPointer(ps[0]);
    if m == |ps| {
      assert ps[1..m] == ps[1..];
    } else {
      assert |prefix + ps[1..m]| != |prefix + ps[1..]|;
    }
  }

  /** The addresses 0x10000 and 0x1000000 straddle: the kernel then sees the prefix and no arguments at all. */
  lemma {:induction false} StraddleCutsArgv(prefix: seq<Pointer>, rest: seq<Byte>)
    requires Pointers(prefix)
    ensures var ps := [[0, 0, 1, 0, 0, 0, 0, 0], [0, 0, 0, 1, 0, 0, 0, 0]];
            var bytes := Scan(Flat(ps) + Zeros(WORD) + rest, WORD, 0);
            && Pointers(ps) && !NoStraddle(ps)
            && bytes.Some? && |bytes.value| >= WORD
            && KernelArgv(Flat(prefix) + bytes.value[WORD..] + Zeros(WORD)) == Some(prefix)
  {
    var p, q: seq<Byte> := [0, 0, 1, 0, 0, 0, 0, 0], [0, 0, 0, 1, 0, 0, 0, 0];
    assert Lead(p) == 2 && Trail(p) == 5 by { LeadThenTrail(2, 5); assert p == Zeros(2) + [1] + Zeros(5); }
    assert Lead(q) == 3 by { LeadThenTrail(3, 4); assert q == Zeros(3) + [1] + Zeros(4); }
    StraddleCuts(prefix, p, q, rest);
  }

  lemma {:induction false} StraddleCuts(prefix: seq<Pointer>, p: Pointer, q: Pointer, rest: seq<Byte>)
    requires Pointers(prefix) && IsPointer(p) && IsPointer(q) && Trail(p) + Lead(q) >= WORD
    ensures var bytes := Scan(Flat([p, q]) + Zeros(WORD) + rest, WORD, 0);
            && Pointers([p, q]) && !NoStraddle([p, q])
            && bytes.Some? && |bytes.value| >= WORD
            && KernelArgv(Flat(prefix) + bytes.value[WORD..] + Zeros(WORD)) == Some(prefix)
  {
    var ps := [p, q];
    assert Trail(ps[0]) + Lead(ps[1]) >= WORD;
    RebuiltArgv(prefix, ps, rest);
    assert ps[1..] == [q] && Reached([q], Trail(p)) == 0 && Reached(ps, 0) == 1;
    assert prefix + ps[1..1] == prefix;
  }

  lemma {:induction false} LeadThenTrail(m: nat, n: nat)
    ensures Lead(Zeros(m) + [1] + Zeros(n)) == m && Trail(Zeros(m) + [1] + Zeros(n)) == n
  {
    TrailOf(m, n, 0);
    LeadOf(m, n);
  }

  lemma {:induction false} LeadOf(m: nat, n: nat)
    ensures Lead(Zeros(m) + [1] + Zeros(n)) == m
  {
    var bs := Zeros(m) + [1] + Zeros(n);
    if m > 0 {
      LeadOf(m - 1, n);
      assert bs[1..] == Zeros(m - 1) + [1] + Zeros(n);
    }
  }

  lemma {:induction false} TrailOf(m: nat, n: nat, zeros: nat)
    ensures RunEnd(Zeros(m) + [1] + Zeros(n), zeros) == n
  {
    var bs := Zeros(m) + [1] + Zeros(n);
    if m > 0 {
      TrailOf(m - 1, n, zeros + 1);
      assert bs[1..] == Zeros(m - 1) + [1] + Zeros(n);
    } else {
      RunEndOfZeros(n, 0);
      assert bs[1..] == Zeros(n);
    }
  }

  lemma {:induction false} RunEndOfZeros(n: nat, zeros: nat)
    ensures RunEnd(Zeros(n), zeros) == zeros + n
  {
    if n > 0 {
      RunEndOfZeros(n - 1, zeros + 1);
      assert Zeros(n)[1..] == Zeros(n - 1);
    }
  }

  /** The old arguments that a rebuilt vector carries on. */
  function KeptArgs(ps: seq<Pointer>): seq<Pointer> {
    if Reached(ps, 0) == 0 then [] else ps[1..Reached(ps, 0)]
  }

  /** These are all but the first one, exactly if no zero run straddles. */
  lemma {:induction false} KeptArgsAll(ps: seq<Pointer>)
    requires Pointers(ps) && ps != []
    ensures KeptArgs(ps) == ps[1..] <==> NoStraddle(ps)
  {
    ReachedAll(ps, 0);
    assert IsPointer(ps[0]);
    if Reached(ps, 0) == |ps| {
      assert KeptArgs(ps) == ps[1..];
    } else {
      assert |KeptArgs(ps)| != |ps[1..]|;
    }
  }

  /** The bytes of the rebuilt vector are again a vector, with some more zeroes behind its null pointer. */
  lemma {:induction false} RebuiltBytes(prefix: seq<Pointer>, ps: seq<Pointer>, rest: seq<Byte>) returns (n: nat)
    requires Pointers(prefix) && Pointers(ps) && ps != []
    ensures Pointers(prefix + KeptArgs(ps))
    ensures var bytes := Scan(Flat(ps) + Zeros(WORD) + rest, WORD, 0);
            && bytes.Some? && |bytes.value| >= WORD
            && Flat(prefix) + bytes.value[WORD..] + Zeros(WORD) ==
               Flat(prefix + KeptArgs(ps)) + Zeros(WORD) + Zeros(n)
  {
    ScanVector(ps, rest, 0);
    assert IsPointer(ps[0]);
    n := WORD - 1 - RunBefore(ps, 0);
    var reached, kept := ps[..Reached(ps, 0)], KeptArgs(ps);
    assert reached[1..] == kept;
    WithoutFirst(reached, n);
    FlatAppend(prefix, kept);
    BehindPrefix(Flat(prefix), Flat(kept), n);
  }

  lemma {:induction false} WithoutFirst(ps: seq<Pointer>, n: nat)
    requires Pointers(ps) && ps != []
    ensures |Flat(ps) + Zeros(n)| >= WORD && (Flat(ps) + Zeros(n))[WORD..] == Flat(ps[1..]) + Zeros(n)
  {
    assert IsPointer(ps[0]);
    assert Flat(ps) + Zeros(n) == ps[0] + (Flat(ps[1..]) + Zeros(n));
  }

  lemma {:induction false} BehindPrefix(a: seq<Byte>, b: seq<Byte>, n: nat)
    ensures a + (b + Zeros(n)) + Zeros(WORD) == a + b + Zeros(WORD) + Zeros(n)
  {
    assert Zeros(n) + Zeros(WORD) == Zeros(WORD) + Zeros(n);
    assert a + (b + Zeros(n)) + Zeros(WORD) == a + b + (Zeros(n) + Zeros(WORD));
  }

  /** An empty vector scans to seven bytes, one short of the pointer that is dropped from it. */
  lemma {:induction false} EmptyArgvTooShort(rest: seq<Byte>)
    ensures Scan(Zeros(WORD) + rest, WORD, 0) == Some(Zeros(WORD - 1))
  {
    ScanZeroRun(Zeros(WORD) + rest, 0);
  }
}
