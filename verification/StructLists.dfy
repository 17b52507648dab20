/**
 * Lists of variable-length C records in tracee memory, and their fixed-length Rust counterparts.
 * Writing drops zero words beyond a run of `criteria` of them; reading pads records with zeroes.
 *
 * Memory and structs are sequences of machine words of eight bytes. A struct starts with a header
 * of three words, whose last word carries the record size in its low sixteen bits.
 */
module StructLists {
  import opened Wrappers
  import opened Bytes

  type Word = nat
  type Struct = seq<Word>

  const HEADER_WORDS: nat := 3
  const MAX_STRUCT_WORDS: nat := 256
  const SIZE_RANGE: nat := 65536

  datatype PtraceError =
    | ItemTooBig
    | HeaderTooBig
    | InvalidItemSize
    | NotWordAligned
    | BufferOverflow

  function SizeField(header: seq<Word>): nat
    requires |header| >= HEADER_WORDS
  {
    header[2] % SIZE_RANGE
  }

  /** The size is stored as an unsigned short; the rest of the word stays. */
  function WithSize(s: Struct, size: nat): Struct
    requires |s| >= HEADER_WORDS
  {
    s[2 := s[2] / SIZE_RANGE * SIZE_RANGE + size % SIZE_RANGE]
  }

  /** Only the size changes. */
  lemma {:induction false} WithSizeSame(s: Struct, size: nat)
    requires |s| >= HEADER_WORDS
    ensures SameButSize(WithSize(s, size), s) && SameButSize(s, s)
    ensures SizeField(WithSize(s, size)) == size % SIZE_RANGE
  {
    var high, low := s[2] / SIZE_RANGE, size % SIZE_RANGE;
    assert (high * SIZE_RANGE + low) / SIZE_RANGE == high;
  }

  lemma {:induction false} SizeFieldOfWithSize(s: Struct, size: nat)
    requires |s| >= HEADER_WORDS && size < SIZE_RANGE
    ensures SizeField(WithSize(s, size)) == size
  {
  }

  // ---- Writing ----

  /** The words that are written for a struct body, after a run of `zeros` zero words. */
  function Shrunk(ws: seq<Word>, criteria: nat, zeros: nat): seq<Word> {
    if ws == [] then []
    else if ws[0] != 0 then [ws[0]] + Shrunk(ws[1..], criteria, 0)
    else (if zeros + 1 > criteria then [] else [0]) + Shrunk(ws[1..], criteria, zeros + 1)
  }

  lemma {:induction false} ShrunkLength(ws: seq<Word>, criteria: nat, zeros: nat)
    ensures |Shrunk(ws, criteria, zeros)| <= |ws|
  {
    if ws != [] {
      ShrunkLength(ws[1..], criteria, if ws[0] != 0 then 0 else zeros + 1);
    }
  }

  lemma {:induction false} ShrunkFrom(ws: seq<Word>, j: nat, criteria: nat, zeros: nat)
    requires j < |ws|
    ensures Shrunk(ws[j..], criteria, zeros) ==
            if ws[j] != 0 then [ws[j]] + Shrunk(ws[j + 1..], criteria, 0)
            else if zeros + 1 > criteria then Shrunk(ws[j + 1..], criteria, zeros + 1)
            else [0] + Shrunk(ws[j + 1..], criteria, zeros + 1)
  {
    assert ws[j..][0] == ws[j] && ws[j..][1..] == ws[j + 1..];
  }

  lemma {:induction false} Associative<T>(a: seq<T>, b: seq<T>, c: seq<T>)
    ensures (a + b) + c == a + (b + c)
  {
  }

  /** All words that are written if `done` was written in front of word j, behind a run of `zeros` zero words. */
  ghost function Written(done: seq<Word>, ws: seq<Word>, j: nat, criteria: nat, zeros: nat): (r: seq<Word>)
    requires j <= |ws|
    ensures |r| >= |done|
    decreases |ws| - j
  {
    if j == |ws| then done
    else if ws[j] == 0 && zeros + 1 > criteria then Written(done, ws, j + 1, criteria, zeros + 1)
    else Written(done + [ws[j]], ws, j + 1, criteria, if ws[j] != 0 then 0 else zeros + 1)
  }

  /** The writing loop arrives at the words that are to be written. */
  lemma {:induction false} WrittenIsShrunk(done: seq<Word>, ws: seq<Word>, j: nat, criteria: nat, zeros: nat)
    requires j <= |ws|
    ensures Written(done, ws, j, criteria, zeros) == done + Shrunk(ws[j..], criteria, zeros)
    decreases |ws| - j
  {
    if j < |ws| {
      ShrunkFrom(ws, j, criteria, zeros);
      var next := if ws[j] != 0 then 0 else zeros + 1;
      Associative(done, [ws[j]], Shrunk(ws[j + 1..], criteria, next));
      WrittenIsShrunk(if ws[j] == 0 && zeros + 1 > criteria then done else done + [ws[j]], ws, j + 1, criteria, next);
    }
  }

  /** Word j is dropped: it ends a run of more than `criteria` zero words. */
  predicate IsDropped(ws: seq<Word>, criteria: nat, j: nat)
    requires j < |ws|
  {
    criteria <= j && forall x: nat :: j - criteria <= x <= j ==> ws[x] == 0
  }

  /** How many of the first n words are kept. */
  function KeptWords(ws: seq<Word>, criteria: nat, n: nat): nat
    requires n <= |ws|
  {
    if n == 0 then 0 else KeptWords(ws, criteria, n - 1) + if IsDropped(ws, criteria, n - 1) then 0 else 1
  }

  /** The length of the zero run in front of word n, as far as it matters. */
  ghost predicate RunBefore(ws: seq<Word>, n: nat, zeros: nat)
    requires n <= |ws|
  {
    && zeros <= n && (forall x: nat :: n - zeros <= x < n ==> ws[x] == 0)
    && (zeros < n ==> ws[n - zeros - 1] != 0)
  }

  /** A word is written exactly if it is not dropped, in its turn. */
  lemma {:induction false} ShrunkExactly(ws: seq<Word>, criteria: nat)
    ensures |Shrunk(ws, criteria, 0)| == KeptWords(ws, criteria, |ws|)
    ensures forall j: nat :: j < |ws| && !IsDropped(ws, criteria, j) ==>
              var i := KeptWords(ws, criteria, j);
              i < |Shrunk(ws, criteria, 0)| && Shrunk(ws, criteria, 0)[i] == ws[j]
  {
    var all := Shrunk(ws, criteria, 0);
    WrittenIsShrunk([], ws, 0, criteria, 0);
    assert ws[0..] == ws && [] + all == all;
    WrittenExactly([], ws, 0, criteria, 0);
  }

  lemma {:induction false} WrittenExactly(done: seq<Word>, ws: seq<Word>, n: nat, criteria: nat, zeros: nat)
    requires n <= |ws| && RunBefore(ws, n, zeros) && |done| == KeptWords(ws, criteria, n)
    ensures Holds(done, ws, criteria, n, Written(done, ws, n, criteria, zeros))
    decreases |ws| - n
  {
    if n < |ws| {
      var next := if ws[n] != 0 then 0 else zeros + 1;
      RunGoesOn(ws, n, zeros);
      WrittenStep(done, ws, n, criteria, zeros);
      var done' := if IsDropped(ws, criteria, n) then done else done + [ws[n]];
      WrittenExactly(done', ws, n + 1, criteria, next);
      OneMoreHeld(done, ws, criteria, n, Written(done', ws, n + 1, criteria, next));
    }
  }

  lemma {:induction false} WrittenStep(done: seq<Word>, ws: seq<Word>, n: nat, criteria: nat, zeros: nat)
    requires n < |ws| && RunBefore(ws, n, zeros)
    ensures Written(done, ws, n, criteria, zeros) ==
            Written(if IsDropped(ws, criteria, n) then done else done + [ws[n]], ws, n + 1, criteria,
                    if ws[n] != 0 then 0 else zeros + 1)
  {
    DroppedAfterRun(ws, criteria, n, zeros);
  }

  /** The words from n on that are not dropped stand in r, each behind the kept ones in front of it. */
  ghost predicate HoldsKept(r: seq<Word>, ws: seq<Word>, criteria: nat, n: nat) {
    forall j: nat :: n <= j < |ws| && !IsDropped(ws, criteria, j) ==>
      KeptWords(ws, criteria, j) < |r| && r[KeptWords(ws, criteria, j)] == ws[j]
  }

  ghost predicate Holds(done: seq<Word>, ws: seq<Word>, criteria: nat, n: nat, r: seq<Word>) {
    |r| == KeptWords(ws, criteria, |ws|) && done <= r && HoldsKept(r, ws, criteria, n)
  }

  lemma {:induction false} OneMoreHeld(done: seq<Word>, ws: seq<Word>, criteria: nat, n: nat, r: seq<Word>)
    requires n < |ws| && |done| == KeptWords(ws, criteria, n)
    requires Holds(if IsDropped(ws, criteria, n) then done else done + [ws[n]], ws, criteria, n + 1, r)
    ensures Holds(done, ws, criteria, n, r)
  {
    if !IsDropped(ws, criteria, n) {
      PrefixOfLonger(done, ws[n], r);
    }
  }

  lemma {:induction false} PrefixOfLonger<T>(a: seq<T>, x: T, r: seq<T>)
    requires a + [x] <= r
    ensures a <= r && r[|a|] == x
  {
    assert r[|a|] == (a + [x])[|a|];
    assert a == (a + [x])[..|a|] == r[..|a| + 1][..|a|];
  }

  lemma {:induction false} RunGoesOn(ws: seq<Word>, n: nat, zeros: nat)
    requires n < |ws| && RunBefore(ws, n, zeros)
    ensures RunBefore(ws, n + 1, if ws[n] != 0 then 0 else zeros + 1)
  {
  }

  lemma {:induction false} DroppedAfterRun(ws: seq<Word>, criteria: nat, n: nat, zeros: nat)
    requires n < |ws| && RunBefore(ws, n, zeros)
    ensures IsDropped(ws, criteria, n) <==> ws[n] == 0 && zeros + 1 > criteria
  {
    if zeros < n && zeros < criteria <= n {
      var x: nat := n - zeros - 1;
      assert ws[x] != 0 && n - criteria <= x <= n;
    }
  }

  /** A record as written: the header's size is updated only if some word was dropped. */
  function Record(s: Struct, criteria: nat): seq<Word>
    requires |s| >= HEADER_WORDS
  {
    var body := Shrunk(s[HEADER_WORDS..], criteria, 0);
    ShrunkLength(s[HEADER_WORDS..], criteria, 0);
    var written := HEADER_WORDS + |body|;
    (if written < |s| then WithSize(s, WORD * written) else s)[..HEADER_WORDS] + body
  }

  ghost predicate Sized(items: seq<Struct>, t: nat) {
    forall i :: 0 <= i < |items| ==> |items[i]| == t
  }

  function Records(items: seq<Struct>, t: nat, criteria: nat): seq<Word>
    requires t >= HEADER_WORDS && Sized(items, t)
  {
    if items == [] then []
    else Records(items[..|items| - 1], t, criteria) + Record(items[|items| - 1], criteria)
  }

  /**
   * Whether a record of n words passes the checks against the limit when it is written from word `curr` on.
   * The check in front of each body word looks at the word's start only.
   */
  predicate Fits(curr: nat, n: nat, bufferSize: nat) {
    && WORD * (curr + HEADER_WORDS) <= bufferSize
    && (n > HEADER_WORDS ==> WORD * (curr + n - 1) < bufferSize)
  }

  /** Whether the whole list passes the checks: the last record decides. */
  predicate Accepts(items: seq<Struct>, t: nat, criteria: nat, bufferSize: nat)
    requires t >= HEADER_WORDS && Sized(items, t)
  {
    items == [] ||
    Fits(|Records(items[..|items| - 1], t, criteria)|, |Record(items[|items| - 1], criteria)|, bufferSize)
  }

  lemma {:induction false} AcceptsPrefix(items: seq<Struct>, t: nat, criteria: nat, bufferSize: nat, n: nat)
    requires t >= HEADER_WORDS && Sized(items, t) && n <= |items|
    requires Accepts(items, t, criteria, bufferSize)
    ensures Accepts(items[..n], t, criteria, bufferSize)
    decreases |items|
  {
    if n < |items| {
      AcceptsPrefix(items[..|items| - 1], t, criteria, bufferSize, n);
      assert items[..|items| - 1][..n] == items[..n];
    } else {
      assert items[..n] == items;
    }
  }

  /** A list that is refused does not fit, and one that is accepted exceeds the limit by less than a word. */
  lemma {:induction false} AcceptedSize(items: seq<Struct>, t: nat, criteria: nat, bufferSize: nat)
    requires t >= HEADER_WORDS && Sized(items, t)
    ensures var bytes := WORD * |Records(items, t, criteria)|;
            && (Accepts(items, t, criteria, bufferSize) ==> bytes < bufferSize + WORD)
            && (bytes <= bufferSize ==> Accepts(items, t, criteria, bufferSize))
  {
  }

  /** The words `done` were written over b0 from word `start` on; what lies before that is unchanged. */
  ghost predicate WrittenInto(b: seq<Word>, b0: seq<Word>, start: nat, done: seq<Word>) {
    && |b| == |b0| && start + |done| <= |b|
    && b[..start] == b0[..start] && b[start..start + |done|] == done
  }

  lemma {:induction false} WrittenOneMore(b: seq<Word>, b0: seq<Word>, start: nat, done: seq<Word>, w: Word)
    requires WrittenInto(b, b0, start, done) && start + |done| < |b|
    ensures WrittenInto(b[start + |done| := w], b0, start, done + [w])
  {
    var at := start + |done|;
    var c := b[at := w];
    assert c[..start] == b[..start];
    assert c[start..at + 1] == b[start..at] + [w];
  }

  /** The checked write of one word. */
  method WriteWord(buf: array<Word>, bufferSize: nat, at: nat, w: Word) returns (ok: bool)
    requires bufferSize <= WORD * buf.Length
    modifies buf
    ensures ok <==> WORD * at < bufferSize
    ensures ok ==> at < buf.Length && buf[..] == old(buf[..])[at := w]
    ensures !ok ==> buf[..] == old(buf[..])
  {
    if WORD * at >= bufferSize {
      return false;
    }
    buf[at] := w;
    ok := true;
  }

  /** Writes the body of a struct from word `start` on, and counts the words it drops. */
  method WriteBody(buf: array<Word>, bufferSize: nat, start: nat, body: seq<Word>, criteria: nat)
    returns (r: Result<nat, PtraceError>, skippedZeroes: nat)
    requires start <= buf.Length && bufferSize <= WORD * buf.Length
    modifies buf
    ensures r.Ok? ==> && r.value == start + |body| - skippedZeroes && start <= r.value <= buf.Length
                      && buf[start..r.value] == Shrunk(body, criteria, 0)
    ensures var n := |Shrunk(body, criteria, 0)|;
            r.Ok? <==> n == 0 || WORD * (start + n - 1) < bufferSize
    ensures r.Err? ==> r.error == BufferOverflow
    ensures buf[..start] == old(buf[..start])
  {
    var remainder, countZeroes: nat := start, 0;
    skippedZeroes := 0;
    ghost var b0, all, done := buf[..], Shrunk(body, criteria, 0), [];
    assert all == Written(done, body, 0, criteria, 0) by {
      WrittenIsShrunk([], body, 0, criteria, 0);
      assert body[0..] == body && [] + all == all;
    }
    assert b0[..start] == buf[..start];
    for j := 0 to |body|
      invariant remainder == start + |done| == start + j - skippedZeroes
      invariant done != [] ==> WORD * (remainder - 1) < bufferSize
      invariant Written(done, body, j, criteria, countZeroes) == all
      invariant WrittenInto(buf[..], b0, start, done)
    {
      if body[j] == 0 {
        countZeroes := countZeroes + 1;
        if countZeroes > criteria {
          skippedZeroes := skippedZeroes + 1;
          continue;
        }
      } else {
        countZeroes := 0;
      }
      ghost var b := buf[..];
      var ok := WriteWord(buf, bufferSize, remainder, body[j]);
      if !ok {
        assert buf[..start] == b0[..start];
        return Err(BufferOverflow), skippedZeroes;
      }
      WrittenOneMore(b, b0, start, done, body[j]);
      remainder := remainder + 1;
      done := done + [body[j]];
    }
    assert buf[..start] == b0[..start];
    r := Ok(remainder);
  }

  /** Writes one struct at word `curr`; the header goes last, once its size is known. */
  method WriteStruct(buf: array<Word>, bufferSize: nat, curr: nat, s: Struct, criteria: nat)
    returns (r: Result<nat, PtraceError>)
    requires |s| >= HEADER_WORDS && bufferSize <= WORD * buf.Length
    requires curr <= buf.Length
    modifies buf
    ensures r.Ok? ==> curr <= r.value <= buf.Length && buf[curr..r.value] == Record(s, criteria)
    ensures r.Ok? <==> Fits(curr, |Record(s, criteria)|, bufferSize)
    ensures r.Err? ==> r.error == BufferOverflow
    ensures buf[..curr] == old(buf[..curr])
  {
    var start := curr + HEADER_WORDS;
    if WORD * start > bufferSize {
      return Err(BufferOverflow);
    }
    var end, skipped := WriteBody(buf, bufferSize, start, s[HEADER_WORDS..], criteria);
    if end.Err? {
      return end;
    }
    var header := if skipped > 0 then WithSize(s, WORD * (|s| - skipped)) else s;
    ghost var body := buf[start..end.value];
    WriteHeader(buf, curr, header);
    assert buf[start..end.value] == body;
    assert buf[curr..end.value] == buf[curr..start] + buf[start..end.value];
    r := end;
  }

  method WriteHeader(buf: array<Word>, curr: nat, header: Struct)
    requires |header| >= HEADER_WORDS && curr + HEADER_WORDS <= buf.Length
    modifies buf
    ensures buf[curr..curr + HEADER_WORDS] == header[..HEADER_WORDS]
    ensures forall x :: 0 <= x < buf.Length && !(curr <= x < curr + HEADER_WORDS) ==> buf[x] == old(buf[x])
  {
    for j := 0 to HEADER_WORDS
      invariant forall x :: 0 <= x < j ==> buf[curr + x] == header[x]
      invariant forall x :: 0 <= x < buf.Length && !(curr <= x < curr + j) ==> buf[x] == old(buf[x])
    {
      buf[curr + j] := header[j];
    }
  }

  /** Writes all structs; the result is the number of bytes. */
  method WriteStructs(buf: array<Word>, bufferSize: nat, items: seq<Struct>, t: nat, criteria: nat)
    returns (r: Result<nat, PtraceError>)
    requires Sized(items, t) && bufferSize <= WORD * buf.Length
    modifies buf
    ensures t > MAX_STRUCT_WORDS ==> r == Err(ItemTooBig)
    ensures t < HEADER_WORDS ==> r == Err(HeaderTooBig)
    ensures HEADER_WORDS <= t <= MAX_STRUCT_WORDS ==>
              var all := Records(items, t, criteria);
              && (r.Ok? <==> Accepts(items, t, criteria, bufferSize))
              && (r.Ok? ==> r.value == WORD * |all| && |all| <= buf.Length && buf[..|all|] == all)
              && (r.Err? ==> r.error == BufferOverflow)
  {
    if t > MAX_STRUCT_WORDS {
      return Err(ItemTooBig);
    }
    if t < HEADER_WORDS {
      return Err(HeaderTooBig);
    }
    var curr: nat := 0;
    for i := 0 to |items|
      invariant curr <= buf.Length
      invariant Accepts(items[..i], t, criteria, bufferSize)
      invariant buf[..curr] == Records(items[..i], t, criteria)
    {
      var next := WriteStruct(buf, bufferSize, curr, items[i], criteria);
      assert items[..i + 1][..i] == items[..i];
      if next.Err? {
        if Accepts(items, t, criteria, bufferSize) {
          AcceptsPrefix(items, t, criteria, bufferSize, i + 1);
          assert false;
        }
        return Err(next.error);
      }
      assert buf[..next.value] == buf[..curr] + buf[curr..next.value];
      curr := next.value;
    }
    assert items[..|items|] == items;
    r := Ok(WORD * curr);
  }

  // ---- The limit ----

  /** No accepted list goes past the limit. */
  ghost predicate LimitKept(bufferSize: nat) {
    forall items: seq<Struct>, t: nat, criteria: nat ::
      HEADER_WORDS <= t <= MAX_STRUCT_WORDS && Sized(items, t) && Accepts(items, t, criteria, bufferSize) ==>
        WORD * |Records(items, t, criteria)| <= bufferSize
  }

  /** The one struct [1, 2, 3, 4] is written under a limit of 25 bytes, all 32 bytes of it. */
  lemma {:induction false} LimitOverrun()
    ensures var items := [[1, 2, 3, 4]];
            && Sized(items, 4) && Accepts(items, 4, 2, 25)
            && |Records(items, 4, 2)| * WORD == 32
  {
    var s: Struct := [1, 2, 3, 4];
    var items := [s];
    assert s[HEADER_WORDS..] == [4] && [4][1..] == [];
    assert Shrunk([4], 2, 0) == [4];
    assert items[..0] == [] && Records([], 4, 2) == [];
  }

  function Ones(k: nat): (ws: seq<Word>)
    ensures |ws| == k && forall i :: 0 <= i < k ==> ws[i] == 1
  {
    if k == 0 then [] else [1] + Ones(k - 1)
  }

  /** Structs of six words whose records take 3, 4, 5 and 6 words if no zero is kept. */
  function WithBody(k: nat): (s: Struct)
    requires k <= 3
    ensures |s| == 6
  {
    Zeros(HEADER_WORDS) + Ones(k) + Zeros(3 - k)
  }

  lemma {:induction false} OnesShort(k: nat)
    ensures RunsShort(Ones(k), 0, 0)
  {
    if k > 0 {
      assert Ones(k)[1..] == Ones(k - 1);
      OnesShort(k - 1);
    }
  }

  lemma {:induction false} UsedSkips(s: Struct, n: nat, m: nat)
    requires HEADER_WORDS <= m <= n <= |s| && forall i :: m <= i < n ==> s[i] == 0
    requires m > HEADER_WORDS ==> s[m - 1] != 0
    ensures Used(s, n) == m
  {
    if m < n {
      UsedSkips(s, n - 1, m);
    }
  }

  lemma {:induction false} WithBodySize(k: nat)
    requires k <= 3
    ensures |Record(WithBody(k), 0)| == HEADER_WORDS + k
  {
    WithBodyParts(k);
    OnesShort(k);
    RecordOfShortRuns(WithBody(k), 0);
  }

  lemma {:induction false} WithBodyParts(k: nat)
    requires k <= 3
    ensures Used(WithBody(k), 6) == HEADER_WORDS + k
    ensures WithBody(k)[HEADER_WORDS..HEADER_WORDS + k] == Ones(k)
  {
    var s := WithBody(k);
    assert forall i :: HEADER_WORDS + k <= i < 6 ==> s[i] == 0;
    assert k > 0 ==> s[HEADER_WORDS + k - 1] == Ones(k)[k - 1] == 1;
    UsedSkips(s, 6, HEADER_WORDS + k);
  }

  function Headers(q: nat): (items: seq<Struct>)
    ensures Sized(items, 6)
  {
    if q == 0 then [] else Headers(q - 1) + [WithBody(0)]
  }

  lemma {:induction false} HeadersSize(q: nat)
    ensures |Records(Headers(q), 6, 0)| == HEADER_WORDS * q
  {
    if q > 0 {
      HeadersSize(q - 1);
      WithBodySize(0);
      assert Headers(q)[..|Headers(q)| - 1] == Headers(q - 1);
    }
  }

  /** A list of any number of words from four on whose last record has a body. */
  lemma {:induction false} ListOfSize(w: nat) returns (items: seq<Struct>)
    requires w >= 4
    ensures Sized(items, 6) && |Records(items, 6, 0)| == w
    ensures forall bufferSize :: Accepts(items, 6, 0, bufferSize) <==> WORD * (w - 1) < bufferSize
  {
    var q, k := (w - 4) / 3, 1 + (w - 4) % 3;
    items := Headers(q) + [WithBody(k)];
    HeadersSize(q);
    WithBodySize(k);
    assert items[..|items| - 1] == Headers(q);
  }

  /** The limit is kept exactly if it is a multiple of a word or too small for any record. */
  lemma {:induction false} LimitKeptExactly(bufferSize: nat)
    ensures LimitKept(bufferSize) <==> bufferSize % WORD == 0 || bufferSize < WORD * HEADER_WORDS
  {
    if bufferSize % WORD == 0 || bufferSize < WORD * HEADER_WORDS {
      forall items: seq<Struct>, t: nat, criteria: nat
        | HEADER_WORDS <= t <= MAX_STRUCT_WORDS && Sized(items, t) && Accepts(items, t, criteria, bufferSize)
        ensures WORD * |Records(items, t, criteria)| <= bufferSize
      {
        AcceptedSize(items, t, criteria, bufferSize);
      }
    } else {
      var items := ListOfSize(bufferSize / WORD + 1);
      assert Accepts(items, 6, 0, bufferSize) && WORD * |Records(items, 6, 0)| > bufferSize;
    }
  }

  // ---- Reading ----

  /** The structs in a list of records, or the first thing that is wrong with it. */
  function Structs(ws: seq<Word>, t: nat): Result<seq<Struct>, PtraceError>
    requires t >= HEADER_WORDS
    decreases |ws|
  {
    if ws == [] then Ok([])
    else if |ws| < HEADER_WORDS then Err(BufferOverflow)
    else
      var size := SizeField(ws[..HEADER_WORDS]);
      var n := size / WORD;
      if size < WORD * HEADER_WORDS then Err(InvalidItemSize)
      else if size > WORD * t then Err(ItemTooBig)
      else if size % WORD != 0 then Err(NotWordAligned)
      else if n > |ws| then Err(BufferOverflow)
      else match Structs(ws[n..], t)
        case Err(e) => Err(e)
        case Ok(rest) => Ok([ws[..n] + Zeros(t - n)] + rest)
  }

  function SizeAt(ws: seq<Word>, curr: nat): nat
    requires curr + HEADER_WORDS <= |ws|
  {
    SizeField(ws[curr..curr + HEADER_WORDS])
  }

  /** The struct read from the n words at word `curr`. */
  function ItemAt(ws: seq<Word>, curr: nat, n: nat, t: nat): Struct
    requires curr + n <= |ws| && n <= t
  {
    ws[curr..curr + n] + Zeros(t - n)
  }

  function StructsAt(ws: seq<Word>, curr: nat, t: nat): Result<seq<Struct>, PtraceError>
    requires t >= HEADER_WORDS && curr <= |ws|
  {
    Structs(ws[curr..], t)
  }

  /** What the records from word `curr` on hold, in terms of the whole list. */
  lemma {:induction false} StructsFrom(ws: seq<Word>, curr: nat, t: nat)
    requires t >= HEADER_WORDS && curr + HEADER_WORDS <= |ws|
    ensures var size := SizeAt(ws, curr);
            var n := size / WORD;
            StructsAt(ws, curr, t) ==
            if size < WORD * HEADER_WORDS then Err(InvalidItemSize)
            else if size > WORD * t then Err(ItemTooBig)
            else if size % WORD != 0 then Err(NotWordAligned)
            else if curr + n > |ws| then Err(BufferOverflow)
            else Prefixed([ItemAt(ws, curr, n, t)], StructsAt(ws, curr + n, t))
  {
    var rest := ws[curr..];
    var n := SizeAt(ws, curr) / WORD;
    assert rest[..HEADER_WORDS] == ws[curr..curr + HEADER_WORDS];
    if curr + n <= |ws| {
      assert rest[..n] == ws[curr..curr + n] && rest[n..] == ws[curr + n..];
    }
  }

  lemma {:induction false} PrefixedTwice(items: seq<Struct>, item: Struct, r: Result<seq<Struct>, PtraceError>)
    ensures Prefixed(items, Prefixed([item], r)) == Prefixed(items + [item], r)
  {
    if r.Ok? {
      Associative(items, [item], r.value);
    }
  }

  lemma {:induction false} PrefixedNone(r: Result<seq<Struct>, PtraceError>)
    ensures Prefixed([], r) == r
  {
    if r.Ok? {
      assert [] + r.value == r.value;
    }
  }

  lemma {:induction false} StructsEnds(ws: seq<Word>, t: nat)
    requires t >= HEADER_WORDS
    ensures StructsAt(ws, 0, t) == Structs(ws, t) && StructsAt(ws, |ws|, t) == Ok([])
    ensures forall curr: nat :: curr < |ws| < curr + HEADER_WORDS ==> StructsAt(ws, curr, t) == Err(BufferOverflow)
  {
    assert ws[0..] == ws && ws[|ws|..] == [];
    forall curr: nat | curr < |ws| < curr + HEADER_WORDS
      ensures StructsAt(ws, curr, t) == Err(BufferOverflow)
    {
      assert |ws[curr..]| == |ws| - curr;
    }
  }

  function Prefixed(items: seq<Struct>, r: Result<seq<Struct>, PtraceError>): Result<seq<Struct>, PtraceError> {
    match r
    case Err(e) => Err(e)
    case Ok(rest) => Ok(items + rest)
  }

  /** The reading loop. */
  method ReadStructs(ws: seq<Word>, t: nat) returns (r: Result<seq<Struct>, PtraceError>)
    ensures t > MAX_STRUCT_WORDS ==> r == Err(ItemTooBig)
    ensures t < HEADER_WORDS ==> r == Err(HeaderTooBig)
    ensures HEADER_WORDS <= t <= MAX_STRUCT_WORDS ==> r == Structs(ws, t)
  {
    if t > MAX_STRUCT_WORDS {
      return Err(ItemTooBig);
    }
    if t < HEADER_WORDS {
      return Err(HeaderTooBig);
    }
    var items: seq<Struct> := [];
    var curr: nat := 0;
    StructsEnds(ws, t);
    PrefixedNone(Structs(ws, t));
    while curr < |ws|
      invariant curr <= |ws|
      invariant Structs(ws, t) == Prefixed(items, StructsAt(ws, curr, t))
      decreases |ws| - curr
    {
      if curr + HEADER_WORDS > |ws| {
        return Err(BufferOverflow);
      }
      StructsFrom(ws, curr, t);
      var size := SizeField(ws[curr..curr + HEADER_WORDS]);
      if size < WORD * HEADER_WORDS {
        return Err(InvalidItemSize);
      }
      if size > WORD * t {
        return Err(ItemTooBig);
      }
      if size % WORD != 0 {
        return Err(NotWordAligned);
      }
      var n := size / WORD;
      if curr + n > |ws| {
        return Err(BufferOverflow);
      }
      var item := ws[curr..curr + n] + Zeros(t - n);
      PrefixedTwice(items, item, StructsAt(ws, curr + n, t));
      items := items + [item];
      curr := curr + n;
    }
    assert items + [] == items;
    r := Ok(items);
  }

  /** A record carries its own length in bytes, which is at least that of a header and at most that of a struct. */
  ghost predicate IsRecord(record: seq<Word>, t: nat) {
    HEADER_WORDS <= |record| <= t && record[2] % 65536 == WORD * |record|
  }

  ghost predicate AreRecords(records: seq<seq<Word>>, t: nat) {
    forall i :: 0 <= i < |records| ==> IsRecord(records[i], t)
  }

  function Concatenated(records: seq<seq<Word>>): seq<Word> {
    if records == [] then [] else records[0] + Concatenated(records[1..])
  }

  /** A record in front of anything is read first, padded with zero words. */
  lemma {:induction false} FirstRecordRead(record: seq<Word>, rest: seq<Word>, t: nat)
    requires t >= HEADER_WORDS && IsRecord(record, t)
    ensures Structs(record + rest, t) == Prefixed([record + Zeros(t - |record|)], Structs(rest, t))
  {
    var ws := record + rest;
    assert ws[..|record|] == record && ws[|record|..] == rest;
    assert SizeField(ws[..HEADER_WORDS]) == WORD * |record|;
  }

  /** A list of records is read as these, one struct each and in order. */
  lemma {:induction false} RecordListRead(records: seq<seq<Word>>, t: nat)
    requires t >= HEADER_WORDS && AreRecords(records, t)
    ensures var r := Structs(Concatenated(records), t);
            && r.Ok? && |r.value| == |records|
            && forall i :: 0 <= i < |records| ==> r.value[i] == records[i] + Zeros(t - |records[i]|)
    decreases |records|
  {
    if records != [] {
      var rest := records[1..];
      assert IsRecord(records[0], t) && forall i :: 0 <= i < |rest| ==> rest[i] == records[i + 1];
      RecordListRead(rest, t);
      FirstRecordRead(records[0], Concatenated(rest), t);
      assert forall i :: 0 < i < |records| ==> records[i] == rest[i - 1];
    }
  }

  /** Only lists of records are read. */
  lemma {:induction false} OnlyRecordListsRead(ws: seq<Word>, t: nat) returns (records: seq<seq<Word>>)
    requires t >= HEADER_WORDS && Structs(ws, t).Ok?
    ensures AreRecords(records, t) && Concatenated(records) == ws
    decreases |ws|
  {
    if ws == [] {
      records := [];
    } else {
      var n := SizeField(ws[..HEADER_WORDS]) / WORD;
      var later := OnlyRecordListsRead(ws[n..], t);
      records := [ws[..n]] + later;
      assert records[1..] == later && ws == ws[..n] + ws[n..];
      assert ws[..n][2] == ws[..HEADER_WORDS][2];
    }
  }

  /** The first thing that is no record decides the error. */
  lemma {:induction false} FirstErrorReported(records: seq<seq<Word>>, bad: seq<Word>, t: nat)
    requires t >= HEADER_WORDS && AreRecords(records, t) && bad != []
    ensures var r := Structs(Concatenated(records) + bad, t);
            && (|bad| < 3 ==> r == Err(BufferOverflow))
            && (|bad| >= 3 ==>
                  var size := bad[2] % 65536;
                  && (size < 24 ==> r == Err(InvalidItemSize))
                  && (24 <= size && size > 8 * t ==> r == Err(ItemTooBig))
                  && (24 <= size <= 8 * t && size % 8 != 0 ==> r == Err(NotWordAligned))
                  && (24 <= size <= 8 * t && size % 8 == 0 && size > 8 * |bad| ==> r == Err(BufferOverflow)))
    decreases |records|
  {
    if records == [] {
      assert [] + bad == bad;
    } else {
      var rest := records[1..];
      assert IsRecord(records[0], t) && forall i :: 0 <= i < |rest| ==> rest[i] == records[i + 1];
      FirstErrorReported(rest, bad, t);
      FirstRecordRead(records[0], Concatenated(rest) + bad, t);
      Associative(records[0], Concatenated(rest), bad);
    }
  }

  // ---- Round trip ----

  /** The number of words before the zero tail; the header always counts. */
  function Used(s: Struct, n: nat): (u: nat)
    requires HEADER_WORDS <= n <= |s|
    ensures HEADER_WORDS <= u <= n
    ensures forall i :: u <= i < n ==> s[i] == 0
    ensures u > HEADER_WORDS ==> s[u - 1] != 0
  {
    if n > HEADER_WORDS && s[n - 1] == 0 then Used(s, n - 1) else n
  }

  /** No run of more than `criteria` zero words, counting `zeros` of them before the first word. */
  predicate RunsShort(ws: seq<Word>, criteria: nat, zeros: nat) {
    ws == [] ||
    if ws[0] != 0 then RunsShort(ws[1..], criteria, 0)
    else zeros + 1 <= criteria && RunsShort(ws[1..], criteria, zeros + 1)
  }

  /** Over-long zero runs occur only in the struct's tail, and the size that is written is the right one. */
  predicate Intact(s: Struct, criteria: nat)
    requires |s| >= HEADER_WORDS
  {
    && RunsShort(s[HEADER_WORDS..Used(s, |s|)], criteria, 0)
    && (|Record(s, criteria)| < |s| || SizeField(s) == WORD * |s|)
  }

  /** Words are lost exactly by over-long runs. */
  lemma {:induction false} ShrunkKeeps(ws: seq<Word>, criteria: nat, zeros: nat)
    ensures if RunsShort(ws, criteria, zeros) then Shrunk(ws, criteria, zeros) == ws
            else |Shrunk(ws, criteria, zeros)| < |ws|
  {
    if ws != [] {
      ShrunkLength(ws[1..], criteria, zeros + 1);
      ShrunkKeeps(ws[1..], criteria, if ws[0] != 0 then 0 else zeros + 1);
    }
  }

  function Least(m: nat, n: nat): nat {
    if m <= n then m else n
  }

  lemma {:induction false} ShrunkZeros(n: nat, criteria: nat, zeros: nat)
    ensures Shrunk(Zeros(n), criteria, zeros) == Zeros(if zeros >= criteria then 0 else Least(n, criteria - zeros))
  {
    if n > 0 {
      assert Zeros(n)[1..] == Zeros(n - 1);
      ShrunkZeros(n - 1, criteria, zeros + 1);
    }
  }

  lemma {:induction false} ShrunkCons(w: Word, ws: seq<Word>, criteria: nat, zeros: nat)
    ensures var rest := Shrunk(ws, criteria, if w != 0 then 0 else zeros + 1);
            Shrunk([w] + ws, criteria, zeros) == if w == 0 && zeros + 1 > criteria then rest else [w] + rest
  {
    assert ([w] + ws)[1..] == ws;
  }

  /** Of a zero tail at most `criteria` words are kept. */
  lemma {:induction false} ShrunkTail(ws: seq<Word>, n: nat, criteria: nat, zeros: nat)
    requires if ws == [] then zeros == 0 else ws[|ws| - 1] != 0
    ensures Shrunk(ws + Zeros(n), criteria, zeros) == Shrunk(ws, criteria, zeros) + Zeros(Least(n, criteria))
  {
    if ws == [] {
      assert ws + Zeros(n) == Zeros(n);
      ShrunkZeros(n, criteria, 0);
    } else {
      var first, later, next := ws[0], ws[1..], if ws[0] != 0 then 0 else zeros + 1;
      ShrunkTail(later, n, criteria, next);
      assert ws == [first] + later;
      Associative([first], later, Zeros(n));
      ShrunkCons(first, later, criteria, zeros);
      ShrunkCons(first, later + Zeros(n), criteria, zeros);
      Associative([first], Shrunk(later, criteria, next), Zeros(Least(n, criteria)));
    }
  }

  lemma {:induction false} ShrunkBody(s: Struct, criteria: nat)
    requires |s| >= HEADER_WORDS
    ensures var u := Used(s, |s|);
            Shrunk(s[HEADER_WORDS..], criteria, 0) ==
            Shrunk(s[HEADER_WORDS..u], criteria, 0) + Zeros(Least(|s| - u, criteria))
  {
    var u := Used(s, |s|);
    assert s[HEADER_WORDS..] == s[HEADER_WORDS..u] + Zeros(|s| - u);
    ShrunkTail(s[HEADER_WORDS..u], |s| - u, criteria, 0);
  }

  lemma {:induction false} BodyOfShortRuns(s: Struct, criteria: nat)
    requires |s| >= HEADER_WORDS && RunsShort(s[HEADER_WORDS..Used(s, |s|)], criteria, 0)
    ensures var n := Used(s, |s|) + Least(|s| - Used(s, |s|), criteria);
            n <= |s| && Shrunk(s[HEADER_WORDS..], criteria, 0) == s[HEADER_WORDS..n]
  {
    var u := Used(s, |s|);
    var ws := s[HEADER_WORDS..u];
    var k := Least(|s| - u, criteria);
    ShrunkBody(s, criteria);
    ShrunkKeeps(ws, criteria, 0);
    assert ws + Zeros(k) == s[HEADER_WORDS..u + k];
  }

  /** What is written for a struct with short runs: its used words and at most `criteria` zero words. */
  lemma {:induction false} RecordOfShortRuns(s: Struct, criteria: nat)
    requires |s| >= HEADER_WORDS && RunsShort(s[HEADER_WORDS..Used(s, |s|)], criteria, 0)
    ensures var n := Used(s, |s|) + Least(|s| - Used(s, |s|), criteria);
            n <= |s| && Record(s, criteria) == (if n < |s| then WithSize(s, WORD * n) else s)[..n]
  {
    BodyOfShortRuns(s, criteria);
    var n := Used(s, |s|) + Least(|s| - Used(s, |s|), criteria);
    SplitFront(if n < |s| then WithSize(s, WORD * n) else s, s, n);
  }

  lemma {:induction false} SplitFront(r: Struct, s: Struct, n: nat)
    requires HEADER_WORDS <= n <= |s| == |r| && forall i :: HEADER_WORDS <= i < |s| ==> r[i] == s[i]
    ensures r[..n] == r[..HEADER_WORDS] + s[HEADER_WORDS..n]
  {
  }

  /** The struct that reading yields: the one written, but for the new size. */
  function Reread(s: Struct, criteria: nat): Struct
    requires |s| >= HEADER_WORDS
  {
    if |Record(s, criteria)| < |s| then WithSize(s, WORD * |Record(s, criteria)|) else s
  }

  /** All words are the same, but for the low bits of the third one. */
  predicate SameButSize(a: Struct, b: Struct) {
    && |a| == |b| >= HEADER_WORDS
    && (forall i :: 0 <= i < |a| && i != 2 ==> a[i] == b[i])
    && a[2] / SIZE_RANGE == b[2] / SIZE_RANGE
  }

  /** It differs from the one written in nothing but the size. */
  lemma {:induction false} RereadSame(s: Struct, criteria: nat)
    requires |s| >= HEADER_WORDS
    ensures SameButSize(Reread(s, criteria), s)
  {
    WithSizeSame(s, WORD * |Record(s, criteria)|);
  }

  function AllReread(items: seq<Struct>, t: nat, criteria: nat): (r: seq<Struct>)
    requires t >= HEADER_WORDS && Sized(items, t)
    ensures |r| == |items|
    ensures forall i :: 0 <= i < |items| ==> r[i] == Reread(items[i], criteria)
  {
    if items == [] then [] else [Reread(items[0], criteria)] + AllReread(items[1..], t, criteria)
  }

  lemma {:induction false} RecordsSnoc(items: seq<Struct>, t: nat, criteria: nat)
    requires t >= HEADER_WORDS && Sized(items, t) && items != []
    ensures Records(items, t, criteria) ==
            Records(items[..|items| - 1], t, criteria) + Record(items[|items| - 1], criteria)
  {
  }

  lemma {:induction false} RecordsCons(items: seq<Struct>, t: nat, criteria: nat)
    requires t >= HEADER_WORDS && Sized(items, t) && items != []
    ensures Records(items, t, criteria) == Record(items[0], criteria) + Records(items[1..], t, criteria)
    decreases |items|
  {
    var b, last, rest := items[..|items| - 1], items[|items| - 1], items[1..];
    RecordsSnoc(items, t, criteria);
    if rest == [] {
      assert b == [];
    } else {
      RecordsCons(b, t, criteria);
      RecordsSnoc(rest, t, criteria);
      assert rest[..|rest| - 1] == b[1..];
      Associative(Record(items[0], criteria), Records(b[1..], t, criteria), Record(last, criteria));
    }
  }

  lemma {:induction false} PaddedRecord(s: Struct, criteria: nat)
    requires HEADER_WORDS <= |s| && RunsShort(s[HEADER_WORDS..Used(s, |s|)], criteria, 0)
    ensures |Record(s, criteria)| <= |s|
    ensures Record(s, criteria) + Zeros(|s| - |Record(s, criteria)|) == Reread(s, criteria)
  {
    RecordOfShortRuns(s, criteria);
    var record, n := Record(s, criteria), Used(s, |s|) + Least(|s| - Used(s, |s|), criteria);
    var r := if n < |s| then WithSize(s, WORD * n) else s;
    TailIsZero(s, r, n);
    PaddedFront(r, n);
    PaddedAgain(record, r, n);
    assert Reread(s, criteria) == r;
  }

  lemma {:induction false} TailIsZero(s: Struct, r: Struct, n: nat)
    requires |r| == |s| >= HEADER_WORDS && Used(s, |s|) <= n <= |s|
    requires forall i :: HEADER_WORDS <= i < |s| ==> r[i] == s[i]
    ensures forall i :: n <= i < |r| ==> r[i] == 0
  {
  }

  lemma {:induction false} PaddedAgain(record: seq<Word>, r: seq<Word>, n: nat)
    requires n <= |r| && record == r[..n] && r[..n] + Zeros(|r| - n) == r
    ensures |record| == n && record + Zeros(|r| - |record|) == r
  {
  }

  lemma {:induction false} PaddedFront(s: seq<Word>, n: nat)
    requires n <= |s| && forall i :: n <= i < |s| ==> s[i] == 0
    ensures s[..n] + Zeros(|s| - n) == s
  {
  }

  lemma {:induction false} ReadOneRecord(s: Struct, t: nat, criteria: nat, rest: seq<Word>)
    requires HEADER_WORDS <= t <= MAX_STRUCT_WORDS && |s| == t && Intact(s, criteria)
    ensures Structs(Record(s, criteria) + rest, t) == Prefixed([Reread(s, criteria)], Structs(rest, t))
  {
    PaddedRecord(s, criteria);
    SizeFieldExactly(s, criteria);
    var record, n := Record(s, criteria), |Record(s, criteria)|;
    var ws := record + rest;
    assert SizeField(ws[..HEADER_WORDS]) == SizeField(record) == WORD * n;
    assert ws[..n] == record && ws[n..] == rest;
  }

  /** Reading back intact structs returns them in order, up to their size fields. */
  lemma {:induction false} StructListRoundTrip(items: seq<Struct>, t: nat, criteria: nat)
    requires HEADER_WORDS <= t <= MAX_STRUCT_WORDS && Sized(items, t)
    requires forall i :: 0 <= i < |items| ==> Intact(items[i], criteria)
    ensures Structs(Records(items, t, criteria), t) == Ok(AllReread(items, t, criteria))
  {
    if items != [] {
      RecordsCons(items, t, criteria);
      ReadOneRecord(items[0], t, criteria, Records(items[1..], t, criteria));
      StructListRoundTrip(items[1..], t, criteria);
    }
  }

  /** The words hold the given structs, up to their size fields. */
  predicate ReadsAs(ws: seq<Word>, items: seq<Struct>, t: nat)
    requires t >= HEADER_WORDS
  {
    match Structs(ws, t)
    case Err(_) => false
    case Ok(got) => |got| == |items| && forall i :: 0 <= i < |items| ==> SameButSize(got[i], items[i])
  }

  lemma {:induction false} ReadsAsFirst(ws: seq<Word>, items: seq<Struct>, t: nat)
    requires t >= HEADER_WORDS && ReadsAs(ws, items, t) && items != []
    ensures |ws| >= HEADER_WORDS
    ensures var n := SizeField(ws) / WORD;
            && SizeField(ws) == WORD * n && HEADER_WORDS <= n <= t && n <= |ws|
            && SameButSize(ws[..n] + Zeros(t - n), items[0])
            && ReadsAs(ws[n..], items[1..], t)
    ensures |items[0]| >= HEADER_WORDS && ws[0] == items[0][0] && ws[1] == items[0][1]
  {
    var n := SizeField(ws) / WORD;
    assert SizeField(ws) == SizeField(ws[..HEADER_WORDS]);
    var got, rest := Structs(ws, t).value, Structs(ws[n..], t).value;
    assert got[0] == ws[..n] + Zeros(t - n) && got[1..] == rest;
    assert forall i :: 0 <= i < |rest| ==> rest[i] == got[i + 1] && items[1..][i] == items[i + 1];
    assert got[0][0] == ws[0] && got[0][1] == ws[1];
  }

  /** An over-long run in front of the tail moves later words forward, which shows in the last used word. */
  lemma {:induction false} LongRunShows(s: Struct, criteria: nat)
    requires HEADER_WORDS <= |s| <= MAX_STRUCT_WORDS
    requires !RunsShort(s[HEADER_WORDS..Used(s, |s|)], criteria, 0)
    ensures var record, u := Record(s, criteria), Used(s, |s|);
            && HEADER_WORDS <= |record| < |s| && SizeField(record) == WORD * |record|
            && u > HEADER_WORDS && s[u - 1] != 0 == (record + Zeros(|s| - |record|))[u - 1]
  {
    var u := Used(s, |s|);
    ShrunkBody(s, criteria);
    ShrunkKeeps(s[HEADER_WORDS..u], criteria, 0);
    SizeFieldExactly(s, criteria);
  }

  /** If a list reads back at all, no struct in it has such a run. */
  lemma {:induction false} FirstRunsShort(items: seq<Struct>, t: nat, criteria: nat)
    requires HEADER_WORDS <= t <= MAX_STRUCT_WORDS && Sized(items, t) && items != []
    requires ReadsAs(Records(items, t, criteria), items, t)
    ensures RunsShort(items[0][HEADER_WORDS..Used(items[0], t)], criteria, 0)
  {
    var s, ws := items[0], Records(items, t, criteria);
    RecordsCons(items, t, criteria);
    ReadsAsFirst(ws, items, t);
    SizeFieldExactly(s, criteria);
    var record := Record(s, criteria);
    assert SizeField(ws) == SizeField(record);
    assert ws[..|record|] == record;
    if !RunsShort(s[HEADER_WORDS..Used(s, t)], criteria, 0) {
      LongRunShows(s, criteria);
      assert false;
    }
  }

  lemma {:induction false} ZeroesBehind(s: Struct, later: seq<Word>, n: nat)
    requires HEADER_WORDS <= n <= |s| && SameButSize((s + later)[..n] + Zeros(|s| - n), s)
    ensures (s + later)[n..] == Zeros(|s| - n) + later
  {
    var first := (s + later)[..n] + Zeros(|s| - n);
    assert forall x :: HEADER_WORDS <= x < |s| ==> first[x] == s[x];
    assert forall x :: n <= x < |s| ==> first[x] == 0;
  }

  /**
   * Without a dropped word a struct keeps the size it carries. If that is too small, the words behind it
   * are zeroes, and the next record would start with them.
   */
  lemma {:induction false} FirstSizeRight(items: seq<Struct>, t: nat, criteria: nat)
    requires HEADER_WORDS <= t <= MAX_STRUCT_WORDS && Sized(items, t) && items != []
    requires Record(items[0], criteria) == items[0]
    requires ReadsAs(Records(items, t, criteria), items, t)
    ensures SizeField(items[0]) == WORD * t
  {
    var s, later, ws := items[0], Records(items[1..], t, criteria), Records(items, t, criteria);
    RecordsCons(items, t, criteria);
    ReadsAsFirst(ws, items, t);
    var n := SizeField(ws) / WORD;
    assert SizeField(s) == WORD * n;
    if n < t {
      ZeroesBehind(s, later, n);
      StartsWithZero(ws[n..], items[1..], t, criteria, t - n);
      assert false;
    }
  }

  /** A list of records cannot be read back behind a word or more of zeroes. */
  lemma {:induction false} StartsWithZero(ws: seq<Word>, items: seq<Struct>, t: nat, criteria: nat, n: nat)
    requires HEADER_WORDS <= t <= MAX_STRUCT_WORDS && Sized(items, t) && n > 0
    requires ws == Zeros(n) + Records(items, t, criteria)
    ensures !ReadsAs(ws, items, t)
  {
    if items != [] {
      RecordsCons(items, t, criteria);
      var b, record := items[0], Record(items[0], criteria);
      assert record[0] == b[0] && record[1] == b[1];
      assert n == 1 ==> ws[1] == b[0] && ws[2] == b[1];
      assert n == 2 ==> ws[2] == b[0];
      assert ws[0] == b[0] && ws[1] == b[1] ==> SizeField(ws) == 0;
      if ReadsAs(ws, items, t) {
        ReadsAsFirst(ws, items, t);
        assert false;
      }
    }
  }

  /** A list reads back as the same structs, up to their size fields, if and only if each of them is intact. */
  lemma {:induction false} RoundTripExactly(items: seq<Struct>, t: nat, criteria: nat)
    requires HEADER_WORDS <= t <= MAX_STRUCT_WORDS && Sized(items, t)
    ensures ReadsAs(Records(items, t, criteria), items, t) <==>
            forall i :: 0 <= i < |items| ==> Intact(items[i], criteria)
  {
    if forall i :: 0 <= i < |items| ==> Intact(items[i], criteria) {
      StructListRoundTrip(items, t, criteria);
      forall i | 0 <= i < |items| ensures SameButSize(AllReread(items, t, criteria)[i], items[i]) {
        RereadSame(items[i], criteria);
      }
    } else if ReadsAs(Records(items, t, criteria), items, t) {
      ReadsBackIntact(items, t, criteria);
    }
  }

  lemma {:induction false} FirstIntact(items: seq<Struct>, t: nat, criteria: nat)
    requires HEADER_WORDS <= t <= MAX_STRUCT_WORDS && Sized(items, t) && items != []
    requires ReadsAs(Records(items, t, criteria), items, t)
    ensures Intact(items[0], criteria)
  {
    FirstRunsShort(items, t, criteria);
    RecordOfShortRuns(items[0], criteria);
    if |Record(items[0], criteria)| >= t {
      FirstSizeRight(items, t, criteria);
    }
  }

  lemma {:induction false} RestReadsBack(items: seq<Struct>, t: nat, criteria: nat)
    requires HEADER_WORDS <= t <= MAX_STRUCT_WORDS && Sized(items, t) && items != []
    requires ReadsAs(Records(items, t, criteria), items, t) && Intact(items[0], criteria)
    ensures ReadsAs(Records(items[1..], t, criteria), items[1..], t)
  {
    var ws, record := Records(items, t, criteria), Record(items[0], criteria);
    SizeFieldExactly(items[0], criteria);
    RecordsCons(items, t, criteria);
    ReadsAsFirst(ws, items, t);
    assert SizeField(ws) == SizeField(record) == WORD * |record|;
    assert ws[|record|..] == Records(items[1..], t, criteria);
  }

  lemma {:induction false} ReadsBackIntact(items: seq<Struct>, t: nat, criteria: nat)
    requires HEADER_WORDS <= t <= MAX_STRUCT_WORDS && Sized(items, t)
    requires ReadsAs(Records(items, t, criteria), items, t)
    ensures forall i :: 0 <= i < |items| ==> Intact(items[i], criteria)
  {
    if items != [] {
      FirstIntact(items, t, criteria);
      RestReadsBack(items, t, criteria);
      ReadsBackIntact(items[1..], t, criteria);
      assert forall i :: 0 < i < |items| ==> items[i] == items[1..][i - 1];
    }
  }

  /** A record is the header, with the new size if a word was dropped, and the words of the body that are kept. */
  lemma {:induction false} RecordExactly(s: Struct, criteria: nat)
    requires HEADER_WORDS <= |s| <= MAX_STRUCT_WORDS
    ensures var record, body := Record(s, criteria), Shrunk(s[HEADER_WORDS..], criteria, 0);
            && |record| == HEADER_WORDS + |body| <= |s| && record[HEADER_WORDS..] == body
            && record[0] == s[0] && record[1] == s[1] && record[2] / 65536 == s[2] / 65536
            && record[2] % 65536 == if |record| < |s| then WORD * |record| else s[2] % 65536
  {
    var body := Shrunk(s[HEADER_WORDS..], criteria, 0);
    ShrunkLength(s[HEADER_WORDS..], criteria, 0);
    WithSizeSame(s, WORD * (HEADER_WORDS + |body|));
  }

  /** A written size field is right exactly when some word was dropped or the struct already carried its full size. */
  lemma {:induction false} SizeFieldExactly(s: Struct, criteria: nat)
    requires HEADER_WORDS <= |s| <= MAX_STRUCT_WORDS
    ensures var record := Record(s, criteria);
            |record| >= HEADER_WORDS &&
            (SizeField(record) == WORD * |record| <==> |record| < |s| || SizeField(s) == WORD * |s|)
  {
    ShrunkLength(s[HEADER_WORDS..], criteria, 0);
    var written := HEADER_WORDS + |Shrunk(s[HEADER_WORDS..], criteria, 0)|;
    SizeFieldOfWithSize(s, WORD * written);
  }

  lemma {:induction false} InnerRunShrunk(w: Word)
    requires w != 0
    ensures Shrunk([0, 0, 0, w], 2, 0) == [0, 0, w]
  {
    ShrunkCons(w, [], 2, 3);
    assert [w] + [] == [w] && Shrunk([], 2, 0) == [];
    ShrunkCons(0, [w], 2, 2);
    ShrunkCons(0, [0, w], 2, 1);
    ShrunkCons(0, [0, 0, w], 2, 0);
    assert [0] + [w] == [0, w] && [0] + [0, w] == [0, 0, w] && [0] + [0, 0, w] == [0, 0, 0, w];
  }

  lemma {:induction false} InnerRunRecord(w: Word)
    requires w != 0
    ensures Record([1, 1, 1, 0, 0, 0, w], 2) == [1, 1, 48, 0, 0, w]
  {
    InnerRunShrunk(w);
    var s: Struct := [1, 1, 1, 0, 0, 0, w];
    assert s[HEADER_WORDS..] == [0, 0, 0, w];
    assert WithSize(s, 48)[..HEADER_WORDS] == [1, 1, 48];
    assert [1, 1, 48] + [0, 0, w] == [1, 1, 48, 0, 0, w];
  }

  /** The third zero of a run inside a struct is dropped; what follows has moved forward when it is read back. */
  lemma {:induction false} InnerRunIsLost(w: Word)
    requires w != 0
    ensures var s := [1, 1, 1, 0, 0, 0, w];
            !Intact(s, 2) && Structs(Record(s, 2), 7) == Ok([[1, 1, 48, 0, 0, w, 0]])
  {
    var s, record: seq<Word> := [1, 1, 1, 0, 0, 0, w], [1, 1, 48, 0, 0, w];
    InnerRunRecord(w);
    assert Used(s, 7) == 7 && s[HEADER_WORDS..7] == [0, 0, 0, w];
    assert [0, 0, 0, w][1..] == [0, 0, w] && [0, 0, w][1..] == [0, w];
    assert !RunsShort([0, w], 2, 2) && !RunsShort([0, 0, w], 2, 1) && !RunsShort([0, 0, 0, w], 2, 0);
    assert record[6..] == [] && Structs(record[6..], 7) == Ok([]);
    assert SizeField(record[..HEADER_WORDS]) == 48;
    var item: Struct := [1, 1, 48, 0, 0, w, 0];
    assert record[..6] + Zeros(1) == item;
    assert Structs(record, 7) == Ok([item] + []) && [item] + [] == [item];
  }
}
