/**
 * Rewriting a directory listing in place. The tracee's buffer is reported to the kernel at half its
 * size, which leaves room for records that grow when they are written back.
 */
module Getdents {
  import opened Wrappers
  import opened Bytes
  import opened StructLists

  /** The tracer's shrink criterion for directory entries. */
  const CRITERIA: nat := 2

  /** What becomes of a directory entry: hidden, or kept with an edited name. */
  type Edit = Struct -> Option<Struct>

  function RecordWords(s: Struct): nat
    requires |s| >= HEADER_WORDS
  {
    SizeField(s) / WORD
  }

  ghost predicate EditKeepsLength(edit: Edit, t: nat) {
    forall s :: |s| == t && edit(s).Some? ==> |edit(s).value| == t
  }

  function Kept(items: seq<Struct>, edit: Edit): seq<Struct> {
    if items == [] then []
    else Kept(items[..|items| - 1], edit) +
         match edit(items[|items| - 1]) case None => [] case Some(s) => [s]
  }

  /** How many of the first n entries are not hidden. */
  function KeptBefore(items: seq<Struct>, edit: Edit, n: nat): nat
    requires n <= |items|
  {
    if n == 0 then 0 else KeptBefore(items, edit, n - 1) + if edit(items[n - 1]).Some? then 1 else 0
  }

  /** An entry that is not hidden stands, edited, behind the others of its kind in front of it; nothing else does. */
  lemma {:induction false} KeptExactly(items: seq<Struct>, edit: Edit)
    ensures |Kept(items, edit)| == KeptBefore(items, edit, |items|)
    ensures forall i: nat :: i < |items| && edit(items[i]).Some? ==>
              var j := KeptBefore(items, edit, i);
              j < |Kept(items, edit)| && Kept(items, edit)[j] == edit(items[i]).value
    decreases |items|
  {
    if items != [] {
      var n := |items| - 1;
      var b := items[..n];
      KeptExactly(b, edit);
      forall i: nat | i <= n ensures KeptBefore(b, edit, i) == KeptBefore(items, edit, i) {
        KeptBeforePrefix(items, edit, n, i);
      }
      forall i: nat | i < |items| && edit(items[i]).Some?
        ensures var j := KeptBefore(items, edit, i);
                j < |Kept(items, edit)| && Kept(items, edit)[j] == edit(items[i]).value
      {
        assert i < n ==> b[i] == items[i];
      }
    }
  }

  lemma {:induction false} KeptBeforePrefix(items: seq<Struct>, edit: Edit, n: nat, i: nat)
    requires i <= n <= |items|
    ensures KeptBefore(items[..n], edit, i) == KeptBefore(items, edit, i)
  {
    if i > 0 {
      KeptBeforePrefix(items, edit, n, i - 1);
    }
  }

  lemma {:induction false} KeptSized(items: seq<Struct>, edit: Edit, t: nat)
    requires Sized(items, t) && EditKeepsLength(edit, t)
    ensures Sized(Kept(items, edit), t)
  {
    if items != [] {
      KeptSized(items[..|items| - 1], edit, t);
    }
  }

  /** Words taken up by the records that the structs were read from. */
  function Total(items: seq<Struct>): nat
    requires forall i :: 0 <= i < |items| ==> |items[i]| >= HEADER_WORDS
  {
    if items == [] then 0 else Total(items[..|items| - 1]) + RecordWords(items[|items| - 1])
  }

  lemma {:induction false} TotalPrepend(first: Struct, rest: seq<Struct>)
    requires |first| >= HEADER_WORDS && forall i :: 0 <= i < |rest| ==> |rest[i]| >= HEADER_WORDS
    ensures Total([first] + rest) == RecordWords(first) + Total(rest)
  {
    if rest == [] {
      assert ([first] + rest)[..0] == [];
    } else {
      var b := rest[..|rest| - 1];
      TotalPrepend(first, b);
      assert ([first] + rest)[..|rest|] == [first] + b;
    }
  }

  /** Structs that were read account for every word of the listing, and each came from at least a header. */
  lemma {:induction false} ReadAccounts(ws: seq<Word>, t: nat)
    requires t >= HEADER_WORDS && Structs(ws, t).Ok?
    ensures var items := Structs(ws, t).value;
            && Sized(items, t) && Total(items) == |ws|
            && forall i :: 0 <= i < |items| ==> HEADER_WORDS <= RecordWords(items[i]) <= t
    decreases |ws|
  {
    if ws != [] {
      var n := SizeField(ws[..HEADER_WORDS]) / WORD;
      var first := ws[..n] + Zeros(t - n);
      ReadAccounts(ws[n..], t);
      assert SizeField(first) == SizeField(ws[..HEADER_WORDS]);
      TotalPrepend(first, Structs(ws[n..], t).value);
    }
  }

  /** A record is written with at most two words more than its struct uses. */
  lemma {:induction false} RecordGrowth(s: Struct)
    requires |s| >= HEADER_WORDS
    ensures |Record(s, CRITERIA)| <= Used(s, |s|) + CRITERIA
  {
    ShrunkBody(s, CRITERIA);
    ShrunkLength(s[HEADER_WORDS..Used(s, |s|)], CRITERIA, 0);
  }

  /** An entry's name is not lengthened: the edited struct uses no more words than the record had. */
  ghost predicate NoNameLengthened(items: seq<Struct>, edit: Edit, t: nat)
    requires t >= HEADER_WORDS && Sized(items, t) && EditKeepsLength(edit, t)
  {
    forall i :: 0 <= i < |items| && edit(items[i]).Some? ==> Used(edit(items[i]).value, t) <= RecordWords(items[i])
  }

  /** With records of at least three words, adding two words to each at most doubles the listing. */
  lemma {:induction false} KeptFits(items: seq<Struct>, edit: Edit, t: nat)
    requires t >= HEADER_WORDS && Sized(items, t) && EditKeepsLength(edit, t)
    requires forall i :: 0 <= i < |items| ==> HEADER_WORDS <= RecordWords(items[i])
    requires NoNameLengthened(items, edit, t)
    ensures Sized(Kept(items, edit), t)
    ensures |Records(Kept(items, edit), t, CRITERIA)| <= 2 * Total(items)
  {
    KeptSized(items, edit, t);
    if items != [] {
      var b, last := items[..|items| - 1], items[|items| - 1];
      KeptFits(b, edit, t);
      if edit(last).Some? {
        RecordGrowth(edit(last).value);
        assert Kept(items, edit)[..|Kept(b, edit)|] == Kept(b, edit);
      } else {
        assert Kept(items, edit) == Kept(b, edit);
      }
    }
  }

  predicate AllIntact(items: seq<Struct>, t: nat)
    requires t >= HEADER_WORDS && Sized(items, t)
  {
    forall i :: 0 <= i < |items| ==> Intact(items[i], CRITERIA)
  }

  /** n bytes of records, which read back as the entries exactly if all of those are intact. */
  ghost predicate Rewritten(entries: seq<Struct>, t: nat, n: nat, ws: seq<Word>)
    requires t >= HEADER_WORDS && Sized(entries, t)
  {
    && n == WORD * |ws| && ws == Records(entries, t, CRITERIA)
    && (ReadsAs(ws, entries, t) <==> AllIntact(entries, t))
    && (AllIntact(entries, t) ==> Structs(ws, t) == Ok(AllReread(entries, t, CRITERIA)))
  }

  lemma {:induction false} RecordsRewritten(entries: seq<Struct>, t: nat)
    requires HEADER_WORDS <= t <= MAX_STRUCT_WORDS && Sized(entries, t)
    ensures var ws := Records(entries, t, CRITERIA); Rewritten(entries, t, WORD * |ws|, ws)
  {
    RoundTripExactly(entries, t, CRITERIA);
    if AllIntact(entries, t) {
      StructListRoundTrip(entries, t, CRITERIA);
    }
  }

  /** The edit and retain passes over the entries. */
  method EditEntries(items: seq<Struct>, edit: Edit) returns (kept: seq<Struct>)
    ensures kept == Kept(items, edit)
  {
    kept := [];
    for i := 0 to |items|
      invariant kept == Kept(items[..i], edit)
    {
      assert items[..i + 1][..i] == items[..i];
      var action := edit(items[i]);
      if action.Some? {
        kept := kept + [action.value];
      }
    }
    assert items[..|items|] == items;
  }

  /** The outcome of writing the entries back, and the tracee's buffer after it. */
  ghost predicate WritesEntries(entries: seq<Struct>, t: nat, size: nat, r: Result<nat, PtraceError>,
                                after: seq<Word>)
    requires t >= HEADER_WORDS && Sized(entries, t)
  {
    match r
    case Err(e) => e == BufferOverflow && !Accepts(entries, t, CRITERIA, size / 2 * 2)
    case Ok(n) =>
      && Accepts(entries, t, CRITERIA, size / 2 * 2)
      && n < size + WORD && (size % WORD == 0 ==> n <= size)
      && n / WORD <= |after| && Rewritten(entries, t, n, after[..n / WORD])
  }

  /** Writes the entries back; the size of the tracee's buffer has been halved and doubled again. */
  method WriteEntries(buf: array<Word>, size: nat, entries: seq<Struct>, t: nat)
    returns (r: Result<nat, PtraceError>)
    requires size <= WORD * buf.Length && HEADER_WORDS <= t <= MAX_STRUCT_WORDS && Sized(entries, t)
    modifies buf
    ensures WritesEntries(entries, t, size, r, buf[..])
  {
    var halved := size / 2;
    var bufferSize := halved * 2;
    r := WriteStructs(buf, bufferSize, entries, t, CRITERIA);
    ghost var all := Records(entries, t, CRITERIA);
    if r.Ok? {
      assert buf[..][..|all|] == buf[..|all|];
      WroteEntries(entries, t, size, buf[..]);
    }
  }

  lemma {:induction false} WroteEntries(entries: seq<Struct>, t: nat, size: nat, after: seq<Word>)
    requires HEADER_WORDS <= t <= MAX_STRUCT_WORDS && Sized(entries, t)
    requires Accepts(entries, t, CRITERIA, size / 2 * 2)
    requires Records(entries, t, CRITERIA) <= after
    ensures WritesEntries(entries, t, size, Ok(WORD * |Records(entries, t, CRITERIA)|), after)
  {
    var all := Records(entries, t, CRITERIA);
    RecordsRewritten(entries, t);
    AcceptedSize(entries, t, CRITERIA, size / 2 * 2);
    WholeWords(|all|, size);
  }

  lemma {:induction false} WholeWords(n: nat, size: nat)
    requires WORD * n < size + WORD
    ensures WORD * n / WORD == n && (size % WORD == 0 ==> WORD * n <= size)
  {
  }

  /**
   * The rewriting after the system call. The kernel was told half the size of the tracee's buffer, and the
   * first listWords words of the buffer are what it returned. A well-formed listing is rewritten just if its
   * records pass the checks of the writer, which is always so if no name grows. The new listing reads back
   * as the kept entries, up to their sizes, if and only if each of them is intact.
   */
  method ReplaceListing(buf: array<Word>, size: nat, listWords: nat, t: nat, edit: Edit)
    returns (r: Result<nat, PtraceError>)
    requires size <= WORD * buf.Length && listWords <= buf.Length && EditKeepsLength(edit, t)
    requires HEADER_WORDS <= t <= MAX_STRUCT_WORDS
    requires WORD * listWords <= size / 2
    modifies buf
    ensures var listing := Structs(old(buf[..listWords]), t);
            && (listing.Err? ==> r == Err(listing.error) && buf[..] == old(buf[..]))
            && (listing.Ok? ==>
                  && Sized(listing.value, t) && Sized(Kept(listing.value, edit), t)
                  && WritesEntries(Kept(listing.value, edit), t, size, r, buf[..])
                  && (NoNameLengthened(listing.value, edit, t) ==> r.Ok? && r.value <= size))
  {
    var dirents := ReadStructs(buf[..listWords], t);
    if dirents.Err? {
      return Err(dirents.error);
    }
    ReadAccounts(buf[..listWords], t);
    var kept := EditEntries(dirents.value, edit);
    KeptSized(dirents.value, edit, t);
    r := WriteEntries(buf, size, kept, t);
    if NoNameLengthened(dirents.value, edit, t) {
      KeptFits(dirents.value, edit, t);
      AcceptedSize(kept, t, CRITERIA, size / 2 * 2);
    }
  }
}
