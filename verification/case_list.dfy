/**
 The list of discovered test cases (`Cases`, `append_case`).

 Two versions of `append_case` are modelled. `AppendCaseAsWritten` follows
 the code: the `cap` field is never updated and the `realloc` is sized in
 bytes, not in cases, so the store soon holds fewer slots than cases.
 `AppendCase` is the evidently intended growth (capacity doubled in cases
 and recorded); the rest of the model uses it.
 */
module CaseList {
  import TextBuffer

  /** One discovered test function: the file it came from, its name and its source text. */
  datatype Case = Case(fileName: string, functionName: string, text: string)

  /** DEFAULT_CASES_CAP */
  const DefaultCasesCap: nat := 1024

  /** `sizeof(Case)`: three pointers on an LP64 target. */
  const CaseBytes: nat := 24

  /**
   A `Cases` list: `Unallocated` while `items == NULL`; otherwise the cases,
   the recorded `cap` field, and the number of bytes the storage really has.
   */
  datatype CaseStore = Unallocated | Allocated(items: seq<Case>, cap: nat, bytes: nat)

  /** The cases held so far. */
  function Items(cs: CaseStore): seq<Case>
  {
    if cs.Unallocated? then [] else cs.items
  }

  /** Every stored case lies inside the allocated storage. */
  predicate SlotsFit(cs: CaseStore)
  {
    cs.Unallocated? || |cs.items| * CaseBytes <= cs.bytes
  }

  /** `append_case` as written: on `len > cap/2` the storage becomes `cap*2` BYTES and `cap` stays put. */
  function AppendCaseAsWritten(cs: CaseStore, item: Case): (r: CaseStore)
    ensures r.Allocated? && r.items == Items(cs) + [item]
    ensures r.cap == if cs.Unallocated? then DefaultCasesCap else cs.cap
  {
    var base := if cs.Unallocated? then Allocated([], DefaultCasesCap, CaseBytes * DefaultCasesCap) else cs;
    var bytes := if |base.items| > base.cap / 2 then base.cap * 2 else base.bytes;
    Allocated(base.items + [item], base.cap, bytes)
  }

  /** Appending `items` one at a time with the code as written. */
  function AppendAllAsWritten(cs: CaseStore, items: seq<Case>): (r: CaseStore)
    ensures Items(r) == Items(cs) + items
    ensures items != [] ==> r.Allocated? && r.cap == (if cs.Unallocated? then DefaultCasesCap else cs.cap)
    decreases |items|
  {
    if |items| == 0 then cs
    else
      var next := AppendCaseAsWritten(cs, items[0]);
      assert Items(cs) + items == Items(next) + items[1..];
      AppendAllAsWritten(next, items[1..])
  }

  /** Appending `a + b` as written is appending `a`, then `b`. */
  lemma {:induction false} AppendAllAsWrittenSplits(cs: CaseStore, a: seq<Case>, b: seq<Case>)
    ensures AppendAllAsWritten(cs, a + b) == AppendAllAsWritten(AppendAllAsWritten(cs, a), b)
    decreases |a|
  {
    if a == [] {
      assert a + b == b;
    } else {
      assert (a + b)[0] == a[0] && (a + b)[1..] == a[1..] + b;
      AppendAllAsWrittenSplits(AppendCaseAsWritten(cs, a[0]), a[1..], b);
    }
  }

  /** The storage after appending `items[..n]` to an empty list one by one, given step by step. */
  lemma {:induction false} AsWrittenShape(items: seq<Case>, n: nat)
    requires n <= |items|
    ensures AppendAllAsWritten(Unallocated, items[..n]) == AppendAllAsWrittenFrom(items, n)
  {
    if n > 0 {
      AsWrittenShape(items, n - 1);
      AppendAllLast(Unallocated, items[..n]);
      assert items[..n][..n - 1] == items[..n - 1];
    }
  }

  /** Closed form of the as-written store after `n` appends from empty. */
  function AppendAllAsWrittenFrom(items: seq<Case>, n: nat): CaseStore
    requires n <= |items|
  {
    if n == 0 then Unallocated
    else Allocated(items[..n], DefaultCasesCap,
                   if n > DefaultCasesCap / 2 + 1 then DefaultCasesCap * 2 else CaseBytes * DefaultCasesCap)
  }

  /** Appending a sequence ends with appending its last element. */
  lemma {:induction false} AppendAllLast(cs: CaseStore, items: seq<Case>)
    requires |items| > 0
    ensures AppendAllAsWritten(cs, items) == AppendCaseAsWritten(AppendAllAsWritten(cs, items[..|items| - 1]), items[|items| - 1])
    decreases |items|
  {
    if |items| > 1 {
      AppendAllLast(AppendCaseAsWritten(cs, items[0]), items[1..]);
      assert items[1..][..|items| - 2] == items[..|items| - 1][1..];
    }
  }

  /**
   With the code as written, the case list overruns its storage exactly from
   the 514th case on: the first regrowth shrinks it to 2048 bytes (85 cases).
   */
  lemma AsWrittenOverflow(items: seq<Case>)
    ensures SlotsFit(AppendAllAsWritten(Unallocated, items)) <==> |items| <= DefaultCasesCap / 2 + 1
  {
    AsWrittenShape(items, |items|);
    assert items[..|items|] == items;
  }

  /** Representation invariant of the corrected list: a doubling of 1024 slots, all recorded, holding every case. */
  predicate Valid(cs: CaseStore)
  {
    cs.Unallocated? ||
    (TextBuffer.DoublingOf(DefaultCasesCap, cs.cap) && |cs.items| <= cs.cap && cs.bytes == cs.cap * CaseBytes)
  }

  /** `append_case` with the growth evidently intended: double the capacity in cases and record it. */
  function AppendCase(cs: CaseStore, item: Case): (r: CaseStore)
    requires Valid(cs)
    ensures Valid(r) && SlotsFit(r)
    ensures r.Allocated? && r.items == Items(cs) + [item]
    ensures r.items[|Items(cs)|] == item
    ensures cs.Unallocated? ==> r.cap == DefaultCasesCap
    ensures cs.Allocated? ==> r.cap == if |cs.items| > cs.cap / 2 then cs.cap * 2 else cs.cap
    ensures r.bytes == r.cap * CaseBytes
  {
    var base := if cs.Unallocated? then Allocated([], DefaultCasesCap, CaseBytes * DefaultCasesCap) else cs;
    if |base.items| > base.cap / 2 then
      Allocated(base.items + [item], base.cap * 2, base.cap * 2 * CaseBytes)
    else
      Allocated(base.items + [item], base.cap, base.bytes)
  }

  /** Appending a sequence of cases one at a time with the corrected `append_case`. */
  function AppendAll(cs: CaseStore, items: seq<Case>): (r: CaseStore)
    requires Valid(cs)
    ensures Valid(r) && SlotsFit(r)
    ensures Items(r) == Items(cs) + items
    decreases |items|
  {
    if |items| == 0 then cs
    else
      var next := AppendCase(cs, items[0]);
      assert Items(cs) + items == Items(next) + items[1..];
      AppendAll(next, items[1..])
  }
}
