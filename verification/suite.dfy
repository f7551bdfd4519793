/**
 The test-suite container of `toast.h` (and its verbatim copy `examples/toast.h`).

 A pack holds slices (test functions with a name and a recorded result) in
 an array whose capacity starts at two and grows by squaring. Running the
 pack hands each test function a fresh result record, stores what the
 function left in it, and tallies the stored results. Test functions are
 foreign code: a slice carries one as an arbitrary transformer of the
 result record.
 */
module Suite {

  /** `INITIAL_SLOTS`: the capacity of a new pack. */
  const InitialSlots: nat := 2
  /** `YUMMY`, `BURNT`, `RAW`: success, failure, not executed. */
  const Yummy: int := 0
  const Burnt: int := 1
  const Raw: int := -1

  /** `size_t` values are taken modulo 2^64 (an LP64 platform). */
  const SizeModulus: nat := 0x1_0000_0000_0000_0000

  /** Conversion of an `int` to `size_t`. */
  function ToSize(n: int): (r: nat)
    ensures r < SizeModulus
    ensures 0 <= n < SizeModulus ==> r == n
    ensures n < 0 && -n <= SizeModulus ==> r == SizeModulus + n
  {
    n % SizeModulus
  }

  /** The record a test function receives and fills in. */
  datatype BurntToast = BurntToast(index: nat, yummyOrBurnt: int, diagnostic: string, printDiagnostic: int)

  /** A test function: whatever it does to the record it is handed. */
  type Toasting = BurntToast -> BurntToast

  /** A slice: a test function, its name, its result and the unit its time is shown in. */
  datatype Slice = Slice(toast: Toasting, name: string, result: int, timeUnit: int)

  /** A pack: its slices (the first `size` array entries), the array capacity and the suite's name. */
  datatype Pack = Pack(slices: seq<Slice>, cap: nat, brand: string)

  /** The pack's slices fit in its array. */
  predicate Fits(p: Pack)
  {
    |p.slices| <= p.cap
  }

  /** `pre_bake_toast`: a slice that has not run, its time unit zero-initialised. */
  function PreBakeToast(name: string, toast: Toasting): (r: Slice)
    ensures r.name == name && r.toast == toast
    ensures r.result == Raw && r.timeUnit == 0
  {
    Slice(toast, name, Raw, 0)
  }

  /** `plug_in_toaster`: an empty pack with room for `INITIAL_SLOTS` slices. */
  function PlugInToaster(brand: string): (r: Pack)
    ensures r.slices == [] && r.cap == InitialSlots && r.brand == brand
    ensures Fits(r)
  {
    Pack([], InitialSlots, brand)
  }

  /** Squaring a capacity of at least two makes it larger. */
  lemma SquareGrows(c: nat)
    ensures c >= 2 ==> c * c >= 2 * c
  {
    if c >= 2 {
      assert c * c == c * (c - 2) + 2 * c;
    }
  }

  /**
   `insert_toast`: when the array is full its capacity is squared; the
   slice goes at the old size. A capacity of at least two keeps every
   slice in the array.
   */
  function InsertToast(p: Pack, slice: Slice): (r: Pack)
    ensures r.slices == p.slices + [slice] && r.brand == p.brand
    ensures p.cap <= r.cap
    ensures |p.slices| < p.cap ==> r.cap == p.cap
    ensures |p.slices| >= p.cap ==> r.cap == p.cap * p.cap
    ensures Fits(p) && p.cap >= 2 ==> Fits(r) && r.cap >= 2
  {
    if |p.slices| >= p.cap then
      SquareGrows(p.cap);
      Pack(p.slices + [slice], p.cap * p.cap, p.brand)
    else Pack(p.slices + [slice], p.cap, p.brand)
  }

  /** Why two slots: a full pack of capacity one stays at capacity one, and the slice lands outside the array. */
  lemma CapacityOneNeverGrows(slice: Slice)
    ensures var p := InsertToast(Pack([slice], 1, "p"), slice);
      p.cap == 1 && !Fits(p)
  {
  }

  /** No natural is larger than its square. */
  lemma SquareAtLeast(c: nat)
    ensures c <= c * c
  {
    if c > 0 {
      assert c * c == c * (c - 1) + c;
    }
  }

  /** Squaring keeps the order of naturals. */
  lemma SquareMonotone(a: nat, b: nat)
    ensures a < b ==> a * a < b * b
  {
    if a < b {
      assert b * b == a * a + (b - a) * (a + b);
    }
  }

  /**
   The growth loop of `insert_toasts`: square `c` until it reaches `target`.
   The result is no larger than needed: it is `c` itself, or the square of
   a value still below `target`.
   */
  function SquareUntil(c: nat, target: nat): (r: nat)
    requires c >= 2 || c >= target
    ensures r >= target && r >= c
    ensures c >= target ==> r == c
    ensures c < target ==> r < target * target
    decreases target - c
  {
    if c >= target then c
    else
      SquareGrows(c);
      SquareMonotone(c, target);
      SquareUntil(c * c, target)
  }

  /** The capacity test and growth loop of `insert_toasts`, as written: the loop stops at `len`, not at `size + len`. */
  function GrowForInsertAsWritten(size: nat, cap: nat, len: nat): (r: nat)
    requires size + len <= cap || cap >= 2 || cap * cap >= len
    ensures size + len <= cap ==> r == cap
    ensures size + len > cap ==> r >= cap * cap && r >= len
    ensures size + len > cap && cap * cap >= len ==> r == cap * cap
    ensures size + len > cap && cap * cap < len ==> r < len * len
    ensures cap <= r
  {
    if size + len > cap then
      SquareAtLeast(cap);
      SquareUntil(cap * cap, len)
    else cap
  }

  /** `insert_toasts` as written: appends the slices in order, with the capacity the loop above reaches. */
  function InsertToastsAsWritten(p: Pack, slices: seq<Slice>): (r: Pack)
    requires |p.slices| + |slices| <= p.cap || p.cap >= 2 || p.cap * p.cap >= |slices|
    ensures r.slices == p.slices + slices && r.brand == p.brand
    ensures r.cap >= |slices|
    ensures |p.slices| + |slices| <= p.cap ==> r.cap == p.cap
    ensures |p.slices| + |slices| > p.cap ==> r.cap >= p.cap * p.cap
    ensures p.cap <= r.cap
  {
    Pack(p.slices + slices, GrowForInsertAsWritten(|p.slices|, p.cap, |slices|), p.brand)
  }

  /** Two slices in a pack of capacity two, then three more at once: the capacity becomes 4 and five slices do not fit. */
  lemma InsertToastsOverflows(a: Slice, b: Slice, c: Slice, d: Slice, e: Slice)
    ensures var p := InsertToastsAsWritten(Pack([a, b], 2, "p"), [c, d, e]);
      p.cap == 4 && |p.slices| == 5 && !Fits(p)
  {
    assert SquareUntil(4, 3) == 4;
  }

  /** `insert_toasts` with the growth loop running until `size + len` slices fit. */
  function InsertToasts(p: Pack, slices: seq<Slice>): (r: Pack)
    requires |p.slices| + |slices| <= p.cap || p.cap >= 2
    ensures r.slices == p.slices + slices && r.brand == p.brand
    ensures Fits(r)
    ensures p.cap >= 2 ==> r.cap >= 2
  {
    var need := |p.slices| + |slices|;
    if need > p.cap then Pack(p.slices + slices, SquareUntil(p.cap * p.cap, need), p.brand)
    else Pack(p.slices + slices, p.cap, p.brand)
  }

  /** On an empty pack the loop's bound `len` is `size + len`, so the two definitions agree. */
  lemma InsertToastsAgreeWhenEmpty(p: Pack, slices: seq<Slice>)
    requires p.slices == [] && (|slices| <= p.cap || p.cap >= 2)
    ensures InsertToastsAsWritten(p, slices) == InsertToasts(p, slices)
  {
  }

  /** Inserting slices one at a time with `insert_toast`. */
  function InsertEach(p: Pack, slices: seq<Slice>): Pack
    decreases |slices|
  {
    if slices == [] then p else InsertEach(InsertToast(p, slices[0]), slices[1..])
  }

  /** `insert_toasts` stores the same slices in the same order as inserting them one by one. */
  lemma {:induction false} InsertToastsIsRepeatedInsert(p: Pack, slices: seq<Slice>)
    requires |p.slices| + |slices| <= p.cap || p.cap >= 2
    ensures InsertToasts(p, slices).slices == InsertEach(p, slices).slices
    ensures Fits(p) && p.cap >= 2 ==> Fits(InsertEach(p, slices))
    decreases |slices|
  {
    if slices != [] {
      var q := InsertToast(p, slices[0]);
      SquareGrows(p.cap);
      InsertToastsIsRepeatedInsert(q, slices[1..]);
      assert p.slices + slices == q.slices + slices[1..];
    }
  }

  /** `reset_burnt`: every field replaced; the index is stored as a `size_t`. */
  function ResetBurnt(index: int): (r: BurntToast)
    ensures r.index == ToSize(index) && r.yummyOrBurnt == Raw
    ensures r.diagnostic == " " && r.printDiagnostic == 0
  {
    BurntToast(ToSize(index), Raw, " ", 0)
  }

  /** `burn_toast`: failure, with the diagnostic to be printed. */
  function BurnToast(burnt: BurntToast, diagnostic: string): (r: BurntToast)
    ensures r.yummyOrBurnt == Burnt && r.diagnostic == diagnostic && r.printDiagnostic == 1
    ensures r.index == burnt.index
  {
    burnt.(yummyOrBurnt := Burnt, diagnostic := diagnostic, printDiagnostic := 1)
  }

  /** `eat_toast`: success; nothing else changes. */
  function EatToast(burnt: BurntToast): (r: BurntToast)
    ensures r.yummyOrBurnt == Yummy
    ensures r.index == burnt.index && r.diagnostic == burnt.diagnostic && r.printDiagnostic == burnt.printDiagnostic
  {
    burnt.(yummyOrBurnt := Yummy)
  }

  /** The last of `burn_toast` and `eat_toast` decides the result; the print flag `burn_toast` set survives `eat_toast`. */
  lemma LastCallDecides(b: BurntToast, message: string)
    ensures EatToast(BurnToast(b, message)).yummyOrBurnt == Yummy
    ensures EatToast(BurnToast(b, message)).printDiagnostic == 1
    ensures BurnToast(EatToast(b), message) == BurnToast(b, message)
    ensures EatToast(EatToast(b)) == EatToast(b)
  {
  }

  /** The record every test function receives: index `i`, result `RAW`, diagnostic `" "`, print flag off. */
  function Handed(i: nat): (r: BurntToast)
    ensures r.index == i && r.yummyOrBurnt == Raw && r.printDiagnostic == 0
  {
    ResetBurnt(-1).(index := i)
  }

  /** What `toast` prints for a slice while running it. */
  datatype Verdict = Success | Fail | FailWithDiagnostic(message: string)

  /** The verdict `toast` prints for the record a test function returned: failure only for a positive result. */
  function VerdictOf(after: BurntToast): (v: Verdict)
    ensures v != Success <==> after.yummyOrBurnt > 0
    ensures v.FailWithDiagnostic? <==> after.yummyOrBurnt > 0 && after.printDiagnostic != 0
    ensures v.FailWithDiagnostic? ==> v.message == after.diagnostic
  {
    if after.yummyOrBurnt > 0 then
      if after.printDiagnostic != 0 then FailWithDiagnostic(after.diagnostic) else Fail
    else Success
  }

  /** The result `toast` records for slice `i`. */
  function RecordedResult(slice: Slice, i: nat): (r: int)
    ensures r > 0 <==> VerdictOf(slice.toast(Handed(i))) != Success
  {
    slice.toast(Handed(i)).yummyOrBurnt
  }

  /** How many clock readings `toast` takes for `n` slices: one around the suite at each end, two around each test. */
  function StampCount(n: nat): nat
  {
    2 * n + 2
  }

  /** The readings before and after test `i`. */
  function TestStart(stamps: seq<Timeval>, i: nat): Timeval
    requires 2 * i + 1 < |stamps|
  {
    stamps[2 * i + 1]
  }

  function TestEnd(stamps: seq<Timeval>, i: nat): Timeval
    requires 2 * i + 2 < |stamps|
  {
    stamps[2 * i + 2]
  }

  /**
   The loop of `toast`: each test function runs on a fresh record, its
   result is stored in its slice, and its time unit is chosen from the
   time it took. The clock is a parameter: `stamps` are the readings
   `get_time_stamp` returns, in the order `toast` takes them (suite start,
   then start and end of each test, then suite end). The slice array is
   shared with the caller, so the results are returned; the suite's own
   time unit lands in `toast`'s copy of the pack and is returned separately.
   */
  method Toast(pack: Pack, stamps: seq<Timeval>) returns (slices: seq<Slice>, suiteUnit: int, verdicts: seq<Verdict>)
    requires |stamps| == StampCount(|pack.slices|)
    ensures |slices| == |pack.slices| && |verdicts| == |pack.slices|
    ensures forall i | 0 <= i < |slices| ::
      slices[i] == pack.slices[i].(result := RecordedResult(pack.slices[i], i),
                                   timeUnit := TimeUnit(DeltaMicros(TestStart(stamps, i), TestEnd(stamps, i))))
    ensures forall i | 0 <= i < |verdicts| :: verdicts[i] == VerdictOf(pack.slices[i].toast(Handed(i)))
    ensures suiteUnit == TimeUnit(DeltaMicros(stamps[0], stamps[|stamps| - 1]))
  {
    var suiteStart := stamps[0];
    var burnt := ResetBurnt(-1);
    slices := pack.slices;
    verdicts := [];
    var i := 0;
    while i < |pack.slices|
      invariant i <= |pack.slices| == |slices| && |verdicts| == i
      invariant burnt == ResetBurnt(-1)
      invariant forall k | 0 <= k < i ::
        slices[k] == pack.slices[k].(result := RecordedResult(pack.slices[k], k),
                                     timeUnit := TimeUnit(DeltaMicros(TestStart(stamps, k), TestEnd(stamps, k))))
      invariant forall k | i <= k < |slices| :: slices[k] == pack.slices[k]
      invariant forall k | 0 <= k < i :: verdicts[k] == VerdictOf(pack.slices[k].toast(Handed(k)))
    {
      burnt := burnt.(index := i);
      var testStart := stamps[2 * i + 1];
      var slice := slices[i];
      burnt := slice.toast(burnt);
      slice := slice.(result := burnt.yummyOrBurnt);
      var verdict := if slice.result > 0 then
          (if burnt.printDiagnostic != 0 then FailWithDiagnostic(burnt.diagnostic) else Fail)
        else Success;
      verdicts := verdicts + [verdict];
      burnt := ResetBurnt(-1);
      var testEnd := stamps[2 * i + 2];
      slices := slices[i := slice.(timeUnit := TimeUnit(DeltaMicros(testStart, testEnd)))];
      i := i + 1;
    }
    var suiteEnd := stamps[|stamps| - 1];
    suiteUnit := TimeUnit(DeltaMicros(suiteStart, suiteEnd));
  }

  /** The clock never goes back between consecutive readings. */
  predicate ClockMonotone(stamps: seq<Timeval>)
  {
    forall j | 0 < j < |stamps| :: Micros(stamps[j - 1]) <= Micros(stamps[j])
  }

  /** A clock that never goes back between consecutive readings never goes back at all. */
  lemma {:induction false} ClockOrdered(stamps: seq<Timeval>, a: nat, b: nat)
    requires ClockMonotone(stamps) && a <= b < |stamps|
    ensures Micros(stamps[a]) <= Micros(stamps[b])
    decreases b - a
  {
    if a < b {
      ClockOrdered(stamps, a, b - 1);
    }
  }

  /**
   With a clock that does not go back, no test is shown in a larger unit
   than the whole suite: each test's interval lies inside the suite's.
   */
  lemma TestUnitAtMostSuiteUnit(stamps: seq<Timeval>, n: nat, i: nat)
    requires |stamps| == StampCount(n) && i < n && ClockMonotone(stamps)
    ensures TimeUnit(DeltaMicros(TestStart(stamps, i), TestEnd(stamps, i)))
      <= TimeUnit(DeltaMicros(stamps[0], stamps[|stamps| - 1]))
  {
    ClockOrdered(stamps, 0, 2 * i + 1);
    ClockOrdered(stamps, 2 * i + 2, |stamps| - 1);
    TimeUnitMonotone(DeltaMicros(TestStart(stamps, i), TestEnd(stamps, i)),
                     DeltaMicros(stamps[0], stamps[|stamps| - 1]));
  }

  /** A test function that calls neither helper leaves `RAW`: recorded as -1 and shown as a success. */
  lemma UntouchedIsRaw(slice: Slice, i: nat)
    requires forall b: BurntToast :: slice.toast(b) == b
    ensures RecordedResult(slice, i) == Raw
    ensures VerdictOf(slice.toast(Handed(i))) == Success
  {
    assert slice.toast(Handed(i)) == Handed(i);
  }

  /** How `print_stats` counts a result. */
  datatype Tally = Succeeded | Failed | NotRun

  function TallyOf(result: int): Tally
  {
    if result == 1 then Failed else if result == 0 then Succeeded else NotRun
  }

  /** The number of the first `n` slices tallied as `t`. */
  function CountTally(slices: seq<Slice>, n: nat, t: Tally): (c: nat)
    requires n <= |slices|
    ensures c <= n
  {
    if n == 0 then 0
    else CountTally(slices, n - 1, t) + (if TallyOf(slices[n - 1].result) == t then 1 else 0)
  }

  /** Every slice falls in exactly one of the three tallies. */
  lemma {:induction false} TalliesPartition(slices: seq<Slice>, n: nat)
    requires n <= |slices|
    ensures CountTally(slices, n, Succeeded) + CountTally(slices, n, Failed) + CountTally(slices, n, NotRun) == n
  {
    if n > 0 {
      TalliesPartition(slices, n - 1);
    }
  }

  /** The tally loop of `print_stats`: successes, failures and slices not run, which together are the pack's size. */
  method PrintStats(slices: seq<Slice>) returns (success: nat, failed: nat, notRun: nat)
    ensures success == CountTally(slices, |slices|, Succeeded)
    ensures failed == CountTally(slices, |slices|, Failed)
    ensures notRun == CountTally(slices, |slices|, NotRun)
    ensures success + failed + notRun == |slices|
  {
    success, failed, notRun := 0, 0, 0;
    var i := 0;
    while i < |slices|
      invariant i <= |slices|
      invariant success == CountTally(slices, i, Succeeded)
      invariant failed == CountTally(slices, i, Failed)
      invariant notRun == CountTally(slices, i, NotRun)
    {
      var result := slices[i].result;
      if result == 1 {
        failed := failed + 1;
      } else if result == 0 {
        success := success + 1;
      } else {
        notRun := notRun + 1;
      }
      i := i + 1;
    }
    TalliesPartition(slices, |slices|);
  }

  /** The outcome column of the overview: `pass` only for result 0. */
  function OverviewLabel(result: int): (r: string)
    ensures r == "pass" <==> result == 0
  {
    if result == 0 then "pass" else "fail"
  }

  /**
   The three reports of one result (the verdict printed while running, the
   overview's outcome column and the tally) agree exactly when the result
   is 0 or 1: `RAW` is shown as a success, labelled `fail` and counted as
   not run; 2 is shown as a failure and counted as not run.
   */
  lemma ReportsAgreeIff(after: BurntToast)
    ensures var r := after.yummyOrBurnt;
      ((VerdictOf(after) == Success) == (OverviewLabel(r) == "pass") == (TallyOf(r) == Succeeded)
        && (VerdictOf(after) != Success) == (TallyOf(r) == Failed))
      <==> r == 0 || r == 1
  {
  }

  /** A pack of pre-baked slices that never ran tallies everything as not run. */
  lemma {:induction false} PreBakedNotRun(slices: seq<Slice>, n: nat)
    requires n <= |slices|
    requires forall i | 0 <= i < |slices| :: slices[i].result == Raw
    ensures CountTally(slices, n, NotRun) == n
    ensures CountTally(slices, n, Succeeded) == 0 && CountTally(slices, n, Failed) == 0
  {
    if n > 0 {
      PreBakedNotRun(slices, n - 1);
    }
  }

  /** A `struct timeval`. */
  datatype Timeval = Timeval(sec: int, usec: int)

  /** A reading as a count of microseconds since the clock's origin. */
  function Micros(t: Timeval): int
  {
    t.sec * 1000000 + t.usec
  }

  /**
   The microseconds between two readings, as `delta_time` computes them
   (seconds and microseconds subtracted separately, then combined): the
   difference of the two readings.
   */
  function DeltaMicros(start: Timeval, end: Timeval): (d: int)
    ensures d == Micros(end) - Micros(start)
  {
    (end.sec - start.sec) * 1000 * 1000 + (end.usec - start.usec)
  }

  /** Measured durations add up: the time from `a` to `c` is the time from `a` to `b` plus that from `b` to `c`. */
  lemma DeltaAdds(a: Timeval, b: Timeval, c: Timeval)
    ensures DeltaMicros(a, b) + DeltaMicros(b, c) == DeltaMicros(a, c)
    ensures DeltaMicros(a, a) == 0
  {
  }

  /** The unit `delta_time` picks: 0 for microseconds, 1 for milliseconds, 2 for seconds. */
  function TimeUnit(delta: int): (u: int)
    ensures 0 <= u <= 2
    ensures u == 0 <==> delta <= 1000
    ensures u == 2 <==> delta >= 1000000
  {
    if delta > 1000 && delta < 1000000 then 1
    else if delta >= 1000000 then 2
    else 0
  }

  /** The number of microseconds in one unit. */
  function UnitScale(u: int): (s: nat)
    ensures s > 0
  {
    if u == 1 then 1000 else if u == 2 then 1000000 else 1
  }

  /**
   The unit keeps a non-negative duration readable: in microseconds it is
   at most 1000, in milliseconds strictly between 1 and 1000, and in seconds
   at least 1.
   */
  lemma TimeUnitScales(delta: int)
    requires delta >= 0
    ensures var u := TimeUnit(delta); var v := delta as real / UnitScale(u) as real;
      && (u == 0 ==> v <= 1000.0)
      && (u == 1 ==> 1.0 < v < 1000.0)
      && (u == 2 ==> v >= 1.0)
  {
    var u := TimeUnit(delta);
    if u == 1 {
      assert delta as real / 1000.0 > 1.0;
      assert delta as real / 1000.0 < 1000.0;
    } else if u == 2 {
      assert delta as real / 1000000.0 >= 1.0;
    }
  }

  /** A longer duration never gets a smaller unit; exactly 1000 microseconds stays in microseconds. */
  lemma TimeUnitMonotone(a: int, b: int)
    requires a <= b
    ensures TimeUnit(a) <= TimeUnit(b)
    ensures TimeUnit(1000) == 0 && TimeUnit(1001) == 1 && TimeUnit(1000000) == 2
  {
  }

  /** `add`, `sub` and `mul` of `examples/example.c`: `sub`'s check is false, so it burns. */
  function AddToast(b: BurntToast): BurntToast
  {
    if 1 + 2 == 3 then EatToast(b) else BurnToast(b, "Adding went wrong")
  }

  function SubToast(b: BurntToast): BurntToast
  {
    if 4 - 2 == 1 then EatToast(b) else BurnToast(b, "Substracting went wrong")
  }

  function MulToast(b: BurntToast): BurntToast
  {
    if 2 * 2 == 4 then EatToast(b) else BurnToast(b, "Multiplying went wrong")
  }

  /** The slices `example.c` declares with compound literals: the result is zero-initialised. */
  function ExampleSlice(toast: Toasting, name: string): Slice
  {
    Slice(toast, name, 0, 0)
  }

  /**
   `examples/example.c`: two slices inserted at once fit in capacity 2, the
   third insert squares the capacity to 4, the order is add, sub, mul, and
   running them records 0, 1, 0 with one failure shown with its diagnostic.
   */
  lemma ExampleRun()
    ensures var p1 := InsertToastsAsWritten(PlugInToaster("toast.h"), [ExampleSlice(AddToast, "add"), ExampleSlice(SubToast, "sub")]);
      var p2 := InsertToast(p1, ExampleSlice(MulToast, "mul"));
      && p1.cap == 2 && |p1.slices| == 2
      && p2.cap == 4 && |p2.slices| == 3
      && p2.slices[0].name == "add" && p2.slices[1].name == "sub" && p2.slices[2].name == "mul"
      && RecordedResult(p2.slices[0], 0) == Yummy
      && RecordedResult(p2.slices[1], 1) == Burnt
      && RecordedResult(p2.slices[2], 2) == Yummy
      && VerdictOf(p2.slices[1].toast(Handed(1))) == FailWithDiagnostic("Substracting went wrong")
  {
    var p1 := InsertToastsAsWritten(PlugInToaster("toast.h"), [ExampleSlice(AddToast, "add"), ExampleSlice(SubToast, "sub")]);
    assert p1.slices == [ExampleSlice(AddToast, "add"), ExampleSlice(SubToast, "sub")];
    var p2 := InsertToast(p1, ExampleSlice(MulToast, "mul"));
    assert p2.slices[1].toast == SubToast;
  }
}
