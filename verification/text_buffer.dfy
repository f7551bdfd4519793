/**
 The growable character buffer `Str` of the toaster (`append_str`).

 A `Str` starts with no storage; the first append allocates the default
 capacity, and every later append that would not fit doubles the capacity
 until it does. The bytes are modelled as a sequence, the capacity as a
 number, so that the growth policy can be stated and checked.
 */
module TextBuffer {

  /** DEFAULT_STR_CAP */
  const DefaultStrCap: nat := 1024

  /** `cap` is `base * 2^k` for some k: the only capacities doubling can reach from `base`. */
  predicate DoublingOf(base: nat, cap: nat)
    decreases cap
  {
    cap == base || (cap > base && cap % 2 == 0 && DoublingOf(base, cap / 2))
  }

  /** A `Str`: `Unallocated` while `items == NULL`, otherwise the text and its capacity. */
  datatype Str = Unallocated | Allocated(items: seq<char>, cap: nat)

  /** The representation invariant every `Str` of the program keeps. */
  predicate Valid(s: Str)
  {
    s.Unallocated? || (|s.items| <= s.cap && DoublingOf(DefaultStrCap, s.cap))
  }

  /** The text held so far (an unallocated buffer holds none). */
  function Contents(s: Str): seq<char>
  {
    if s.Unallocated? then [] else s.items
  }

  /** The `while (len + data_len > cap) cap *= 2` loop: the least doubling of `cap` that holds `need`. */
  function Grow(cap: nat, need: nat): (r: nat)
    requires cap > 0
    ensures cap <= r && need <= r
    ensures r == cap || r / 2 < need
    ensures forall base: nat :: DoublingOf(base, cap) ==> DoublingOf(base, r)
    decreases if need > cap then need - cap else 0
  {
    if need <= cap then cap else Grow(cap * 2, need)
  }

  /** `append_str(str, data)`: allocate on first use, grow by doubling, then copy `data` after the old text. */
  function AppendStr(s: Str, data: seq<char>): (r: Str)
    requires Valid(s)
    ensures r.Allocated? && Valid(r)
    ensures r.items == Contents(s) + data
    ensures |r.items| == |Contents(s)| + |data|
    ensures s.Allocated? ==> s.cap <= r.cap
    ensures s.Allocated? && |s.items| + |data| <= s.cap ==> r.cap == s.cap
  {
    var base := if s.Unallocated? then Allocated([], DefaultStrCap) else s;
    var need := |base.items| + |data|;
    var cap := if need > base.cap then Grow(base.cap, need) else base.cap;
    Allocated(base.items + data, cap)
  }

  /** Growing to a smaller need first and then to a larger one ends where growing straight to the larger one does. */
  lemma {:induction false} GrowTwice(cap: nat, n1: nat, n2: nat)
    requires cap > 0 && n1 <= n2
    ensures Grow(Grow(cap, n1), n2) == Grow(cap, n2)
    decreases if n1 > cap then n1 - cap else 0
  {
    if n1 > cap {
      GrowTwice(cap * 2, n1, n2);
    }
  }

  /**
   Splitting one append into two changes nothing: the text and the capacity
   are those of a single append of the concatenation.
   */
  lemma AppendSplits(s: Str, a: seq<char>, b: seq<char>)
    requires Valid(s)
    ensures AppendStr(AppendStr(s, a), b) == AppendStr(s, a + b)
  {
    var base := if s.Unallocated? then Allocated([], DefaultStrCap) else s;
    var n1, n2 := |base.items| + |a|, |base.items| + |a| + |b|;
    var mid := AppendStr(s, a);
    assert mid.cap == Grow(base.cap, n1);
    GrowTwice(base.cap, n1, n2);
    assert AppendStr(mid, b).cap == Grow(mid.cap, n2);
    assert Contents(s) + a + b == Contents(s) + (a + b);
  }

  /** The capacity of a buffer built from nothing is the least doubling of 1024 that holds its text. */
  lemma FreshCapacity(data: seq<char>)
    ensures AppendStr(Unallocated, data).cap == Grow(DefaultStrCap, |data|)
    ensures DoublingOf(DefaultStrCap, AppendStr(Unallocated, data).cap)
  {
  }
}
