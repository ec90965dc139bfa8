/** The trace of gaps between busy intervals (scripts/check_solomicheva_nearest.py). Times are minutes. */
module GapScan {
  import opened Seqs

  datatype Interval = Interval(start: int, end: int)

  /** `first_valid_slot_in_window`: of a window, its earliest admissible start, if there is one. */
  type Finder = (int, int) -> Option<int>

  /** A meeting at `s` is admissible in the window [lo, hi). */
  predicate Fits(valid: int -> bool, duration: nat, lo: int, hi: int, s: int) {
    lo <= s && s + duration <= hi && valid(s)
  }

  ghost predicate FindsEarliest(find: Finder, valid: int -> bool, duration: nat) {
    forall lo, hi :: EarliestIn(find(lo, hi), valid, duration, lo, hi)
  }

  ghost predicate EarliestIn(slot: Option<int>, valid: int -> bool, duration: nat, lo: int, hi: int) {
    && (slot.Some? ==> Fits(valid, duration, lo, hi, slot.value))
    && forall s :: Fits(valid, duration, lo, hi, s) ==> slot.Some? && slot.value <= s
  }

  ghost predicate SortedByStart(busy: seq<Interval>) {
    forall i, j :: 0 <= i < j < |busy| ==> busy[i].start <= busy[j].start
  }

  /** The meeting [s, s + duration) meets no busy interval. */
  ghost predicate IsFree(busy: seq<Interval>, duration: nat, s: int) {
    forall i :: 0 <= i < |busy| ==> s + duration <= busy[i].start || busy[i].end <= s
  }

  /** An admissible free meeting in a gap that some busy interval closes within the search bounds. */
  ghost predicate IsSlot(valid: int -> bool, busy: seq<Interval>, duration: nat, earliest: int, searchEnd: int,
                         s: int)
  {
    && Fits(valid, duration, earliest, searchEnd, s) && IsFree(busy, duration, s)
    && exists k :: 0 <= k < |busy| && busy[k].start <= searchEnd && s + duration <= busy[k].start
  }

  function Max(a: int, b: int): int { if a < b then b else a }

  function Min(a: int, b: int): int { if a < b then a else b }

  /** End of the last of the first `n` busy intervals, or the start of the search. */
  function WindowStart(busy: seq<Interval>, earliest: int, n: nat): int
    requires n <= |busy|
  {
    if n == 0 then earliest else Max(WindowStart(busy, earliest, n - 1), busy[n - 1].end)
  }

  lemma {:induction false} WindowStartBounds(busy: seq<Interval>, earliest: int, n: nat)
    requires n <= |busy|
    ensures earliest <= WindowStart(busy, earliest, n)
    ensures forall i :: 0 <= i < n ==> busy[i].end <= WindowStart(busy, earliest, n)
  {
    if n > 0 { WindowStartBounds(busy, earliest, n - 1); }
  }

  /** A free meeting that does not end before any of the first `n` intervals starts, starts after all of
      them ended. */
  lemma {:induction false} FreeIsAfterWindow(busy: seq<Interval>, duration: nat, earliest: int, n: nat, s: int)
    requires n <= |busy| && IsFree(busy, duration, s) && earliest <= s
    requires forall i :: 0 <= i < n ==> busy[i].start < s + duration
    ensures WindowStart(busy, earliest, n) <= s
  {
    if n > 0 { FreeIsAfterWindow(busy, duration, earliest, n - 1, s); }
  }

  /** What the loop knows after `n` intervals without a hit: no gap closed so far held a slot. */
  ghost predicate NoSlotBefore(valid: int -> bool, busy: seq<Interval>, duration: nat, earliest: int,
                               searchEnd: int, n: nat)
    requires n <= |busy|
  {
    forall s, k :: 0 <= k < n && Fits(valid, duration, earliest, searchEnd, s) && s + duration <= busy[k].start ==>
      !IsFree(busy, duration, s)
  }

  lemma GapHoldsNone(valid: int -> bool, busy: seq<Interval>, duration: nat, earliest: int, searchEnd: int, n: nat)
    requires n < |busy| && NoSlotBefore(valid, busy, duration, earliest, searchEnd, n)
    requires var lo := WindowStart(busy, earliest, n); forall s ::
      Fits(valid, duration, lo, Min(busy[n].start, searchEnd), s) ==> false
    ensures NoSlotBefore(valid, busy, duration, earliest, searchEnd, n + 1)
  {
    forall s, k | 0 <= k < n + 1 && Fits(valid, duration, earliest, searchEnd, s) && s + duration <= busy[k].start
      ensures !IsFree(busy, duration, s)
    {
      if IsFree(busy, duration, s) && k == n {
        if i :| 0 <= i < n && s + duration <= busy[i].start {
          assert false;
        } else {
          FreeIsAfterWindow(busy, duration, earliest, n, s);
          assert Fits(valid, duration, WindowStart(busy, earliest, n), Min(busy[n].start, searchEnd), s);
        }
      }
    }
  }

  /** What the trace reports is the earliest slot there is: admissible, free of every busy interval
      (earlier and later, overlapping ones included), within the bounds. It reports nothing exactly
      when no gap closed by a busy interval within the bounds holds a slot. */
  method TraceGaps(find: Finder, valid: int -> bool, busy: seq<Interval>, duration: nat, earliest: int, searchEnd: int)
    returns (slot: Option<int>)
    requires FindsEarliest(find, valid, duration) && SortedByStart(busy) && duration > 0
    ensures slot.Some? ==> IsSlot(valid, busy, duration, earliest, searchEnd, slot.value)
    ensures forall s :: IsSlot(valid, busy, duration, earliest, searchEnd, s) ==> slot.Some? && slot.value <= s
  {
    var windowStart := earliest;
    for i := 0 to |busy|
      invariant windowStart == WindowStart(busy, earliest, i)
      invariant NoSlotBefore(valid, busy, duration, earliest, searchEnd, i)
    {
      if busy[i].start > searchEnd {
        PastTheEnd(valid, busy, duration, earliest, searchEnd, i);
        return None;
      }
      WindowStartBounds(busy, earliest, i);
      if busy[i].start > windowStart {
        var hi := Min(busy[i].start, searchEnd);
        var found := find(windowStart, hi);
        assert EarliestIn(found, valid, duration, windowStart, hi);
        if found.Some? {
          FoundIsEarliest(valid, busy, duration, earliest, searchEnd, i, found.value);
          return found;
        }
      }
      GapHoldsNone(valid, busy, duration, earliest, searchEnd, i);
      windowStart := Max(windowStart, busy[i].end);
    }
    return None;
  }

  lemma PastTheEnd(valid: int -> bool, busy: seq<Interval>, duration: nat, earliest: int, searchEnd: int, n: nat)
    requires n < |busy| && SortedByStart(busy) && busy[n].start > searchEnd
    requires NoSlotBefore(valid, busy, duration, earliest, searchEnd, n)
    ensures forall s :: !IsSlot(valid, busy, duration, earliest, searchEnd, s)
  {
  }

  lemma FoundIsEarliest(valid: int -> bool, busy: seq<Interval>, duration: nat, earliest: int, searchEnd: int, n: nat,
                        slot: int)
    requires n < |busy| && SortedByStart(busy) && busy[n].start <= searchEnd
    requires NoSlotBefore(valid, busy, duration, earliest, searchEnd, n)
    requires EarliestIn(Some(slot), valid, duration, WindowStart(busy, earliest, n), Min(busy[n].start, searchEnd))
    ensures IsSlot(valid, busy, duration, earliest, searchEnd, slot)
    ensures forall s :: IsSlot(valid, busy, duration, earliest, searchEnd, s) ==> slot <= s
  {
    WindowStartBounds(busy, earliest, n);
    forall s | IsSlot(valid, busy, duration, earliest, searchEnd, s) && s < slot ensures false {
      if i :| 0 <= i < n && s + duration <= busy[i].start {
        assert false;
      } else {
        FreeIsAfterWindow(busy, duration, earliest, n, s);
        assert Fits(valid, duration, WindowStart(busy, earliest, n), Min(busy[n].start, searchEnd), s);
      }
    }
  }
}
