/**
 The recorded mappings of the guest address space and the search for a free range among them.
 */
module GapSearch {
  import opened Wrappers
  import opened Alignment
  import opened OrderedKeys

  const GRANULARITY: nat := 0x1_0000

  datatype MemState = MemFree | MemReserve | MemCommit

  /** What is recorded about the mapping that starts at a given address. */
  datatype Mapping = Mapping(size: nat, allocationProtect: nat, state: MemState, protect: nat, kind: nat)

  type Mappings = map<nat, Mapping>

  predicate ValidPageSize(p: nat) {
    p > 0 && GRANULARITY % p == 0
  }

  predicate Disjoint(a: nat, alen: nat, b: nat, blen: nat) {
    a + alen <= b || b + blen <= a
  }

  /** `[a, a + len)` is disjoint from every recorded mapping. */
  ghost predicate Clear(m: Mappings, a: nat, len: nat) {
    forall k :: k in m ==> Disjoint(a, len, k, m[k].size)
  }

  /** `[a, a + len)` is an admissible answer to a search between `lo` and `hi`. */
  ghost predicate Fits(m: Mappings, a: nat, len: nat, lo: nat, hi: nat) {
    a % GRANULARITY == 0 && lo <= a && a + len <= hi && Clear(m, a, len)
  }

  /** The place for `len` bytes inside one gap, at its lower or upper end. */
  function TryGap(gapStart: nat, gapEnd: nat, len: nat, preferTop: bool): Option<nat> {
    if gapEnd <= gapStart then None
    else
      var lower := AlignUp(gapStart, GRANULARITY);
      if lower >= gapEnd then None
      else if !preferTop then
        if lower + len <= gapEnd then Some(lower) else None
      else if gapEnd < len then None
      else
        var chosen := AlignDown(gapEnd - len, GRANULARITY);
        if chosen < lower then None else if chosen + len > gapEnd then None else Some(chosen)
  }

  /** Within one gap the choice is possible whenever anything is, and extremal. */
  lemma TryGapIsExtremal(gapStart: nat, gapEnd: nat, len: nat, preferTop: bool)
    requires len > 0
    ensures
      var r := TryGap(gapStart, gapEnd, len, preferTop);
      && (r.Some? ==> r.value % GRANULARITY == 0 && gapStart <= r.value && r.value + len <= gapEnd)
      && forall a: nat :: a % GRANULARITY == 0 && gapStart <= a && a + len <= gapEnd ==>
           r.Some? && if preferTop then a <= r.value else r.value <= a
  {
    AlignUpBounds(gapStart, GRANULARITY);
    if gapEnd >= len {
      AlignDownBounds(gapEnd - len, GRANULARITY);
    }
    var r := TryGap(gapStart, gapEnd, len, preferTop);
    forall a: nat | a % GRANULARITY == 0 && gapStart <= a && a + len <= gapEnd
      ensures r.Some? && if preferTop then a <= r.value else r.value <= a
    {
      AlignUpLeast(gapStart, GRANULARITY, a);
      AlignDownGreatest(gapEnd - len, GRANULARITY, a);
    }
  }

  /** What the walk over the mappings knows: everything below `cursor` has been dealt with. */
  ghost predicate Searched(m: Mappings, len: nat, lo: nat, hi: nat, cursor: nat, best: Option<nat>) {
    && lo <= cursor
    && (best.Some? ==> Fits(m, best.value, len, lo, hi))
    && forall a: nat :: Fits(m, a, len, lo, hi) ==> a >= cursor || (best.Some? && a <= best.value)
  }

  /** Mappings whose keys have been passed end at or below `cursor`. */
  ghost predicate Passed(m: Mappings, keys: seq<nat>, n: nat, cursor: nat) {
    n <= |keys| && forall i :: 0 <= i < n ==> keys[i] in m && keys[i] + m[keys[i]].size <= cursor
  }

  /** A gap is bounded below by what was passed and above by the next mapping. */
  lemma GapIsClear(m: Mappings, keys: seq<nat>, n: nat, cursor: nat, gapEnd: nat, a: nat, len: nat)
    requires keys == Ascending(m.Keys) && Passed(m, keys, n, cursor)
    requires n < |keys| ==> gapEnd <= keys[n]
    requires cursor <= a && a + len <= gapEnd
    ensures Clear(m, a, len)
  {
    forall k | k in m ensures Disjoint(a, len, k, m[k].size) {
      assert k in keys;
      var i :| 0 <= i < |keys| && keys[i] == k;
      if i >= n {
        assert keys[n] <= keys[i];
      }
    }
  }

  /** Nothing fits before `limit` any more, except at or below the best place so far. */
  ghost predicate Exhausted(m: Mappings, len: nat, lo: nat, hi: nat, limit: nat, best: Option<nat>) {
    forall a: nat :: Fits(m, a, len, lo, hi) && a + len <= limit ==> best.Some? && a <= best.value
  }

  /** A place at the lower end of a gap is the lowest of all. */
  ghost predicate Lowest(m: Mappings, len: nat, lo: nat, hi: nat, a: nat) {
    Fits(m, a, len, lo, hi) && forall b: nat :: Fits(m, b, len, lo, hi) ==> a <= b
  }

  /** Looks at the gap before `gapEnd`: bottom-up search may stop there, top-down search goes on. */
  method ConsiderGap(m: Mappings, ghost keys: seq<nat>, ghost n: nat, len: nat, ghost lo: nat, ghost hi: nat,
                     cursor: nat, gapEnd: nat, preferTop: bool, best: Option<nat>)
    returns (answer: Option<nat>, best': Option<nat>)
    requires keys == Ascending(m.Keys) && Passed(m, keys, n, cursor)
    requires len > 0 && gapEnd <= hi && (n < |keys| ==> gapEnd <= keys[n])
    requires Searched(m, len, lo, hi, cursor, best) && (!preferTop ==> best.None?)
    ensures answer.Some? ==> !preferTop && Lowest(m, len, lo, hi, answer.value)
    ensures !preferTop ==> best'.None?
    ensures answer.None? ==>
              Searched(m, len, lo, hi, cursor, best') && Exhausted(m, len, lo, hi, gapEnd, best')
  {
    answer, best' := None, best;
    var candidate := TryGap(cursor, gapEnd, len, preferTop);
    TryGapIsExtremal(cursor, gapEnd, len, preferTop);
    if candidate.None? {
      return;
    }
    GapIsClear(m, keys, n, cursor, gapEnd, candidate.value, len);
    if !preferTop {
      forall b: nat | Fits(m, b, len, lo, hi) ensures candidate.value <= b {
        AlignUpLeast(cursor, GRANULARITY, b);
      }
      answer := candidate;
    } else if best.None? || candidate.value > best.value {
      best' := candidate;
    }
  }

  /** Stepping over a mapping whose gap has been looked at. */
  lemma MappingPassed(m: Mappings, keys: seq<nat>, n: nat, len: nat, lo: nat, hi: nat,
                      cursor: nat, end: nat, cursor': nat, pageSize: nat, best: Option<nat>)
    requires Passed(m, keys, n, cursor) && n < |keys| && keys[n] in m
    requires ValidPageSize(pageSize) && len > 0
    requires Searched(m, len, lo, hi, cursor, best)
    requires Exhausted(m, len, lo, hi, keys[n], best)
    requires end == keys[n] + m[keys[n]].size
    requires cursor' == if end > cursor then AlignUp(end, pageSize) else cursor
    ensures cursor <= cursor' && Passed(m, keys, n + 1, cursor') && Searched(m, len, lo, hi, cursor', best)
  {
    var k := keys[n];
    AlignUpBounds(end, pageSize);
    forall a: nat | Fits(m, a, len, lo, hi) ensures a >= cursor' || (best.Some? && a <= best.value) {
      assert Disjoint(a, len, k, m[k].size);
      if a + len > k && end > cursor {
        MultipleOfMultiple(a, GRANULARITY, pageSize);
        AlignUpLeast(end, pageSize, a);
      }
    }
  }

  /**
   Finds a free, 64 KiB-aligned range of the page-rounded size: the lowest one, or the highest
   when `preferTop`. Failure means that there is none.
   */
  method FindFreeMapping(m: Mappings, pageSize: nat, size: nat, minAddr: nat, maxAddr: nat, preferTop: bool)
    returns (addr: Option<nat>)
    requires ValidPageSize(pageSize)
    ensures addr.Some? ==>
              var len := AlignUp(size, pageSize);
              && size > 0 && Fits(m, addr.value, len, minAddr, maxAddr) && addr.value % 0x1_0000 == 0
              && forall a: nat :: Fits(m, a, len, minAddr, maxAddr) ==>
                   if preferTop then a <= addr.value else addr.value <= a
    ensures addr.None? ==>
              size == 0 || forall a: nat :: !Fits(m, a, AlignUp(size, pageSize), minAddr, maxAddr)
  {
    if size == 0 {
      return None;
    }
    var alignedSize := AlignUp(size, pageSize);
    AlignUpBounds(size, pageSize);
    if maxAddr <= minAddr || alignedSize > maxAddr - minAddr {
      return None;
    }
    var cursor := AlignUp(minAddr, GRANULARITY);
    NothingBeforeStart(m, alignedSize, minAddr, maxAddr);
    var keys := Ascending(m.Keys);
    var answer, best, i;
    answer, best, cursor, i := WalkMappings(m, keys, pageSize, alignedSize, minAddr, maxAddr, cursor, preferTop);
    if answer.Some? {
      return answer;
    }
    if cursor < maxAddr {
      answer, best := ConsiderGap(m, keys, i, alignedSize, minAddr, maxAddr, cursor, maxAddr, preferTop, best);
      if answer.Some? {
        return answer;
      }
    }
    return best;
  }

  lemma NothingBeforeStart(m: Mappings, len: nat, lo: nat, hi: nat)
    ensures Searched(m, len, lo, hi, AlignUp(lo, GRANULARITY), None)
  {
    AlignUpBounds(lo, GRANULARITY);
    forall a: nat | Fits(m, a, len, lo, hi) ensures a >= AlignUp(lo, GRANULARITY) {
      AlignUpLeast(lo, GRANULARITY, a);
    }
  }

  /** The loop over the mappings in address order; the gap after the last one is left to the caller. */
  method WalkMappings(m: Mappings, keys: seq<nat>, pageSize: nat, len: nat, lo: nat, hi: nat,
                      start: nat, preferTop: bool)
    returns (answer: Option<nat>, best: Option<nat>, cursor: nat, i: nat)
    requires ValidPageSize(pageSize) && keys == Ascending(m.Keys) && len > 0
    requires Searched(m, len, lo, hi, start, None)
    ensures answer.Some? ==> !preferTop && Lowest(m, len, lo, hi, answer.value)
    ensures answer.None? ==>
              && Passed(m, keys, i, cursor) && (!preferTop ==> best.None?)
              && Searched(m, len, lo, hi, cursor, best)
              && (cursor < hi && i < |keys| ==> hi <= keys[i])
  {
    answer, best, cursor, i := None, None, start, 0;
    while i < |keys|
      invariant i <= |keys| && answer.None?
      invariant Passed(m, keys, i, cursor) && (!preferTop ==> best.None?)
      invariant Searched(m, len, lo, hi, cursor, best)
    {
      var mapStart := keys[i];
      assert mapStart in m;
      var mapEnd := mapStart + m[mapStart].size;
      if mapEnd <= lo {
        MappingBelow(m, keys, i, len, lo, hi, cursor, best);
        i := i + 1;
        continue;
      }
      if mapStart >= hi {
        answer, best := ConsiderGap(m, keys, i, len, lo, hi, cursor, hi, preferTop, best);
        return;
      }
      if mapStart > cursor {
        answer, best := ConsiderGap(m, keys, i, len, lo, hi, cursor, mapStart, preferTop, best);
        if answer.Some? {
          return;
        }
      } else {
        NoGapBefore(m, len, lo, hi, cursor, mapStart, best);
      }
      var next := if mapEnd > cursor then AlignUp(mapEnd, pageSize) else cursor;
      MappingPassed(m, keys, i, len, lo, hi, cursor, mapEnd, next, pageSize, best);
      cursor := next;
      i := i + 1;
      if cursor >= hi {
        return;
      }
    }
  }

  lemma MappingBelow(m: Mappings, keys: seq<nat>, n: nat, len: nat, lo: nat, hi: nat, cursor: nat, best: Option<nat>)
    requires Passed(m, keys, n, cursor) && n < |keys| && keys[n] in m && keys[n] + m[keys[n]].size <= lo
    requires Searched(m, len, lo, hi, cursor, best)
    ensures Passed(m, keys, n + 1, cursor)
  {
  }

  lemma NoGapBefore(m: Mappings, len: nat, lo: nat, hi: nat, cursor: nat, mapStart: nat, best: Option<nat>)
    requires len > 0 && mapStart <= cursor && Searched(m, len, lo, hi, cursor, best)
    ensures Exhausted(m, len, lo, hi, mapStart, best)
  {
  }
}
