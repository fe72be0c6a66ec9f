/**
 What is recorded about the guest address space, as values: mappings, allocations with one
 protection entry per page, and the invariants that tie them together.
 */
module AddressSpace {
  import opened Wrappers
  import opened OrderedKeys
  import opened GapSearch

  const TWO_GB: nat := 0x8000_0000
  const LOW_MEMORY_START: nat := 0x0011_0000
  const TOP_DOWN_START: nat := 0x7F00_0000
  const PAGE_NOACCESS: nat := 1

  /** One allocation; `pages[i]` is the protection of its page `i`, 0 if that is not committed. */
  datatype Region = Region(size: nat, allocationProtect: nat, kind: nat, pages: seq<nat>)

  type Allocations = map<nat, Region>

  /** Mappings are non-empty and pairwise disjoint. */
  ghost predicate Apart(m: Mappings) {
    && (forall k :: k in m ==> m[k].size > 0)
    && (forall j, k :: j in m && k in m && j != k ==> Disjoint(j, m[j].size, k, m[k].size))
  }

  /** An allocation at `b`: granular, below 2 GB, whole pages with one entry each. */
  ghost predicate WellPlaced(pageSize: nat, b: nat, r: Region) {
    && b % GRANULARITY == 0 && b + r.size <= TWO_GB
    && r.size > 0 && r.size == |r.pages| * pageSize
  }

  ghost predicate Consistent(pageSize: nat, m: Mappings, a: Allocations) {
    && ValidPageSize(pageSize)
    && Apart(m)
    && (forall b :: b in a ==> b in m && m[b].size == a[b].size && WellPlaced(pageSize, b, a[b]))
  }

  /** The record of a mapping never collides with one that is clear of it. */
  lemma ClearIsNew(m: Mappings, b: nat, len: nat)
    requires Apart(m) && len > 0 && Clear(m, b, len)
    ensures b !in m
  {
    assert b in m ==> Disjoint(b, len, b, m[b].size);
  }

  lemma AddMapping(pageSize: nat, m: Mappings, a: Allocations, b: nat, info: Mapping)
    requires Consistent(pageSize, m, a) && info.size > 0 && Clear(m, b, info.size)
    ensures b !in m && Consistent(pageSize, m[b := info], a)
  {
    ClearIsNew(m, b, info.size);
    assert forall k :: k in m ==> Disjoint(b, info.size, k, m[k].size);
  }

  lemma AddAllocation(pageSize: nat, m: Mappings, a: Allocations, b: nat, info: Mapping, r: Region)
    requires Consistent(pageSize, m, a) && Clear(m, b, r.size)
    requires WellPlaced(pageSize, b, r) && info.size == r.size
    ensures b !in m && b !in a && Consistent(pageSize, m[b := info], a[b := r])
  {
    AddMapping(pageSize, m, a, b, info);
  }

  lemma ReplaceAllocation(pageSize: nat, m: Mappings, a: Allocations, b: nat, info: Mapping, r: Region)
    requires Consistent(pageSize, m, a) && b in a
    requires r.size == a[b].size && |r.pages| == |a[b].pages| && info.size == r.size
    ensures Consistent(pageSize, m[b := info], a[b := r])
    ensures Consistent(pageSize, m, a[b := r])
  {
  }

  lemma RemoveAllocation(pageSize: nat, m: Mappings, a: Allocations, b: nat)
    requires Consistent(pageSize, m, a)
    ensures Consistent(pageSize, m, a - {b})
    ensures Consistent(pageSize, m - {b}, a - {b})
  {
  }

  // ----- finding the allocation that holds an address

  ghost predicate Contains(a: Allocations, b: nat, address: nat) {
    b in a && b <= address < b + a[b].size
  }

  function FindRegion(a: Allocations, address: nat): Option<nat> {
    match Floor(a.Keys, address)
    case None => None
    case Some(b) => if address >= b + a[b].size then None else Some(b)
  }

  /** Looking at the predecessor only finds the allocation that holds an address, whenever one does. */
  lemma FindRegionIsExact(pageSize: nat, m: Mappings, a: Allocations, address: nat)
    requires Consistent(pageSize, m, a)
    ensures forall b: nat :: FindRegion(a, address) == Some(b) <==> Contains(a, b, address)
  {
    forall b: nat ensures FindRegion(a, address) == Some(b) <==> Contains(a, b, address) {
      if Contains(a, b, address) {
        var f := Floor(a.Keys, address).value;
        assert f != b ==> Disjoint(b, m[b].size, f, m[f].size);
      }
    }
  }

  predicate RangeWithinRegion(b: nat, r: Region, start: nat, length: nat) {
    if length == 0 then b <= start <= b + r.size else b <= start && start + length <= b + r.size
  }

  /** A non-empty range is within an allocation exactly if the allocation contains every address of it. */
  lemma WithinMeansEveryAddress(a: Allocations, b: nat, start: nat, length: nat)
    requires b in a && length > 0
    ensures RangeWithinRegion(b, a[b], start, length) <==>
            forall address: nat :: start <= address < start + length ==> Contains(a, b, address)
  {
    if forall address: nat :: start <= address < start + length ==> Contains(a, b, address) {
      assert Contains(a, b, start) && Contains(a, b, start + length - 1);
    }
  }

  // ----- the overlap test

  /** Some non-empty mapping meets `[base, base + length)`. */
  ghost predicate Overlaps(m: Mappings, base: nat, length: nat) {
    length > 0 && exists k :: k in m && m[k].size > 0 && !Disjoint(base, length, k, m[k].size)
  }

  lemma OverlapsIsNotClear(m: Mappings, base: nat, length: nat)
    requires Apart(m) && length > 0
    ensures Overlaps(m, base, length) <==> !Clear(m, base, length)
  {
  }

  /** Position in the iteration of the last key at or below `base`, or 0. */
  method StartOfScan(m: Mappings, keys: seq<nat>, base: nat) returns (i: nat)
    requires keys == Ascending(m.Keys)
    ensures i <= |keys|
    ensures forall j :: 0 <= j < i ==> i < |keys| && keys[j] < keys[i] <= base
  {
    i := 0;
    while i + 1 < |keys| && keys[i + 1] <= base
      invariant i <= |keys| && (i > 0 ==> i < |keys| && keys[i] <= base)
    {
      i := i + 1;
    }
  }

  /** The first `n` mappings in address order do not meet `[base, base + length)`. */
  ghost predicate ClearOfFirst(m: Mappings, keys: seq<nat>, n: nat, base: nat, length: nat) {
    n <= |keys| && forall j :: 0 <= j < n ==> keys[j] in m && Disjoint(base, length, keys[j], m[keys[j]].size)
  }

  /** Whatever precedes the predecessor of `base` ends before it, because the predecessor is in between. */
  lemma SkippedAreClear(m: Mappings, keys: seq<nat>, i: nat, base: nat, length: nat)
    requires Apart(m) && keys == Ascending(m.Keys) && i <= |keys|
    requires forall j :: 0 <= j < i ==> i < |keys| && keys[j] < keys[i] <= base
    ensures ClearOfFirst(m, keys, i, base, length)
  {
    forall j | 0 <= j < i ensures keys[j] in m && keys[j] + m[keys[j]].size <= base {
      var before, at: nat := keys[j], keys[i];
      assert before in m && at in m;
      assert Disjoint(before, m[before].size, at, m[at].size);
    }
  }

  lemma RestAreClear(m: Mappings, keys: seq<nat>, i: nat, base: nat, length: nat)
    requires keys == Ascending(m.Keys) && ClearOfFirst(m, keys, i, base, length)
    requires i < |keys| ==> keys[i] >= base + length
    ensures Clear(m, base, length)
  {
    forall k | k in m ensures Disjoint(base, length, k, m[k].size) {
      assert k in keys;
      var j :| 0 <= j < |keys| && keys[j] == k;
      if j >= i {
        assert keys[i] <= keys[j];
      }
    }
  }

  /**
   The overlap test scans from the predecessor of `base` on. With disjoint mappings that is as
   good as comparing against all of them.
   */
  method OverlapsExistingMapping(m: Mappings, base: nat, length: nat) returns (overlaps: bool)
    requires Apart(m)
    ensures overlaps <==> Overlaps(m, base, length)
  {
    if length == 0 {
      return false;
    }
    var keys: seq<nat> := Ascending(m.Keys);
    var i := StartOfScan(m, keys, base);
    SkippedAreClear(m, keys, i, base, length);
    while i < |keys|
      invariant ClearOfFirst(m, keys, i, base, length)
    {
      var mapStart := keys[i];
      assert mapStart in m;
      if m[mapStart].size == 0 || mapStart + m[mapStart].size <= base {
        ClearOfNext(m, keys, i, base, length);
        i := i + 1;
        continue;
      }
      if mapStart >= base + length {
        break;
      }
      OverlapFound(m, base, length, mapStart);
      return true;
    }
    RestAreClear(m, keys, i, base, length);
    OverlapsIsNotClear(m, base, length);
    return false;
  }

  lemma ClearOfNext(m: Mappings, keys: seq<nat>, i: nat, base: nat, length: nat)
    requires Apart(m) && i < |keys| && keys[i] in m && ClearOfFirst(m, keys, i, base, length)
    requires m[keys[i]].size == 0 || keys[i] + m[keys[i]].size <= base
    ensures ClearOfFirst(m, keys, i + 1, base, length)
  {
  }

  lemma OverlapFound(m: Mappings, base: nat, length: nat, k: nat)
    requires k in m && m[k].size > 0 && k < base + length && k + m[k].size > base && length > 0
    ensures Overlaps(m, base, length)
  {
    assert !Disjoint(base, length, k, m[k].size);
  }
}
