/**
 The guest virtual-memory manager. `mmap` and `mprotect` belong to the host: each call may
 fail, and a successful `mmap` leaves zero-filled pages behind.
 */
module VirtualMemory {
  import opened Wrappers
  import opened Alignment
  import opened OrderedKeys
  import opened GapSearch
  import opened AddressSpace
  import opened PageTable

  datatype VmStatus =
    Success | InvalidParameter | InvalidAddress | NoAccess | NotSupported | NoMemory | Rejected | UnknownError

  type Failure = s: VmStatus | s != Success witness NoMemory

  /** The host's answer to a call on a range: how it failed, if it did. */
  type Host = (nat, nat) -> Option<Failure>

  const MEM_MAPPED: nat := 0x4_0000

  /** MEMORY_BASIC_INFORMATION as a query returns it. */
  datatype Info = Info(base: nat, allocationBase: nat, allocationProtect: nat, regionSize: nat,
                       state: MemState, protect: nat, kind: nat)

  function ShownProtect(protect: nat): nat {
    if protect != 0 then protect else PAGE_NOACCESS
  }

  /** What the mapping of an allocation records about its pages. */
  ghost function Summary(r: Region): Mapping {
    Mapping(r.size, if r.allocationProtect != 0 then r.allocationProtect else PAGE_NOACCESS,
            if AllCommitted(r.pages) then MemCommit else MemReserve,
            if AllCommitted(r.pages) && Uniform(r.pages) then r.pages[0] else PAGE_NOACCESS,
            r.kind)
  }

  method Summarize(r: Region) returns (info: Mapping)
    ensures info == Summary(r)
  {
    var committed, uniform, protect := Survey(r.pages);
    info := Mapping(r.size, ShownProtect(r.allocationProtect), if committed then MemCommit else MemReserve,
                    if committed && uniform then protect else PAGE_NOACCESS, r.kind);
  }

  // ----- what the records say

  /** The ranges reserved for file views, by base. */
  type Views = map<nat, nat>

  /** The record of every allocation's mapping is the summary of its pages. */
  ghost predicate Summarised(m: Mappings, a: Allocations) {
    forall b :: b in a ==> b in m && m[b] == Summary(a[b])
  }

  /** Every view is recorded with its size, and is no allocation. */
  ghost predicate Viewed(m: Mappings, a: Allocations, views: Views) {
    forall v :: v in views ==> v != 0 && v in m && m[v].size == views[v] && v !in a
  }

  lemma RecordsAfterChange(m: Mappings, a: Allocations, views: Views, b: nat, r: Region)
    requires Summarised(m, a) && Viewed(m, a, views) && (b in a || b !in m)
    ensures Summarised(m[b := Summary(r)], a[b := r]) && Viewed(m[b := Summary(r)], a[b := r], views)
  {
  }

  lemma RecordsAfterRemoval(m: Mappings, a: Allocations, views: Views, b: nat)
    requires Summarised(m, a) && Viewed(m, a, views) && b in a
    ensures Summarised(m, a - {b}) && Viewed(m, a - {b}, views)
    ensures Summarised(m - {b}, a - {b}) && Viewed(m - {b}, a - {b}, views)
  {
  }

  /** While some page stays reserved, the summary does not depend on the other pages. */
  lemma SummaryWhileReserved(r: Region, pages: seq<nat>, p: nat)
    requires p < |r.pages| == |pages| && r.pages[p] == 0 == pages[p]
    ensures Summary(r.(pages := pages)) == Summary(r)
  {
  }

  /** Recording `info` for a view at `base` leaves all records in order. */
  ghost predicate Registrable(m: Mappings, a: Allocations, views: Views, base: nat, info: Mapping) {
    && info.size > 0 && (forall k :: k in m && k != base ==> Disjoint(base, info.size, k, m[k].size))
    && (base in a ==> info == Summary(a[base]))
    && (base in views ==> views[base] == info.size)
  }

  /** All records are in order. */
  ghost predicate InOrder(pageSize: nat, m: Mappings, a: Allocations, views: Views) {
    Consistent(pageSize, m, a) && Summarised(m, a) && Viewed(m, a, views)
  }

  lemma RegistrableSuffices(pageSize: nat, m: Mappings, a: Allocations, views: Views, base: nat, info: Mapping)
    requires InOrder(pageSize, m, a, views) && Registrable(m, a, views, base, info)
    ensures InOrder(pageSize, m[base := info], a, views)
  {
  }

  lemma RegistrableIsNeeded(pageSize: nat, m: Mappings, a: Allocations, views: Views, base: nat, info: Mapping)
    requires InOrder(pageSize, m[base := info], a, views)
    ensures Registrable(m, a, views, base, info)
  {
    var m' := m[base := info];
    assert base in m' && m'[base] == info;
    forall k | k in m && k != base ensures Disjoint(base, info.size, k, m[k].size) {
      assert k in m' && m'[k] == m[k] && base in m';
    }
  }

  lemma ViewsAreRegistrable(pageSize: nat, m: Mappings, a: Allocations, views: Views, base: nat, info: Mapping)
    requires InOrder(pageSize, m, a, views) && base in views && views[base] == info.size
    ensures Registrable(m, a, views, base, info)
  {
    assert base in m && m[base].size == info.size;
  }

  /** A page inside another record, registered without having been reserved, is not registrable. */
  lemma UnreservedViewOverlaps(info: Mapping)
    requires info.size == 0x1000
    ensures
      var other := Mapping(0x2000, PAGE_NOACCESS, MemReserve, PAGE_NOACCESS, MEM_MAPPED);
      var m: Mappings := map[0x1_0000 := other];
      InOrder(0x1000, m, map[], map[]) && !Registrable(m, map[], map[], 0x1_1000, info)
  {
    var other := Mapping(0x2000, PAGE_NOACCESS, MemReserve, PAGE_NOACCESS, MEM_MAPPED);
    var m: Mappings := map[0x1_0000 := other];
    assert 0x1_0000 in m && !Disjoint(0x1_1000, info.size, 0x1_0000, m[0x1_0000].size);
  }

  lemma ReleasableViews(pageSize: nat, m: Mappings, a: Allocations, views: Views, base: nat)
    requires InOrder(pageSize, m, a, views)
    ensures InOrder(pageSize, m - {base}, a, views - {base}) <==> base !in a
  {
    if base !in a {
      RemoveAllocation(pageSize, m, a, base);
      assert a - {base} == a;
    }
  }

  // ----- addresses and page numbers

  /** A page-aligned range inside an allocation, as page indices of that allocation. */
  lemma RangeInPages(pageSize: nat, b: nat, r: Region, start: nat, length: nat)
    requires ValidPageSize(pageSize) && WellPlaced(pageSize, b, r)
    requires start % pageSize == 0 && length % pageSize == 0 && b <= start && start + length <= b + r.size
    ensures
      var first, count := Count(start - b, pageSize), Count(length, pageSize);
      && first + count <= |r.pages| && (length > 0 ==> count > 0)
      && start == b + first * pageSize && length == count * pageSize
      && Count(start, pageSize) == Count(b, pageSize) + first
  {
    MultipleOfMultiple(b, GRANULARITY, pageSize);
    AddMultiples(start, b, pageSize);
    CountExact(start - b, pageSize);
    CountExact(length, pageSize);
    CountOfSum(b, start - b, pageSize);
    var first, count := Count(start - b, pageSize), Count(length, pageSize);
    assert (first + count) * pageSize == first * pageSize + count * pageSize;
    CountMonotone(first + count, |r.pages|, pageSize);
  }

  lemma PagesOfRange(pageSize: nat, b: nat, r: Region, start: nat, length: nat)
    requires ValidPageSize(pageSize) && WellPlaced(pageSize, b, r)
    requires start % pageSize == 0 && length % pageSize == 0 && b <= start && start + length <= b + r.size
    ensures Count(start - b, pageSize) + Count(length, pageSize) <= |r.pages|
  {
    RangeInPages(pageSize, b, r, start, length);
  }

  /** Rounding a range out to pages keeps the range and its length page-aligned. */
  lemma RoundedRange(pageSize: nat, request: nat, size: nat)
    requires pageSize > 0
    ensures
      var start, end := AlignDown(request, pageSize), AlignUp(request + size, pageSize);
      && start % pageSize == 0 && end % pageSize == 0 && start <= request && request + size <= end
      && (end - start) % pageSize == 0
  {
    AlignDownBounds(request, pageSize);
    AlignUpBounds(request + size, pageSize);
    AddMultiples(AlignUp(request + size, pageSize), AlignDown(request, pageSize), pageSize);
  }

  // ----- page contents

  /** Contents of the pages that were written; a page not listed is zero-filled. */
  type Content = map<nat, nat>

  function Remap(content: Content, page: nat, count: nat): Content {
    map q | q in content && !(page <= q < page + count) :: content[q]
  }

  /** Contents once the reserved pages among `count` pages from `first` on have been remapped. */
  ghost function RemapReserved(content: Content, page0: nat, pages: seq<nat>, first: nat, count: nat): Content {
    map q | q in content && !(page0 + first <= q < page0 + first + count && q - page0 < |pages| && pages[q - page0] == 0)
         :: content[q]
  }

  lemma NothingRemapped(content: Content, page0: nat, pages: seq<nat>, first: nat, count: nat, runs: seq<Run>)
    requires PartitionsReserved(pages, first, count, runs)
    ensures first <= Boundary(first, count, runs, 0)
    ensures RemapReserved(content, page0, pages, first, Boundary(first, count, runs, 0) - first) == content
  {
    NoRunYet(pages, first, count, runs, 0);
    forall p: nat | first <= p < Boundary(first, count, runs, 0) ensures pages[p] != 0 {
      BetweenRunsCommitted(pages, first, count, runs, 0, p);
    }
  }

  lemma RunsRemap(content: Content, page0: nat, pages: seq<nat>, first: nat, count: nat, runs: seq<Run>, k: nat)
    requires PartitionsReserved(pages, first, count, runs) && k < |runs|
    ensures first <= Boundary(first, count, runs, k) <= Boundary(first, count, runs, k + 1)
    ensures Remap(RemapReserved(content, page0, pages, first, Boundary(first, count, runs, k) - first),
                  page0 + runs[k].first, runs[k].length) ==
            RemapReserved(content, page0, pages, first, Boundary(first, count, runs, k + 1) - first)
  {
    RunsCommit(pages, first, count, runs, k, 0);
    BoundariesAscend(pages, first, count, runs, k);
    var limit := Boundary(first, count, runs, k + 1);
    forall p: nat | runs[k].first + runs[k].length <= p < limit ensures pages[p] != 0 {
      BetweenRunsCommitted(pages, first, count, runs, k + 1, p);
    }
    assert MaximalRun(pages, first, count, runs[k]);
    assert forall p :: runs[k].first <= p < runs[k].first + runs[k].length ==> InRun(runs[k], p);
  }

  datatype Tables = Tables(allocations: Allocations, content: Content)

  /** `t'` is `t` once the first `k` runs of a commit to allocation `b` have been done. */
  ghost predicate RunsDone(t: Tables, t': Tables, b: nat, page0: nat, first: nat, count: nat,
                           runs: seq<Run>, k: nat, protect: nat)
  {
    && b in t.allocations && k <= |runs| && PartitionsReserved(t.allocations[b].pages, first, count, runs)
    && first <= Boundary(first, count, runs, k) <= first + count
    && var r, n := t.allocations[b], Boundary(first, count, runs, k) - first;
       && t'.allocations == t.allocations[b := r.(pages := PageTable.Commit(r.pages, first, n, protect))]
       && t'.content == RemapReserved(t.content, page0, r.pages, first, n)
  }

  lemma NoRunsDone(t: Tables, b: nat, page0: nat, first: nat, count: nat, runs: seq<Run>, protect: nat)
    requires b in t.allocations && PartitionsReserved(t.allocations[b].pages, first, count, runs)
    ensures RunsDone(t, t, b, page0, first, count, runs, 0, protect)
  {
    var r := t.allocations[b];
    NoRunYet(r.pages, first, count, runs, protect);
    NothingRemapped(t.content, page0, r.pages, first, count, runs);
    assert t.allocations == t.allocations[b := r.(pages := r.pages)];
  }

  /** The tables once one run of allocation `b` has been remapped and marked. */
  ghost function WithRun(t: Tables, b: nat, page0: nat, run: Run, protect: nat): (r: Tables)
    requires b in t.allocations
    ensures b in r.allocations && |r.allocations[b].pages| == |t.allocations[b].pages|
  {
    var r := t.allocations[b];
    Tables(t.allocations[b := r.(pages := Fill(r.pages, run.first, run.length, protect))],
           Remap(t.content, page0 + run.first, run.length))
  }

  /** Marking the next run takes the tables one run further. */
  lemma NextRunDone(t: Tables, t': Tables, b: nat, page0: nat, first: nat, count: nat,
                    runs: seq<Run>, k: nat, protect: nat)
    requires RunsDone(t, t', b, page0, first, count, runs, k, protect) && k < |runs|
    ensures RunsDone(t, WithRun(t', b, page0, runs[k], protect), b, page0, first, count, runs, k + 1, protect)
  {
    var pages := t.allocations[b].pages;
    BoundariesAscend(pages, first, count, runs, k);
    RunsCommit(pages, first, count, runs, k, protect);
    RunsRemap(t.content, page0, pages, first, count, runs, k);
  }

  ghost predicate RunsInside(runs: seq<Run>, n: nat) {
    forall j :: 0 <= j < |runs| ==> runs[j].first + runs[j].length <= n
  }

  lemma PartitionIsInside(pages: seq<nat>, first: nat, count: nat, runs: seq<Run>)
    requires PartitionsReserved(pages, first, count, runs)
    ensures RunsInside(runs, |pages|)
  {
    forall j | 0 <= j < |runs| ensures runs[j].first + runs[j].length <= |pages| {
      assert MaximalRun(pages, first, count, runs[j]);
    }
  }

  /** The tables once the first `k` runs have been remapped and marked, one after the other. */
  ghost function AfterRuns(t: Tables, b: nat, page0: nat, runs: seq<Run>, k: nat, protect: nat): (r: Tables)
    requires b in t.allocations && k <= |runs|
    ensures b in r.allocations && |r.allocations[b].pages| == |t.allocations[b].pages|
  {
    if k == 0 then t else WithRun(AfterRuns(t, b, page0, runs, k - 1, protect), b, page0, runs[k - 1], protect)
  }

  /** Run by run is the same as page by page, up to where the next run starts. */
  lemma {:induction false} AfterRunsIsPrefix(t: Tables, b: nat, page0: nat, first: nat, count: nat,
                                             runs: seq<Run>, k: nat, protect: nat)
    requires b in t.allocations && PartitionsReserved(t.allocations[b].pages, first, count, runs) && k <= |runs|
    ensures RunsDone(t, AfterRuns(t, b, page0, runs, k, protect), b, page0, first, count, runs, k, protect)
  {
    if k == 0 {
      NoRunsDone(t, b, page0, first, count, runs, protect);
    } else {
      AfterRunsIsPrefix(t, b, page0, first, count, runs, k - 1, protect);
      NextRunDone(t, AfterRuns(t, b, page0, runs, k - 1, protect), b, page0, first, count, runs, k - 1, protect);
    }
  }

  /** Between `(a, m)` and `(a', m')`, `count` entries of allocation `b` from `first` on became `value`. */
  ghost predicate PagesSet(a: Allocations, m: Mappings, a': Allocations, m': Mappings,
                           b: nat, first: nat, count: nat, value: nat)
    requires b in a
  {
    && a' == a[b := a[b].(pages := Fill(a[b].pages, first, count, value))]
    && m' == m[b := Summary(a'[b])]
  }

  // ----- what a query says

  /** `info` is the free range that starts at `info.base`, up to the next allocation or the limit. */
  ghost predicate DescribesFree(a: Allocations, info: Info) {
    && info == Info(info.base, 0, 0, info.regionSize, MemFree, PAGE_NOACCESS, 0)
    && info.regionSize > 0
    && (forall b :: b in a ==> Disjoint(info.base, info.regionSize, b, a[b].size))
    && (info.base + info.regionSize == TWO_GB || info.base + info.regionSize in a)
  }

  /** A committed page is shown with its own protection, a reserved one as inaccessible. */
  ghost predicate ShowsEntry(info: Info, entry: nat) {
    if entry != 0 then info.state == MemCommit && info.protect == entry
    else info.state == MemReserve && info.protect == PAGE_NOACCESS
  }

  /** The protection given at allocation is shown, if there was any. */
  ghost predicate ShowsAllocation(info: Info, r: Region) {
    info.allocationProtect == if r.allocationProtect != 0 then r.allocationProtect else PAGE_NOACCESS
  }

  /** `info` is the maximal run of pages `lo..hi` of allocation `b` that agree with page `p`. */
  ghost predicate DescribesBlock(pageSize: nat, a: Allocations, info: Info, b: nat, p: nat, lo: nat, hi: nat) {
    && b in a && MaximalBlock(a[b].pages, p, lo, hi)
    && var entry := a[b].pages[p];
       && info.base == b + Bytes(lo, pageSize) && info.regionSize == Bytes(hi - lo, pageSize)
       && info.allocationBase == b && info.kind == a[b].kind
       && ShowsEntry(info, entry) && ShowsAllocation(info, a[b])
  }

  /** What `info` says of the page that holds `address` is what the tables say. */
  ghost predicate Reports(pageSize: nat, a: Allocations, info: Info, address: nat)
    requires pageSize > 0
  {
    if info.state == MemFree then
      forall b :: b in a ==> !Contains(a, b, address)
    else
      && Contains(a, info.allocationBase, address)
      && var r := a[info.allocationBase];
         && (address - info.allocationBase) / pageSize < |r.pages|
         && var entry := r.pages[(address - info.allocationBase) / pageSize];
            ShowsEntry(info, entry) && ShowsAllocation(info, r) && info.kind == r.kind
  }

  // ----- what the operations do

  const MEM_COMMIT: bv32 := 0x1000
  const MEM_RESERVE: bv32 := 0x2000
  const MEM_RESET: bv32 := 0x8_0000
  const MEM_TOP_DOWN: bv32 := 0x10_0000
  const MEM_UNSUPPORTED: bv32 := 0x0020_0000 | 0x0040_0000 | 0x2000_0000 | 0x0100_0000

  datatype Operation =
    Refuse(why: VmStatus) | ResetRange | ReserveRange(commit: bool, topDown: bool) | CommitRange

  /** What the allocation flags ask for. A commit without an address reserves as well. */
  function Decode(allocationType: bv32, request: nat): (r: Operation)
    ensures r.CommitRange? ==> request != 0
  {
    var commit := allocationType & MEM_COMMIT != 0;
    var reserve := allocationType & MEM_RESERVE != 0 || (commit && request == 0);
    if allocationType & MEM_UNSUPPORTED != 0 then Refuse(NotSupported)
    else if allocationType & MEM_RESET != 0 then
      if reserve || commit then Refuse(InvalidParameter)
      else if request == 0 then Refuse(InvalidAddress)
      else ResetRange
    else if reserve then ReserveRange(commit, allocationType & MEM_TOP_DOWN != 0)
    else if commit then CommitRange
    else Refuse(InvalidParameter)
  }

  function Discard(content: Content, page: nat, count: nat, lost: set<nat>): Content {
    map q | q in content && !(page <= q < page + count && q in lost) :: content[q]
  }

  datatype Snapshot = Snapshot(mappings: Mappings, allocations: Allocations, content: Content)

  /** A range to reserve: around the requested address, or the outermost free range that is large enough. */
  ghost predicate Chosen(pageSize: nat, m: Mappings, request: nat, size: nat, topDown: bool, base: nat, length: nat)
    requires pageSize > 0
  {
    && base % GRANULARITY == 0 && length > 0 && length % pageSize == 0 && base + length <= TWO_GB
    && Clear(m, base, length)
    && (if request != 0
        then base <= request < base + GRANULARITY && length == AlignUp(size + (request - base), pageSize)
        else
          && length == AlignUp(size, pageSize) && Fits(m, base, length, LOW_MEMORY_START, TOP_DOWN_START)
          && forall x: nat :: Fits(m, x, length, LOW_MEMORY_START, TOP_DOWN_START) ==>
               if topDown then x <= base else base <= x)
  }

  /** There is no such range. */
  ghost predicate NoRange(pageSize: nat, m: Mappings, request: nat, size: nat, status: VmStatus)
    requires pageSize > 0
  {
    if request != 0 then
      var base := AlignDown(request, GRANULARITY);
      var length := AlignUp(size + request - base, pageSize);
      status == InvalidAddress && (base + length > TWO_GB || !Clear(m, base, length))
    else
      && status == NoMemory
      && forall x: nat :: !Fits(m, x, AlignUp(size, pageSize), LOW_MEMORY_START, TOP_DOWN_START)
  }

  /** A new allocation, all of its pages committed or all reserved, and zero-filled. */
  ghost predicate Reserved(pageSize: nat, s: Snapshot, s': Snapshot, request: nat, size: nat, commit: bool,
                           topDown: bool, protect: nat, kind: nat, base: nat, length: nat)
    requires pageSize > 0
  {
    && Chosen(pageSize, s.mappings, request, size, topDown, base, length)
    && base !in s.allocations && base !in s.mappings
    && var r := NewRegion(pageSize, length, protect, kind, commit);
       s' == Snapshot(s.mappings[base := Summary(r)], s.allocations[base := r],
                      Remap(s.content, Count(base, pageSize), Count(length, pageSize)))
  }

  ghost predicate ReserveRefused(pageSize: nat, m: Mappings, request: nat, size: nat, topDown: bool,
                                 base: nat, length: nat, mmap: Host, status: VmStatus)
    requires pageSize > 0
  {
    || NoRange(pageSize, m, request, size, status)
    || (Chosen(pageSize, m, request, size, topDown, base, length) && mmap(base, length) == Some(status))
  }

  /** The whole outcome of a reservation: the host was asked and agreed, or nothing has changed. */
  ghost predicate ReserveDone(pageSize: nat, s: Snapshot, s': Snapshot, request: nat, size: nat, commit: bool,
                              topDown: bool, protect: nat, kind: nat, base: nat, length: nat, mmap: Host, status: VmStatus)
    requires pageSize > 0
  {
    if status == Success then
      && Reserved(pageSize, s, s', request, size, commit, topDown, protect, kind, base, length)
      && mmap(base, length).None?
    else
      s' == s && ReserveRefused(pageSize, s.mappings, request, size, topDown, base, length, mmap, status)
  }

  /** No allocation holds the whole range. */
  ghost predicate InNoRegion(a: Allocations, start: nat, length: nat) {
    forall b :: b in a ==> !RangeWithinRegion(b, a[b], start, length)
  }

  /** The pages that a request for some bytes touches. */
  ghost predicate Spans(pageSize: nat, request: nat, size: nat, start: nat, length: nat)
    requires pageSize > 0
  {
    start == AlignDown(request, pageSize) && start + length == AlignUp(request + size, pageSize)
  }

  /**
   The reserved pages among the first `done` pages of the range are committed and zero-filled; all
   other pages, committed ones included, keep protection and contents.
   */
  ghost predicate Committed(pageSize: nat, s: Snapshot, s': Snapshot, b: nat, start: nat, length: nat,
                            protect: nat, done: nat, complete: bool)
    requires pageSize > 0
  {
    && b in s.allocations && RangeWithinRegion(b, s.allocations[b], start, length)
    && var r, first := s.allocations[b], Count(start - b, pageSize);
       && done <= Count(length, pageSize) && first + Count(length, pageSize) <= |r.pages|
       && (complete ==> done == Count(length, pageSize))
       && s'.allocations == s.allocations[b := r.(pages := PageTable.Commit(r.pages, first, done, protect))]
       && s'.content == RemapReserved(s.content, Count(b, pageSize), r.pages, first, done)
       && s'.mappings == (if complete then s.mappings[b := Summary(s'.allocations[b])] else s.mappings)
  }

  /**
   After a complete commit with a real protection every page of the range is committed; pages that
   were committed keep protection and contents, new ones read as zero, all others are as before.
   */
  lemma CommitMeaning(pageSize: nat, s: Snapshot, s': Snapshot, b: nat, start: nat, length: nat,
                      protect: nat, done: nat, p: nat)
    requires pageSize > 0 && Committed(pageSize, s, s', b, start, length, protect, done, true) && protect != 0
    requires p < |s.allocations[b].pages|
    ensures s'.allocations.Keys == s.allocations.Keys && |s'.allocations[b].pages| == |s.allocations[b].pages|
    ensures forall k :: k in s.allocations && k != b ==> s'.allocations[k] == s.allocations[k]
    ensures
      var pages, pages', first := s.allocations[b].pages, s'.allocations[b].pages, Count(start - b, pageSize);
      var inRange := first <= p < first + Count(length, pageSize);
      var q := Count(b, pageSize) + p;
      && (inRange ==> pages'[p] != 0)
      && (pages[p] != 0 || !inRange ==>
            && pages'[p] == pages[p] && (q in s'.content <==> q in s.content)
            && (q in s.content ==> s'.content[q] == s.content[q]))
      && (pages[p] == 0 && inRange ==> pages'[p] == protect && q !in s'.content)
  {
  }

  /** Contents go only if one allocation holds the range and the host agrees, and only within the range. */
  ghost predicate ResetDone(pageSize: nat, a: Allocations, content: Content, content': Content, start: nat, length: nat,
                            madvise: Host, lost: set<nat>, status: VmStatus)
    requires pageSize > 0
  {
    && Some(status) == (if InNoRegion(a, start, length) then Some(InvalidAddress)
                        else if madvise(start, length).Some? then madvise(start, length)
                        else Some(Success))
    && (forall q :: q in content' ==> q in content && content'[q] == content[q])
    && (forall q :: q in content ==>
          (q !in content' <==>
             status == Success && q in lost && Count(start, pageSize) <= q < Count(start, pageSize) + Count(length, pageSize)))
  }

  /** The reserved ones among `done` pages of allocation `b` from `first` on have been committed. */
  ghost predicate PrefixCommitted(a: Allocations, content: Content, a': Allocations, content': Content,
                                  b: nat, page0: nat, first: nat, done: nat, protect: nat)
  {
    && b in a
    && a' == a[b := a[b].(pages := PageTable.Commit(a[b].pages, first, done, protect))]
    && content' == RemapReserved(content, page0, a[b].pages, first, done)
  }

  /** The host refused to remap the maximal run of reserved pages that starts after `done` pages. */
  ghost predicate RunRefused(pageSize: nat, b: nat, pages: seq<nat>, first: nat, count: nat, done: nat,
                             mmap: Host, status: VmStatus)
    requires first + count <= |pages|
  {
    && done < count && pages[first + done] == 0
    && exists run: Run ::
         && MaximalRun(pages, first, count, run) && run.first == first + done
         && Answer(pageSize, b, run, mmap) == Some(status)
  }

  ghost predicate CommitRefused(pageSize: nat, a: Allocations, b: nat, start: nat, length: nat, done: nat,
                                mmap: Host, status: VmStatus)
    requires pageSize > 0
  {
    && b in a && b <= start
    && var first, count := Count(start - b, pageSize), Count(length, pageSize);
       first + count <= |a[b].pages| && RunRefused(pageSize, b, a[b].pages, first, count, done, mmap, status)
  }

  /** The host granted every maximal run of reserved pages that starts within the first `done` pages. */
  ghost predicate RunsGranted(pageSize: nat, b: nat, pages: seq<nat>, first: nat, count: nat, done: nat, mmap: Host)
    requires first + count <= |pages|
  {
    forall run: Run :: MaximalRun(pages, first, count, run) && run.first < first + done ==>
      Answer(pageSize, b, run, mmap).None?
  }

  ghost predicate CommitGranted(pageSize: nat, a: Allocations, b: nat, start: nat, length: nat, done: nat, mmap: Host)
    requires pageSize > 0
  {
    && b in a && b <= start
    && var first, count := Count(start - b, pageSize), Count(length, pageSize);
       first + count <= |a[b].pages| && RunsGranted(pageSize, b, a[b].pages, first, count, done, mmap)
  }

  /** The whole outcome of a commit: which pages, which host calls were granted, and which one was not. */
  ghost predicate CommitDone(pageSize: nat, s: Snapshot, s': Snapshot, request: nat, size: nat, protect: nat,
                             start: nat, length: nat, region: Option<nat>, done: nat, mmap: Host, status: VmStatus)
    requires pageSize > 0
  {
    && Spans(pageSize, request, size, start, length)
    && match region
       case None => status == InvalidAddress && InNoRegion(s.allocations, start, length) && s' == s
       case Some(b) =>
         && Committed(pageSize, s, s', b, start, length, protect, done, status == Success)
         && CommitGranted(pageSize, s.allocations, b, start, length, done, mmap)
         && (status != Success ==> CommitRefused(pageSize, s.allocations, b, start, length, done, mmap, status))
  }

  /** The host's answer to the request to remap a run of allocation `b`. */
  function Answer(pageSize: nat, b: nat, run: Run, mmap: Host): Option<Failure> {
    mmap(b + Bytes(run.first, pageSize), Bytes(run.length, pageSize))
  }

  /** The first `k` runs were granted. */
  ghost predicate FirstGranted(pageSize: nat, b: nat, runs: seq<Run>, k: nat, mmap: Host)
    requires k <= |runs|
  {
    k == 0 || (FirstGranted(pageSize, b, runs, k - 1, mmap) && Answer(pageSize, b, runs[k - 1], mmap).None?)
  }

  lemma {:induction false} GrantedAt(pageSize: nat, b: nat, runs: seq<Run>, k: nat, mmap: Host, j: nat)
    requires k <= |runs| && FirstGranted(pageSize, b, runs, k, mmap) && j < k
    ensures Answer(pageSize, b, runs[j], mmap).None?
  {
    if j < k - 1 {
      GrantedAt(pageSize, b, runs, k - 1, mmap, j);
    }
  }

  lemma GrantedRuns(pageSize: nat, b: nat, pages: seq<nat>, first: nat, count: nat, runs: seq<Run>, k: nat, mmap: Host)
    requires PartitionsReserved(pages, first, count, runs) && k <= |runs| && FirstGranted(pageSize, b, runs, k, mmap)
    requires first <= Boundary(first, count, runs, k)
    ensures RunsGranted(pageSize, b, pages, first, count, Boundary(first, count, runs, k) - first, mmap)
  {
    forall run: Run | MaximalRun(pages, first, count, run) && run.first < Boundary(first, count, runs, k)
      ensures Answer(pageSize, b, run, mmap).None?
    {
      var j := RunIsListed(pages, first, count, runs, run);
      GrantedAt(pageSize, b, runs, k, mmap, j);
    }
  }

  lemma RefusedRun(pageSize: nat, b: nat, pages: seq<nat>, first: nat, count: nat, runs: seq<Run>, k: nat,
                   mmap: Host, status: VmStatus)
    requires PartitionsReserved(pages, first, count, runs) && k < |runs|
    requires Answer(pageSize, b, runs[k], mmap) == Some(status)
    ensures RunRefused(pageSize, b, pages, first, count, runs[k].first - first, mmap, status)
  {
    assert MaximalRun(pages, first, count, runs[k]) && InRun(runs[k], runs[k].first);
  }

  lemma PrefixOutcome(t: Tables, b: nat, page0: nat, first: nat, count: nat, runs: seq<Run>, k: nat, protect: nat)
    returns (done: nat)
    requires b in t.allocations && PartitionsReserved(t.allocations[b].pages, first, count, runs) && k <= |runs|
    ensures first + count <= |t.allocations[b].pages| && done <= count && first + done == Boundary(first, count, runs, k)
    ensures
      var t' := AfterRuns(t, b, page0, runs, k, protect);
      PrefixCommitted(t.allocations, t.content, t'.allocations, t'.content, b, page0, first, done, protect)
  {
    AfterRunsIsPrefix(t, b, page0, first, count, runs, k, protect);
    done := Boundary(first, count, runs, k) - first;
  }

  /** What it means that the first `k` runs have been done and the host's answer to the next one was `status`. */
  lemma RunsOutcome(pageSize: nat, t: Tables, t': Tables, b: nat, first: nat, count: nat, runs: seq<Run>, k: nat,
                    protect: nat, mmap: Host, status: VmStatus) returns (done: nat)
    requires pageSize > 0 && b in t.allocations && PartitionsReserved(t.allocations[b].pages, first, count, runs)
    requires k <= |runs| && FirstGranted(pageSize, b, runs, k, mmap)
    requires t' == AfterRuns(t, b, Count(b, pageSize), runs, k, protect)
    requires status == Success ==> k == |runs|
    requires status != Success ==>
               k < |runs| && Answer(pageSize, b, runs[k], mmap) == Some(status)
    ensures done <= count && (status == Success ==> done == count)
    ensures PrefixCommitted(t.allocations, t.content, t'.allocations, t'.content, b, Count(b, pageSize), first, done, protect)
    ensures first + count <= |t.allocations[b].pages|
    ensures RunsGranted(pageSize, b, t.allocations[b].pages, first, count, done, mmap)
    ensures status != Success ==> RunRefused(pageSize, b, t.allocations[b].pages, first, count, done, mmap, status)
  {
    done := PrefixOutcome(t, b, Count(b, pageSize), first, count, runs, k, protect);
    GrantedRuns(pageSize, b, t.allocations[b].pages, first, count, runs, k, mmap);
    if status != Success {
      RefusedRun(pageSize, b, t.allocations[b].pages, first, count, runs, k, mmap, status);
    }
  }

  /** The whole outcome of an allocation call, from the flag bits. */
  ghost predicate AllocateDone(pageSize: nat, s: Snapshot, s': Snapshot, request: nat, size: nat, allocationType: bv32,
                               protect: nat, kind: nat, base: nat, length: nat, region: Option<nat>, done: nat,
                               mmap: Host, madvise: Host, lost: set<nat>, status: VmStatus)
    requires pageSize > 0
  {
    var commits, reserves := allocationType & MEM_COMMIT != 0, allocationType & MEM_RESERVE != 0;
    if allocationType & MEM_UNSUPPORTED != 0 then
      status == NotSupported && s' == s
    else if allocationType & MEM_RESET != 0 then
      if commits || reserves then status == InvalidParameter && s' == s
      else if request == 0 then status == InvalidAddress && s' == s
      else
        && s'.mappings == s.mappings && s'.allocations == s.allocations && Spans(pageSize, request, size, base, length)
        && ResetDone(pageSize, s.allocations, s.content, s'.content, base, length, madvise, lost, status)
    else if reserves || (commits && request == 0) then
      ReserveDone(pageSize, s, s', request, size, commits, allocationType & MEM_TOP_DOWN != 0, protect, kind,
                  base, length, mmap, status)
    else if commits then
      CommitDone(pageSize, s, s', request, size, protect, base, length, region, done, mmap, status)
    else
      status == InvalidParameter && s' == s
  }

  /** What the flag bits promise, one by one. */
  ghost predicate FlagsObeyed(pageSize: nat, s: Snapshot, s': Snapshot, request: nat, size: nat, allocationType: bv32,
                              protect: nat, kind: nat, base: nat, length: nat, region: Option<nat>, status: VmStatus)
    requires pageSize > 0
  {
    var commits, reserves := allocationType & MEM_COMMIT != 0, allocationType & MEM_RESERVE != 0;
    var resets, topDown := allocationType & MEM_RESET != 0, allocationType & MEM_TOP_DOWN != 0;
    if allocationType & MEM_UNSUPPORTED != 0 then
      status == NotSupported && s' == s
    else if resets then
      && s'.mappings == s.mappings && s'.allocations == s.allocations
      && (commits || reserves ==> status == InvalidParameter && s' == s)
      && (!commits && !reserves && request == 0 ==> status == InvalidAddress && s' == s)
    else if !commits && !reserves then
      status == InvalidParameter && s' == s
    else
      status == Success ==>
        // a new allocation, committed as a whole or not at all, at the outermost place if none was asked for
        && (reserves || request == 0 ==>
              && base !in s.allocations && s'.allocations.Keys == s.allocations.Keys + {base}
              && var r := s'.allocations[base];
                 && r.size == length && r.allocationProtect == protect && r.kind == kind
                 && forall i :: 0 <= i < |r.pages| ==> r.pages[i] == if commits then protect else 0)
        && (request == 0 ==>
              && Fits(s.mappings, base, length, LOW_MEMORY_START, TOP_DOWN_START)
              && forall x: nat :: Fits(s.mappings, x, length, LOW_MEMORY_START, TOP_DOWN_START) ==>
                   if topDown then x <= base else base <= x)
        // an existing allocation, committed throughout the range
        && (!reserves && request != 0 ==>
              && region.Some? && region.value in s.allocations && s'.allocations.Keys == s.allocations.Keys
              && region.value <= base && base + length <= region.value + s.allocations[region.value].size
              && (protect != 0 ==> AllCommittedIn(pageSize, s'.allocations, region.value, base, length)))
  }

  ghost predicate AllCommittedIn(pageSize: nat, a: Allocations, b: nat, start: nat, length: nat)
    requires pageSize > 0 && b in a && b <= start
  {
    var first, count := Count(start - b, pageSize), Count(length, pageSize);
    first + count <= |a[b].pages| && forall i :: first <= i < first + count ==> a[b].pages[i] != 0
  }

  lemma OutcomeObeysFlags(pageSize: nat, s: Snapshot, s': Snapshot, request: nat, size: nat, allocationType: bv32,
                          protect: nat, kind: nat, base: nat, length: nat, region: Option<nat>, done: nat,
                          mmap: Host, madvise: Host, lost: set<nat>, status: VmStatus)
    requires pageSize > 0 && size > 0
    requires AllocateDone(pageSize, s, s', request, size, allocationType, protect, kind, base, length, region, done,
                          mmap, madvise, lost, status)
    ensures FlagsObeyed(pageSize, s, s', request, size, allocationType, protect, kind, base, length, region, status)
  {
    AlignDownBounds(request, pageSize);
    AlignUpBounds(request + size, pageSize);
  }

  /** What a decommit applies to: the pages the request touches, or the whole allocation if the size is 0. */
  ghost predicate DecommitsRange(pageSize: nat, a: Allocations, request: nat, size: nat, b: nat, start: nat, length: nat)
    requires pageSize > 0
  {
    && Contains(a, b, request) && RangeWithinRegion(b, a[b], start, length)
    && start % pageSize == 0 && length > 0 && length % pageSize == 0
    && b <= start && Count(start - b, pageSize) + Count(length, pageSize) <= |a[b].pages|
    && (if size == 0 then start == request == b && length == a[b].size else Spans(pageSize, request, size, start, length))
  }

  /** A page range of allocation `b` is reserved and has lost its contents; nothing else has changed. */
  ghost predicate Dropped(pageSize: nat, s: Snapshot, s': Snapshot, b: nat, first: nat, count: nat)
    requires pageSize > 0
  {
    && b in s.allocations
    && PagesSet(s.allocations, s.mappings, s'.allocations, s'.mappings, b, first, count, 0)
    && s'.content == Remap(s.content, Count(b, pageSize) + first, count)
  }

  ghost predicate DecommitsNothing(pageSize: nat, a: Allocations, request: nat, size: nat, status: VmStatus)
    requires pageSize > 0
  {
    match FindRegion(a, request)
    case None => status == InvalidAddress
    case Some(b) =>
      if size == 0 then status == InvalidParameter && request != b
      else status == InvalidAddress && b in a && b + a[b].size < AlignUp(request + size, pageSize)
  }

  /** The whole outcome of a decommit: the host was asked and agreed, or nothing has changed. */
  ghost predicate DecommitDone(pageSize: nat, s: Snapshot, s': Snapshot, request: nat, size: nat,
                               b: nat, start: nat, length: nat, mmap: Host, status: VmStatus)
    requires pageSize > 0
  {
    if status == Success then
      && request != 0 && DecommitsRange(pageSize, s.allocations, request, size, b, start, length)
      && mmap(start, length).None?
      && Dropped(pageSize, s, s', b, Count(start - b, pageSize), Count(length, pageSize))
    else
      && s' == s
      && (|| (request == 0 && status == InvalidAddress)
          || DecommitsNothing(pageSize, s.allocations, request, size, status)
          || (DecommitsRange(pageSize, s.allocations, request, size, b, start, length) && mmap(start, length) == Some(status)))
  }

  /** Allocation `b` holds the range, and all pages of the range are committed. */
  ghost predicate CommittedRange(pageSize: nat, a: Allocations, start: nat, length: nat, b: nat)
    requires pageSize > 0
  {
    && b in a && RangeWithinRegion(b, a[b], start, length)
    && var first, count := Count(start - b, pageSize), Count(length, pageSize);
       && first + count <= |a[b].pages| && count > 0
       && forall i :: first <= i < first + count ==> a[b].pages[i] != 0
  }

  /** Page `p` of the allocation that holds the range is in the range and not committed. */
  ghost predicate ReservedPage(pageSize: nat, a: Allocations, start: nat, length: nat, b: nat, p: nat)
    requires pageSize > 0
  {
    && b in a && RangeWithinRegion(b, a[b], start, length)
    && Count(start - b, pageSize) <= p < Count(start - b, pageSize) + Count(length, pageSize)
    && p < |a[b].pages| && a[b].pages[p] == 0
  }

  /** Why a page-aligned range is not reprotected: not in one allocation, not all committed, or the host refuses. */
  ghost predicate ProtectRefused(pageSize: nat, a: Allocations, start: nat, length: nat, b: nat, mprotect: Host, status: VmStatus)
    requires pageSize > 0
  {
    || (status == InvalidAddress && InNoRegion(a, start, length))
    || (status == NoAccess && exists p :: ReservedPage(pageSize, a, start, length, b, p))
    || (CommittedRange(pageSize, a, start, length, b) && mprotect(start, length) == Some(status))
  }

  /** The whole outcome of a reprotection. */
  ghost predicate ProtectDone(pageSize: nat, s: Snapshot, s': Snapshot, start: nat, length: nat, newProtect: nat,
                              b: nat, oldProtect: nat, mprotect: Host, status: VmStatus)
    requires pageSize > 0
  {
    if status == Success then
      && CommittedRange(pageSize, s.allocations, start, length, b) && mprotect(start, length).None?
      && var first, count := Count(start - b, pageSize), Count(length, pageSize);
         && oldProtect == s.allocations[b].pages[first] && s'.content == s.content
         && PagesSet(s.allocations, s.mappings, s'.allocations, s'.mappings, b, first, count, newProtect)
    else
      s' == s && ProtectRefused(pageSize, s.allocations, start, length, b, mprotect, status)
  }

  class Manager {
    const pageSize: nat
    var mappings: Mappings
    var allocations: Allocations
    var content: Content
    ghost var views: Views

    /** The invariant of every run: records apart from each other, allocations placed and summarised, views recorded. */
    ghost predicate Valid()
      reads this
    {
      InOrder(pageSize, mappings, allocations, views)
    }

    /** The part that holds even while an operation is changing pages. */
    ghost predicate Coherent()
      reads this
    {
      Consistent(pageSize, mappings, allocations)
    }

    ghost function State(): Snapshot
      reads this
    {
      Snapshot(mappings, allocations, content)
    }

    /** The host's own mappings below 2 GB are recorded before anything else. */
    constructor (pageSize: nat, initial: Mappings)
      requires ValidPageSize(pageSize) && Apart(initial)
      ensures Valid() && this.pageSize == pageSize && mappings == initial && allocations == map[]
      ensures content == map[] && views == map[]
    {
      this.pageSize := pageSize;
      mappings, allocations, content, views := initial, map[], map[], map[];
    }

    /** The guest stores into a committed page. */
    method WritePage(b: nat, p: nat, value: nat)
      requires Valid() && b in allocations && p < |allocations[b].pages| && allocations[b].pages[p] != 0
      modifies this`content
      ensures content == old(content)[Count(b, pageSize) + p := value]
    {
      content := content[Count(b, pageSize) + p := value];
    }

    /** Chooses where a reservation goes. */
    method ChooseRange(request: nat, size: nat, topDown: bool)
      returns (status: VmStatus, base: nat, length: nat)
      requires Valid() && size > 0
      ensures status == Success ==> Chosen(pageSize, mappings, request, size, topDown, base, length)
      ensures status != Success ==> NoRange(pageSize, mappings, request, size, status)
    {
      base, length := 0, 0;
      if request != 0 {
        base := AlignDown(request, GRANULARITY);
        AlignDownBounds(request, GRANULARITY);
        length := AlignUp(size + request - base, pageSize);
        AlignUpBounds(size + request - base, pageSize);
        if base >= TWO_GB || base + length > TWO_GB {
          return InvalidAddress, base, length;
        }
        var overlaps := OverlapsExistingMapping(mappings, base, length);
        OverlapsIsNotClear(mappings, base, length);
        if overlaps {
          return InvalidAddress, base, length;
        }
      } else {
        length := AlignUp(size, pageSize);
        AlignUpBounds(size, pageSize);
        AlignedTwice(size, pageSize);
        var found := FindFreeMapping(mappings, pageSize, length, LOW_MEMORY_START, TOP_DOWN_START, topDown);
        if found.None? {
          return NoMemory, 0, length;
        }
        base := found.value;
      }
      return Success, base, length;
    }

    /** VirtualAlloc with MEM_RESERVE, and with MEM_COMMIT as well if `commit`. */
    method Reserve(request: nat, size: nat, commit: bool, topDown: bool, protect: nat, kind: nat, mmap: Host)
      returns (status: VmStatus, base: nat, length: nat)
      requires Valid() && size > 0
      modifies this`mappings, this`allocations, this`content
      ensures Valid()
      ensures ReserveDone(pageSize, old(State()), State(), request, size, commit, topDown, protect, kind,
                          base, length, mmap, status)
    {
      status, base, length := ChooseRange(request, size, topDown);
      if status != Success {
        return;
      }
      var failed := mmap(base, length);
      if failed.Some? {
        return failed.value, base, length;
      }
      var r := NewRegion(pageSize, length, protect, kind, commit);
      CountExact(length, pageSize);
      var info := Summarize(r);
      AddAllocation(pageSize, mappings, allocations, base, info, r);
      RecordsAfterChange(mappings, allocations, views, base, r);
      content := Remap(content, Count(base, pageSize), Count(length, pageSize));
      allocations := allocations[base := r];
      mappings := mappings[base := info];
    }

    /** Finds the allocation that holds the whole page-aligned range, and the range's page indices in it. */
    method LocateRange(start: nat, length: nat) returns (found: Option<nat>, first: nat, count: nat)
      requires Valid() && start % pageSize == 0 && length % pageSize == 0 && length > 0
      ensures found.Some? ==>
                && found.value in allocations
                && RangeWithinRegion(found.value, allocations[found.value], start, length)
                && first + count <= |allocations[found.value].pages| && count > 0
                && first == Count(start - found.value, pageSize) && count == Count(length, pageSize)
                && start == found.value + first * pageSize && length == count * pageSize
                && Count(start, pageSize) == Count(found.value, pageSize) + first
      ensures found.None? <==> InNoRegion(allocations, start, length)
    {
      first, count := 0, 0;
      found := FindRegion(allocations, start);
      FindRegionIsExact(pageSize, mappings, allocations, start);
      if found.None? || !RangeWithinRegion(found.value, allocations[found.value], start, length) {
        OnlyTheHolder(allocations, found, start, length);
        return None, 0, 0;
      }
      var b := found.value;
      RangeInPages(pageSize, b, allocations[b], start, length);
      first, count := Count(start - b, pageSize), Count(length, pageSize);
    }

    /** Records that the host has remapped one run. */
    method MarkCommitted(b: nat, run: Run, protect: nat)
      requires pageSize > 0 && b in allocations && run.first + run.length <= |allocations[b].pages|
      modifies this`allocations, this`content
      ensures
        var r := old(allocations)[b];
        allocations == old(allocations)[b := r.(pages := Fill(r.pages, run.first, run.length, protect))]
      ensures content == Remap(old(content), Count(b, pageSize) + run.first, run.length)
    {
      var pages := MarkPages(allocations[b].pages, run.first, run.length, protect);
      content := Remap(content, Count(b, pageSize) + run.first, run.length);
      allocations := allocations[b := allocations[b].(pages := pages)];
    }

    /** Remaps the runs in order and marks their pages, up to the first one the host refuses. */
    method CommitRuns(b: nat, runs: seq<Run>, protect: nat, mmap: Host) returns (status: VmStatus, ghost k: nat)
      requires pageSize > 0 && b in allocations && RunsInside(runs, |allocations[b].pages|)
      modifies this`allocations, this`content
      ensures k <= |runs| && FirstGranted(pageSize, b, runs, k, mmap)
      ensures Tables(allocations, content) ==
              AfterRuns(Tables(old(allocations), old(content)), b, Count(b, pageSize), runs, k, protect)
      ensures if status == Success then k == |runs| else k < |runs| && Answer(pageSize, b, runs[k], mmap) == Some(status)
    {
      ghost var before := Tables(allocations, content);
      var i := 0;
      while i < |runs|
        invariant 0 <= i <= |runs|
        invariant FirstGranted(pageSize, b, runs, i, mmap)
        invariant Tables(allocations, content) == AfterRuns(before, b, Count(b, pageSize), runs, i, protect)
      {
        var failed := Answer(pageSize, b, runs[i], mmap);
        if failed.Some? {
          return failed.value, i;
        }
        MarkCommitted(b, runs[i], protect);
        i := i + 1;
      }
      return Success, i;
    }

    /** Remaps and marks the reserved pages of a range; the first `done` pages are as after a complete commit. */
    method CommitReserved(b: nat, first: nat, count: nat, protect: nat, mmap: Host)
      returns (status: VmStatus, ghost done: nat)
      requires Coherent() && b in allocations && first + count <= |allocations[b].pages|
      modifies this`allocations, this`content
      ensures Coherent()
      ensures PrefixCommitted(old(allocations), old(content), allocations, content, b, Count(b, pageSize), first, done, protect)
      ensures done <= count && (status == Success ==> done == count)
      ensures RunsGranted(pageSize, b, old(allocations)[b].pages, first, count, done, mmap)
      ensures status != Success ==>
                RunRefused(pageSize, b, old(allocations)[b].pages, first, count, done, mmap, status)
    {
      var runs := CollectRuns(allocations[b].pages, first, count);
      ghost var k;
      PartitionIsInside(allocations[b].pages, first, count, runs);
      status, k := CommitRuns(b, runs, protect, mmap);
      done := RunsOutcome(pageSize, Tables(old(allocations), old(content)), Tables(allocations, content),
                          b, first, count, runs, k, protect, mmap, status);
      ReplaceAllocation(pageSize, mappings, old(allocations), b, mappings[b], allocations[b]);
    }

    /** Brings the record of an allocation's mapping up to date with its pages. */
    method Refresh(b: nat)
      requires Coherent() && b in allocations
      modifies this`mappings
      ensures Coherent() && mappings == old(mappings)[b := Summary(allocations[b])]
    {
      var info := Summarize(allocations[b]);
      ReplaceAllocation(pageSize, mappings, allocations, b, info, allocations[b]);
      assert allocations[b := allocations[b]] == allocations;
      mappings := mappings[b := info];
    }

    /** Commits a page range of one allocation, and refreshes its mapping if all went well. */
    method CommitPages(b: nat, first: nat, count: nat, protect: nat, mmap: Host)
      returns (status: VmStatus, ghost done: nat)
      requires Valid() && b in allocations && first + count <= |allocations[b].pages|
      modifies this`mappings, this`allocations, this`content
      ensures Valid()
      ensures done <= count && (status == Success ==> done == count)
      ensures RunsGranted(pageSize, b, old(allocations)[b].pages, first, count, done, mmap)
      ensures status != Success ==>
                RunRefused(pageSize, b, old(allocations)[b].pages, first, count, done, mmap, status)
      ensures PrefixCommitted(old(allocations), old(content), allocations, content, b, Count(b, pageSize), first, done, protect)
      ensures mappings == (if status == Success then old(mappings)[b := Summary(allocations[b])] else old(mappings))
    {
      status, done := CommitReserved(b, first, count, protect, mmap);
      RecordsAfterChange(mappings, old(allocations), views, b, allocations[b]);
      if status == Success {
        Refresh(b);
      } else {
        SummaryWhileReserved(old(allocations)[b], allocations[b].pages, first + done);
        assert mappings[b := Summary(allocations[b])] == mappings;
      }
    }

    /**
     VirtualAlloc with MEM_COMMIT alone. The reserved pages of the range are remapped run by run;
     if the host refuses a run, the `done` pages before it are as after a complete commit.
     */
    method Commit(request: nat, size: nat, protect: nat, mmap: Host)
      returns (status: VmStatus, start: nat, length: nat, region: Option<nat>, ghost done: nat)
      requires Valid() && size > 0
      modifies this`mappings, this`allocations, this`content
      ensures Valid()
      ensures CommitDone(pageSize, old(State()), State(), request, size, protect, start, length, region, done, mmap, status)
    {
      RoundedRange(pageSize, request, size);
      start := AlignDown(request, pageSize);
      length := AlignUp(request + size, pageSize) - start;
      done := 0;
      var first, count;
      region, first, count := LocateRange(start, length);
      if region.None? {
        return InvalidAddress, start, length, region, done;
      }
      status, done := CommitPages(region.value, first, count, protect, mmap);
    }

    /** VirtualAlloc with MEM_RESET: the host may discard contents of the range, now or later; here it discards `lost`. */
    method Reset(request: nat, size: nat, madvise: Host, lost: set<nat>) returns (status: VmStatus, start: nat, length: nat)
      requires Valid() && size > 0
      modifies this`content
      ensures Spans(pageSize, request, size, start, length)
      ensures ResetDone(pageSize, allocations, old(content), content, start, length, madvise, lost, status)
    {
      RoundedRange(pageSize, request, size);
      start := AlignDown(request, pageSize);
      length := AlignUp(request + size, pageSize) - start;
      var region, _, _ := LocateRange(start, length);
      if region.None? {
        return InvalidAddress, start, length;
      }
      var failed := madvise(start, length);
      if failed.Some? {
        return failed.value, start, length;
      }
      content := Discard(content, Count(start, pageSize), Count(length, pageSize), lost);
      return Success, start, length;
    }

    /** VirtualAlloc: which of the three operations the flags ask for, and that operation. */
    method Allocate(request: nat, size: nat, allocationType: bv32, protect: nat, kind: nat, mmap: Host,
                    madvise: Host, lost: set<nat>)
      returns (status: VmStatus, base: nat, length: nat, region: Option<nat>, ghost done: nat)
      requires Valid()
      modifies this`mappings, this`allocations, this`content
      ensures Valid()
      ensures size == 0 ==> status == InvalidParameter && State() == old(State())
      ensures size > 0 ==> AllocateDone(pageSize, old(State()), State(), request, size, allocationType, protect, kind,
                                        base, length, region, done, mmap, madvise, lost, status)
      ensures size > 0 ==> FlagsObeyed(pageSize, old(State()), State(), request, size, allocationType, protect, kind,
                                       base, length, region, status)
    {
      base, length, region, done := 0, 0, None, 0;
      if size == 0 {
        return InvalidParameter, base, length, region, done;
      }
      ghost var before := State();
      match Decode(allocationType, request)
      case Refuse(why) =>
        status := why;
      case ResetRange =>
        status, base, length := Reset(request, size, madvise, lost);
      case ReserveRange(commit, topDown) =>
        status, base, length := Reserve(request, size, commit, topDown, protect, kind, mmap);
      case CommitRange =>
        status, base, length, region, done := Commit(request, size, protect, mmap);
      OutcomeObeysFlags(pageSize, before, State(), request, size, allocationType, protect, kind,
                        base, length, region, done, mmap, madvise, lost, status);
    }

    /** Replaces the entries of a page range of an allocation and refreshes its mapping. */
    method SetPages(b: nat, first: nat, count: nat, value: nat)
      requires Valid() && b in allocations && first + count <= |allocations[b].pages|
      modifies this`allocations, this`mappings
      ensures Valid()
      ensures PagesSet(old(allocations), old(mappings), allocations, mappings, b, first, count, value)
    {
      var pages := MarkPages(allocations[b].pages, first, count, value);
      var r := allocations[b].(pages := pages);
      ReplaceAllocation(pageSize, mappings, allocations, b, mappings[b], r);
      RecordsAfterChange(mappings, allocations, views, b, r);
      allocations := allocations[b := r];
      Refresh(b);
    }

    /** Where VirtualFree with MEM_DECOMMIT applies: a rounded range, or a whole allocation for size 0. */
    method DecommitRange(request: nat, size: nat)
      returns (status: VmStatus, b: nat, start: nat, length: nat)
      requires Valid()
      ensures status == Success ==> DecommitsRange(pageSize, allocations, request, size, b, start, length)
      ensures status != Success ==> DecommitsNothing(pageSize, allocations, request, size, status)
    {
      status, b, start, length := InvalidAddress, 0, 0, 0;
      var found := FindRegion(allocations, request);
      FindRegionIsExact(pageSize, mappings, allocations, request);
      if found.None? {
        return;
      }
      b := found.value;
      MultipleOfMultiple(b, GRANULARITY, pageSize);
      RoundedRange(pageSize, request, size);
      start := AlignDown(request, pageSize);
      AlignDownGreatest(request, pageSize, b);
      if size == 0 {
        if request != b {
          status := InvalidParameter;
          return;
        }
        start, length := b, allocations[b].size;
        CountOfProduct(|allocations[b].pages|, pageSize);
      } else {
        length := AlignUp(request + size, pageSize) - start;
      }
      if !RangeWithinRegion(b, allocations[b], start, length) {
        return;
      }
      PagesOfRange(pageSize, b, allocations[b], start, length);
      status := Success;
    }

    /** Records that the host has dropped a page range of an allocation. */
    method DropPages(b: nat, first: nat, count: nat)
      requires Valid() && b in allocations && first + count <= |allocations[b].pages|
      modifies this`mappings, this`allocations, this`content
      ensures Valid() && Dropped(pageSize, old(State()), State(), b, first, count)
    {
      SetPages(b, first, count, 0);
      content := Remap(content, Count(b, pageSize) + first, count);
    }

    /** VirtualFree with MEM_DECOMMIT. */
    method Decommit(request: nat, size: nat, mmap: Host)
      returns (status: VmStatus, b: nat, start: nat, length: nat)
      requires Valid()
      modifies this`mappings, this`allocations, this`content
      ensures Valid()
      ensures DecommitDone(pageSize, old(State()), State(), request, size, b, start, length, mmap, status)
    {
      b, start, length := 0, 0, 0;
      if request == 0 {
        return InvalidAddress, b, start, length;
      }
      status, b, start, length := DecommitRange(request, size);
      if status != Success {
        return;
      }
      var failed := mmap(start, length);
      if failed.Some? {
        return failed.value, b, start, length;
      }
      DropPages(b, Count(start - b, pageSize), Count(length, pageSize));
    }

    /** VirtualFree with MEM_RELEASE. When the host refuses, the mapping stays recorded without its allocation. */
    method Release(base: nat, size: nat, mmap: Host) returns (status: VmStatus)
      requires Valid()
      modifies this`mappings, this`allocations, this`content
      ensures Valid()
      ensures base == 0 || base !in old(allocations) || size != 0 ==>
                && mappings == old(mappings) && allocations == old(allocations) && content == old(content)
                && status == (if base == 0 then InvalidAddress
                              else if base in old(allocations) then InvalidParameter
                              else if size != 0 && FindRegion(old(allocations), base).Some? then InvalidParameter
                              else InvalidAddress)
      ensures base != 0 && base in old(allocations) && size == 0 ==>
                && allocations == old(allocations) - {base}
                && mappings == (if status == Success then old(mappings) - {base} else old(mappings))
                && (status == Success ==>
                      content == Remap(old(content), Count(base, pageSize), |old(allocations)[base].pages|))
                && (status != Success ==> content == old(content))
                && Some(status) == (if mmap(base, old(allocations)[base].size).None? then Some(Success)
                                    else mmap(base, old(allocations)[base].size))
    {
      if base == 0 {
        return InvalidAddress;
      }
      if base !in allocations {
        var containing := FindRegion(allocations, base);
        return if size != 0 && containing.Some? then InvalidParameter else InvalidAddress;
      }
      if size != 0 {
        return InvalidParameter;
      }
      var r := allocations[base];
      RemoveAllocation(pageSize, mappings, allocations, base);
      RecordsAfterRemoval(mappings, allocations, views, base);
      allocations := allocations - {base};
      var failed := mmap(base, r.size);
      if failed.Some? {
        return failed.value;
      }
      content := Remap(content, Count(base, pageSize), |r.pages|);
      mappings := mappings - {base};
      return Success;
    }

    /** Whether a page-aligned range may be reprotected: it must lie in one allocation, all committed. */
    method CheckProtect(start: nat, length: nat) returns (status: VmStatus, b: nat, first: nat, count: nat)
      requires Valid() && start % pageSize == 0 && length % pageSize == 0 && length > 0
      ensures status == InvalidAddress <==> InNoRegion(allocations, start, length)
      ensures status == Success || status == NoAccess || status == InvalidAddress
      ensures status != InvalidAddress ==>
                && b in allocations && RangeWithinRegion(b, allocations[b], start, length)
                && first == Count(start - b, pageSize) && count == Count(length, pageSize)
                && first + count <= |allocations[b].pages| && count > 0
                && (status == Success <==> CommittedRange(pageSize, allocations, start, length, b))
                && (status == NoAccess <==> exists p :: ReservedPage(pageSize, allocations, start, length, b, p))
    {
      var region;
      region, first, count := LocateRange(start, length);
      if region.None? {
        return InvalidAddress, 0, first, count;
      }
      b := region.value;
      var committed := AllNonZero(allocations[b].pages, first, count);
      if !committed {
        ghost var p: nat :| first <= p < first + count && allocations[b].pages[p] == 0;
        assert ReservedPage(pageSize, allocations, start, length, b, p);
        return NoAccess, b, first, count;
      }
      return Success, b, first, count;
    }

    /** Reprotects a page-aligned range. */
    method ProtectRange(start: nat, length: nat, newProtect: nat, mprotect: Host)
      returns (status: VmStatus, oldProtect: nat, b: nat)
      requires Valid() && start % pageSize == 0 && length % pageSize == 0 && length > 0
      modifies this`allocations, this`mappings
      ensures Valid()
      ensures ProtectDone(pageSize, old(State()), State(), start, length, newProtect, b, oldProtect, mprotect, status)
    {
      oldProtect := 0;
      var first, count;
      status, b, first, count := CheckProtect(start, length);
      if status != Success {
        return;
      }
      var failed := mprotect(start, length);
      if failed.Some? {
        status := failed.value;
        return;
      }
      oldProtect := allocations[b].pages[first];
      SetPages(b, first, count, newProtect);
    }

    /** VirtualProtect: every page of the range must be committed; the old protection of the first is returned. */
    method Protect(request: nat, size: nat, newProtect: nat, mprotect: Host)
      returns (status: VmStatus, oldProtect: nat, b: nat, start: nat, length: nat)
      requires Valid()
      modifies this`allocations, this`mappings
      ensures Valid()
      ensures request == 0 || size == 0 ==> status == InvalidParameter && State() == old(State())
      ensures request != 0 && size > 0 ==>
                && Spans(pageSize, request, size, start, length)
                && ProtectDone(pageSize, old(State()), State(), start, length, newProtect, b, oldProtect, mprotect, status)
    {
      oldProtect, b, start, length := 0, 0, 0, 0;
      if request == 0 || size == 0 {
        return InvalidParameter, oldProtect, b, start, length;
      }
      RoundedRange(pageSize, request, size);
      start := AlignDown(request, pageSize);
      length := AlignUp(request + size, pageSize) - start;
      status, oldProtect, b := ProtectRange(start, length, newProtect, mprotect);
    }

    /** Records a range for a file view before the view is mapped. Zero bounds mean the default ones. */
    method ReserveViewRange(size: nat, minAddr: nat, maxAddr: nat) returns (status: VmStatus, base: nat)
      requires Valid()
      modifies this`mappings, this`views
      ensures Valid()
      ensures views == if status == Success then old(views)[base := AlignUp(size, pageSize)] else old(views)
      ensures
        var lo := if minAddr == 0 then LOW_MEMORY_START else minAddr;
        var hi := if maxAddr == 0 then TOP_DOWN_START else maxAddr;
        var len := AlignUp(size, pageSize);
        && (status == Success ==>
              && size > 0 && Fits(old(mappings), base, len, lo, hi)
              && (forall x: nat :: Fits(old(mappings), x, len, lo, hi) ==> base <= x)
              && base !in old(mappings)
              && mappings == old(mappings)[base := Mapping(len, PAGE_NOACCESS, MemReserve, PAGE_NOACCESS, MEM_MAPPED)])
        && (status != Success ==>
              && mappings == old(mappings)
              && (size == 0 || forall x: nat :: !Fits(old(mappings), x, len, lo, hi))
              && status == if size == 0 || lo >= hi || len > hi - lo then InvalidParameter else NoMemory)
    {
      base := 0;
      if size == 0 {
        return InvalidParameter, base;
      }
      var len := AlignUp(size, pageSize);
      AlignUpBounds(size, pageSize);
      AlignedTwice(size, pageSize);
      var lo := if minAddr == 0 then LOW_MEMORY_START else minAddr;
      var hi := if maxAddr == 0 then TOP_DOWN_START else maxAddr;
      if lo >= hi || len > hi - lo {
        return InvalidParameter, base;
      }
      var found := FindFreeMapping(mappings, pageSize, len, lo, hi, false);
      if found.None? {
        return NoMemory, base;
      }
      base := found.value;
      var info := Mapping(len, PAGE_NOACCESS, MemReserve, PAGE_NOACCESS, MEM_MAPPED);
      AddMapping(pageSize, mappings, allocations, base, info);
      mappings := mappings[base := info];
      views := views[base := len];
      return Success, base;
    }

    /**
     Marks a range as a mapped view. All records stay in order if it is a view with the size it was
     reserved with, and otherwise exactly if the new record happens to fit in.
     */
    method RegisterViewRange(base: nat, size: nat, allocationProtect: nat, protect: nat)
      requires Valid()
      modifies this`mappings
      ensures base in views && views[base] == AlignUp(size, pageSize) ==> Valid()
      ensures
        var info := Mapping(AlignUp(size, pageSize), allocationProtect, MemCommit, protect, MEM_MAPPED);
        && mappings == (if base == 0 then old(mappings) else old(mappings)[base := info])
        && (Valid() <==> base == 0 || Registrable(old(mappings), allocations, views, base, info))
    {
      if base == 0 {
        return;
      }
      var info := Mapping(AlignUp(size, pageSize), allocationProtect, MemCommit, protect, MEM_MAPPED);
      if Registrable(mappings, allocations, views, base, info) {
        RegistrableSuffices(pageSize, mappings, allocations, views, base, info);
      } else if InOrder(pageSize, mappings[base := info], allocations, views) {
        RegistrableIsNeeded(pageSize, mappings, allocations, views, base, info);
      }
      if base in views && views[base] == info.size {
        ViewsAreRegistrable(pageSize, mappings, allocations, views, base, info);
      }
      mappings := mappings[base := info];
    }

    /** Forgets a range. All records stay in order if it is a view, and otherwise exactly if it is no allocation. */
    method ReleaseViewRange(base: nat)
      requires Valid()
      modifies this`mappings, this`views
      ensures base in old(views) ==> Valid()
      ensures mappings == (if base == 0 then old(mappings) else old(mappings) - {base})
      ensures views == old(views) - {base}
      ensures Valid() <==> base == 0 || base !in allocations
    {
      if base != 0 {
        ReleasableViews(pageSize, mappings, allocations, views, base);
        mappings := mappings - {base};
      }
      views := views - {base};
    }

    /** The free range from a page that no allocation holds. */
    method QueryFree(pageBase: nat) returns (info: Info)
      requires Valid() && pageBase < TWO_GB && FindRegion(allocations, pageBase).None?
      ensures info.base == pageBase && DescribesFree(allocations, info) && pageBase + info.regionSize <= TWO_GB
    {
      FindRegionIsExact(pageSize, mappings, allocations, pageBase);
      var next := Ceiling(allocations.Keys, pageBase);
      var regionEnd := if next.Some? then next.value else TWO_GB;
      assert regionEnd in allocations ==> WellPlaced(pageSize, regionEnd, allocations[regionEnd]);
      assert regionEnd in allocations ==> !Contains(allocations, regionEnd, pageBase);
      info := Info(pageBase, 0, 0, regionEnd - pageBase, MemFree, PAGE_NOACCESS, 0);
      forall b | b in allocations ensures Disjoint(pageBase, info.regionSize, b, allocations[b].size) {
        assert !Contains(allocations, b, pageBase);
      }
    }

    /** The block of equal pages around a page of an allocation. */
    method QueryBlock(b: nat, pageBase: nat) returns (info: Info, ghost p: nat, ghost lo: nat, ghost hi: nat)
      requires Valid() && Contains(allocations, b, pageBase) && pageBase % pageSize == 0
      ensures DescribesBlock(pageSize, allocations, info, b, p, lo, hi) && pageBase == b + Bytes(p, pageSize)
      ensures info.base <= pageBase && pageBase + pageSize <= info.base + info.regionSize <= b + allocations[b].size
    {
      var r := allocations[b];
      MultipleOfMultiple(b, GRANULARITY, pageSize);
      AddMultiples(pageBase, b, pageSize);
      CountExact(pageBase - b, pageSize);
      CountWithin(pageBase - b, 0, |r.pages|, pageSize);
      var pageIndex := Count(pageBase - b, pageSize);
      var first, last := BlockOf(r.pages, pageIndex);
      var entry := r.pages[pageIndex];
      info := Info(b + Bytes(first, pageSize), b, ShownProtect(r.allocationProtect), Bytes(last - first, pageSize),
                   if entry != 0 then MemCommit else MemReserve, ShownProtect(entry), r.kind);
      p, lo, hi := pageIndex, first, last;
      BlockBounds(pageSize, lo, p, hi, |r.pages|);
    }

    /** VirtualQuery. In the allocated case `b`, `p`, `lo`, `hi` name the allocation, the page and its block. */
    method Query(request: nat) returns (status: VmStatus, info: Info, ghost b: nat, ghost p: nat, ghost lo: nat, ghost hi: nat)
      requires Valid()
      ensures status == (if request >= TWO_GB then InvalidParameter else Success)
      ensures request < TWO_GB ==>
                && info.base <= request < info.base + info.regionSize <= TWO_GB
                && (if info.state == MemFree
                    then DescribesFree(allocations, info) && info.base == AlignDown(request, pageSize)
                    else && DescribesBlock(pageSize, allocations, info, b, p, lo, hi)
                         && AlignDown(request, pageSize) == b + Bytes(p, pageSize)
                         && (if allocations[b].pages[p] != 0
                             then info.state == MemCommit && info.protect == allocations[b].pages[p]
                             else info.state == MemReserve && info.protect == PAGE_NOACCESS))
    {
      info := Info(0, 0, 0, 0, MemFree, 0, 0);
      b, p, lo, hi := 0, 0, 0, 0;
      if request >= TWO_GB {
        return InvalidParameter, info, b, p, lo, hi;
      }
      var pageBase := AlignDown(request, pageSize);
      AlignDownBounds(request, pageSize);
      var region := FindRegion(allocations, pageBase);
      if region.None? {
        info := QueryFree(pageBase);
        RequestBelow(pageSize, allocations, info, request);
        return Success, info, b, p, lo, hi;
      }
      FindRegionIsExact(pageSize, mappings, allocations, pageBase);
      b := region.value;
      assert WellPlaced(pageSize, b, allocations[b]);
      info, p, lo, hi := QueryBlock(region.value, pageBase);
      return Success, info, b, p, lo, hi;
    }
  }

  lemma SameGranule(request: nat, base: nat)
    requires base % GRANULARITY == 0 && base <= request < base + GRANULARITY
    ensures AlignDown(request, GRANULARITY) == base
  {
    AlignDownBounds(request, GRANULARITY);
    AlignDownGreatest(request, GRANULARITY, base);
    MultiplesApart(AlignDown(request, GRANULARITY), base, GRANULARITY);
  }

  /** A recorded range cannot be reserved again at its base, whether or not an allocation is left of it. */
  lemma RecordedRangeIsTaken(pageSize: nat, m: Mappings, base: nat, request: nat, size: nat)
    requires pageSize > 0 && Apart(m) && base in m && base % GRANULARITY == 0
    requires base <= request < base + GRANULARITY && request != 0 && size > 0
    ensures NoRange(pageSize, m, request, size, InvalidAddress)
  {
    SameGranule(request, base);
    AlignUpBounds(size + request - base, pageSize);
    assert !Disjoint(base, AlignUp(size + request - base, pageSize), base, m[base].size);
  }

  /** A release that the host refuses leaves the range unusable: whatever the host then says, it cannot be reserved again. */
  method ReserveAfterRefusedRelease(vm: Manager, base: nat, refusing: Host, request: nat, size: nat, mmap: Host)
    returns (released: VmStatus, reserved: VmStatus)
    requires vm.Valid() && base != 0 && base in vm.allocations && refusing(base, vm.allocations[base].size).Some?
    requires base <= request < base + GRANULARITY && size > 0
    modifies vm
    ensures Some(released) == refusing(base, old(vm.allocations)[base].size) && reserved == InvalidAddress
    ensures vm.Valid() && vm.mappings == old(vm.mappings) && vm.allocations == old(vm.allocations) - {base}
  {
    assert WellPlaced(vm.pageSize, base, vm.allocations[base]);
    released := vm.Release(base, 0, refusing);
    var at, length;
    RecordedRangeIsTaken(vm.pageSize, vm.mappings, base, request, size);
    NoRangeExcludes(vm.pageSize, vm.mappings, request, size);
    reserved, at, length := vm.Reserve(request, size, false, false, PAGE_NOACCESS, MEM_MAPPED, mmap);
  }

  /** A range to reserve at a requested address and the lack of one exclude each other. */
  lemma NoRangeExcludes(pageSize: nat, m: Mappings, request: nat, size: nat)
    requires pageSize > 0 && request != 0 && NoRange(pageSize, m, request, size, InvalidAddress)
    ensures forall topDown, base: nat, length: nat :: !Chosen(pageSize, m, request, size, topDown, base, length)
  {
    forall topDown, base: nat, length: nat | Chosen(pageSize, m, request, size, topDown, base, length) ensures false {
      SameGranule(request, base);
    }
  }

  lemma BlockBounds(pageSize: nat, lo: nat, p: nat, hi: nat, n: nat)
    requires pageSize > 0 && lo <= p < hi <= n
    ensures Bytes(lo, pageSize) <= Bytes(p, pageSize)
    ensures Bytes(p, pageSize) + pageSize <= Bytes(lo, pageSize) + Bytes(hi - lo, pageSize) == Bytes(hi, pageSize)
    ensures Bytes(hi, pageSize) <= n * pageSize
  {
    MultiplesAscend(lo, p, pageSize);
    MultiplesAscend(p + 1, hi, pageSize);
    MultiplesAscend(hi, n, pageSize);
    assert (p + 1) * pageSize == p * pageSize + pageSize;
    assert lo * pageSize + (hi - lo) * pageSize == hi * pageSize;
  }

  /** A free range that starts on the page of `request` reaches past it, for its end is page-aligned. */
  lemma RequestBelow(pageSize: nat, a: Allocations, info: Info, request: nat)
    requires ValidPageSize(pageSize) && DescribesFree(a, info) && info.base == AlignDown(request, pageSize)
    requires forall b :: b in a ==> b % GRANULARITY == 0
    ensures info.base <= request < info.base + info.regionSize
  {
    AlignDownBounds(request, pageSize);
    var end := info.base + info.regionSize;
    assert TWO_GB % GRANULARITY == 0;
    MultipleOfMultiple(end, GRANULARITY, pageSize);
    if request >= end {
      MultiplesApart(end, info.base, pageSize);
    }
  }

  // ----- walking the address space by repeated queries

  /** `info` is a maximal block, free or allocated. */
  ghost predicate Describes(pageSize: nat, a: Allocations, info: Info) {
    if info.state == MemFree then DescribesFree(a, info)
    else exists b: nat, p: nat, lo: nat, hi: nat :: DescribesBlock(pageSize, a, info, b, p, lo, hi)
  }

  ghost function End(blocks: seq<Info>): nat {
    if blocks == [] then 0 else blocks[|blocks| - 1].base + blocks[|blocks| - 1].regionSize
  }

  /** The blocks follow each other from address 0 on without gap or overlap. */
  ghost predicate Tiles(blocks: seq<Info>) {
    && (forall i :: 0 <= i < |blocks| ==> blocks[i].regionSize > 0)
    && (blocks != [] ==> blocks[0].base == 0)
    && (forall i, j {:trigger blocks[i], blocks[j]} :: 0 <= i < |blocks| && j == i + 1 && j < |blocks| ==>
          blocks[j].base == blocks[i].base + blocks[i].regionSize)
  }

  ghost predicate Covers(info: Info, address: nat) {
    info.base <= address < info.base + info.regionSize
  }

  /** No block can start before `address` and go on beyond it. */
  ghost predicate AtBoundary(pageSize: nat, a: Allocations, address: nat)
    requires pageSize > 0
  {
    && address % pageSize == 0
    && forall b :: Contains(a, b, address) ==>
         var p := Count(address - b, pageSize);
         p == 0 || (p < |a[b].pages| && a[b].pages[p - 1] != a[b].pages[p])
  }

  lemma BlockStartsAtBoundary(pageSize: nat, a: Allocations, info: Info, address: nat, b: nat, p: nat, lo: nat, hi: nat)
    requires pageSize > 0 && AtBoundary(pageSize, a, address) && Contains(a, b, address)
    requires DescribesBlock(pageSize, a, info, b, p, lo, hi) && address == b + Bytes(p, pageSize)
    ensures info.base == address
  {
    CountOfProduct(p, pageSize);
    assert p == Count(address - b, pageSize);
  }

  /** Another allocation that holds the end of a block of `b` starts there or is `b` itself. */
  lemma BoundaryAfterBlock(pageSize: nat, m: Mappings, a: Allocations, info: Info, b: nat, p: nat, lo: nat, hi: nat)
    requires Consistent(pageSize, m, a) && DescribesBlock(pageSize, a, info, b, p, lo, hi)
    ensures AtBoundary(pageSize, a, info.base + info.regionSize)
  {
    var end := info.base + info.regionSize;
    BlockBounds(pageSize, lo, p, hi, |a[b].pages|);
    assert end == b + Bytes(hi, pageSize);
    MultipleOfMultiple(b, GRANULARITY, pageSize);
    CountOfProduct(hi, pageSize);
    AddMultiples(b, Bytes(hi, pageSize), pageSize);
    forall c | Contains(a, c, end)
      ensures
        var q := Count(end - c, pageSize);
        q == 0 || (q < |a[c].pages| && a[c].pages[q - 1] != a[c].pages[q])
    {
      if c == b {
        CountStrict(hi, |a[b].pages|, pageSize);
        assert a[b].pages[hi - 1] == a[b].pages[p];
      } else {
        assert Disjoint(b, m[b].size, c, m[c].size);
        assert c == end;
        CountOfProduct(0, pageSize);
      }
    }
  }

  lemma BoundaryAfterFree(pageSize: nat, m: Mappings, a: Allocations, info: Info)
    requires Consistent(pageSize, m, a) && DescribesFree(a, info) && info.base + info.regionSize <= TWO_GB
    ensures AtBoundary(pageSize, a, info.base + info.regionSize)
  {
    var end := info.base + info.regionSize;
    assert TWO_GB % GRANULARITY == 0;
    MultipleOfMultiple(end, GRANULARITY, pageSize);
    forall c | Contains(a, c, end) ensures Count(end - c, pageSize) == 0 {
      assert WellPlaced(pageSize, c, a[c]);
      assert c == end;
      CountOfProduct(0, pageSize);
    }
  }

  lemma FirstBoundary(pageSize: nat, a: Allocations)
    requires pageSize > 0
    ensures AtBoundary(pageSize, a, 0)
  {
    CountOfProduct(0, pageSize);
  }

  lemma BlockReports(pageSize: nat, a: Allocations, info: Info, address: nat, b: nat, p: nat, lo: nat, hi: nat)
    requires ValidPageSize(pageSize) && DescribesBlock(pageSize, a, info, b, p, lo, hi) && Covers(info, address)
    requires WellPlaced(pageSize, b, a[b])
    ensures Reports(pageSize, a, info, address)
  {
    BlockBounds(pageSize, lo, p, hi, |a[b].pages|);
    CountWithin(address - b, lo, hi, pageSize);
    assert a[b].pages[Count(address - b, pageSize)] == a[b].pages[p];
  }

  /** Every address a block covers is as the block says. */
  lemma DescribedIsReported(pageSize: nat, m: Mappings, a: Allocations, info: Info, address: nat)
    requires Consistent(pageSize, m, a) && Describes(pageSize, a, info) && Covers(info, address)
    ensures Reports(pageSize, a, info, address)
  {
    if info.state != MemFree {
      var b: nat, p: nat, lo: nat, hi: nat :| DescribesBlock(pageSize, a, info, b, p, lo, hi);
      BlockReports(pageSize, a, info, address, b, p, lo, hi);
    } else {
      forall b | b in a ensures !Contains(a, b, address) {
        assert Disjoint(info.base, info.regionSize, b, a[b].size);
      }
    }
  }

  /** Tiles leave no address out. */
  lemma {:induction false} TilesCover(blocks: seq<Info>, n: nat, address: nat) returns (i: nat)
    requires Tiles(blocks) && n < |blocks| && address < blocks[n].base + blocks[n].regionSize
    ensures i <= n && Covers(blocks[i], address)
    decreases n
  {
    if address >= blocks[n].base {
      i := n;
    } else {
      assert blocks[n].base == blocks[n - 1].base + blocks[n - 1].regionSize;
      i := TilesCover(blocks, n - 1, address);
    }
  }

  lemma {:induction false} TilesAscend(blocks: seq<Info>, i: nat, j: nat)
    requires Tiles(blocks) && i < j < |blocks|
    ensures blocks[i].base + blocks[i].regionSize <= blocks[j].base
    decreases j
  {
    assert blocks[j].base == blocks[j - 1].base + blocks[j - 1].regionSize;
    if i < j - 1 {
      TilesAscend(blocks, i, j - 1);
    }
  }

  lemma TilesGrow(blocks: seq<Info>, info: Info)
    requires Tiles(blocks) && info.base == End(blocks) && info.regionSize > 0
    ensures Tiles(blocks + [info]) && End(blocks + [info]) == info.base + info.regionSize
  {
  }

  /** Exactly one block covers the address, and what it says of it is what the tables say. */
  ghost predicate Accounted(pageSize: nat, a: Allocations, blocks: seq<Info>, address: nat)
    requires pageSize > 0
  {
    && (exists i :: 0 <= i < |blocks| && Covers(blocks[i], address) && Reports(pageSize, a, blocks[i], address))
    && (forall i, j :: 0 <= i < j < |blocks| && Covers(blocks[i], address) ==> !Covers(blocks[j], address))
  }

  lemma TilesAccount(pageSize: nat, m: Mappings, a: Allocations, blocks: seq<Info>, address: nat)
    requires Consistent(pageSize, m, a) && Tiles(blocks) && address < End(blocks)
    requires AllDescribed(pageSize, a, blocks)
    ensures Accounted(pageSize, a, blocks, address)
  {
    var i := TilesCover(blocks, |blocks| - 1, address);
    DescribedIsReported(pageSize, m, a, blocks[i], address);
    forall i, j | 0 <= i < j < |blocks| && Covers(blocks[i], address) ensures !Covers(blocks[j], address) {
      TilesAscend(blocks, i, j);
    }
  }

  /**
   Queries the whole address space, each time at the end of the previous block. The walk ends
   exactly at 2 GB, its blocks tile the space, each is maximal, and together they say of every
   address what the allocation tables say.
   */
  method WalkAddressSpace(vm: Manager) returns (blocks: seq<Info>)
    requires vm.Valid()
    ensures Tiles(blocks) && End(blocks) == 0x8000_0000
    ensures AllDescribed(vm.pageSize, vm.allocations, blocks)
    ensures forall address: nat :: address < 0x8000_0000 ==> Accounted(vm.pageSize, vm.allocations, blocks, address)
  {
    blocks := WalkBlocks(vm);
    forall address: nat | address < TWO_GB ensures Accounted(vm.pageSize, vm.allocations, blocks, address) {
      TilesAccount(vm.pageSize, vm.mappings, vm.allocations, blocks, address);
    }
  }

  /** The blocks seen so far tile the space up to `address`, where the next block starts. */
  ghost predicate Walked(pageSize: nat, a: Allocations, blocks: seq<Info>, address: nat)
    requires pageSize > 0
  {
    && Tiles(blocks) && address == End(blocks) && address <= TWO_GB
    && AtBoundary(pageSize, a, address)
    && AllDescribed(pageSize, a, blocks)
  }

  ghost predicate AllDescribed(pageSize: nat, a: Allocations, blocks: seq<Info>) {
    forall i :: 0 <= i < |blocks| ==> Describes(pageSize, a, blocks[i])
  }

  lemma WalkedOn(pageSize: nat, a: Allocations, blocks: seq<Info>, info: Info)
    requires pageSize > 0 && Walked(pageSize, a, blocks, info.base)
    requires Describes(pageSize, a, info) && info.regionSize > 0 && info.base + info.regionSize <= TWO_GB
    requires AtBoundary(pageSize, a, info.base + info.regionSize)
    ensures Walked(pageSize, a, blocks + [info], info.base + info.regionSize)
  {
    TilesGrow(blocks, info);
  }

  method WalkBlocks(vm: Manager) returns (blocks: seq<Info>)
    requires vm.Valid()
    ensures Walked(vm.pageSize, vm.allocations, blocks, TWO_GB)
  {
    blocks := [];
    var address: nat := 0;
    FirstBoundary(vm.pageSize, vm.allocations);
    while address < TWO_GB
      invariant Walked(vm.pageSize, vm.allocations, blocks, address)
      decreases TWO_GB - address
    {
      var info := QueryAtBoundary(vm, address);
      WalkedOn(vm.pageSize, vm.allocations, blocks, info);
      blocks := blocks + [info];
      address := info.base + info.regionSize;
    }
  }

  /** A query at a block boundary returns the block that starts there. */
  method QueryAtBoundary(vm: Manager, address: nat) returns (info: Info)
    requires vm.Valid() && address < TWO_GB && AtBoundary(vm.pageSize, vm.allocations, address)
    ensures info.base == address < info.base + info.regionSize <= TWO_GB
    ensures Describes(vm.pageSize, vm.allocations, info)
    ensures AtBoundary(vm.pageSize, vm.allocations, info.base + info.regionSize)
  {
    AlignDownGreatest(address, vm.pageSize, address);
    AlignDownBounds(address, vm.pageSize);
    var status;
    ghost var b, p, lo, hi;
    status, info, b, p, lo, hi := vm.Query(address);
    if info.state == MemFree {
      BoundaryAfterFree(vm.pageSize, vm.mappings, vm.allocations, info);
    } else {
      BlockHolds(vm.pageSize, vm.allocations, info, address, b, p, lo, hi);
      BlockStartsAtBoundary(vm.pageSize, vm.allocations, info, address, b, p, lo, hi);
      BoundaryAfterBlock(vm.pageSize, vm.mappings, vm.allocations, info, b, p, lo, hi);
    }
  }

  lemma BlockHolds(pageSize: nat, a: Allocations, info: Info, address: nat, b: nat, p: nat, lo: nat, hi: nat)
    requires pageSize > 0 && DescribesBlock(pageSize, a, info, b, p, lo, hi) && WellPlaced(pageSize, b, a[b])
    requires address == b + Bytes(p, pageSize)
    ensures Contains(a, b, address)
  {
    BlockBounds(pageSize, lo, p, hi, |a[b].pages|);
  }

  method AllNonZero(pages: seq<nat>, first: nat, count: nat) returns (all: bool)
    requires first + count <= |pages|
    ensures all <==> forall i :: first <= i < first + count ==> pages[i] != 0
  {
    for i := 0 to count
      invariant forall k :: first <= k < first + i ==> pages[k] != 0
    {
      if pages[first + i] == 0 {
        return false;
      }
    }
    return true;
  }

  /** A fresh allocation: all its pages reserved, or all committed with one protection. */
  function NewRegion(pageSize: nat, length: nat, protect: nat, kind: nat, commit: bool): (r: Region)
    requires pageSize > 0
    ensures r.size == length && |r.pages| == Count(length, pageSize)
    ensures r.allocationProtect == protect && r.kind == kind
    ensures forall i :: 0 <= i < |r.pages| ==> r.pages[i] == if commit then protect else 0
  {
    Region(length, protect, kind, seq(Count(length, pageSize), _ => if commit then protect else 0))
  }

  /** If the allocation that holds `start` does not hold the range, none does. */
  lemma OnlyTheHolder(a: Allocations, found: Option<nat>, start: nat, length: nat)
    requires length > 0 && forall b: nat :: found == Some(b) <==> Contains(a, b, start)
    requires found.Some? ==> found.value in a && !RangeWithinRegion(found.value, a[found.value], start, length)
    ensures forall b :: b in a ==> !RangeWithinRegion(b, a[b], start, length)
  {
    forall b | b in a && RangeWithinRegion(b, a[b], start, length) ensures false {
      assert Contains(a, b, start);
    }
  }

  lemma AlignedTwice(size: nat, pageSize: nat)
    requires pageSize > 0
    ensures AlignUp(AlignUp(size, pageSize), pageSize) == AlignUp(size, pageSize)
  {
    AlignUpBounds(size, pageSize);
    AlignUpBounds(AlignUp(size, pageSize), pageSize);
    AlignUpLeast(AlignUp(size, pageSize), pageSize, AlignUp(size, pageSize));
  }
}
