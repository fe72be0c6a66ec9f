/**
 The protection entries of one allocation: 0 for a page that is only reserved, the protection
 of a committed one otherwise.
 */
module PageTable {

  datatype Run = Run(first: nat, length: nat)

  predicate InRun(r: Run, p: int) {
    r.first <= p < r.first + r.length
  }

  /** `pages` with `length` entries from `first` on replaced. */
  function Fill(pages: seq<nat>, first: nat, length: nat, value: nat): (r: seq<nat>)
    ensures |r| == |pages|
  {
    seq(|pages|, i requires 0 <= i < |pages| => if first <= i < first + length then value else pages[i])
  }

  /** The reserved pages among the `count` pages from `first` on get `protect`; nothing else changes. */
  function Commit(pages: seq<nat>, first: nat, count: nat, protect: nat): (r: seq<nat>)
    ensures |r| == |pages|
  {
    seq(|pages|, i requires 0 <= i < |pages| =>
          if first <= i < first + count && pages[i] == 0 then protect else pages[i])
  }

  /** Writes one value into consecutive entries. */
  method MarkPages(pages: seq<nat>, first: nat, count: nat, value: nat) returns (r: seq<nat>)
    requires first + count <= |pages|
    ensures r == Fill(pages, first, count, value)
  {
    r := pages;
    for i := 0 to count
      invariant r == Fill(pages, first, i, value)
    {
      r := r[first + i := value];
    }
  }

  // ----- the runs of reserved pages in a range

  /** A run of reserved pages of the range that cannot be made longer within it. */
  ghost predicate MaximalRun(pages: seq<nat>, first: nat, count: nat, r: Run)
    requires first + count <= |pages|
  {
    && r.length > 0 && first <= r.first && r.first + r.length <= first + count
    && (forall p :: InRun(r, p) ==> pages[p] == 0)
    && (r.first == first || pages[r.first - 1] != 0)
    && (r.first + r.length == first + count || pages[r.first + r.length] != 0)
  }

  /** Reserved pages of the range up to `limit` are exactly the pages of the runs. */
  ghost predicate Cover(pages: seq<nat>, first: nat, limit: nat, runs: seq<Run>)
    requires limit <= |pages|
  {
    forall p :: first <= p < limit && pages[p] == 0 ==> exists k :: 0 <= k < |runs| && InRun(runs[k], p)
  }

  ghost predicate Separated(runs: seq<Run>) {
    forall j, k :: 0 <= j < k < |runs| ==> runs[j].first + runs[j].length < runs[k].first
  }

  /** The runs are disjoint, maximal, in order, and partition the reserved pages of the range. */
  ghost predicate PartitionsReserved(pages: seq<nat>, first: nat, count: nat, runs: seq<Run>) {
    && first + count <= |pages|
    && (forall k :: 0 <= k < |runs| ==> MaximalRun(pages, first, count, runs[k]))
    && Separated(runs)
    && Cover(pages, first, first + count, runs)
  }

  method ReservedRun(pages: seq<nat>, start: nat, limit: nat) returns (end: nat)
    requires start < limit <= |pages| && pages[start] == 0
    ensures start < end <= limit && (forall p :: start <= p < end ==> pages[p] == 0)
    ensures end == limit || pages[end] != 0
  {
    end := start + 1;
    while end < limit && pages[end] == 0
      invariant start < end <= limit && forall p :: start <= p < end ==> pages[p] == 0
    {
      end := end + 1;
    }
  }

  /** The runs found before page `i`. */
  ghost predicate RunsBefore(pages: seq<nat>, first: nat, count: nat, i: nat, runs: seq<Run>) {
    && first <= i <= first + count <= |pages|
    && (forall k :: 0 <= k < |runs| ==>
          MaximalRun(pages, first, count, runs[k]) && runs[k].first + runs[k].length <= i)
    && Separated(runs)
    && Cover(pages, first, i, runs)
  }

  /** A run that has been found does not touch a reserved page that comes later. */
  lemma RunsEndBefore(pages: seq<nat>, first: nat, count: nat, i: nat, runs: seq<Run>)
    requires RunsBefore(pages, first, count, i, runs) && i < first + count && pages[i] == 0
    ensures forall k :: 0 <= k < |runs| ==> runs[k].first + runs[k].length < i
    ensures i == first || pages[i - 1] != 0
  {
    forall k | 0 <= k < |runs| ensures runs[k].first + runs[k].length < i {
      assert MaximalRun(pages, first, count, runs[k]);
    }
  }

  lemma RunFound(pages: seq<nat>, first: nat, count: nat, i: nat, end: nat, runs: seq<Run>)
    requires RunsBefore(pages, first, count, i, runs)
    requires i < end <= first + count && (forall p :: i <= p < end ==> pages[p] == 0)
    requires end == first + count || pages[end] != 0
    ensures RunsBefore(pages, first, count, end, runs + [Run(i, end - i)])
  {
    RunsEndBefore(pages, first, count, i, runs);
    CoverGrows(pages, first, i, end, runs, Run(i, end - i));
    assert MaximalRun(pages, first, count, Run(i, end - i));
  }

  /** Collects the runs of reserved pages, in order. */
  method CollectRuns(pages: seq<nat>, first: nat, count: nat) returns (runs: seq<Run>)
    requires first + count <= |pages|
    ensures PartitionsReserved(pages, first, count, runs)
  {
    runs := [];
    var i := first;
    while i < first + count
      invariant RunsBefore(pages, first, count, i, runs)
    {
      if pages[i] != 0 {
        i := i + 1;
        continue;
      }
      var end := ReservedRun(pages, i, first + count);
      RunFound(pages, first, count, i, end, runs);
      runs := runs + [Run(i, end - i)];
      i := end;
    }
  }

  lemma CoverGrows(pages: seq<nat>, first: nat, i: nat, end: nat, runs: seq<Run>, run: Run)
    requires first <= i <= end <= |pages| && Cover(pages, first, i, runs) && run == Run(i, end - i)
    ensures Cover(pages, first, end, runs + [run])
  {
    forall p | first <= p < end && pages[p] == 0
      ensures exists k :: 0 <= k < |runs + [run]| && InRun((runs + [run])[k], p)
    {
      if p < i {
        var k :| 0 <= k < |runs| && InRun(runs[k], p);
        assert (runs + [run])[k] == runs[k];
      } else {
        assert InRun((runs + [run])[|runs|], p);
      }
    }
  }

  /** Where the first `k` runs leave off: at the next run, or at the end of the range. */
  function Boundary(first: nat, count: nat, runs: seq<Run>, k: nat): int
    requires k <= |runs|
  {
    if k < |runs| then runs[k].first else first + count
  }

  /** Every maximal run of reserved pages is one of those that partition them. */
  lemma RunIsListed(pages: seq<nat>, first: nat, count: nat, runs: seq<Run>, run: Run) returns (j: nat)
    requires PartitionsReserved(pages, first, count, runs) && MaximalRun(pages, first, count, run)
    ensures j < |runs| && runs[j] == run
  {
    assert InRun(run, run.first);
    var i :| 0 <= i < |runs| && InRun(runs[i], run.first);
    j := i;
    var other := runs[j];
    assert MaximalRun(pages, first, count, other);
    assert other.first < run.first ==> InRun(other, run.first - 1);
    assert other.first + other.length < run.first + run.length ==> InRun(run, other.first + other.length);
    assert run.first + run.length < other.first + other.length ==> InRun(other, run.first + run.length);
  }

  /** No reserved page lies before the first run, nor between a run and the next. */
  lemma BetweenRunsCommitted(pages: seq<nat>, first: nat, count: nat, runs: seq<Run>, k: nat, p: nat)
    requires PartitionsReserved(pages, first, count, runs) && k <= |runs|
    requires first <= p < Boundary(first, count, runs, k)
    requires k > 0 ==> runs[k - 1].first + runs[k - 1].length <= p
    ensures pages[p] != 0
  {
    assert k < |runs| ==> MaximalRun(pages, first, count, runs[k]);
    if pages[p] == 0 {
      var j :| 0 <= j < |runs| && InRun(runs[j], p);
    }
  }

  /** Before any run nothing has been committed. */
  lemma NoRunYet(pages: seq<nat>, first: nat, count: nat, runs: seq<Run>, protect: nat)
    requires PartitionsReserved(pages, first, count, runs)
    ensures first <= Boundary(first, count, runs, 0) <= first + count
    ensures Commit(pages, first, Boundary(first, count, runs, 0) - first, protect) == pages
  {
    if runs != [] {
      BoundariesAscend(pages, first, count, runs, 0);
    }
    forall p: nat | first <= p < Boundary(first, count, runs, 0) ensures pages[p] != 0 {
      BetweenRunsCommitted(pages, first, count, runs, 0, p);
    }
  }

  /** Filling run `k` commits up to the next boundary. */
  lemma RunsCommit(pages: seq<nat>, first: nat, count: nat, runs: seq<Run>, k: nat, protect: nat)
    requires PartitionsReserved(pages, first, count, runs) && k < |runs|
    ensures first <= Boundary(first, count, runs, k) <= Boundary(first, count, runs, k + 1) <= first + count
    ensures Fill(Commit(pages, first, Boundary(first, count, runs, k) - first, protect),
                 runs[k].first, runs[k].length, protect) ==
            Commit(pages, first, Boundary(first, count, runs, k + 1) - first, protect)
  {
    BoundariesAscend(pages, first, count, runs, k);
    var limit := Boundary(first, count, runs, k + 1);
    forall p: nat | runs[k].first + runs[k].length <= p < limit ensures pages[p] != 0 {
      BetweenRunsCommitted(pages, first, count, runs, k + 1, p);
    }
    assert MaximalRun(pages, first, count, runs[k]);
    FillIsCommit(pages, first, runs[k], limit - first, protect);
  }

  lemma FillIsCommit(pages: seq<nat>, first: nat, r: Run, n: nat, protect: nat)
    requires first <= r.first && r.first + r.length <= first + n <= |pages|
    requires forall p :: InRun(r, p) ==> pages[p] == 0
    requires forall p :: r.first + r.length <= p < first + n ==> pages[p] != 0
    ensures Fill(Commit(pages, first, r.first - first, protect), r.first, r.length, protect) ==
            Commit(pages, first, n, protect)
  {
    var a := Fill(Commit(pages, first, r.first - first, protect), r.first, r.length, protect);
    var b := Commit(pages, first, n, protect);
    forall p | 0 <= p < |pages| ensures a[p] == b[p] {
      assert InRun(r, p) <==> r.first <= p < r.first + r.length;
    }
  }

  lemma BoundariesAscend(pages: seq<nat>, first: nat, count: nat, runs: seq<Run>, k: nat)
    requires PartitionsReserved(pages, first, count, runs) && k < |runs|
    ensures first <= runs[k].first && runs[k].first + runs[k].length <= Boundary(first, count, runs, k + 1) <= first + count
    ensures first <= Boundary(first, count, runs, k) <= first + count
  {
    assert MaximalRun(pages, first, count, runs[k]);
    assert k + 1 < |runs| ==> MaximalRun(pages, first, count, runs[k + 1]);
  }

  // ----- the block a page belongs to

  /** `[lo, hi)` is the maximal run of entries equal to that of page `p`. */
  ghost predicate MaximalBlock(pages: seq<nat>, p: nat, lo: nat, hi: nat) {
    && lo <= p < hi <= |pages|
    && (forall i :: lo <= i < hi ==> pages[i] == pages[p])
    && (lo == 0 || pages[lo - 1] != pages[p])
    && (hi == |pages| || pages[hi] != pages[p])
  }

  predicate SameBlock(entry: nat, reference: nat) {
    // same state, and the same protection if committed
    (entry != 0) == (reference != 0) && (reference != 0 ==> entry == reference)
  }

  /** Extends the block of page `p` downwards and upwards. */
  method BlockOf(pages: seq<nat>, p: nat) returns (lo: nat, hi: nat)
    requires p < |pages|
    ensures MaximalBlock(pages, p, lo, hi)
  {
    lo, hi := p, p + 1;
    while lo > 0 && SameBlock(pages[lo - 1], pages[p])
      invariant lo <= p && forall i :: lo <= i <= p ==> pages[i] == pages[p]
    {
      lo := lo - 1;
    }
    while hi < |pages| && SameBlock(pages[hi], pages[p])
      invariant p < hi <= |pages| && forall i :: p <= i < hi ==> pages[i] == pages[p]
    {
      hi := hi + 1;
    }
  }

  // ----- the summary kept with the mapping

  ghost predicate AllCommitted(pages: seq<nat>) {
    pages != [] && forall i :: 0 <= i < |pages| ==> pages[i] != 0
  }

  ghost predicate Uniform(pages: seq<nat>) {
    forall i, j :: 0 <= i < |pages| && 0 <= j < |pages| ==> pages[i] == pages[j]
  }

  /** One pass over the entries: is everything committed, and with one protection? */
  method Survey(pages: seq<nat>) returns (committed: bool, uniform: bool, protect: nat)
    ensures committed <==> AllCommitted(pages)
    ensures committed ==> (uniform <==> Uniform(pages)) && protect == pages[0]
  {
    var all, any := true, false;
    protect, uniform := 0, true;
    for i := 0 to |pages|
      invariant all <==> forall j :: 0 <= j < i ==> pages[j] != 0
      invariant any <==> exists j :: 0 <= j < i && pages[j] != 0
      invariant any <==> protect != 0
      invariant all && i > 0 ==> protect == pages[0]
      invariant all ==> (uniform <==> forall j :: 0 <= j < i ==> pages[j] == pages[0])
    {
      if pages[i] == 0 {
        all := false;
      } else {
        any := true;
        if protect == 0 {
          protect := pages[i];
        } else if protect != pages[i] {
          uniform := false;
        }
      }
    }
    committed := all && any;
    assert committed ==> pages[0] != 0;
  }
}
