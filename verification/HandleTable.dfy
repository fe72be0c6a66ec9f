/**
 The handle table: which index a new handle gets, and how long a closed one is kept back.
 */
module HandleTable {
  import opened Wrappers

  /** Largest index whose handle value is below 0x8000. */
  const COMPAT_MAX_INDEX: nat := 0x7FFF / 4 - 1
  const QUARANTINE_LENGTH: nat := 64
  const HANDLE_FLAG_INHERIT: bv32 := 1
  const HANDLE_FLAG_PROTECT_FROM_CLOSE: bv32 := 2
  const DUPLICATE_CLOSE_SOURCE: bv32 := 1
  const DUPLICATE_SAME_ACCESS: bv32 := 2

  type ObjectId = nat

  /** A table entry; an empty one has no object. */
  datatype Entry = Entry(obj: Option<ObjectId>, grantedAccess: bv32, flags: bv32, generation: nat)

  function MakeHandle(index: nat): nat {
    (index + 1) * 4
  }

  /** The index a handle value names; misaligned values and 0 name none. */
  function IndexOf(h: nat): Option<nat> {
    if h == 0 || h % 4 != 0 then None else Some(h / 4 - 1)
  }

  predicate IsPseudo(h: nat) {
    h >= 0x8000_0000
  }

  predicate Protected(flags: bv32) {
    flags & HANDLE_FLAG_PROTECT_FROM_CLOSE != 0
  }

  /** Handle values name indices one to one, and the compatible ones are those below 0x8000. */
  lemma HandlesNameIndices(i: nat, j: nat)
    ensures IndexOf(MakeHandle(i)) == Some(i)
    ensures MakeHandle(i) == MakeHandle(j) <==> i == j
    ensures MakeHandle(i) < 0x8000 <==> i <= COMPAT_MAX_INDEX
  {
  }

  // ----- counting indices

  ghost predicate Index(i: nat) {
    true
  }

  ghost function Below(n: nat): set<nat> {
    set i: nat {:trigger Index(i)} | i < n && Index(i)
  }

  lemma {:induction false} BelowSize(n: nat)
    ensures |Below(n)| == n
  {
    if n != 0 {
      BelowSize(n - 1);
      assert Below(n) == Below(n - 1) + {n - 1};
    }
  }

  ghost function Members(s: seq<nat>): set<nat> {
    set x | x in s
  }

  lemma {:induction false} MembersSize(s: seq<nat>)
    ensures |Members(s)| <= |s|
  {
    if s != [] {
      MembersSize(s[1..]);
      assert Members(s) == Members(s[1..]) + {s[0]};
    }
  }

  /** Compatible indices whose entry is in use. */
  ghost function LiveCompat(slots: seq<Entry>): set<nat> {
    set i: nat | i < |slots| && i <= COMPAT_MAX_INDEX && slots[i].obj.Some?
  }

  ghost predicate IsFree(slots: seq<Entry>, i: nat) {
    i < |slots| && slots[i].obj.None?
  }

  /** How often an index is listed for reuse. */
  ghost function Listed(quarantine: seq<nat>, below: seq<nat>, above: seq<nat>, i: nat): nat {
    multiset(quarantine)[i] + multiset(below)[i] + multiset(above)[i]
  }

  /** A free index is listed exactly once, a live or unused one never. */
  ghost predicate Partition(slots: seq<Entry>, quarantine: seq<nat>, below: seq<nat>, above: seq<nat>) {
    forall i: nat :: Listed(quarantine, below, above, i) == (if IsFree(slots, i) then 1 else 0)
  }

  lemma ListedIsFree(slots: seq<Entry>, quarantine: seq<nat>, below: seq<nat>, above: seq<nat>, i: nat)
    requires Partition(slots, quarantine, below, above)
    ensures i in quarantine || i in below || i in above <==> IsFree(slots, i)
  {
    assert Listed(quarantine, below, above, i) == (if IsFree(slots, i) then 1 else 0);
    assert i in multiset(quarantine) <==> i in quarantine;
    assert i in multiset(below) <==> i in below;
    assert i in multiset(above) <==> i in above;
  }

  /** An entry appended in use is listed nowhere. */
  lemma AppendUsed(slots: seq<Entry>, quarantine: seq<nat>, below: seq<nat>, above: seq<nat>, e: Entry)
    requires Partition(slots, quarantine, below, above) && e.obj.Some?
    ensures Partition(slots + [e], quarantine, below, above)
  {
    forall i: nat ensures Listed(quarantine, below, above, i) == (if IsFree(slots + [e], i) then 1 else 0) {
      assert IsFree(slots + [e], i) == IsFree(slots, i);
    }
  }

  lemma TakeBelow(slots: seq<Entry>, quarantine: seq<nat>, below: seq<nat>, above: seq<nat>, e: Entry)
    requires below != [] && Partition(slots, quarantine, below, above) && e.obj.Some?
    ensures IsFree(slots, below[|below| - 1])
    ensures Partition(slots[below[|below| - 1] := e], quarantine, below[..|below| - 1], above)
  {
    var idx: nat, rest: seq<nat> := below[|below| - 1], below[..|below| - 1];
    ListedIsFree(slots, quarantine, below, above, idx);
    assert below == rest + [idx];
    forall i: nat ensures Listed(quarantine, rest, above, i) == (if IsFree(slots[idx := e], i) then 1 else 0) {
      assert Listed(quarantine, below, above, i) == (if IsFree(slots, i) then 1 else 0);
      assert multiset(below)[i] == multiset(rest)[i] + (if i == idx then 1 else 0);
    }
  }

  lemma TakeAbove(slots: seq<Entry>, quarantine: seq<nat>, below: seq<nat>, above: seq<nat>, e: Entry)
    requires above != [] && Partition(slots, quarantine, below, above) && e.obj.Some?
    ensures IsFree(slots, above[|above| - 1])
    ensures Partition(slots[above[|above| - 1] := e], quarantine, below, above[..|above| - 1])
  {
    var idx: nat, rest: seq<nat> := above[|above| - 1], above[..|above| - 1];
    ListedIsFree(slots, quarantine, below, above, idx);
    assert above == rest + [idx];
    forall i: nat ensures Listed(quarantine, below, rest, i) == (if IsFree(slots[idx := e], i) then 1 else 0) {
      assert Listed(quarantine, below, above, i) == (if IsFree(slots, i) then 1 else 0);
      assert multiset(above)[i] == multiset(rest)[i] + (if i == idx then 1 else 0);
    }
  }

  /** Clearing an entry and listing its index in either place keeps the partition. */
  lemma ClearEntry(slots: seq<Entry>, quarantine: seq<nat>, below: seq<nat>, above: seq<nat>, idx: nat, e: Entry)
    requires Partition(slots, quarantine, below, above)
    requires idx < |slots| && slots[idx].obj.Some? && e.obj.None?
    ensures Partition(slots[idx := e], quarantine + [idx], below, above)
    ensures Partition(slots[idx := e], quarantine, below, above + [idx])
  {
    forall i: nat
      ensures Listed(quarantine + [idx], below, above, i) == (if IsFree(slots[idx := e], i) then 1 else 0)
      ensures Listed(quarantine, below, above + [idx], i) == (if IsFree(slots[idx := e], i) then 1 else 0)
    {
      assert Listed(quarantine, below, above, i) == (if IsFree(slots, i) then 1 else 0);
      assert multiset(quarantine + [idx])[i] == multiset(quarantine)[i] + (if i == idx then 1 else 0);
      assert multiset(above + [idx])[i] == multiset(above)[i] + (if i == idx then 1 else 0);
    }
  }

  /** Moving the oldest quarantined index to the reuse list keeps the partition. */
  lemma LeaveQuarantine(slots: seq<Entry>, quarantine: seq<nat>, below: seq<nat>, above: seq<nat>)
    requires quarantine != [] && Partition(slots, quarantine, below, above)
    ensures Partition(slots, quarantine[1..], below + [quarantine[0]], above)
  {
    var idx: nat, rest: seq<nat> := quarantine[0], quarantine[1..];
    assert quarantine == [idx] + rest;
    forall i: nat ensures Listed(rest, below + [idx], above, i) == (if IsFree(slots, i) then 1 else 0) {
      assert Listed(quarantine, below, above, i) == (if IsFree(slots, i) then 1 else 0);
      assert multiset(quarantine)[i] == multiset(rest)[i] + (if i == idx then 1 else 0);
      assert multiset(below + [idx])[i] == multiset(below)[i] + (if i == idx then 1 else 0);
    }
  }

  /** With the fresh indices used up and none waiting for reuse, all but the quarantined ones are live. */
  lemma CompatRangeIsFull(slots: seq<Entry>, quarantine: seq<nat>, above: seq<nat>)
    requires |slots| > COMPAT_MAX_INDEX && |quarantine| <= QUARANTINE_LENGTH
    requires Partition(slots, quarantine, [], above)
    requires forall k :: 0 <= k < |above| ==> above[k] > COMPAT_MAX_INDEX
    ensures |LiveCompat(slots)| >= COMPAT_MAX_INDEX + 1 - QUARANTINE_LENGTH
  {
    forall i: nat | i <= COMPAT_MAX_INDEX && slots[i].obj.None? ensures i in Members(quarantine) {
      ListedIsFree(slots, quarantine, [], above, i);
    }
    assert Below(COMPAT_MAX_INDEX + 1) <= LiveCompat(slots) + Members(quarantine);
    BelowSize(COMPAT_MAX_INDEX + 1);
    MembersSize(quarantine);
    SubsetSize(Below(COMPAT_MAX_INDEX + 1), LiveCompat(slots) + Members(quarantine));
  }

  lemma {:induction false} SubsetSize(a: set<nat>, b: set<nat>)
    requires a <= b
    ensures |a| <= |b|
  {
    assert b == a + (b - a);
  }

  /**
   When each index was last closed, counting closings of compatible handles: the quarantine
   holds the latest closings in order, and whatever may be reused has waited its turn.
   */
  ghost predicate Dated(quarantine: seq<nat>, below: seq<nat>, releases: nat, releasedAt: map<nat, nat>) {
    && (forall k :: 0 <= k < |quarantine| ==>
          && quarantine[k] in releasedAt
          && releasedAt[quarantine[k]] + |quarantine| == releases + k + 1)
    && (forall k :: 0 <= k < |below| ==>
          below[k] in releasedAt && releasedAt[below[k]] + QUARANTINE_LENGTH <= releases)
  }

  lemma DatedAfterClose(quarantine: seq<nat>, below: seq<nat>, releases: nat, releasedAt: map<nat, nat>, idx: nat)
    requires Dated(quarantine, below, releases, releasedAt)
    requires idx !in quarantine && idx !in below
    ensures Dated(quarantine + [idx], below, releases + 1, releasedAt[idx := releases + 1])
  {
  }

  lemma DatedAfterLeaving(quarantine: seq<nat>, below: seq<nat>, releases: nat, releasedAt: map<nat, nat>)
    requires Dated(quarantine, below, releases, releasedAt) && |quarantine| > QUARANTINE_LENGTH
    ensures Dated(quarantine[1..], below + [quarantine[0]], releases, releasedAt)
  {
  }

  /** The fields of the table as one value. */
  datatype Table = Table(
    slots: seq<Entry>, freeBelow: seq<nat>, freeAbove: seq<nat>, quarantine: seq<nat>, nextIndex: nat,
    releases: nat, releasedAt: map<nat, nat>)

  ghost predicate Sound(t: Table) {
    && t.nextIndex <= COMPAT_MAX_INDEX + 1
    && (t.nextIndex <= COMPAT_MAX_INDEX ==> |t.slots| == t.nextIndex)
    && (t.nextIndex == COMPAT_MAX_INDEX + 1 ==> |t.slots| >= t.nextIndex)
    && |t.quarantine| <= QUARANTINE_LENGTH
    && Partition(t.slots, t.quarantine, t.freeBelow, t.freeAbove)
    && (forall k :: 0 <= k < |t.quarantine| ==> t.quarantine[k] <= COMPAT_MAX_INDEX)
    && (forall k :: 0 <= k < |t.freeBelow| ==> t.freeBelow[k] <= COMPAT_MAX_INDEX)
    && (forall k :: 0 <= k < |t.freeAbove| ==> t.freeAbove[k] > COMPAT_MAX_INDEX)
    && Dated(t.quarantine, t.freeBelow, t.releases, t.releasedAt)
    && (forall i :: i in t.releasedAt ==> i < |t.slots|)
  }

  /** The index `idx` may be given to a new handle. */
  ghost predicate Assignable(t: Table, idx: nat) {
    && (idx == |t.slots| || IsFree(t.slots, idx))
    && (|LiveCompat(t.slots)| < COMPAT_MAX_INDEX + 1 - QUARANTINE_LENGTH ==> idx <= COMPAT_MAX_INDEX)
    && (idx <= COMPAT_MAX_INDEX && idx in t.releasedAt ==> t.releasedAt[idx] + QUARANTINE_LENGTH <= t.releases)
  }

  lemma PlaceFresh(t: Table, e: Entry)
    requires Sound(t) && t.nextIndex <= COMPAT_MAX_INDEX && e.obj.Some?
    ensures Assignable(t, t.nextIndex)
    ensures Sound(t.(nextIndex := t.nextIndex + 1, slots := t.slots + [e]))
  {
    AppendUsed(t.slots, t.quarantine, t.freeBelow, t.freeAbove, e);
  }

  lemma BelowIsFree(t: Table)
    requires Sound(t) && t.freeBelow != []
    ensures IsFree(t.slots, t.freeBelow[|t.freeBelow| - 1])
  {
    ListedIsFree(t.slots, t.quarantine, t.freeBelow, t.freeAbove, t.freeBelow[|t.freeBelow| - 1]);
  }

  lemma AboveIsFree(t: Table)
    requires Sound(t) && t.freeAbove != []
    ensures IsFree(t.slots, t.freeAbove[|t.freeAbove| - 1])
  {
    ListedIsFree(t.slots, t.quarantine, t.freeBelow, t.freeAbove, t.freeAbove[|t.freeAbove| - 1]);
  }

  lemma PlaceBelow(t: Table, e: Entry)
    requires Sound(t) && t.freeBelow != [] && e.obj.Some?
    ensures
      var idx := t.freeBelow[|t.freeBelow| - 1];
      && Assignable(t, idx) && IsFree(t.slots, idx)
      && Sound(t.(freeBelow := t.freeBelow[..|t.freeBelow| - 1], slots := t.slots[idx := e]))
  {
    TakeBelow(t.slots, t.quarantine, t.freeBelow, t.freeAbove, e);
  }

  lemma PlaceAbove(t: Table, e: Entry)
    requires Sound(t) && t.nextIndex > COMPAT_MAX_INDEX && t.freeBelow == [] && t.freeAbove != [] && e.obj.Some?
    ensures
      var idx := t.freeAbove[|t.freeAbove| - 1];
      && Assignable(t, idx) && IsFree(t.slots, idx)
      && Sound(t.(freeAbove := t.freeAbove[..|t.freeAbove| - 1], slots := t.slots[idx := e]))
  {
    CompatRangeIsFull(t.slots, t.quarantine, t.freeAbove);
    TakeAbove(t.slots, t.quarantine, t.freeBelow, t.freeAbove, e);
  }

  lemma PlaceNew(t: Table, e: Entry)
    requires Sound(t) && t.nextIndex > COMPAT_MAX_INDEX && t.freeBelow == [] && e.obj.Some?
    ensures Assignable(t, |t.slots|)
    ensures Sound(t.(slots := t.slots + [e]))
  {
    CompatRangeIsFull(t.slots, t.quarantine, t.freeAbove);
    AppendUsed(t.slots, t.quarantine, t.freeBelow, t.freeAbove, e);
  }

  /** The table after closing a compatible handle, with the 65th quarantined index let go. */
  ghost function Closed(t: Table, idx: nat, e: Entry): Table
    requires idx < |t.slots|
  {
    var quarantine := t.quarantine + [idx];
    var t' := t.(slots := t.slots[idx := e], releases := t.releases + 1,
                 releasedAt := t.releasedAt[idx := t.releases + 1]);
    if |quarantine| > QUARANTINE_LENGTH
    then t'.(quarantine := quarantine[1..], freeBelow := t.freeBelow + [quarantine[0]])
    else t'.(quarantine := quarantine)
  }

  lemma CloseCompat(t: Table, idx: nat, e: Entry)
    requires Sound(t) && idx < |t.slots| && idx <= COMPAT_MAX_INDEX && t.slots[idx].obj.Some? && e.obj.None?
    ensures Sound(Closed(t, idx, e))
  {
    ListedIsFree(t.slots, t.quarantine, t.freeBelow, t.freeAbove, idx);
    ClearEntry(t.slots, t.quarantine, t.freeBelow, t.freeAbove, idx, e);
    DatedAfterClose(t.quarantine, t.freeBelow, t.releases, t.releasedAt, idx);
    var quarantine := t.quarantine + [idx];
    if |quarantine| > QUARANTINE_LENGTH {
      LeaveQuarantine(t.slots[idx := e], quarantine, t.freeBelow, t.freeAbove);
      DatedAfterLeaving(quarantine, t.freeBelow, t.releases + 1, t.releasedAt[idx := t.releases + 1]);
    }
  }

  lemma CloseAbove(t: Table, idx: nat, e: Entry)
    requires Sound(t) && COMPAT_MAX_INDEX < idx < |t.slots| && t.slots[idx].obj.Some? && e.obj.None?
    ensures Sound(t.(slots := t.slots[idx := e], freeAbove := t.freeAbove + [idx]))
  {
    ClearEntry(t.slots, t.quarantine, t.freeBelow, t.freeAbove, idx, e);
  }

  /** The object a handle value leads to. */
  function ObjectAt(slots: seq<Entry>, h: nat): Option<ObjectId> {
    if IsPseudo(h) || IndexOf(h).None? || IndexOf(h).value >= |slots| then None
    else slots[IndexOf(h).value].obj
  }

  /** `h` is the handle, and no pseudo handle, of a slot that holds `o`. */
  ghost predicate Names(slots: seq<Entry>, h: nat, o: ObjectId) {
    h < 0x8000_0000 && exists i: nat :: i < |slots| && h == 4 * (i + 1) && slots[i].obj == Some(o)
  }

  lemma LookupIsNaming(slots: seq<Entry>, h: nat)
    ensures forall o: ObjectId :: ObjectAt(slots, h) == Some(o) <==> Names(slots, h, o)
  {
    forall o: ObjectId ensures ObjectAt(slots, h) == Some(o) <==> Names(slots, h, o) {
      if ObjectAt(slots, h) == Some(o) {
        assert h == 4 * (IndexOf(h).value + 1) && IndexOf(h).value < |slots|;
      } else if Names(slots, h, o) {
        var i: nat :| i < |slots| && h == 4 * (i + 1) && slots[i].obj == Some(o);
        HandlesNameIndices(i, i);
      }
    }
  }

  /** The access a duplicate gets. */
  function DuplicateAccess(granted: bv32, desired: bv32, options: bv32): bv32 {
    if options & DUPLICATE_SAME_ACCESS != 0 then granted else desired & granted
  }

  function DuplicateFlags(inherit: bool): bv32 {
    if inherit then HANDLE_FLAG_INHERIT else 0
  }

  predicate Closing(options: bv32) {
    options & DUPLICATE_CLOSE_SOURCE != 0
  }

  /**
   What the option bits mean: a duplicate has all of the source's access or the part asked for,
   never more; it is inheritable or not, never protected; and the source goes or stays.
   */
  lemma DuplicateOptions(granted: bv32, desired: bv32, inherit: bool, options: bv32)
    ensures options & 1 != 0 <==> Closing(options)
    ensures options & 2 != 0 ==> DuplicateAccess(granted, desired, options) == granted
    ensures options & 2 == 0 ==> DuplicateAccess(granted, desired, options) == desired & granted
    ensures DuplicateFlags(inherit) == 1 <==> inherit
    ensures DuplicateFlags(inherit) == 0 <==> !inherit
    ensures !Protected(DuplicateFlags(inherit)) && (Protected(granted) <==> granted & 2 != 0)
  {
  }

  /** The slots after slot `i` has been emptied. */
  function ClosedSlot(slots: seq<Entry>, i: nat): seq<Entry>
    requires i < |slots|
  {
    slots[i := Entry(None, 0, 0, (slots[i].generation + 1) % 0x1_0000)]
  }

  /** Slot `idx` was free and now holds the object with the given access and flags. */
  ghost predicate Added(before: seq<Entry>, after: seq<Entry>, idx: nat, obj: Option<ObjectId>, access: bv32, flags: bv32) {
    && idx < |after| && (idx >= |before| || IsFree(before, idx))
    && after[idx].obj == obj && after[idx].grantedAccess == access && after[idx].flags == flags
    && |before| <= |after| && forall i :: 0 <= i < |before| && i != idx ==> after[i] == before[i]
  }

  /** A new handle is below 0x8000 while there is room, and was not closed within the last 64 compat releases. */
  ghost predicate WellChosen(t: Table, h: nat) {
    && (|LiveCompat(t.slots)| < 8127 ==> h < 0x8000)
    && (h < 0x8000 && IndexOf(h).Some? && IndexOf(h).value in t.releasedAt ==>
          t.releasedAt[IndexOf(h).value] + 64 <= t.releases)
  }

  /** The order of preference: a fresh compat index, the latest freed one below, the latest above, a new one. */
  ghost predicate InTurn(t: Table, idx: nat) {
    if t.nextIndex <= COMPAT_MAX_INDEX then idx == t.nextIndex
    else if t.freeBelow != [] then idx == t.freeBelow[|t.freeBelow| - 1]
    else if t.freeAbove != [] then idx == t.freeAbove[|t.freeAbove| - 1]
    else idx == |t.slots|
  }

  ghost predicate SameDates(t: Table, t': Table) {
    t'.releases == t.releases && t'.releasedAt == t.releasedAt
  }

  /** The closing of a compat index is counted and dated, any other is not. */
  ghost predicate DatedClose(t: Table, t': Table, idx: nat) {
    if idx <= COMPAT_MAX_INDEX
    then t'.releases == t.releases + 1 && t'.releasedAt == t.releasedAt[idx := t'.releases]
    else SameDates(t, t')
  }

  /** Closing another slot afterwards is as good as having closed it before. */
  lemma AddedThenClosed(before: seq<Entry>, after: seq<Entry>, idx: nat, obj: Option<ObjectId>, access: bv32, flags: bv32, i: nat)
    requires Added(before, after, idx, obj, access, flags) && i < |before| && before[i].obj.Some?
    ensures idx != i && Added(ClosedSlot(before, i), ClosedSlot(after, i), idx, obj, access, flags)
  {
  }

  class Handles {
    var slots: seq<Entry>
    var freeBelow: seq<nat>
    var freeAbove: seq<nat>
    var quarantine: seq<nat>
    var nextIndex: nat

    /** How many compatible handles have been closed so far, and when each index last was. */
    ghost var releases: nat
    ghost var releasedAt: map<nat, nat>

    ghost function Value(): Table
      reads this
    {
      Table(slots, freeBelow, freeAbove, quarantine, nextIndex, releases, releasedAt)
    }

    ghost predicate Valid()
      reads this
    {
      Sound(Value())
    }

    constructor ()
      ensures Valid() && slots == [] && quarantine == [] && releases == 0 && releasedAt == map[]
    {
      slots, freeBelow, freeAbove, quarantine, nextIndex := [], [], [], [], 0;
      releases, releasedAt := 0, map[];
    }

    /** The object a handle refers to. */
    function Lookup(h: nat): Option<ObjectId>
      reads this
    {
      ObjectAt(slots, h)
    }

    /** Chooses the index for a new handle and puts the object there. */
    method Place(obj: ObjectId, grantedAccess: bv32, flags: bv32) returns (idx: nat)
      requires Valid()
      modifies this
      ensures Valid()
      ensures Assignable(old(Value()), idx) && InTurn(old(Value()), idx)
      ensures idx < |slots|
      ensures slots[idx] == Entry(Some(obj), grantedAccess, flags,
                                  if idx < |old(slots)| && old(slots)[idx].generation != 0 then old(slots)[idx].generation else 1)
      ensures slots == if idx < |old(slots)| then old(slots)[idx := slots[idx]] else old(slots) + [slots[idx]]
      ensures releases == old(releases) && releasedAt == old(releasedAt)
    {
      var made := Entry(Some(obj), grantedAccess, flags, 1);
      ghost var t := Value();
      if nextIndex <= COMPAT_MAX_INDEX {
        PlaceFresh(t, made);
        idx := nextIndex;
        nextIndex, slots := nextIndex + 1, slots + [made];
        assert Value() == t.(nextIndex := t.nextIndex + 1, slots := t.slots + [made]);
      } else if freeBelow != [] {
        idx := freeBelow[|freeBelow| - 1];
        BelowIsFree(t);
        made := Reused(slots[idx], made);
        PlaceBelow(t, made);
        freeBelow, slots := freeBelow[..|freeBelow| - 1], slots[idx := made];
        assert Value() == t.(freeBelow := t.freeBelow[..|t.freeBelow| - 1], slots := t.slots[idx := made]);
      } else if freeAbove != [] {
        idx := freeAbove[|freeAbove| - 1];
        AboveIsFree(t);
        made := Reused(slots[idx], made);
        PlaceAbove(t, made);
        freeAbove, slots := freeAbove[..|freeAbove| - 1], slots[idx := made];
        assert Value() == t.(freeAbove := t.freeAbove[..|t.freeAbove| - 1], slots := t.slots[idx := made]);
      } else {
        PlaceNew(t, made);
        idx := |slots|;
        slots := slots + [made];
        assert Value() == t.(slots := t.slots + [made]);
      }
    }

    /** A new handle: never that of a live object, below 0x8000 while any room is left there. */
    method Alloc(obj: ObjectId, grantedAccess: bv32, flags: bv32) returns (h: nat)
      requires Valid()
      modifies this
      ensures Valid()
      ensures IndexOf(h).Some? && IndexOf(h).value < |slots| && h == MakeHandle(IndexOf(h).value)
      ensures
        var idx := IndexOf(h).value;
        && Added(old(slots), slots, idx, Some(obj), grantedAccess, flags)
        && |slots| == (if idx < |old(slots)| then |old(slots)| else |old(slots)| + 1)
        && slots[idx].generation ==
           (if idx < |old(slots)| && old(slots)[idx].generation != 0 then old(slots)[idx].generation else 1)
      ensures WellChosen(old(Value()), h)
      ensures releases == old(releases) && releasedAt == old(releasedAt)
    {
      var idx := Place(obj, grantedAccess, flags);
      HandlesNameIndices(idx, idx);
      h := MakeHandle(idx);
    }

    /** Finds the object a handle names, exactly if it names one. */
    method Get(h: nat) returns (obj: Option<ObjectId>)
      ensures forall o: ObjectId :: obj == Some(o) <==> Names(slots, h, o)
    {
      LookupIsNaming(slots, h);
      if h == 0 || IsPseudo(h) {
        return None;
      }
      var idx := IndexOf(h);
      if idx.None? || idx.value >= |slots| {
        return None;
      }
      return slots[idx.value].obj;
    }

    /** Empties an entry in use and sets its index aside. */
    method Retire(idx: nat)
      requires Valid() && idx < |slots| && slots[idx].obj.Some?
      modifies this
      ensures Valid()
      ensures slots == ClosedSlot(old(slots), idx)
      ensures DatedClose(old(Value()), Value(), idx)
    {
      var e := Entry(None, 0, 0, (slots[idx].generation + 1) % 0x1_0000);
      if idx <= COMPAT_MAX_INDEX {
        CloseCompat(Value(), idx, e);
        slots := slots[idx := e];
        quarantine := quarantine + [idx];
        releases := releases + 1;
        releasedAt := releasedAt[idx := releases];
        if |quarantine| > QUARANTINE_LENGTH {
          freeBelow := freeBelow + [quarantine[0]];
          quarantine := quarantine[1..];
        }
        assert Value() == Closed(old(Value()), idx, e);
      } else {
        CloseAbove(Value(), idx, e);
        slots := slots[idx := e];
        freeAbove := freeAbove + [idx];
      }
    }

    /** Closes a handle. `obj` is the object whose reference the caller must now drop. */
    method Release(h: nat) returns (ok: bool, obj: Option<ObjectId>)
      requires Valid()
      modifies this
      ensures Valid()
      ensures ok <==> h >= 0x8000_0000 || (old(Lookup(h)).Some? && !Protected(old(slots)[IndexOf(h).value].flags))
      ensures obj == (if ok then old(Lookup(h)) else None)
      ensures obj.None? ==> slots == old(slots) && releases == old(releases) && releasedAt == old(releasedAt)
      ensures obj.Some? ==>
                var idx := IndexOf(h).value;
                slots == ClosedSlot(old(slots), idx) && DatedClose(old(Value()), Value(), idx)
    {
      if IsPseudo(h) {
        return true, None;
      }
      var idx := IndexOf(h);
      if idx.None? || idx.value >= |slots| {
        return false, None;
      }
      var e := slots[idx.value];
      if e.obj.None? || Protected(e.flags) {
        return false, None;
      }
      ok, obj := true, e.obj;
      Retire(idx.value);
    }

    /**
     Duplicates a handle into a table, this one or another. `dropped` is the reference left over
     when the source is closed. The source handle itself is returned when closing it after a
     duplication within the table would change nothing.
     */
    method Duplicate(src: nat, dst: Handles, desired: bv32, inherit: bool, options: bv32)
      returns (ok: bool, out: nat, dropped: Option<ObjectId>)
      requires Valid() && dst.Valid()
      modifies this, dst
      ensures Valid() && dst.Valid()
      ensures ok <==> old(Lookup(src)).Some? &&
                      !(Closing(options) && Protected(old(slots)[IndexOf(src).value].flags))
      ensures !ok ==>
                && slots == old(slots) && dst.slots == old(dst.slots) && dropped == None
                && SameDates(old(Value()), Value()) && SameDates(old(dst.Value()), dst.Value())
      ensures ok ==>
                var source := old(slots)[IndexOf(src).value];
                var closing, flags := Closing(options), DuplicateFlags(inherit);
                var access := DuplicateAccess(source.grantedAccess, desired, options);
                if dst == this && closing && access == source.grantedAccess && flags == source.flags then
                  out == src && slots == old(slots) && dropped == None && SameDates(old(Value()), Value())
                else
                  && IndexOf(out).Some? && out == MakeHandle(IndexOf(out).value)
                  && var kept := if dst == this && closing then ClosedSlot(old(slots), IndexOf(src).value) else old(dst.slots);
                     && Added(kept, dst.slots, IndexOf(out).value, source.obj, access, flags)
                     && (dst == this ==> out != src) && WellChosen(old(dst.Value()), out)
                     && (if closing then DatedClose(old(Value()), Value(), IndexOf(src).value)
                         else SameDates(old(Value()), Value()))
                     && (dst != this ==> SameDates(old(dst.Value()), dst.Value()))
                     && (dst != this ==>
                           slots == if closing then ClosedSlot(old(slots), IndexOf(src).value) else old(slots))
                     && dropped == if closing then source.obj else None
    {
      var obj := Get(src);
      LookupIsNaming(slots, src);
      assert obj == Lookup(src) by {
        assert obj.Some? ==> Names(slots, src, obj.value);
        assert Lookup(src).Some? ==> Names(slots, src, Lookup(src).value);
      }
      if obj.None? {
        return false, 0, None;
      }
      var meta := slots[IndexOf(src).value];
      var closeSource := Closing(options);
      if closeSource && Protected(meta.flags) {
        return false, 0, None;
      }
      var access, flags := DuplicateAccess(meta.grantedAccess, desired, options), DuplicateFlags(inherit);
      if dst == this && closeSource && access == meta.grantedAccess && flags == meta.flags {
        return true, src, None;
      }
      out := dst.Alloc(obj.value, access, flags);
      ok, dropped := true, None;
      assert dst == this ==> MakeHandle(IndexOf(out).value) != src;
      if closeSource {
        if dst == this {
          AddedThenClosed(old(slots), slots, IndexOf(out).value, obj, access, flags, IndexOf(src).value);
        }
        var closed;
        closed, dropped := Release(src);
      }
    }
  }

  /** A reused entry keeps the generation its slot has reached, unless that wrapped to 0. */
  function Reused(former: Entry, made: Entry): Entry {
    made.(generation := if former.generation == 0 then 1 else former.generation)
  }
}
