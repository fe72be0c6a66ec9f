/**
 Thread-local storage slots: 64 in every thread block and up to 1024 more in an expansion
 array per thread, grown for all threads at once.
 */
module Tls {
  import opened Wrappers

  const SLOT_COUNT: nat := 64
  const MAX_SLOT_COUNT: nat := 1088
  const MAX_EXPANSION: nat := MAX_SLOT_COUNT - SLOT_COUNT

  /** A guest pointer; 0 is null. */
  type Pointer = nat
  type TibId = nat

  /** The parts of a thread block that matter here. */
  datatype Tib = Tib(slots: seq<Pointer>, expansion: Option<seq<Pointer>>)

  type Tibs = map<TibId, Tib>

  /** What a slot of a thread holds; storage that does not exist reads as null. */
  function Read(tib: Tib, index: nat): Pointer
    requires |tib.slots| == SLOT_COUNT
  {
    if index >= MAX_SLOT_COUNT then 0
    else if index < SLOT_COUNT then tib.slots[index]
    else if tib.expansion.None? || index - SLOT_COUNT >= |tib.expansion.value| then 0
    else tib.expansion.value[index - SLOT_COUNT]
  }

  function Zeros(n: nat): (r: seq<Pointer>)
    ensures |r| == n && forall i :: 0 <= i < n ==> r[i] == 0
  {
    seq(n, _ => 0)
  }

  /** `std::copy_n` into a longer, zero-filled array. */
  function Grown(current: Option<seq<Pointer>>, capacity: nat): (r: seq<Pointer>)
    requires current.Some? ==> |current.value| <= capacity
    ensures |r| == capacity
  {
    if current.None? then Zeros(capacity) else current.value + Zeros(capacity - |current.value|)
  }

  ghost predicate AllBlocks(tibs: Tibs) {
    forall t :: t in tibs ==> |tibs[t].slots| == SLOT_COUNT
  }

  /** The two states of memory hold the same values in every slot of every thread. */
  ghost predicate SameValues(a: Tibs, b: Tibs)
    requires AllBlocks(a) && AllBlocks(b)
  {
    a.Keys == b.Keys && forall t, i: nat :: t in a ==> Read(a[t], i) == Read(b[t], i)
  }

  // ----- the map the storage stands for

  type Values = map<(TibId, nat), Pointer>

  ghost function ValuesOf(tibs: Tibs): Values
    requires AllBlocks(tibs)
  {
    map t, i: nat | t in tibs && i < MAX_SLOT_COUNT :: (t, i) := Read(tibs[t], i)
  }

  /** One entry for every slot of every thread, with the value that is stored there. */
  ghost predicate Mirrors(values: Values, tibs: Tibs)
    requires AllBlocks(tibs)
  {
    forall t, i: nat ::
      && ((t, i) in values <==> t in tibs && i < MAX_SLOT_COUNT)
      && ((t, i) in values ==> values[(t, i)] == Read(tibs[t], i))
  }

  /** One slot set to null in the given threads. */
  ghost function Nulled(values: Values, threads: seq<TibId>, index: nat): Values {
    map k | k in values :: if k.0 in threads && k.1 == index then 0 else values[k]
  }

  /** All expansion slots of a thread set to null. */
  ghost function WithoutExpansion(values: Values, t: TibId): Values {
    map k | k in values :: if k.0 == t && k.1 >= SLOT_COUNT then 0 else values[k]
  }

  lemma MirrorsSame(values: Values, a: Tibs, b: Tibs)
    requires AllBlocks(a) && AllBlocks(b) && Mirrors(values, a) && SameValues(a, b)
    ensures Mirrors(values, b)
  {
  }

  lemma MirrorsCleared(values: Values, a: Tibs, b: Tibs, threads: seq<TibId>, index: nat)
    requires AllBlocks(a) && AllBlocks(b) && Mirrors(values, a) && ClearedOnly(a, b, threads, index)
    ensures Mirrors(Nulled(values, threads, index), b)
  {
    var after := Nulled(values, threads, index);
    forall t, i: nat
      ensures ((t, i) in after <==> t in b && i < MAX_SLOT_COUNT) && ((t, i) in after ==> after[(t, i)] == Read(b[t], i))
    {
      assert (t, i) in values <==> t in a && i < MAX_SLOT_COUNT;
    }
  }

  lemma MirrorsWritten(values: Values, tibs: Tibs, t: TibId, index: nat, value: Pointer)
    requires AllBlocks(tibs) && Mirrors(values, tibs) && t in tibs && Stored(tibs[t], index) && index < MAX_SLOT_COUNT
    ensures
      var after := tibs[t := Write(tibs[t], index, value)];
      AllBlocks(after) && Mirrors(values[(t, index) := value], after)
  {
    WriteReads(tibs, t, index, value);
  }

  ghost predicate AllGranted(threads: seq<TibId>, alloc: TibId -> bool) {
    forall t :: t in threads ==> alloc(t)
  }

  ghost predicate LowestFree(slotUsed: seq<bool>, j: int) {
    0 <= j < |slotUsed| && !slotUsed[j] && forall i :: 0 <= i < j ==> slotUsed[i]
  }

  /** The thread has storage for the slot, or a growth for it is needed, possible, and gives it some. */
  predicate CanStore(tib: Tib, active: bool, capacity: nat, index: nat, granted: bool) {
    && index < MAX_SLOT_COUNT
    && (|| index < SLOT_COUNT
        || (tib.expansion.Some? && index - SLOT_COUNT < |tib.expansion.value|)
        || (active && capacity <= index - SLOT_COUNT && granted))
  }

  /**
   An active thread that was refused an array cannot store into an expansion slot below the common
   capacity, not even when memory is available again: only a growth beyond that capacity helps it.
   */
  lemma StarvedThreadCannotStore(tib: Tib, capacity: nat, index: nat, granted: bool)
    requires tib.expansion.None?
    ensures SLOT_COUNT <= index < MAX_SLOT_COUNT ==>
              (CanStore(tib, true, capacity, index, granted) <==> SLOT_COUNT + capacity <= index && granted)
  {
  }

  /** The capacity to grow to: at least `required`, by doubling, never beyond the maximum; 0 if impossible. */
  method ChooseCapacity(current: nat, required: nat) returns (capacity: nat)
    requires current <= MAX_EXPANSION
    ensures required == 0 ==> capacity == current
    ensures required > MAX_EXPANSION ==> capacity == 0
    ensures 0 < required <= MAX_EXPANSION ==>
              && required <= capacity <= MAX_EXPANSION && current <= capacity
              && (capacity == current || capacity == 1 || capacity < 2 * required)
  {
    if required == 0 {
      return current;
    }
    if required > MAX_EXPANSION {
      return 0;
    }
    capacity := if current == 0 then 1 else current;
    while capacity < required
      invariant 0 < capacity <= MAX_EXPANSION && current <= capacity
      invariant capacity == current || capacity == 1 || capacity < 2 * required
    {
      var next := capacity * 2;
      capacity := if next <= capacity || next > MAX_EXPANSION then MAX_EXPANSION else next;
    }
  }

  class Manager {
    var slotUsed: seq<bool>
    var active: seq<TibId>
    var expansionCapacity: nat
    var tibs: Tibs

    /** The plain map that the blocks and arrays stand for. */
    ghost var values: Values

    ghost predicate Valid()
      reads this
    {
      Stable() && Mirrors(values, tibs)
    }

    ghost predicate Stable()
      reads this
    {
      && |slotUsed| == MAX_SLOT_COUNT
      && expansionCapacity <= MAX_EXPANSION
      && (forall i :: SLOT_COUNT <= i < MAX_SLOT_COUNT && slotUsed[i] ==> i - SLOT_COUNT < expansionCapacity)
      && AllBlocks(tibs)
      && Placed(tibs, active, expansionCapacity)
    }

    constructor (tibs: Tibs)
      requires AllBlocks(tibs) && forall t :: t in tibs ==> tibs[t].expansion.None?
      ensures Valid() && this.tibs == tibs && active == [] && forall i :: 0 <= i < MAX_SLOT_COUNT ==> !slotUsed[i]
      ensures values == ValuesOf(tibs)
    {
      slotUsed := seq(MAX_SLOT_COUNT, _ => false);
      active, expansionCapacity := [], 0;
      this.tibs := tibs;
      values := ValuesOf(tibs);
    }

    /** The first pass of a growth: one new array for every thread that needs it, or none at all. */
    method AllocateArrays(target: nat, alloc: TibId -> bool) returns (arrays: Option<map<TibId, seq<Pointer>>>)
      requires Valid() && expansionCapacity < target
      ensures arrays.Some? ==>
                && arrays.value.Keys == (set t | t in active)
                && forall t :: t in arrays.value ==> t in tibs && arrays.value[t] == Grown(tibs[t].expansion, target)
      ensures arrays.Some? <==> AllGranted(active, alloc)
    {
      var pending: map<TibId, seq<Pointer>> := map[];
      for i := 0 to |active|
        invariant AllGranted(active[..i], alloc)
        invariant pending.Keys == (set t | t in active[..i])
        invariant forall t :: t in pending ==> t in tibs && pending[t] == Grown(tibs[t].expansion, target)
      {
        var t := active[i];
        assert t in active && t in tibs;
        if !alloc(t) {
          return None;
        }
        pending := pending[t := Grown(tibs[t].expansion, target)];
        assert active[..i + 1] == active[..i] + [t];
      }
      assert active[..|active|] == active;
      return Some(pending);
    }

    /** Makes room for `required` expansion slots in every active thread, keeping all values. */
    method EnsureCapacity(required: nat, alloc: TibId -> bool) returns (ok: bool)
      requires Valid()
      modifies this`expansionCapacity, this`tibs
      ensures Valid() && SameValues(old(tibs), tibs)
      ensures ok <==> required <= old(expansionCapacity) || (required <= MAX_EXPANSION && AllGranted(active, alloc))
      ensures !ok ==> tibs == old(tibs) && expansionCapacity == old(expansionCapacity)
      ensures ok ==> required <= expansionCapacity && old(expansionCapacity) <= expansionCapacity
      ensures ok && old(expansionCapacity) < required ==>
                forall t :: t in active ==> t in tibs && tibs[t].expansion.Some? && |tibs[t].expansion.value| == expansionCapacity
      ensures ok && required <= old(expansionCapacity) ==> tibs == old(tibs)
    {
      if required == 0 || required <= expansionCapacity {
        return true;
      }
      var target := ChooseCapacity(expansionCapacity, required);
      if target == 0 {
        return false;
      }
      var arrays := AllocateArrays(target, alloc);
      if arrays.None? {
        return false;
      }
      GrowthKeepsValues(tibs, active, expansionCapacity, target, arrays.value);
      MirrorsSame(values, tibs, Install(tibs, arrays.value));
      tibs := Install(tibs, arrays.value);
      expansionCapacity := target;
      return true;
    }

    /** Clears one slot in every active thread. */
    method ZeroSlotForAllTibs(index: nat)
      requires Stable() && index < MAX_SLOT_COUNT
      modifies this`tibs
      ensures Stable() && tibs == Cleared(old(tibs), active, index)
    {
      ghost var before := tibs;
      for i := 0 to |active|
        invariant Stable() && tibs == Cleared(before, active[..i], index)
      {
        var t := active[i];
        assert t in active && t in tibs;
        tibs := tibs[t := Write(tibs[t], index, 0)];
        assert active[..i + 1] == active[..i] + [t];
      }
      assert active[..|active|] == active;
    }

    /** The lowest slot not in use, if any. */
    method FirstFree() returns (index: nat)
      requires Valid()
      ensures index <= MAX_SLOT_COUNT && (index < MAX_SLOT_COUNT ==> !slotUsed[index])
      ensures forall j :: 0 <= j < index ==> slotUsed[j]
    {
      index := 0;
      while index < MAX_SLOT_COUNT && slotUsed[index]
        invariant index <= MAX_SLOT_COUNT && forall j :: 0 <= j < index ==> slotUsed[j]
      {
        index := index + 1;
      }
    }

    /** Takes the lowest free slot; it reads null in every active thread and nothing else changes. */
    method ReserveSlot(alloc: TibId -> bool) returns (index: Option<nat>)
      requires Valid()
      modifies this
      ensures Valid() && active == old(active)
      ensures index.Some? ==>
                && index.value < MAX_SLOT_COUNT && !old(slotUsed)[index.value]
                && (forall j :: 0 <= j < index.value ==> old(slotUsed)[j])
                && slotUsed == old(slotUsed)[index.value := true]
                && ClearedOnly(old(tibs), tibs, active, index.value)
                && values == Nulled(old(values), active, index.value)
      ensures index.None? ==>
                values == old(values) && tibs == old(tibs) && slotUsed == old(slotUsed) && expansionCapacity == old(expansionCapacity)
      ensures index.Some? <==>
                exists j :: LowestFree(old(slotUsed), j) && (j < SLOT_COUNT + old(expansionCapacity) || AllGranted(active, alloc))
    {
      var free := FirstFree();
      assert forall j :: LowestFree(slotUsed, j) ==> j == free;
      if free == MAX_SLOT_COUNT {
        return None;
      }
      assert LowestFree(slotUsed, free);
      if free >= SLOT_COUNT {
        var ok := EnsureCapacity(free - SLOT_COUNT + 1, alloc);
        if !ok {
          return None;
        }
      }
      slotUsed := slotUsed[free := true];
      ClearedReads(old(tibs), tibs, active, free);
      MirrorsCleared(values, old(tibs), Cleared(tibs, active, free), active, free);
      ZeroSlotForAllTibs(free);
      values := Nulled(values, active, free);
      return Some(free);
    }

    method ReleaseSlot(index: nat) returns (ok: bool)
      requires Valid()
      modifies this
      ensures Valid() && active == old(active) && expansionCapacity == old(expansionCapacity)
      ensures ok <==> index < MAX_SLOT_COUNT && old(slotUsed)[index]
      ensures ok ==>
                && slotUsed == old(slotUsed)[index := false] && ClearedOnly(old(tibs), tibs, active, index)
                && values == Nulled(old(values), active, index)
      ensures !ok ==> slotUsed == old(slotUsed) && tibs == old(tibs) && values == old(values)
    {
      if index >= MAX_SLOT_COUNT || !slotUsed[index] {
        return false;
      }
      slotUsed := slotUsed[index := false];
      ClearedReads(tibs, tibs, active, index);
      MirrorsCleared(values, tibs, Cleared(tibs, active, index), active, index);
      ZeroSlotForAllTibs(index);
      values := Nulled(values, active, index);
      return true;
    }

    /** Looks up the map; slots beyond the maximum read as null. */
    method GetValue(t: TibId, index: nat) returns (value: Pointer)
      requires Valid() && t in tibs
      ensures (t, index) in values <==> index < MAX_SLOT_COUNT
      ensures value == if (t, index) in values then values[(t, index)] else 0
    {
      assert (t, index) in values ==> values[(t, index)] == Read(tibs[t], index);
      if index >= MAX_SLOT_COUNT {
        return 0;
      }
      if index < SLOT_COUNT {
        return tibs[t].slots[index];
      }
      var arr := tibs[t].expansion;
      if arr.None? || index - SLOT_COUNT >= |arr.value| {
        return 0;
      }
      return arr.value[index - SLOT_COUNT];
    }

    /** Stores a value, growing the arrays if need be. Success changes that one entry, failure none. */
    method SetValue(t: TibId, index: nat, value: Pointer, alloc: TibId -> bool) returns (ok: bool)
      requires Valid() && t in tibs
      modifies this`expansionCapacity, this`tibs, this`values
      ensures Valid() && values == if ok then old(values)[(t, index) := value] else old(values)
      ensures ok ==> t in tibs && index < MAX_SLOT_COUNT && Read(tibs[t], index) == value
      ensures SameValuesExcept(old(tibs), tibs, t, if ok then index else MAX_SLOT_COUNT)
      ensures ok <==> CanStore(old(tibs)[t], t in active, old(expansionCapacity), index, AllGranted(active, alloc))
    {
      if index >= MAX_SLOT_COUNT {
        return false;
      }
      if index < SLOT_COUNT {
        WriteReads(tibs, t, index, value);
        MirrorsWritten(values, tibs, t, index, value);
        tibs := tibs[t := Write(tibs[t], index, value)];
        values := values[(t, index) := value];
        return true;
      }
      if !Stored(tibs[t], index) {
        var grown := EnsureCapacity(index - SLOT_COUNT + 1, alloc);
        if !grown || !Stored(tibs[t], index) {
          return false;
        }
      }
      WriteReads(tibs, t, index, value);
      MirrorsWritten(values, tibs, t, index, value);
      tibs := tibs[t := Write(tibs[t], index, value)];
      values := values[(t, index) := value];
      return true;
    }

    /** Registers a thread. A failed allocation leaves it without an expansion array for now. */
    method InitializeTib(t: TibId, alloc: TibId -> bool)
      requires Valid() && t in tibs
      modifies this`active, this`tibs
      ensures Valid() && SameValues(old(tibs), tibs)
      ensures active == if t in old(active) then old(active) else old(active) + [t]
      ensures tibs == if t !in old(active) && expansionCapacity > 0 && old(tibs)[t].expansion.None? && alloc(t)
                      then old(tibs)[t := old(tibs)[t].(expansion := Some(Zeros(expansionCapacity)))]
                      else old(tibs)
    {
      if t in active {
        return;
      }
      active := active + [t];
      if expansionCapacity > 0 && tibs[t].expansion.None? && alloc(t) {
        tibs := tibs[t := tibs[t].(expansion := Some(Zeros(expansionCapacity)))];
      }
    }

    /** Unregisters a thread: its expansion slots are gone, everything else stays. */
    method CleanupTib(t: TibId)
      requires Valid() && t in tibs
      modifies this`active, this`tibs, this`values
      ensures values == WithoutExpansion(old(values), t)
      ensures Valid() && t !in active && forall u :: u != t ==> (u in active <==> u in old(active))
      ensures tibs == old(tibs)[t := old(tibs)[t].(expansion := None)]
    {
      tibs := tibs[t := tibs[t].(expansion := None)];
      values := WithoutExpansion(values, t);
      active := Without(active, t);
    }
  }

  /** The thread has storage for the slot. */
  predicate Stored(tib: Tib, index: nat) {
    index < SLOT_COUNT || (tib.expansion.Some? && index - SLOT_COUNT < |tib.expansion.value|)
  }

  /** Stores into a slot if there is storage for it. */
  function Write(tib: Tib, index: nat, value: Pointer): Tib
    requires |tib.slots| == SLOT_COUNT
  {
    if index < SLOT_COUNT then tib.(slots := tib.slots[index := value])
    else if Stored(tib, index) then
      tib.(expansion := Some(tib.expansion.value[index - SLOT_COUNT := value]))
    else tib
  }

  lemma WriteThenRead(tib: Tib, index: nat, value: Pointer, i: nat)
    requires |tib.slots| == SLOT_COUNT && index < MAX_SLOT_COUNT
    ensures Read(Write(tib, index, value), i) ==
            if i == index && Stored(tib, index) then value else Read(tib, i)
  {
  }

  ghost function Cleared(tibs: Tibs, threads: seq<TibId>, index: nat): Tibs
    requires AllBlocks(tibs)
  {
    map t | t in tibs :: if t in threads then Write(tibs[t], index, 0) else tibs[t]
  }

  /** One slot reads null in the given threads; every other entry is as before. */
  ghost predicate ClearedOnly(a: Tibs, b: Tibs, threads: seq<TibId>, index: nat)
    requires AllBlocks(a) && AllBlocks(b)
  {
    && a.Keys == b.Keys
    && forall t, i: nat :: t in a ==> Read(b[t], i) == if t in threads && i == index then 0 else Read(a[t], i)
  }

  lemma ClearedReads(a: Tibs, b: Tibs, threads: seq<TibId>, index: nat)
    requires AllBlocks(a) && AllBlocks(b) && SameValues(a, b) && index < MAX_SLOT_COUNT
    ensures AllBlocks(Cleared(b, threads, index)) && ClearedOnly(a, Cleared(b, threads, index), threads, index)
  {
    var c := Cleared(b, threads, index);
    forall t, i: nat | t in a
      ensures Read(c[t], i) == if t in threads && i == index then 0 else Read(a[t], i)
    {
      WriteThenRead(b[t], index, 0, i);
      assert Read(a[t], i) == Read(b[t], i);
    }
  }

  /** Every entry but `index` of thread `t` holds what it held before. */
  ghost predicate SameValuesExcept(a: Tibs, b: Tibs, t: TibId, index: nat)
    requires AllBlocks(a) && AllBlocks(b)
  {
    a.Keys == b.Keys && forall u, i: nat :: u in a && (u != t || i != index) ==> Read(a[u], i) == Read(b[u], i)
  }

  lemma WriteReads(tibs: Tibs, t: TibId, index: nat, value: Pointer)
    requires AllBlocks(tibs) && t in tibs && Stored(tibs[t], index) && index < MAX_SLOT_COUNT
    ensures
      var after := tibs[t := Write(tibs[t], index, value)];
      && AllBlocks(after) && SameValuesExcept(tibs, after, t, index) && Read(after[t], index) == value
  {
    var after := tibs[t := Write(tibs[t], index, value)];
    forall u, i: nat | u in tibs && (u != t || i != index) ensures Read(tibs[u], i) == Read(after[u], i) {
      WriteThenRead(tibs[t], index, value, i);
    }
    WriteThenRead(tibs[t], index, value, index);
  }

  function Without(s: seq<TibId>, t: TibId): (r: seq<TibId>)
    ensures (forall i, j :: 0 <= i < j < |s| ==> s[i] != s[j]) ==>
              (forall i, j :: 0 <= i < j < |r| ==> r[i] != r[j]) && t !in r
    ensures forall u :: u != t ==> (u in r <==> u in s)
    ensures forall u :: u in r ==> u in s
  {
    if s == [] then []
    else if s[0] == t then s[1..]
    else
      var rest := Without(s[1..], t);
      assert forall i :: 0 <= i < |rest| ==> rest[i] in rest && rest[i] in s[1..];
      [s[0]] + rest
  }

  /** Active threads are distinct blocks whose arrays, if any, have the common capacity; others have none. */
  ghost predicate Placed(tibs: Tibs, active: seq<TibId>, capacity: nat) {
    && (forall i, j :: 0 <= i < j < |active| ==> active[i] != active[j])
    && (forall t :: t in active ==> t in tibs)
    && (forall t :: t in tibs && tibs[t].expansion.Some? ==> t in active && |tibs[t].expansion.value| == capacity)
  }

  /** The second pass of a growth: the new arrays replace the old ones. */
  function Install(tibs: Tibs, arrays: map<TibId, seq<Pointer>>): Tibs {
    map t | t in tibs :: if t in arrays then tibs[t].(expansion := Some(arrays[t])) else tibs[t]
  }

  lemma GrownReadsSame(tib: Tib, capacity: nat, index: nat)
    requires |tib.slots| == SLOT_COUNT && (tib.expansion.Some? ==> |tib.expansion.value| <= capacity)
    ensures Read(tib.(expansion := Some(Grown(tib.expansion, capacity))), index) == Read(tib, index)
  {
  }

  lemma GrowthKeepsValues(tibs: Tibs, active: seq<TibId>, capacity: nat, target: nat, arrays: map<TibId, seq<Pointer>>)
    requires AllBlocks(tibs) && Placed(tibs, active, capacity) && capacity <= target
    requires arrays.Keys == (set t | t in active)
    requires forall t :: t in arrays ==> arrays[t] == Grown(tibs[t].expansion, target)
    ensures AllBlocks(Install(tibs, arrays)) && SameValues(tibs, Install(tibs, arrays))
    ensures Placed(Install(tibs, arrays), active, target)
    ensures forall t :: t in active ==> Install(tibs, arrays)[t].expansion == Some(arrays[t])
  {
    forall t, i: nat | t in tibs ensures Read(tibs[t], i) == Read(Install(tibs, arrays)[t], i) {
      if t in arrays {
        GrownReadsSame(tibs[t], target, i);
      }
    }
  }
}
