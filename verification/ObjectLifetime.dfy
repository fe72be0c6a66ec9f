/**
 Reference counting of kernel objects: pins, handle-table slots, and a name table that holds
 no reference of its own. Every operation is cut into the steps that happen under one lock or
 in one atomic update, and the steps of any number of threads interleave freely.
 */
module ObjectLifetime {
  import opened Wrappers

  type Name = string

  /** `alive` turns false when the last reference is dropped and the object is deleted. */
  datatype Object = Object(pointerCount: int, handleCount: int, alive: bool)

  /** A reference in the hands of a thread, by what that thread is in the middle of. */
  datatype Token =
    | Created(o: nat)     // getOrCreate: made and pinned, not yet offered to the name table
    | Published(o: nat)   // getOrCreate: inserted under its name, not yet given a handle
    | Pinned(o: nat)      // any other pin
    | Zeroed(o: nat)      // release: slot cleared, handle count reached 0, name not yet removed
    | Dropping(o: nat)    // release: only the final dereference is left

  datatype State = State(
    objects: seq<Object>, slots: seq<Option<nat>>, names: map<Name, nat>, tokens: multiset<Token>)

  datatype Event =
    | Create
    | Publish(o: nat, name: Name)
    | FindName(name: Name)
    | FindHandle(k: nat)
    | Alloc(token: Token, k: nat)
    | Drop(token: Token)
    | Clear(k: nat)
    | Unname(o: nat)
    | Deref(o: nat)

  function Ref(obj: Object): Object {
    obj.(pointerCount := obj.pointerCount + 1)
  }

  /** Drops one reference; the last one deletes the object. */
  function Unref(obj: Object): Object {
    Object(obj.pointerCount - 1, obj.handleCount, obj.alive && obj.pointerCount != 1)
  }

  /** `Namespace::remove`: erases the first entry found for the object. */
  ghost function WithoutOne(names: map<Name, nat>, o: nat): map<Name, nat> {
    if exists n :: n in names && names[n] == o then
      var n :| n in names && names[n] == o;
      names - {n}
    else names
  }

  ghost predicate Enabled(s: State, e: Event) {
    match e
    case Create => true
    case Publish(o, name) => name != [] && Created(o) in s.tokens
    case FindName(name) => name in s.names
    case FindHandle(k) => k < |s.slots| && s.slots[k].Some?
    case Alloc(token, k) =>
      && token in s.tokens && (token.Created? || token.Published? || token.Pinned?)
      && (k == |s.slots| || (k < |s.slots| && s.slots[k].None?))
    case Drop(token) => token in s.tokens && (token.Pinned? || token.Created?)
    case Clear(k) => k < |s.slots| && s.slots[k].Some?
    case Unname(o) => Zeroed(o) in s.tokens
    case Deref(o) => Dropping(o) in s.tokens
  }

  /** The object an event is about. */
  ghost function Subject(s: State, e: Event): nat
    requires Enabled(s, e)
  {
    match e
    case Create => |s.objects|
    case Publish(o, _) => o
    case FindName(name) => s.names[name]
    case FindHandle(k) => s.slots[k].value
    case Alloc(token, _) => token.o
    case Drop(token) => token.o
    case Clear(k) => s.slots[k].value
    case Unname(o) => o
    case Deref(o) => o
  }

  /** The object after the event. */
  ghost function NewObject(s: State, e: Event): Object
    requires Enabled(s, e) && (e.Create? || Subject(s, e) < |s.objects|)
  {
    if e.Create? then Object(1, 0, true)
    else
      var obj := s.objects[Subject(s, e)];
      match e
      case FindName(_) => Ref(obj)
      case FindHandle(_) => Ref(obj)
      case Alloc(_, _) => obj.(handleCount := obj.handleCount + 1)
      case Drop(_) => Unref(obj)
      case Clear(_) => obj.(handleCount := obj.handleCount - 1)
      case Deref(_) => Unref(obj)
      case _ => obj
  }

  /** The reference a thread gives up or turns into something else. */
  ghost function Spent(s: State, e: Event): Option<Token>
    requires Enabled(s, e)
  {
    match e
    case Publish(o, _) => Some(Created(o))
    case Alloc(token, _) => Some(token)
    case Drop(token) => Some(token)
    case Unname(o) => Some(Zeroed(o))
    case Deref(o) => Some(Dropping(o))
    case _ => None
  }

  /** The reference a thread has afterwards. */
  ghost function Gained(s: State, e: Event): Option<Token>
    requires Enabled(s, e) && (e.Create? || Subject(s, e) < |s.objects|)
  {
    match e
    case Create => Some(Created(|s.objects|))
    case Publish(o, name) => Some(if name in s.names then Pinned(o) else Published(o))
    case FindName(name) => Some(Pinned(s.names[name]))
    case FindHandle(k) => Some(Pinned(s.slots[k].value))
    case Clear(k) =>
      var o := s.slots[k].value;
      Some(if s.objects[o].handleCount == 1 then Zeroed(o) else Dropping(o))
    case Unname(o) => Some(Dropping(o))
    case _ => None
  }

  ghost function One(t: Option<Token>): multiset<Token> {
    if t.Some? then multiset{t.value} else multiset{}
  }

  ghost function NewTokens(s: State, e: Event): multiset<Token>
    requires Enabled(s, e) && (e.Create? || Subject(s, e) < |s.objects|)
  {
    s.tokens - One(Spent(s, e)) + One(Gained(s, e))
  }

  ghost function NewSlots(s: State, e: Event): seq<Option<nat>>
    requires Enabled(s, e)
  {
    match e
    case Alloc(token, k) => if k == |s.slots| then s.slots + [Some(token.o)] else s.slots[k := Some(token.o)]
    case Clear(k) => s.slots[k := None]
    case _ => s.slots
  }

  ghost function NewNames(s: State, e: Event): map<Name, nat>
    requires Enabled(s, e)
  {
    match e
    case Publish(o, name) => if name in s.names then s.names else s.names[name := o]
    case Unname(o) => WithoutOne(s.names, o)
    case _ => s.names
  }

  /** One step; an event that is not enabled changes nothing. */
  ghost function Step(s: State, e: Event): State {
    if !Enabled(s, e) then s
    else if e.Create? then
      State(s.objects + [NewObject(s, e)], NewSlots(s, e), NewNames(s, e), NewTokens(s, e))
    else if Subject(s, e) >= |s.objects| then s
    else
      State(s.objects[Subject(s, e) := NewObject(s, e)], NewSlots(s, e), NewNames(s, e), NewTokens(s, e))
  }

  const EMPTY: State := State([], [], map[], multiset{})

  ghost function Run(s: State, events: seq<Event>): State
    decreases |events|
  {
    if events == [] then s else Run(Step(s, events[0]), events[1..])
  }

  // ----- the invariant

  /** References held by threads. */
  ghost function InHand(tokens: multiset<Token>, o: nat): int {
    tokens[Created(o)] + tokens[Published(o)] + tokens[Pinned(o)] + tokens[Zeroed(o)] + tokens[Dropping(o)]
  }

  ghost function InSlots(slots: seq<Option<nat>>, o: nat): int {
    multiset(slots)[Some(o)]
  }

  ghost predicate Counted(obj: Object, tokens: multiset<Token>, slots: seq<Option<nat>>, o: nat) {
    && obj.pointerCount == InHand(tokens, o) + InSlots(slots, o)
    && obj.handleCount == InSlots(slots, o)
    && (obj.alive <==> obj.pointerCount > 0)
  }

  /** Something that must still pass through the removal of the name keeps a named object alive. */
  ghost predicate Guarded(tokens: multiset<Token>, slots: seq<Option<nat>>, o: nat) {
    tokens[Published(o)] + tokens[Zeroed(o)] + InSlots(slots, o) >= 1
  }

  ghost predicate Named(names: map<Name, nat>, o: nat) {
    exists n :: n in names && names[n] == o
  }

  ghost predicate OneNameEach(names: map<Name, nat>) {
    forall m, n :: m in names && n in names && names[m] == names[n] ==> m == n
  }

  ghost predicate Inv(s: State) {
    && (forall o :: 0 <= o < |s.objects| ==> Counted(s.objects[o], s.tokens, s.slots, o))
    && (forall o: nat :: o >= |s.objects| ==> InHand(s.tokens, o) == 0 && InSlots(s.slots, o) == 0)
    && (forall n :: n in s.names ==> s.names[n] < |s.objects| && Guarded(s.tokens, s.slots, s.names[n]))
    && OneNameEach(s.names)
    && (forall o: nat :: s.tokens[Created(o)] >= 1 ==> s.tokens[Created(o)] == 1 && !Named(s.names, o))
  }

  lemma InitialInv()
    ensures Inv(EMPTY)
  {
  }

  /** Whatever an event concerns exists and is alive. */
  lemma SubjectIsAlive(s: State, e: Event)
    requires Inv(s) && Enabled(s, e) && !e.Create?
    ensures Subject(s, e) < |s.objects| && s.objects[Subject(s, e)].alive
  {
    var o := Subject(s, e);
    assert InHand(s.tokens, o) + InSlots(s.slots, o) >= 1;
  }

  ghost predicate SameTokens(t: multiset<Token>, t': multiset<Token>, o: nat) {
    && t[Created(o)] == t'[Created(o)] && t[Published(o)] == t'[Published(o)] && t[Pinned(o)] == t'[Pinned(o)]
    && t[Zeroed(o)] == t'[Zeroed(o)] && t[Dropping(o)] == t'[Dropping(o)]
  }

  lemma TokensConcernSubject(s: State, e: Event)
    requires Enabled(s, e) && (e.Create? || Subject(s, e) < |s.objects|)
    ensures Spent(s, e).Some? ==> Spent(s, e).value.o == Subject(s, e) && Spent(s, e).value in s.tokens
    ensures Gained(s, e).Some? ==> Gained(s, e).value.o == Subject(s, e)
  {
  }

  lemma OtherTokensUntouched(s: State, e: Event, o: nat)
    requires Enabled(s, e) && o != Subject(s, e) && (e.Create? || Subject(s, e) < |s.objects|)
    ensures SameTokens(s.tokens, NewTokens(s, e), o)
  {
    TokensConcernSubject(s, e);
    ExchangeElsewhere(s.tokens, Spent(s, e), Gained(s, e), o);
  }

  lemma ExchangeElsewhere(tokens: multiset<Token>, spent: Option<Token>, gained: Option<Token>, o: nat)
    requires spent.Some? ==> spent.value.o != o
    requires gained.Some? ==> gained.value.o != o
    ensures SameTokens(tokens, tokens - One(spent) + One(gained), o)
  {
  }

  lemma ExchangeHere(tokens: multiset<Token>, spent: Option<Token>, gained: Option<Token>, o: nat)
    requires spent.Some? ==> spent.value.o == o && spent.value in tokens
    requires gained.Some? ==> gained.value.o == o
    ensures InHand(tokens - One(spent) + One(gained), o) ==
            InHand(tokens, o) - (if spent.Some? then 1 else 0) + (if gained.Some? then 1 else 0)
  {
    var rest := tokens - One(spent);
    assert InHand(rest, o) == InHand(tokens, o) - (if spent.Some? then 1 else 0) by {
      if spent.Some? {
        TakeOne(tokens, spent.value);
      } else {
        assert rest == tokens;
      }
    }
    if gained.Some? {
      GiveOne(rest, gained.value);
    } else {
      assert rest + One(gained) == rest;
    }
  }

  lemma TakeOne(tokens: multiset<Token>, t: Token)
    requires t in tokens
    ensures InHand(tokens - multiset{t}, t.o) == InHand(tokens, t.o) - 1
  {
  }

  lemma GiveOne(tokens: multiset<Token>, t: Token)
    ensures InHand(tokens + multiset{t}, t.o) == InHand(tokens, t.o) + 1
  {
  }

  lemma OtherSlotsUntouched(s: State, e: Event, o: nat)
    requires Enabled(s, e) && o != Subject(s, e)
    ensures InSlots(s.slots, o) == InSlots(NewSlots(s, e), o)
  {
    if e.Alloc? && e.k == |s.slots| {
      assert multiset(s.slots + [Some(e.token.o)]) == multiset(s.slots) + multiset{Some(e.token.o)};
    }
  }

  /** An event touches the references to its subject only. */
  lemma OthersUntouched(s: State, e: Event, o: nat)
    requires Enabled(s, e) && o != Subject(s, e) && (e.Create? || Subject(s, e) < |s.objects|)
    ensures SameTokens(s.tokens, NewTokens(s, e), o)
    ensures InSlots(s.slots, o) == InSlots(NewSlots(s, e), o)
  {
    OtherTokensUntouched(s, e, o);
    OtherSlotsUntouched(s, e, o);
  }

  /** The slots hold one more reference to the subject after an alloc, one less after a clear. */
  lemma SlotsChange(s: State, e: Event)
    requires Enabled(s, e)
    ensures InSlots(NewSlots(s, e), Subject(s, e)) ==
            InSlots(s.slots, Subject(s, e)) + (if e.Alloc? then 1 else if e.Clear? then -1 else 0)
  {
    if e.Alloc? && e.k == |s.slots| {
      assert multiset(s.slots + [Some(e.token.o)]) == multiset(s.slots) + multiset{Some(e.token.o)};
    }
  }

  lemma HandChange(s: State, e: Event)
    requires Enabled(s, e) && (e.Create? || Subject(s, e) < |s.objects|)
    ensures InHand(NewTokens(s, e), Subject(s, e)) ==
            InHand(s.tokens, Subject(s, e)) -
            (if Spent(s, e).Some? then 1 else 0) + (if Gained(s, e).Some? then 1 else 0)
  {
    TokensConcernSubject(s, e);
    ExchangeHere(s.tokens, Spent(s, e), Gained(s, e), Subject(s, e));
  }

  lemma SubjectCounted(s: State, e: Event)
    requires Inv(s) && Enabled(s, e) && (e.Create? || Subject(s, e) < |s.objects|)
    ensures Counted(NewObject(s, e), NewTokens(s, e), NewSlots(s, e), Subject(s, e))
  {
    SlotsChange(s, e);
    HandChange(s, e);
    var o := Subject(s, e);
    if e.Create? {
      assert InHand(s.tokens, o) == 0 && InSlots(s.slots, o) == 0;
    } else {
      SubjectIsAlive(s, e);
      assert Counted(s.objects[o], s.tokens, s.slots, o);
    }
  }

  lemma CountsKept(s: State, e: Event)
    requires Inv(s) && Enabled(s, e)
    ensures
      var s' := Step(s, e);
      && (forall o :: 0 <= o < |s'.objects| ==> Counted(s'.objects[o], s'.tokens, s'.slots, o))
      && (forall o: nat :: o >= |s'.objects| ==> InHand(s'.tokens, o) == 0 && InSlots(s'.slots, o) == 0)
  {
    if !e.Create? {
      SubjectIsAlive(s, e);
    }
    var s' := Step(s, e);
    SubjectCounted(s, e);
    forall o | 0 <= o < |s'.objects| ensures Counted(s'.objects[o], s'.tokens, s'.slots, o) {
      if o != Subject(s, e) {
        OthersUntouched(s, e, o);
        assert Counted(s.objects[o], s.tokens, s.slots, o);
      }
    }
    forall o: nat | o >= |s'.objects| ensures InHand(s'.tokens, o) == 0 && InSlots(s'.slots, o) == 0 {
      OthersUntouched(s, e, o);
    }
  }

  lemma WithoutOneRemoves(names: map<Name, nat>, o: nat)
    requires OneNameEach(names)
    ensures !Named(WithoutOne(names, o), o)
    ensures forall n :: n in WithoutOne(names, o) ==> n in names && WithoutOne(names, o)[n] == names[n]
  {
  }

  /** A named object stays guarded unless this very step removes its name. */
  lemma GuardKept(s: State, e: Event, n: Name)
    requires Inv(s) && Enabled(s, e) && (e.Create? || Subject(s, e) < |s.objects|)
    requires n in s.names && (e.Unname? ==> s.names[n] != e.o)
    ensures Guarded(NewTokens(s, e), NewSlots(s, e), s.names[n])
  {
    var o := s.names[n];
    assert Guarded(s.tokens, s.slots, o);
    if o != Subject(s, e) {
      OthersUntouched(s, e, o);
    } else {
      SlotsChange(s, e);
      if e.Clear? {
        assert Counted(s.objects[o], s.tokens, s.slots, o);
      }
      if e.Publish? {
        assert Named(s.names, o);
      }
    }
  }

  lemma EntryKept(s: State, e: Event, n: Name)
    requires Inv(s) && Enabled(s, e) && (e.Create? || Subject(s, e) < |s.objects|)
    requires n in NewNames(s, e)
    ensures Guarded(NewTokens(s, e), NewSlots(s, e), NewNames(s, e)[n])
    ensures NewNames(s, e)[n] < |s.objects|
  {
    if e.Unname? {
      WithoutOneRemoves(s.names, e.o);
      GuardKept(s, e, n);
    } else if n in s.names {
      GuardKept(s, e, n);
    } else {
      assert Gained(s, e) == Some(Published(e.o));
      assert NewTokens(s, e)[Published(e.o)] >= 1;
    }
  }

  lemma OneNameEachKept(s: State, e: Event)
    requires Inv(s) && Enabled(s, e)
    ensures OneNameEach(NewNames(s, e))
  {
    if e.Unname? {
      WithoutOneRemoves(s.names, e.o);
    } else if e.Publish? {
      assert s.tokens[Created(e.o)] >= 1;
    }
  }

  lemma NamesKept(s: State, e: Event)
    requires Inv(s) && Enabled(s, e)
    ensures
      var s' := Step(s, e);
      && (forall n :: n in s'.names ==> s'.names[n] < |s'.objects| && Guarded(s'.tokens, s'.slots, s'.names[n]))
      && OneNameEach(s'.names)
  {
    if !e.Create? {
      SubjectIsAlive(s, e);
    }
    var s' := Step(s, e);
    OneNameEachKept(s, e);
    forall n | n in s'.names
      ensures s'.names[n] < |s'.objects| && Guarded(s'.tokens, s'.slots, s'.names[n])
    {
      EntryKept(s, e, n);
    }
  }

  /** An object that has not been offered yet is not the one a step gives a name to. */
  lemma UnofferedStaysUnnamed(s: State, e: Event, o: nat)
    requires Inv(s) && Enabled(s, e) && !Named(s.names, o) && (e.Publish? ==> e.o != o)
    ensures !Named(NewNames(s, e), o)
  {
    if e.Unname? {
      WithoutOneRemoves(s.names, e.o);
    }
  }

  lemma CreatedKept(s: State, e: Event, o: nat)
    requires Inv(s) && Enabled(s, e) && (e.Create? || Subject(s, e) < |s.objects|)
    requires NewTokens(s, e)[Created(o)] >= 1
    ensures NewTokens(s, e)[Created(o)] == 1 && !Named(NewNames(s, e), o)
  {
    TokensConcernSubject(s, e);
    if e.Create? && o == |s.objects| {
      assert InHand(s.tokens, o) == 0;
      assert !Named(s.names, o);
    } else {
      assert Gained(s, e) != Some(Created(o));
      assert s.tokens[Created(o)] == 1;
      assert e.Publish? ==> e.o != o;
    }
    UnofferedStaysUnnamed(s, e, o);
  }

  lemma StepKeepsInv(s: State, e: Event)
    requires Inv(s)
    ensures Inv(Step(s, e))
  {
    if Enabled(s, e) {
      if !e.Create? {
        SubjectIsAlive(s, e);
      }
      CountsKept(s, e);
      NamesKept(s, e);
      forall o: nat | Step(s, e).tokens[Created(o)] >= 1
        ensures Step(s, e).tokens[Created(o)] == 1 && !Named(Step(s, e).names, o)
      {
        CreatedKept(s, e, o);
      }
    }
  }

  lemma {:induction false} RunKeepsInv(s: State, events: seq<Event>)
    requires Inv(s)
    ensures Inv(Run(s, events))
    decreases |events|
  {
    if events != [] {
      StepKeepsInv(s, events[0]);
      RunKeepsInv(Step(s, events[0]), events[1..]);
    }
  }

  // ----- what every run guarantees

  /** A name always leads to a live object that somebody else holds a reference to. */
  lemma NamesNeverDangle(events: seq<Event>, name: Name)
    requires name in Run(EMPTY, events).names
    ensures
      var s := Run(EMPTY, events);
      var o := s.names[name];
      o < |s.objects| && s.objects[o].alive && s.objects[o].pointerCount >= 1
  {
    InitialInv();
    RunKeepsInv(EMPTY, events);
    SubjectIsAlive(Run(EMPTY, events), FindName(name));
  }

  /** The pointer count is the number of pins, slots and releases under way; the handle count that of slots. */
  lemma CountsAreExact(events: seq<Event>, o: nat)
    requires o < |Run(EMPTY, events).objects|
    ensures
      var s := Run(EMPTY, events);
      && s.objects[o].pointerCount == InHand(s.tokens, o) + InSlots(s.slots, o)
      && s.objects[o].handleCount == InSlots(s.slots, o)
      && (s.objects[o].alive <==> s.objects[o].pointerCount > 0)
  {
    InitialInv();
    RunKeepsInv(EMPTY, events);
    assert Counted(Run(EMPTY, events).objects[o], Run(EMPTY, events).tokens, Run(EMPTY, events).slots, o);
  }

  /** No step of any run touches a deleted object, and a deleted object is never brought back. */
  lemma DeletedStaysUntouched(events: seq<Event>, e: Event, o: nat)
    requires o < |Run(EMPTY, events).objects| && !Run(EMPTY, events).objects[o].alive
    ensures
      var s := Run(EMPTY, events);
      && (Enabled(s, e) ==> Subject(s, e) != o)
      && o < |Step(s, e).objects| && Step(s, e).objects[o] == s.objects[o]
  {
    InitialInv();
    RunKeepsInv(EMPTY, events);
    var s := Run(EMPTY, events);
    if Enabled(s, e) && !e.Create? {
      SubjectIsAlive(s, e);
    }
  }

  // ----- what each step does, and what it leaves alone

  /** A name stays with its object until that object's own name is removed. */
  lemma NamesStay(s: State, e: Event, n: Name)
    requires n in s.names && !(e.Unname? && e.o == s.names[n])
    ensures n in Step(s, e).names && Step(s, e).names[n] == s.names[n]
  {
  }

  lemma {:induction false} NamesStayInRuns(s: State, events: seq<Event>, n: Name)
    requires n in s.names && Unname(s.names[n]) !in events
    ensures n in Run(s, events).names && Run(s, events).names[n] == s.names[n]
    decreases |events|
  {
    if events != [] {
      assert events[0] in events;
      NamesStay(s, events[0], n);
      NamesStayInRuns(Step(s, events[0]), events[1..], n);
    }
  }

  /** What an event does to the whole state. */
  ghost predicate Effect(s: State, e: Event, s': State)
    requires Inv(s) && Enabled(s, e)
  {
    match e
    case Create =>
      s' == s.(objects := s.objects + [Object(1, 0, true)], tokens := s.tokens + multiset{Created(|s.objects|)})
    case Publish(o, name) =>
      if name in s.names then s' == s.(tokens := s.tokens - multiset{Created(o)} + multiset{Pinned(o)})
      else s' == s.(names := s.names[name := o], tokens := s.tokens - multiset{Created(o)} + multiset{Published(o)})
    case FindName(name) => Pinning(s, s.names[name], s')
    case FindHandle(k) => Pinning(s, s.slots[k].value, s')
    case Alloc(token, k) =>
      && Counts(s, token.o, s', 0, 1) && s'.names == s.names && s'.tokens == s.tokens - multiset{token}
      && (if k == |s.slots| then s'.slots == s.slots + [Some(token.o)] else s'.slots == s.slots[k := Some(token.o)])
    case Drop(token) =>
      && Counts(s, token.o, s', -1, 0) && s'.tokens == s.tokens - multiset{token}
      && s'.names == s.names && s'.slots == s.slots
    case Clear(k) =>
      var o := s.slots[k].value;
      && Counts(s, o, s', 0, -1) && s'.slots == s.slots[k := None] && s'.names == s.names
      // the last handle: the name must be removed first
      && s'.tokens == s.tokens + multiset{if InSlots(s'.slots, o) == 0 then Zeroed(o) else Dropping(o)}
    case Unname(o) =>
      && s'.objects == s.objects && s'.slots == s.slots
      && s'.names == (map n | n in s.names && s.names[n] != o :: s.names[n])
      && s'.tokens == s.tokens - multiset{Zeroed(o)} + multiset{Dropping(o)}
    case Deref(o) =>
      && Counts(s, o, s', -1, 0) && s'.tokens == s.tokens - multiset{Dropping(o)}
      && s'.names == s.names && s'.slots == s.slots
  }

  /** Both counts of one object change by the given amounts; it is deleted when the pointer count reaches 0. */
  ghost predicate Counts(s: State, o: nat, s': State, pointers: int, handles: int) {
    && o < |s.objects|
    && var obj := s.objects[o];
       s'.objects == s.objects[o := Object(obj.pointerCount + pointers, obj.handleCount + handles,
                                           obj.pointerCount + pointers > 0)]
  }

  /** A lookup gives one more pin of the object found. */
  ghost predicate Pinning(s: State, o: nat, s': State) {
    Counts(s, o, s', 1, 0) && s'.tokens == s.tokens + multiset{Pinned(o)} && s'.names == s.names && s'.slots == s.slots
  }

  lemma PublishEffect(s: State, e: Event)
    requires Inv(s) && Enabled(s, e) && (e.Create? || e.Publish?)
    ensures Effect(s, e, Step(s, e))
  {
    if e.Publish? {
      SubjectIsAlive(s, e);
      assert s.objects[e.o := s.objects[e.o]] == s.objects;
    }
    assert s.tokens - multiset{} == s.tokens;
  }

  lemma FindEffect(s: State, e: Event)
    requires Inv(s) && Enabled(s, e) && (e.FindName? || e.FindHandle?)
    ensures Effect(s, e, Step(s, e))
  {
    SubjectIsAlive(s, e);
    assert Counted(s.objects[Subject(s, e)], s.tokens, s.slots, Subject(s, e));
    assert s.tokens - multiset{} == s.tokens;
  }

  lemma AllocEffect(s: State, e: Event)
    requires Inv(s) && Enabled(s, e) && e.Alloc?
    ensures Effect(s, e, Step(s, e))
  {
    SubjectIsAlive(s, e);
    assert Counted(s.objects[e.token.o], s.tokens, s.slots, e.token.o);
    assert s.tokens - multiset{e.token} + multiset{} == s.tokens - multiset{e.token};
  }

  lemma DropEffect(s: State, e: Event)
    requires Inv(s) && Enabled(s, e) && (e.Drop? || e.Deref?)
    ensures Effect(s, e, Step(s, e))
  {
    SubjectIsAlive(s, e);
    var token := if e.Drop? then e.token else Dropping(e.o);
    assert Counted(s.objects[token.o], s.tokens, s.slots, token.o);
    assert s.tokens - multiset{token} + multiset{} == s.tokens - multiset{token};
  }

  lemma ClearEffect(s: State, e: Event)
    requires Inv(s) && Enabled(s, e) && e.Clear?
    ensures Effect(s, e, Step(s, e))
  {
    SubjectIsAlive(s, e);
    var o := s.slots[e.k].value;
    assert Counted(s.objects[o], s.tokens, s.slots, o);
    SlotsChange(s, e);
    assert s.tokens - multiset{} == s.tokens;
  }

  lemma UnnameStepEffect(s: State, e: Event)
    requires Inv(s) && Enabled(s, e) && e.Unname?
    ensures Effect(s, e, Step(s, e))
  {
    SubjectIsAlive(s, e);
    UnnameEffect(s, e.o);
    assert s.objects[e.o := s.objects[e.o]] == s.objects;
  }

  lemma StepEffect(s: State, e: Event)
    requires Inv(s) && Enabled(s, e)
    ensures Effect(s, e, Step(s, e))
  {
    match e {
      case Create => PublishEffect(s, e);
      case Publish(_, _) => PublishEffect(s, e);
      case FindName(_) => FindEffect(s, e);
      case FindHandle(_) => FindEffect(s, e);
      case Alloc(_, _) => AllocEffect(s, e);
      case Drop(_) => DropEffect(s, e);
      case Clear(_) => ClearEffect(s, e);
      case Unname(_) => UnnameStepEffect(s, e);
      case Deref(_) => DropEffect(s, e);
    }
  }

  lemma UnnameEffect(s: State, o: nat)
    requires Inv(s)
    ensures WithoutOne(s.names, o) == map n | n in s.names && s.names[n] != o :: s.names[n]
  {
    WithoutOneRemoves(s.names, o);
    forall n | n in s.names && s.names[n] != o ensures n in WithoutOne(s.names, o) {
    }
  }

  /** Whatever a thread holds it can get rid of, and whatever is named or in a slot can be found. */
  lemma NothingGetsStuck(s: State, o: nat, name: Name, k: nat)
    ensures Created(o) in s.tokens ==> Enabled(s, Drop(Created(o))) && Enabled(s, Alloc(Created(o), |s.slots|))
    ensures Created(o) in s.tokens && name != [] ==> Enabled(s, Publish(o, name))
    ensures Published(o) in s.tokens ==> Enabled(s, Alloc(Published(o), |s.slots|))
    ensures Pinned(o) in s.tokens ==> Enabled(s, Drop(Pinned(o))) && Enabled(s, Alloc(Pinned(o), |s.slots|))
    ensures Zeroed(o) in s.tokens ==> Enabled(s, Unname(o))
    ensures Dropping(o) in s.tokens ==> Enabled(s, Deref(o))
    ensures name in s.names ==> Enabled(s, FindName(name))
    ensures k < |s.slots| && s.slots[k].Some? ==> Enabled(s, FindHandle(k)) && Enabled(s, Clear(k))
    ensures k < |s.slots| && s.slots[k].None? && Pinned(o) in s.tokens ==> Enabled(s, Alloc(Pinned(o), k))
  {
  }

  // ----- a published pin that is dropped instead of being given a handle

  /** The state once a published pin of `o` has been dropped, which no event does. */
  ghost function Abandon(s: State, o: nat): State
    requires o < |s.objects|
  {
    s.(objects := s.objects[o := Unref(s.objects[o])], tokens := s.tokens - multiset{Published(o)})
  }

  /** Some run finds a deleted object under the name. */
  ghost predicate MayDangle(s: State, name: Name) {
    exists events: seq<Event> :: Dangles(Run(s, events), name)
  }

  ghost predicate Dangles(s: State, name: Name) {
    name in s.names && (s.names[name] >= |s.objects| || !s.objects[s.names[name]].alive)
  }

  lemma AbandonCounts(s: State, o: nat, p: nat)
    requires Inv(s) && o < |s.objects| && Published(o) in s.tokens && p < |s.objects|
    ensures Counted(Abandon(s, o).objects[p], Abandon(s, o).tokens, s.slots, p)
  {
    assert Counted(s.objects[p], s.tokens, s.slots, p);
    if p == o {
      TakeOne(s.tokens, Published(o));
    } else {
      assert SameTokens(s.tokens, s.tokens - multiset{Published(o)}, p);
    }
  }

  lemma AbandonKeepsInv(s: State, o: nat)
    requires Inv(s) && o < |s.objects| && Published(o) in s.tokens
    requires Named(s.names, o) ==> Guarded(Abandon(s, o).tokens, s.slots, o)
    ensures Inv(Abandon(s, o))
  {
    var s' := Abandon(s, o);
    forall p | 0 <= p < |s'.objects| ensures Counted(s'.objects[p], s'.tokens, s'.slots, p) {
      AbandonCounts(s, o, p);
    }
    forall n | n in s'.names ensures s'.names[n] < |s'.objects| && Guarded(s'.tokens, s'.slots, s'.names[n]) {
      assert s.names[n] == o ==> Named(s.names, o);
      assert s.names[n] != o ==> SameTokens(s.tokens, s'.tokens, s.names[n]);
    }
    forall p: nat | p >= |s'.objects| ensures InHand(s'.tokens, p) == 0 && InSlots(s'.slots, p) == 0 {
      assert SameTokens(s.tokens, s'.tokens, p) && InHand(s.tokens, p) == 0 && InSlots(s.slots, p) == 0;
    }
    assert forall p: nat :: s'.tokens[Created(p)] == s.tokens[Created(p)];
  }

  /** A named object that nothing guards any more is deleted once the remaining pins are dropped. */
  lemma {:induction false} UnguardedDies(s: State, name: Name, o: nat) returns (events: seq<Event>)
    requires name in s.names && s.names[name] == o < |s.objects| && Counted(s.objects[o], s.tokens, s.slots, o)
    requires !Guarded(s.tokens, s.slots, o) && s.tokens[Created(o)] == 0
    ensures Dangles(Run(s, events), name)
    decreases s.objects[o].pointerCount
  {
    if s.objects[o].pointerCount == 0 {
      return [];
    }
    var token := if Pinned(o) in s.tokens then Pinned(o) else Dropping(o);
    var e := if Pinned(o) in s.tokens then Drop(Pinned(o)) else Deref(o);
    assert token in s.tokens && Spent(s, e) == Some(token) && Gained(s, e) == None;
    TakeOne(s.tokens, token);
    assert NewTokens(s, e) == s.tokens - multiset{token};
    var rest := UnguardedDies(Step(s, e), name, o);
    events := [e] + rest;
    assert events[0] == e && events[1..] == rest;
  }

  /**
   Dropping a published pin instead of giving it a handle: the named object is deleted at once
   exactly if that was the last reference, and some later run finds a deleted object under the
   name exactly if no slot, release or other published pin guards it.
   */
  lemma AbandonedNameDangles(before: seq<Event>, name: Name)
    requires name in Run(EMPTY, before).names
    requires Published(Run(EMPTY, before).names[name]) in Run(EMPTY, before).tokens
    ensures
      var s := Run(EMPTY, before);
      var o := s.names[name];
      && o < |s.objects|
      && (Dangles(Abandon(s, o), name) <==> s.objects[o].pointerCount == 1)
      && (MayDangle(Abandon(s, o), name) <==> !Guarded(Abandon(s, o).tokens, s.slots, o))
  {
    InitialInv();
    RunKeepsInv(EMPTY, before);
    var s := Run(EMPTY, before);
    var o := s.names[name];
    SubjectIsAlive(s, FindName(name));
    assert Counted(s.objects[o], s.tokens, s.slots, o);
    if Guarded(Abandon(s, o).tokens, s.slots, o) {
      AbandonKeepsInv(s, o);
      NeverDangles(Abandon(s, o), name);
    } else {
      UnguardedMayDangle(s, name);
    }
  }

  lemma UnguardedMayDangle(s: State, name: Name)
    requires Inv(s) && name in s.names && Published(s.names[name]) in s.tokens
    requires !Guarded(Abandon(s, s.names[name]).tokens, s.slots, s.names[name])
    ensures MayDangle(Abandon(s, s.names[name]), name)
  {
    var o := s.names[name];
    assert Named(s.names, o);
    AbandonCounts(s, o, o);
    var events := UnguardedDies(Abandon(s, o), name, o);
    assert Dangles(Run(Abandon(s, o), events), name);
  }

  lemma NeverDangles(s: State, name: Name)
    requires Inv(s)
    ensures !MayDangle(s, name)
  {
    forall events: seq<Event> ensures !Dangles(Run(s, events), name) {
      RunKeepsInv(s, events);
      NoDangling(Run(s, events), name);
    }
  }

  lemma NoDangling(s: State, name: Name)
    requires Inv(s)
    ensures !Dangles(s, name)
  {
    if name in s.names {
      SubjectIsAlive(s, FindName(name));
    }
  }

  /** Such a state is reachable: created, published, and nobody else knows. */
  lemma AbandonedNameExample(name: Name)
    requires name != []
    ensures
      var s := Run(EMPTY, [Create, Publish(0, name)]);
      && name in s.names && s.names[name] == 0 && |s.objects| == 1
      && Published(0) in s.tokens && Dangles(Abandon(s, 0), name)
  {
    var events := [Create, Publish(0, name)];
    var s1 := Step(EMPTY, Create);
    assert events[1..] == [Publish(0, name)] && events[1..][1..] == [];
    assert Run(EMPTY, events) == Run(s1, events[1..]) == Run(Step(s1, Publish(0, name)), []);
    assert Created(0) in s1.tokens;
  }
}
