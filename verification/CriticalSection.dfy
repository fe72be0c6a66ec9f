/**
 The critical section: LockCount, a ticket semaphore, and the recursion count, stepped
 atomically by any number of threads in any order.

 `WaitOnAddress` may return at any moment, so a parked thread may always look again. The
 spin loop before entering is a bounded number of TryEnter attempts; here it may stop after
 any failed one.
 */
module CriticalSections {
  import opened Counting

  /** What a thread does next. The names follow the shared word that the step touches. */
  datatype PC =
    | Idle
    | TryCas(spin: bool)
    | TryOwner(spin: bool)
    | TryCount
    | TryRecursion
    | SpinAgain
    | EnterCount
    | EnterOwner
    | EnterRecursion
    | WaitLoad
    | WaitCas(available: int)
    | WaitPark
    | Claim
    | ClaimRecursion
    | LeaveRecursion
    | LeaveCount
    | LeaveOwner
    | LeaveLast
    | LeaveSignal

  /** `depth` counts the enters that have returned and not yet been matched by a leave. */
  datatype Thread = Thread(pc: PC, depth: nat)

  /** The shared words. `owner == 0` means nobody. */
  datatype Words = Words(lockCount: int, owner: int, recursion: int, tickets: int)

  /** Thread `i` has the non-zero id `i + 1`. */
  datatype State = State(words: Words, threads: seq<Thread>)

  /** What an idle thread may call, and how a spinning one decides. Only owners call Leave. */
  datatype Choice = CallTryEnter | CallEnter(spin: bool) | CallLeave | Proceed | GiveUp

  /** One atomic step of a thread; a choice that does not apply changes nothing. */
  function Move(w: Words, id: int, t: Thread, choice: Choice): (Words, Thread) {
    match t.pc
    case Idle =>
      (match choice
       case CallTryEnter => (w, t.(pc := TryCas(false)))
       case CallEnter(spin) => (w, t.(pc := if spin then TryCas(true) else EnterCount))
       case CallLeave => (w, if t.depth > 0 then t.(pc := LeaveRecursion) else t)
       case _ => (w, t))
    // TryEnterCriticalSection
    case TryCas(spin) =>
      if w.lockCount == -1 then (w.(lockCount := 0), t.(pc := Claim)) else (w, t.(pc := TryOwner(spin)))
    case TryOwner(spin) =>
      (w, t.(pc := if w.owner == id then TryCount else if spin then SpinAgain else Idle))
    case TryCount => (w.(lockCount := w.lockCount + 1), t.(pc := TryRecursion))
    case TryRecursion => (w.(recursion := w.recursion + 1), Thread(Idle, t.depth + 1))
    case SpinAgain => (w, t.(pc := if choice.GiveUp? then EnterCount else TryCas(true)))
    // EnterCriticalSection
    case EnterCount =>
      var result := w.lockCount + 1;
      (w.(lockCount := result), t.(pc := if result != 0 then EnterOwner else Claim))
    case EnterOwner => (w, t.(pc := if w.owner == id then EnterRecursion else WaitLoad))
    case EnterRecursion => (w.(recursion := w.recursion + 1), Thread(Idle, t.depth + 1))
    case WaitLoad => (w, t.(pc := if w.tickets > 0 then WaitCas(w.tickets) else WaitPark))
    case WaitCas(available) =>
      if w.tickets == available then (w.(tickets := available - 1), t.(pc := Claim))
      else (w, t.(pc := WaitLoad))
    case WaitPark => (w, t.(pc := WaitLoad))
    case Claim => (w.(owner := id), t.(pc := ClaimRecursion))
    case ClaimRecursion => (w.(recursion := 1), Thread(Idle, 1))
    // LeaveCriticalSection
    case LeaveRecursion =>
      var count := w.recursion - 1;
      (w.(recursion := count), t.(pc := if count != 0 then LeaveCount else LeaveOwner))
    case LeaveCount =>
      (w.(lockCount := w.lockCount - 1), Thread(Idle, if t.depth > 0 then t.depth - 1 else 0))
    case LeaveOwner => (w.(owner := 0), t.(pc := LeaveLast))
    case LeaveLast =>
      var newValue := w.lockCount - 1;
      (w.(lockCount := newValue), Thread(if newValue >= 0 then LeaveSignal else Idle, 0))
    case LeaveSignal => (w.(tickets := w.tickets + 1), t.(pc := Idle))
  }

  function Step(s: State, i: nat, choice: Choice): State
    requires i < |s.threads|
  {
    var (words, t) := Move(s.words, i + 1, s.threads[i], choice);
    State(words, s.threads[i := t])
  }

  function Initial(n: nat): State {
    State(Words(-1, 0, 0, 0), seq(n, _ => Thread(Idle, 0)))
  }

  /** The state after a schedule: which thread moves, and its choice where it has one. */
  ghost function Run(s: State, schedule: seq<(nat, Choice)>): State
    decreases |schedule|
  {
    if schedule == [] then s
    else
      var (i, choice) := schedule[0];
      Run(if i < |s.threads| then Step(s, i, choice) else s, schedule[1..])
  }

  // ----- what each thread accounts for

  predicate Waiting(t: Thread) {
    t.pc.WaitLoad? || t.pc.WaitCas? || t.pc.WaitPark?
  }

  /** The thread has announced itself in LockCount and has not got the lock. */
  predicate Queued(t: Thread) {
    Waiting(t) || (t.pc.EnterOwner? && t.depth == 0)
  }

  /** How many units of `lockCount + 1` are due to this thread. */
  function Units(t: Thread): int {
    match t.pc
    case TryRecursion | EnterOwner | EnterRecursion => t.depth + 1
    case WaitLoad | WaitCas(_) | WaitPark | Claim | ClaimRecursion => 1
    case LeaveSignal => 0
    case _ => t.depth
  }

  /** 1 if the thread holds the right to run: it owns the lock, is claiming it, or is handing it on. */
  function Right(t: Thread): int {
    match t.pc
    case Claim | ClaimRecursion | LeaveSignal => 1
    case _ => if t.depth > 0 then 1 else 0
  }

  predicate NamedOwner(t: Thread) {
    t.pc.ClaimRecursion? || (t.depth > 0 && !t.pc.LeaveLast?)
  }

  /** The recursion count while this thread is inside. */
  function RecursionOf(t: Thread): int {
    match t.pc
    case LeaveCount => t.depth - 1
    case LeaveOwner | LeaveLast => 0
    case _ => t.depth
  }

  predicate WellFormed(t: Thread) {
    match t.pc
    case WaitCas(available) => available > 0 && t.depth == 0
    case WaitLoad | WaitPark | Claim | ClaimRecursion | LeaveSignal => t.depth == 0
    case TryCount | TryRecursion | EnterRecursion | LeaveRecursion => t.depth > 0
    case LeaveCount => t.depth > 1
    case LeaveOwner | LeaveLast => t.depth == 1
    case _ => true
  }

  function Free(w: Words): int {
    if w.lockCount == -1 then 1 else 0
  }

  ghost predicate Inv(s: State) {
    var w := s.words;
    && w.tickets >= 0
    && (forall i :: 0 <= i < |s.threads| ==> WellFormed(s.threads[i]))
    && Sum(s.threads, Units) == w.lockCount + 1
    && Sum(s.threads, Right) + w.tickets + Free(w) == 1
    && 0 <= w.owner <= |s.threads|
    && (forall i :: 0 <= i < |s.threads| ==> (w.owner == i + 1 <==> NamedOwner(s.threads[i])))
    && (forall i :: 0 <= i < |s.threads| && s.threads[i].depth > 0 ==> w.recursion == RecursionOf(s.threads[i]))
  }

  lemma InitialInv(n: nat)
    ensures Inv(Initial(n))
  {
    SumOfConstant(Initial(n).threads, Units, 0);
    SumOfConstant(Initial(n).threads, Right, 0);
  }

  /** Whoever holds the right to run is alone with it. */
  lemma SoleRight(s: State, i: nat)
    requires Inv(s) && i < |s.threads| && Right(s.threads[i]) == 1
    ensures s.words.tickets == 0 && s.words.lockCount != -1
    ensures forall j :: 0 <= j < |s.threads| && j != i ==> Right(s.threads[j]) == 0
  {
    SumNonNegative(s.threads, Right);
    forall j | 0 <= j < |s.threads| && j != i ensures Right(s.threads[j]) == 0 {
      SumOfTwo(s.threads, Right, if i < j then i else j, if i < j then j else i);
    }
  }

  lemma LockCountAtLeastOwnUnits(s: State, i: nat)
    requires Inv(s) && i < |s.threads|
    ensures Units(s.threads[i]) <= s.words.lockCount + 1
  {
    SumNonNegative(s.threads, Units);
  }

  /** The invariant as far as it concerns the shared words and thread `id`. */
  ghost predicate LocalInv(w: Words, id: int, t: Thread) {
    && WellFormed(t) && w.tickets >= 0 && id > 0
    && (w.owner == id <==> NamedOwner(t))
    && (t.depth > 0 ==> w.recursion == RecursionOf(t))
  }

  /** A step keeps its own thread's part, both balances, and the words it has no right to. */
  ghost predicate Sound(w: Words, id: int, t: Thread, w': Words, t': Thread) {
    && LocalInv(w', id, t')
    && w'.lockCount - w.lockCount == Units(t') - Units(t)
    && Right(t') + w'.tickets + Free(w') == Right(t) + w.tickets + Free(w)
    && (w'.owner != w.owner ==> Right(t) == 1 && (w'.owner == 0 || w'.owner == id))
    && (w'.recursion != w.recursion ==> Right(t) == 1)
  }

  lemma MoveIsSound(w: Words, id: int, t: Thread, choice: Choice)
    requires LocalInv(w, id, t) && Units(t) <= w.lockCount + 1
    ensures Sound(w, id, t, Move(w, id, t, choice).0, Move(w, id, t, choice).1)
  {
    match t.pc {
      case Idle => EnteringIsSound(w, id, t, choice);
      case TryCas(_) | TryOwner(_) | TryCount | TryRecursion | SpinAgain => EnteringIsSound(w, id, t, choice);
      case EnterCount | EnterOwner | EnterRecursion => QueueingIsSound(w, id, t, choice);
      case WaitLoad | WaitCas(_) | WaitPark | Claim | ClaimRecursion => WaitingIsSound(w, id, t, choice);
      case LeaveRecursion | LeaveCount | LeaveOwner | LeaveLast | LeaveSignal => LeavingIsSound(w, id, t, choice);
    }
  }

  lemma EnteringIsSound(w: Words, id: int, t: Thread, choice: Choice)
    requires LocalInv(w, id, t) && Units(t) <= w.lockCount + 1
    requires t.pc.Idle? || t.pc.TryCas? || t.pc.TryOwner? || t.pc.TryCount? || t.pc.TryRecursion? || t.pc.SpinAgain?
    ensures Sound(w, id, t, Move(w, id, t, choice).0, Move(w, id, t, choice).1)
  {
  }

  lemma QueueingIsSound(w: Words, id: int, t: Thread, choice: Choice)
    requires LocalInv(w, id, t) && Units(t) <= w.lockCount + 1
    requires t.pc.EnterCount? || t.pc.EnterOwner? || t.pc.EnterRecursion?
    ensures Sound(w, id, t, Move(w, id, t, choice).0, Move(w, id, t, choice).1)
  {
  }

  lemma WaitingIsSound(w: Words, id: int, t: Thread, choice: Choice)
    requires LocalInv(w, id, t) && Units(t) <= w.lockCount + 1
    requires Waiting(t) || t.pc.Claim? || t.pc.ClaimRecursion?
    ensures Sound(w, id, t, Move(w, id, t, choice).0, Move(w, id, t, choice).1)
  {
  }

  lemma LeavingIsSound(w: Words, id: int, t: Thread, choice: Choice)
    requires LocalInv(w, id, t) && Units(t) <= w.lockCount + 1
    requires t.pc.LeaveRecursion? || t.pc.LeaveCount? || t.pc.LeaveOwner? || t.pc.LeaveLast? || t.pc.LeaveSignal?
    ensures Sound(w, id, t, Move(w, id, t, choice).0, Move(w, id, t, choice).1)
  {
  }

  lemma StepKeepsInv(s: State, i: nat, choice: Choice)
    requires Inv(s) && i < |s.threads|
    ensures Inv(Step(s, i, choice))
  {
    var t, t' := s.threads[i], Step(s, i, choice).threads[i];
    LockCountAtLeastOwnUnits(s, i);
    MoveIsSound(s.words, i + 1, t, choice);
    SumUpdate(s.threads, Units, i, t');
    SumUpdate(s.threads, Right, i, t');
    if Right(t) == 1 {
      SoleRight(s, i);
    }
  }

  lemma {:induction false} RunKeepsInv(s: State, schedule: seq<(nat, Choice)>)
    requires Inv(s)
    ensures Inv(Run(s, schedule)) && |Run(s, schedule).threads| == |s.threads|
    decreases |schedule|
  {
    if schedule != [] {
      var (i, choice) := schedule[0];
      if i < |s.threads| {
        StepKeepsInv(s, i, choice);
        RunKeepsInv(Step(s, i, choice), schedule[1..]);
      } else {
        RunKeepsInv(s, schedule[1..]);
      }
    }
  }

  // ----- what every run guarantees

  /** Over every schedule, at most one thread is inside. */
  lemma MutualExclusion(n: nat, schedule: seq<(nat, Choice)>, i: nat, j: nat)
    requires i < n && j < n && i != j
    ensures |Run(Initial(n), schedule).threads| == n
    ensures
      var s := Run(Initial(n), schedule);
      !(s.threads[i].depth > 0 && s.threads[j].depth > 0)
  {
    InitialInv(n);
    RunKeepsInv(Initial(n), schedule);
    var s := Run(Initial(n), schedule);
    if s.threads[i].depth > 0 {
      SoleRight(s, i);
    }
  }

  /** The step of a thread at this point reads or writes RecursionCount, which has no atomic accesses. */
  predicate UsesRecursion(t: Thread) {
    t.pc.TryRecursion? || t.pc.EnterRecursion? || t.pc.ClaimRecursion? || t.pc.LeaveRecursion?
  }

  /** No other step depends on RecursionCount or changes it. */
  lemma OnlyTheseUseRecursion(w: Words, id: int, t: Thread, choice: Choice, other: int)
    requires !UsesRecursion(t)
    ensures
      var (w', t') := Move(w, id, t, choice);
      w'.recursion == w.recursion && Move(w.(recursion := other), id, t, choice) == (w'.(recursion := other), t')
  {
  }

  /** The step stores OwningThread. */
  predicate StoresOwner(t: Thread) {
    t.pc.Claim? || t.pc.LeaveOwner?
  }

  /** No two threads are ever both about to access RecursionCount or to store OwningThread. */
  lemma RecursionCountNeverRaces(n: nat, schedule: seq<(nat, Choice)>, i: nat, j: nat)
    requires i < n && j < n && i != j
    ensures |Run(Initial(n), schedule).threads| == n
    ensures
      var s := Run(Initial(n), schedule);
      !(&& (UsesRecursion(s.threads[i]) || StoresOwner(s.threads[i]))
        && (UsesRecursion(s.threads[j]) || StoresOwner(s.threads[j])))
  {
    InitialInv(n);
    RunKeepsInv(Initial(n), schedule);
    var s := Run(Initial(n), schedule);
    if UsesRecursion(s.threads[i]) || StoresOwner(s.threads[i]) {
      assert WellFormed(s.threads[i]);
      SoleRight(s, i);
    }
  }

  /** Exactly one right to run exists: the free lock, a ticket, or one thread. */
  lemma ExactlyOneRight(n: nat, schedule: seq<(nat, Choice)>)
    ensures
      var s := Run(Initial(n), schedule);
      s.words.tickets >= 0 && Sum(s.threads, Right) + s.words.tickets + Free(s.words) == 1
  {
    InitialInv(n);
    RunKeepsInv(Initial(n), schedule);
  }

  function QueuedCount(t: Thread): int {
    if Queued(t) then 1 else 0
  }

  /** Units that are neither a completed enter nor a queued one: an operation halfway through. */
  function InFlight(t: Thread): int {
    match t.pc
    case TryRecursion | EnterRecursion | Claim | ClaimRecursion => 1
    case EnterOwner => if t.depth > 0 then 1 else 0
    case _ => 0
  }

  /** `lockCount + 1` is the completed depth plus the queued entrants plus the operations halfway through. */
  lemma LockCountMeaning(n: nat, schedule: seq<(nat, Choice)>)
    ensures
      var s := Run(Initial(n), schedule);
      s.words.lockCount + 1 ==
      Sum(s.threads, (t: Thread) => t.depth) + Sum(s.threads, QueuedCount) + Sum(s.threads, InFlight)
  {
    InitialInv(n);
    RunKeepsInv(Initial(n), schedule);
    var s := Run(Initial(n), schedule);
    var depths := (t: Thread) => t.depth;
    var rest := (t: Thread) => QueuedCount(t) + InFlight(t);
    forall i | 0 <= i < |s.threads| ensures Units(s.threads[i]) == depths(s.threads[i]) + rest(s.threads[i]) {
      assert WellFormed(s.threads[i]);
    }
    SumSplits(s.threads, Units, depths, rest);
    SumSplits(s.threads, rest, QueuedCount, InFlight);
  }

  /** Between operations of its owner, the recursion count is the owner's depth. */
  lemma RecursionMeaning(n: nat, schedule: seq<(nat, Choice)>, i: nat)
    requires i < n
    ensures |Run(Initial(n), schedule).threads| == n
    ensures
      var s := Run(Initial(n), schedule);
      s.threads[i].pc.Idle? && s.threads[i].depth > 0 ==>
        && s.words.owner == i + 1 && s.words.recursion == s.threads[i].depth && s.words.tickets == 0
        && s.words.lockCount + 1 >= s.words.recursion
  {
    InitialInv(n);
    RunKeepsInv(Initial(n), schedule);
    var s := Run(Initial(n), schedule);
    LockCountAtLeastOwnUnits(s, i);
    if s.threads[i].depth > 0 {
      SoleRight(s, i);
    }
  }

  /** No wake-up is lost: a queued thread and nobody with the right to run means a ticket is there. */
  lemma NoLostWakeUp(n: nat, schedule: seq<(nat, Choice)>, i: nat)
    requires i < n
    ensures |Run(Initial(n), schedule).threads| == n
    ensures
      var s := Run(Initial(n), schedule);
      && Queued(s.threads[i])
      && (forall j :: 0 <= j < n ==> Right(s.threads[j]) == 0)
      ==> s.words.tickets == 1
  {
    InitialInv(n);
    RunKeepsInv(Initial(n), schedule);
    var s := Run(Initial(n), schedule);
    if Queued(s.threads[i]) && forall j :: 0 <= j < n ==> Right(s.threads[j]) == 0 {
      LockCountAtLeastOwnUnits(s, i);
      SumOfConstant(s.threads, Right, 0);
    }
  }

  // ----- what each call does when nobody interferes

  /** Thread `i` makes a choice and then takes `n` more steps alone. */
  function Alone(s: State, i: nat, first: Choice, n: nat): (r: State)
    requires i < |s.threads|
    ensures |r.threads| == |s.threads|
  {
    if n == 0 then Step(s, i, first) else Step(Alone(s, i, first, n - 1), i, Proceed)
  }

  /** The same as seen by the thread: the shared words and itself. */
  function Solo(w: Words, id: int, t: Thread, first: Choice, n: nat): (Words, Thread) {
    if n == 0 then Move(w, id, t, first)
    else
      var (w', t') := Solo(w, id, t, first, n - 1);
      Move(w', id, t', Proceed)
  }

  lemma {:induction false} AloneIsSolo(s: State, i: nat, first: Choice, n: nat)
    requires i < |s.threads|
    ensures
      var (w, t) := Solo(s.words, i + 1, s.threads[i], first, n);
      Alone(s, i, first, n) == State(w, s.threads[i := t])
  {
    if n > 0 {
      AloneIsSolo(s, i, first, n - 1);
    }
  }

  /** Thread `i` is idle and has entered `depth` times. */
  ghost predicate IdleAt(s: State, i: nat, depth: nat) {
    Inv(s) && i < |s.threads| && s.threads[i] == Thread(Idle, depth)
  }

  /** The state with these words, and thread `i` idle at this depth. */
  function Now(s: State, i: nat, w: Words, depth: nat): State
    requires i < |s.threads|
  {
    State(w, s.threads[i := Thread(Idle, depth)])
  }

  /** An owner's view of the shared words. */
  lemma OwnerSees(s: State, i: nat, depth: nat)
    requires IdleAt(s, i, depth) && depth > 0
    ensures s.words.owner == i + 1 && s.words.recursion == depth && s.words.lockCount >= depth - 1
    ensures s.words.tickets == 0
  {
    SoleRight(s, i);
    LockCountAtLeastOwnUnits(s, i);
    assert NamedOwner(s.threads[i]);
  }

  lemma SoloEnters(w: Words, id: int, call: Choice)
    requires w.lockCount == -1 && (call == CallTryEnter || call == CallEnter(true) || call == CallEnter(false))
    ensures Solo(w, id, Thread(Idle, 0), call, 3) == (Words(0, id, 1, w.tickets), Thread(Idle, 1))
  {
    var t := Thread(Idle, 0);
    assert Solo(w, id, t, call, 0).0 == w;
    assert Solo(w, id, t, call, 1) == (w.(lockCount := 0), Thread(Claim, 0));
    assert Solo(w, id, t, call, 2) == (w.(lockCount := 0, owner := id), Thread(ClaimRecursion, 0));
  }

  /** A free lock is entered at once, whichever call is used. */
  lemma FreeLockIsEntered(s: State, i: nat, call: Choice)
    requires IdleAt(s, i, 0) && s.words.lockCount == -1
    requires call == CallTryEnter || call == CallEnter(true) || call == CallEnter(false)
    ensures Alone(s, i, call, 3) == Now(s, i, Words(0, i + 1, 1, s.words.tickets), 1)
  {
    SoloEnters(s.words, i + 1, call);
    AloneIsSolo(s, i, call, 3);
  }

  lemma SoloTriesDeeper(w: Words, id: int, depth: nat, spin: bool)
    requires w.lockCount != -1 && w.owner == id
    ensures Solo(w, id, Thread(Idle, depth), if spin then CallEnter(true) else CallTryEnter, 4) ==
            (w.(lockCount := w.lockCount + 1, recursion := w.recursion + 1), Thread(Idle, depth + 1))
  {
    var t, call := Thread(Idle, depth), if spin then CallEnter(true) else CallTryEnter;
    assert Solo(w, id, t, call, 0) == (w, Thread(TryCas(spin), depth));
    assert Solo(w, id, t, call, 1) == (w, Thread(TryOwner(spin), depth));
    assert Solo(w, id, t, call, 2) == (w, Thread(TryCount, depth));
    assert Solo(w, id, t, call, 3) == (w.(lockCount := w.lockCount + 1), Thread(TryRecursion, depth));
  }

  lemma SoloEntersDeeper(w: Words, id: int, depth: nat)
    requires w.lockCount != -1 && w.owner == id
    ensures Solo(w, id, Thread(Idle, depth), CallEnter(false), 3) ==
            (w.(lockCount := w.lockCount + 1, recursion := w.recursion + 1), Thread(Idle, depth + 1))
  {
    var t, call := Thread(Idle, depth), CallEnter(false);
    assert Solo(w, id, t, call, 0) == (w, Thread(EnterCount, depth));
    assert Solo(w, id, t, call, 1) == (w.(lockCount := w.lockCount + 1), Thread(EnterOwner, depth));
    assert Solo(w, id, t, call, 2) == (w.(lockCount := w.lockCount + 1), Thread(EnterRecursion, depth));
  }

  /** The owner enters again at once. */
  lemma OwnerEntersAgain(s: State, i: nat, depth: nat)
    requires IdleAt(s, i, depth) && depth > 0
    ensures
      var w := s.words;
      var deeper := Now(s, i, Words(w.lockCount + 1, i + 1, depth + 1, w.tickets), depth + 1);
      && Alone(s, i, CallTryEnter, 4) == deeper
      && Alone(s, i, CallEnter(true), 4) == deeper
      && Alone(s, i, CallEnter(false), 3) == deeper
  {
    OwnerSees(s, i, depth);
    SoloTriesDeeper(s.words, i + 1, depth, false);
    SoloTriesDeeper(s.words, i + 1, depth, true);
    SoloEntersDeeper(s.words, i + 1, depth);
    AloneIsSolo(s, i, CallTryEnter, 4);
    AloneIsSolo(s, i, CallEnter(true), 4);
    AloneIsSolo(s, i, CallEnter(false), 3);
  }

  lemma SoloIsKeptOut(w: Words, id: int)
    requires w.lockCount >= 0 && w.owner != id
    ensures Solo(w, id, Thread(Idle, 0), CallTryEnter, 2) == (w, Thread(Idle, 0))
    ensures Solo(w, id, Thread(Idle, 0), CallEnter(false), 2) == (w.(lockCount := w.lockCount + 1), Thread(WaitLoad, 0))
    ensures Solo(w, id, Thread(Idle, 0), CallEnter(true), 2) == (w, Thread(SpinAgain, 0))
    ensures Solo(w, id, Thread(SpinAgain, 0), GiveUp, 2) == (w.(lockCount := w.lockCount + 1), Thread(WaitLoad, 0))
    ensures Solo(w, id, Thread(SpinAgain, 0), Proceed, 0) == (w, Thread(TryCas(true), 0))
  {
    var t, more := Thread(Idle, 0), w.(lockCount := w.lockCount + 1);
    assert Solo(w, id, t, CallTryEnter, 0) == (w, Thread(TryCas(false), 0));
    assert Solo(w, id, t, CallTryEnter, 1) == (w, Thread(TryOwner(false), 0));
    assert Solo(w, id, t, CallEnter(false), 0) == (w, Thread(EnterCount, 0));
    assert Solo(w, id, t, CallEnter(false), 1) == (more, Thread(EnterOwner, 0));
    assert Solo(w, id, t, CallEnter(true), 0) == (w, Thread(TryCas(true), 0));
    assert Solo(w, id, t, CallEnter(true), 1) == (w, Thread(TryOwner(true), 0));
    assert Solo(w, id, Thread(SpinAgain, 0), GiveUp, 0) == (w, Thread(EnterCount, 0));
    assert Solo(w, id, Thread(SpinAgain, 0), GiveUp, 1) == (more, Thread(EnterOwner, 0));
  }

  lemma HeldByAnother(s: State, i: nat)
    requires Inv(s) && i < |s.threads| && s.words.lockCount != -1
    requires s.threads[i] == Thread(Idle, 0) || s.threads[i] == Thread(SpinAgain, 0)
    ensures s.words.lockCount >= 0 && s.words.owner != i + 1
  {
    LockCountAtLeastOwnUnits(s, i);
    assert !NamedOwner(s.threads[i]);
  }

  /** While another thread holds the lock, TryEnter changes nothing. */
  lemma HeldLockIsNotEntered(s: State, i: nat)
    requires IdleAt(s, i, 0) && s.words.lockCount != -1
    ensures Alone(s, i, CallTryEnter, 2) == s
  {
    HeldByAnother(s, i);
    SoloIsKeptOut(s.words, i + 1);
    AloneIsSolo(s, i, CallTryEnter, 2);
    assert s.threads[i := s.threads[i]] == s.threads;
  }

  /** Meanwhile Enter queues up, or spins first. */
  lemma EnterQueues(s: State, i: nat)
    requires IdleAt(s, i, 0) && s.words.lockCount != -1
    ensures Alone(s, i, CallEnter(false), 2) ==
            State(s.words.(lockCount := s.words.lockCount + 1), s.threads[i := Thread(WaitLoad, 0)])
    ensures Alone(s, i, CallEnter(true), 2) == State(s.words, s.threads[i := Thread(SpinAgain, 0)])
  {
    HeldByAnother(s, i);
    SoloIsKeptOut(s.words, i + 1);
    AloneIsSolo(s, i, CallEnter(false), 2);
    AloneIsSolo(s, i, CallEnter(true), 2);
  }

  /** A spinning thread tries again, or gives up and queues. */
  lemma SpinnerQueues(s: State, i: nat)
    requires Inv(s) && i < |s.threads| && s.threads[i] == Thread(SpinAgain, 0) && s.words.lockCount != -1
    ensures Step(s, i, Proceed) == State(s.words, s.threads[i := Thread(TryCas(true), 0)])
    ensures Alone(s, i, GiveUp, 2) ==
            State(s.words.(lockCount := s.words.lockCount + 1), s.threads[i := Thread(WaitLoad, 0)])
  {
    HeldByAnother(s, i);
    SoloIsKeptOut(s.words, i + 1);
    AloneIsSolo(s, i, GiveUp, 2);
  }

  lemma SoloWaits(w: Words, id: int)
    ensures w.tickets > 0 ==>
              Solo(w, id, Thread(WaitLoad, 0), Proceed, 3) == (Words(w.lockCount, id, 1, w.tickets - 1), Thread(Idle, 1))
    ensures w.tickets == 0 ==> Solo(w, id, Thread(WaitLoad, 0), Proceed, 1) == (w, Thread(WaitLoad, 0))
  {
    var t := Thread(WaitLoad, 0);
    if w.tickets > 0 {
      assert Solo(w, id, t, Proceed, 0) == (w, Thread(WaitCas(w.tickets), 0));
      assert Solo(w, id, t, Proceed, 1) == (w.(tickets := w.tickets - 1), Thread(Claim, 0));
      assert Solo(w, id, t, Proceed, 2) == (w.(tickets := w.tickets - 1, owner := id), Thread(ClaimRecursion, 0));
    } else if w.tickets == 0 {
      assert Solo(w, id, t, Proceed, 0) == (w, Thread(WaitPark, 0));
    }
  }

  /** A queued thread takes an available ticket and with it the lock. */
  lemma TicketAdmits(s: State, i: nat)
    requires Inv(s) && i < |s.threads| && s.threads[i].pc == WaitLoad && s.words.tickets > 0
    ensures Alone(s, i, Proceed, 3) == Now(s, i, Words(s.words.lockCount, i + 1, 1, s.words.tickets - 1), 1)
  {
    assert WellFormed(s.threads[i]) && s.threads[i] == Thread(WaitLoad, 0);
    SoloWaits(s.words, i + 1);
    AloneIsSolo(s, i, Proceed, 3);
  }

  /** Without a ticket it looks again later. */
  lemma NoTicketNoChange(s: State, i: nat)
    requires Inv(s) && i < |s.threads| && s.threads[i].pc == WaitLoad && s.words.tickets == 0
    ensures Alone(s, i, Proceed, 1) == s
  {
    assert WellFormed(s.threads[i]) && s.threads[i] == Thread(WaitLoad, 0);
    SoloWaits(s.words, i + 1);
    AloneIsSolo(s, i, Proceed, 1);
    assert s.threads[i := s.threads[i]] == s.threads;
  }

  /** A lost race for a ticket leaves the ticket alone. */
  lemma LostTicketRace(s: State, i: nat)
    requires i < |s.threads| && s.threads[i].pc.WaitCas? && s.threads[i].pc.available != s.words.tickets
    ensures Step(s, i, Proceed) == State(s.words, s.threads[i := s.threads[i].(pc := WaitLoad)])
  {
  }

  lemma SoloLeaves(w: Words, id: int, depth: nat)
    requires depth > 0 && w.recursion == depth
    ensures depth > 1 ==> Solo(w, id, Thread(Idle, depth), CallLeave, 2) ==
                          (w.(lockCount := w.lockCount - 1, recursion := depth - 1), Thread(Idle, depth - 1))
    ensures depth == 1 && w.lockCount == 0 ==>
              Solo(w, id, Thread(Idle, depth), CallLeave, 3) == (Words(-1, 0, 0, w.tickets), Thread(Idle, 0))
    ensures depth == 1 && w.lockCount > 0 ==>
              Solo(w, id, Thread(Idle, depth), CallLeave, 4) == (Words(w.lockCount - 1, 0, 0, w.tickets + 1), Thread(Idle, 0))
  {
    var t := Thread(Idle, depth);
    assert Solo(w, id, t, CallLeave, 0) == (w, Thread(LeaveRecursion, depth));
    if depth > 1 {
      assert Solo(w, id, t, CallLeave, 1) == (w.(recursion := depth - 1), Thread(LeaveCount, depth));
    } else {
      assert Solo(w, id, t, CallLeave, 1) == (w.(recursion := 0), Thread(LeaveOwner, 1));
      assert Solo(w, id, t, CallLeave, 2) == (w.(recursion := 0, owner := 0), Thread(LeaveLast, 1));
      if w.lockCount > 0 {
        assert Solo(w, id, t, CallLeave, 3) == (Words(w.lockCount - 1, 0, 0, w.tickets), Thread(LeaveSignal, 0));
      }
    }
  }

  /** An inner leave undoes one enter. */
  lemma InnerLeave(s: State, i: nat, depth: nat)
    requires IdleAt(s, i, depth) && depth > 1
    ensures Alone(s, i, CallLeave, 2) ==
            Now(s, i, Words(s.words.lockCount - 1, i + 1, depth - 1, s.words.tickets), depth - 1)
  {
    OwnerSees(s, i, depth);
    SoloLeaves(s.words, i + 1, depth);
    AloneIsSolo(s, i, CallLeave, 2);
  }

  /** The outermost leave frees the lock, or issues one ticket if anybody is queued. */
  lemma OuterLeave(s: State, i: nat)
    requires IdleAt(s, i, 1)
    ensures s.words.lockCount == 0 ==> Alone(s, i, CallLeave, 3) == Now(s, i, Words(-1, 0, 0, s.words.tickets), 0)
    ensures s.words.lockCount > 0 ==>
              Alone(s, i, CallLeave, 4) == Now(s, i, Words(s.words.lockCount - 1, 0, 0, s.words.tickets + 1), 0)
    ensures s.words.lockCount >= 0
  {
    OwnerSees(s, i, 1);
    SoloLeaves(s.words, i + 1, 1);
    AloneIsSolo(s, i, CallLeave, 3);
    AloneIsSolo(s, i, CallLeave, 4);
  }
}
