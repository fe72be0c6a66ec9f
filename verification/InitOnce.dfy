/**
 One-time initialisation: InitOnceBeginInitialize and InitOnceComplete on one INIT_ONCE word,
 stepped atomically by any number of threads in any order. Only a thread that was told
 "pending" calls InitOnceComplete, with whatever arguments it likes.
 */
module InitOnce {
  import opened Wrappers
  import opened Counting

  /** The object waiters of one synchronous round block on; its three fields change under its mutex. */
  datatype Sync = Sync(completed: bool, success: bool, context: int)

  /** `failed` and `async` are the flags, `context` the pointer-sized value to publish. */
  datatype Args = Args(failed: bool, async: bool, context: int)

  datatype PC =
    | Idle
    | CheckLoad
    | BeginLoad(async: bool)
    | BeginCas(async: bool)
    | BeginInsert(round: nat)
    | BeginLookup
    | BeginWait(round: nat)
    | CompleteLoad(args: Args)
    | CompleteLookup(args: Args, val: int)
    | CompleteCas(args: Args, val: int, round: nat)
    | CompletePublish(args: Args, round: nat)
    | CompleteErase(failed: bool)
    | CompleteAsyncCas(args: Args, val: int)

  /** What the thread was last told by a begin call and has not discharged. */
  datatype Pending = NotPending | SyncPending | AsyncPending

  datatype Thread = Thread(pc: PC, pending: Pending)

  /**
   The state word (0 fresh, 1 synchronous round, 3 asynchronous round, context + 2 completed),
   the entry of the state map for this word, and every state object made so far. `completion`
   and `reports` record the published context and what "not pending" begin calls returned.
   */
  datatype Words = Words(word: int, entry: Option<nat>, syncs: seq<Sync>, completion: Option<int>, reports: seq<int>)

  datatype State = State(words: Words, threads: seq<Thread>)

  datatype Choice = CallBegin(async: bool) | CallCheck | CallComplete(args: Args) | Proceed

  predicate Acceptable(args: Args) {
    if args.failed then args.context == 0 && !args.async else args.context % 4 == 0
  }

  function FinalValue(args: Args): int {
    if args.failed then 0 else args.context + 2
  }

  function Report(w: Words, context: int): Words {
    w.(reports := w.reports + [context])
  }

  /** One atomic step of a thread; a choice that does not apply changes nothing. */
  function Move(w: Words, t: Thread, choice: Choice): (Words, Thread) {
    match t.pc
    case Idle =>
      (match choice
       case CallBegin(async) => (w, t.(pc := BeginLoad(async)))
       case CallCheck => (w, t.(pc := CheckLoad))
       case CallComplete(args) =>
         (w, if t.pending != NotPending && Acceptable(args) then t.(pc := CompleteLoad(args)) else t)
       case Proceed => (w, t))
    case CheckLoad =>
      (if w.word % 4 == 2 then Report(w, w.word - 2) else w, t.(pc := Idle))
    // InitOnceBeginInitialize
    case BeginLoad(async) =>
      if w.word % 4 == 0 then (w, t.(pc := BeginCas(async)))
      else if w.word % 4 == 1 then (w, t.(pc := if async then Idle else BeginLookup))
      else if w.word % 4 == 2 then (Report(w, w.word - 2), t.(pc := Idle))
      else if async then (w, Thread(Idle, AsyncPending))
      else (w, t.(pc := Idle))
    case BeginCas(async) =>
      if w.word != 0 then (w, t.(pc := BeginLoad(async)))
      else if async then (w.(word := 3), Thread(Idle, AsyncPending))
      else (w.(word := 1, syncs := w.syncs + [Sync(false, false, 0)]), t.(pc := BeginInsert(|w.syncs|)))
    case BeginInsert(round) => (w.(entry := Some(round)), Thread(Idle, SyncPending))
    case BeginLookup =>
      (w, t.(pc := if w.entry.None? then BeginLoad(false) else BeginWait(w.entry.value)))
    case BeginWait(round) =>
      if round >= |w.syncs| || !w.syncs[round].completed then (w, t)
      else if !w.syncs[round].success then (w, t.(pc := BeginLoad(false)))
      else (Report(w, w.syncs[round].context), t.(pc := Idle))
    // InitOnceComplete
    case CompleteLoad(args) =>
      if w.word % 4 == 1 then (w, t.(pc := CompleteLookup(args, w.word)))
      else if w.word % 4 == 3 && args.async then (w, t.(pc := CompleteAsyncCas(args, w.word)))
      else (w, t.(pc := Idle))
    case CompleteLookup(args, val) =>
      (w, t.(pc := if w.entry.None? then Idle else CompleteCas(args, val, w.entry.value)))
    case CompleteCas(args, val, round) =>
      if w.word != val then (w, t.(pc := CompleteLoad(args)))
      else (w.(word := FinalValue(args), completion := if args.failed then w.completion else Some(args.context)),
            Thread(CompletePublish(args, round), NotPending))
    case CompletePublish(args, round) =>
      (if round < |w.syncs|
       then w.(syncs := w.syncs[round := Sync(true, !args.failed, if args.failed then 0 else args.context)])
       else w,
       t.(pc := CompleteErase(args.failed)))
    case CompleteErase(_) => (w.(entry := None), t.(pc := Idle))
    case CompleteAsyncCas(args, val) =>
      if w.word != val then (w, t.(pc := CompleteLoad(args)))
      else (w.(word := FinalValue(args), completion := if args.failed then w.completion else Some(args.context)),
            Thread(Idle, NotPending))
  }

  function Step(s: State, i: nat, choice: Choice): State
    requires i < |s.threads|
  {
    var (words, t) := Move(s.words, s.threads[i], choice);
    State(words, s.threads[i := t])
  }

  function Initial(n: nat): State {
    State(Words(0, None, [], None, []), seq(n, _ => Thread(Idle, NotPending)))
  }

  type Schedule = seq<(nat, Choice)>

  ghost function Run(s: State, schedule: Schedule): State
    decreases |schedule|
  {
    if schedule == [] then s
    else
      var (i, choice) := schedule[0];
      Run(if i < |s.threads| then Step(s, i, choice) else s, schedule[1..])
  }

  // ----- the invariant

  /** 1 if the thread is the initialiser of a synchronous round. */
  function Holds(t: Thread): int {
    (if t.pc.BeginInsert? then 1 else 0) + (if t.pending == SyncPending then 1 else 0)
  }

  function InSyncRound(w: Words): int {
    if w.word == 1 then 1 else 0
  }

  ghost predicate WordInv(w: Words) {
    && (w.word == 0 || w.word == 1 || w.word == 3 || w.word % 4 == 2)
    && (w.word % 4 == 2 <==> w.completion.Some?)
    && (w.completion.Some? ==> w.word == w.completion.value + 2)
    && (forall r :: 0 <= r < |w.syncs| && w.syncs[r].success ==> w.completion == Some(w.syncs[r].context))
    && (forall k :: 0 <= k < |w.reports| ==> w.completion == Some(w.reports[k]))
  }

  predicate Completing(pc: PC) {
    pc.CompleteLoad? || pc.CompleteLookup? || pc.CompleteCas? || pc.CompleteAsyncCas?
  }

  ghost predicate ThreadInv(w: Words, t: Thread) {
    && (t.pending == AsyncPending ==> w.word == 3 || w.word % 4 == 2)
    && (Completing(t.pc) ==> t.pending != NotPending && Acceptable(t.pc.args))
    && (t.pc.CompleteLookup? || t.pc.CompleteCas? ==> t.pc.val % 4 == 1)
    && (t.pc.CompleteAsyncCas? ==> t.pc.val % 4 == 3 && t.pc.args.async)
    && (t.pc.CompletePublish? && !t.pc.args.failed ==> w.completion == Some(t.pc.args.context))
    && (t.pc.CompleteErase? && !t.pc.failed ==> w.completion.Some?)
  }

  ghost predicate Inv(s: State) {
    && WordInv(s.words)
    && (forall i :: 0 <= i < |s.threads| ==> ThreadInv(s.words, s.threads[i]))
    && Sum(s.threads, Holds) == InSyncRound(s.words)
  }

  /** What a step may do to the words that other threads' parts of the invariant speak about. */
  ghost predicate Compatible(w: Words, w': Words) {
    && (w.completion.Some? ==> w'.completion == w.completion && w'.word == w.word)
    && (w.word == 3 ==> w'.word == 3 || w'.word % 4 == 2)
  }

  /** What one move keeps. */
  ghost predicate SoundMove(w: Words, t: Thread, w': Words, t': Thread) {
    && WordInv(w') && ThreadInv(w', t') && Compatible(w, w')
    && Holds(t') - Holds(t) == InSyncRound(w') - InSyncRound(w)
  }

  predicate InBegin(pc: PC) {
    pc.BeginLoad? || pc.BeginCas? || pc.BeginInsert? || pc.BeginLookup? || pc.BeginWait?
  }

  lemma BeginIsSound(w: Words, t: Thread, choice: Choice)
    requires WordInv(w) && ThreadInv(w, t) && Holds(t) <= InSyncRound(w) && InBegin(t.pc)
    ensures var (w', t') := Move(w, t, choice); SoundMove(w, t, w', t')
  {
  }

  lemma SwapIsSound(w: Words, t: Thread, choice: Choice)
    requires WordInv(w) && ThreadInv(w, t) && Holds(t) <= InSyncRound(w)
    requires t.pc.CompleteAsyncCas? || t.pc.CompleteCas?
    ensures var (w', t') := Move(w, t, choice); SoundMove(w, t, w', t')
  {
    assert Acceptable(t.pc.args);
  }

  lemma CompleteIsSound(w: Words, t: Thread, choice: Choice)
    requires WordInv(w) && ThreadInv(w, t) && Holds(t) <= InSyncRound(w)
    requires !InBegin(t.pc) && !t.pc.CompleteAsyncCas? && !t.pc.CompleteCas?
    ensures var (w', t') := Move(w, t, choice); SoundMove(w, t, w', t')
  {
  }

  lemma MoveIsSound(w: Words, t: Thread, choice: Choice)
    requires WordInv(w) && ThreadInv(w, t) && Holds(t) <= InSyncRound(w)
    ensures var (w', t') := Move(w, t, choice); SoundMove(w, t, w', t')
  {
    if InBegin(t.pc) {
      BeginIsSound(w, t, choice);
    } else if t.pc.CompleteAsyncCas? || t.pc.CompleteCas? {
      SwapIsSound(w, t, choice);
    } else {
      CompleteIsSound(w, t, choice);
    }
  }

  lemma StepKeepsInv(s: State, i: nat, choice: Choice)
    requires Inv(s) && i < |s.threads|
    ensures Inv(Step(s, i, choice))
    ensures Compatible(s.words, Step(s, i, choice).words)
  {
    SumNonNegative(s.threads, Holds);
    MoveIsSound(s.words, s.threads[i], choice);
    SumUpdate(s.threads, Holds, i, Step(s, i, choice).threads[i]);
  }

  lemma InitialInv(n: nat)
    ensures Inv(Initial(n))
  {
    SumOfConstant(Initial(n).threads, Holds, 0);
  }

  lemma {:induction false} RunKeepsInv(s: State, schedule: Schedule)
    requires Inv(s)
    ensures Inv(Run(s, schedule)) && |Run(s, schedule).threads| == |s.threads|
    ensures s.words.completion.Some? ==>
              Run(s, schedule).words.completion == s.words.completion && Run(s, schedule).words.word == s.words.word
    decreases |schedule|
  {
    if schedule != [] {
      var (i, choice) := schedule[0];
      if i < |s.threads| {
        StepKeepsInv(s, i, choice);
        RunKeepsInv(Step(s, i, choice), schedule[1..]);
      } else {
        RunKeepsInv(s, schedule[1..]);
      }
    }
  }

  // ----- safety of every run

  /** At most one thread at a time is the initialiser of a synchronous round, and only while the word says so. */
  lemma OneSynchronousInitialiser(n: nat, schedule: Schedule, i: nat, j: nat)
    requires i < n && j < n
    ensures |Run(Initial(n), schedule).threads| == n
    ensures
      var s := Run(Initial(n), schedule);
      s.threads[i].pending == SyncPending ==>
        s.words.word == 1 && (s.threads[j].pending == SyncPending ==> i == j)
  {
    InitialInv(n);
    RunKeepsInv(Initial(n), schedule);
    var s := Run(Initial(n), schedule);
    if s.threads[i].pending == SyncPending {
      SumNonNegative(s.threads, Holds);
      if s.threads[j].pending == SyncPending && i != j {
        SumOfTwo(s.threads, Holds, if i < j then i else j, if i < j then j else i);
      }
    }
  }

  lemma {:induction false} RunAppends(s: State, a: Schedule, b: Schedule)
    ensures Run(s, a + b) == Run(Run(s, a), b)
    decreases |a|
  {
    if a == [] {
      assert a + b == b;
    } else {
      var (i, choice) := a[0];
      assert (a + b)[1..] == a[1..] + b;
      RunAppends(if i < |s.threads| then Step(s, i, choice) else s, a[1..], b);
    }
  }

  /** Once completed, the word never changes again, whatever follows. */
  lemma CompletedOnce(n: nat, before: Schedule, after: Schedule)
    ensures
      var s := Run(Initial(n), before).words;
      s.word % 4 == 2 ==>
        && s.completion == Some(s.word - 2)
        && Run(Initial(n), before + after).words.word == s.word
        && Run(Initial(n), before + after).words.completion == s.completion
  {
    InitialInv(n);
    RunKeepsInv(Initial(n), before);
    RunAppends(Initial(n), before, after);
    RunKeepsInv(Run(Initial(n), before), after);
  }

  /** Every begin or check call that reported "not pending" returned the one published context. */
  lemma ReportsAgree(n: nat, schedule: Schedule, k: nat)
    requires k < |Run(Initial(n), schedule).words.reports|
    ensures
      var w := Run(Initial(n), schedule).words;
      w.completion == Some(w.reports[k]) && w.word == w.reports[k] + 2
  {
    InitialInv(n);
    RunKeepsInv(Initial(n), schedule);
  }

  // ----- a failing completion can erase the state of the round that follows it

  /** The initialiser `h` of the running round can no longer find its state. */
  ghost predicate Stuck(s: State, h: nat) {
    && Inv(s) && s.words.word == 1 && s.words.entry.None?
    && h < |s.threads| && s.threads[h].pending == SyncPending && !s.threads[h].pc.CompleteCas?
  }

  /** In a synchronous round nobody but the initialiser is inserting or completing. */
  lemma OnlyTheInitialiser(s: State, h: nat, i: nat)
    requires Inv(s) && s.words.word == 1
    requires h < |s.threads| && s.threads[h].pending == SyncPending
    requires i < |s.threads| && i != h
    ensures !s.threads[i].pc.BeginInsert? && s.threads[i].pending == NotPending && !Completing(s.threads[i].pc)
    ensures !s.threads[h].pc.BeginInsert?
  {
    SumNonNegative(s.threads, Holds);
    SumOfTwo(s.threads, Holds, if i < h then i else h, if i < h then h else i);
    assert ThreadInv(s.words, s.threads[i]);
  }

  lemma StuckStep(s: State, h: nat, i: nat, choice: Choice)
    requires Stuck(s, h) && i < |s.threads|
    ensures Stuck(Step(s, i, choice), h)
  {
    StepKeepsInv(s, i, choice);
    if i != h {
      OnlyTheInitialiser(s, h, i);
    } else {
      SumNonNegative(s.threads, Holds);
      assert ThreadInv(s.words, s.threads[i]);
    }
  }

  /** Nothing ever frees a stuck word: no schedule completes it. */
  lemma {:induction false} StuckForever(s: State, h: nat, schedule: Schedule)
    requires Stuck(s, h)
    ensures Stuck(Run(s, schedule), h)
    decreases |schedule|
  {
    if schedule != [] {
      var (i, choice) := schedule[0];
      if i < |s.threads| {
        StuckStep(s, h, i, choice);
        StuckForever(Step(s, i, choice), h, schedule[1..]);
      } else {
        StuckForever(s, h, schedule[1..]);
      }
    }
  }

  /** A completer of a failed round that has reset the word and not yet erased the map entry. */
  predicate FailingCompleter(t: Thread) {
    (t.pc.CompletePublish? && t.pc.args.failed) || (t.pc.CompleteErase? && t.pc.failed)
  }

  lemma RunOne(s: State, i: nat, choice: Choice)
    requires i < |s.threads|
    ensures Run(s, [(i, choice)]) == Step(s, i, choice)
  {
    var one: Schedule := [(i, choice)];
    assert one[0] == (i, choice) && one[1..] == [];
    assert Run(s, one) == Run(Step(s, i, choice), one[1..]);
  }

  lemma EraseLosesTheRound(s: State, h: nat, e: nat)
    requires Inv(s) && h < |s.threads| && e < |s.threads| && h != e
    requires s.threads[h].pending == SyncPending && !s.threads[h].pc.CompleteCas?
    requires s.threads[e].pc.CompleteErase?
    ensures Stuck(Step(s, e, Proceed), h)
  {
    SumNonNegative(s.threads, Holds);
    StepKeepsInv(s, e, Proceed);
  }

  /** The word says "in progress" all along: the run stays within one synchronous round. */
  ghost predicate SameRound(s: State, schedule: Schedule)
    decreases |schedule|
  {
    && s.words.word == 1
    && (schedule == [] ||
        var (i, choice) := schedule[0];
        SameRound(if i < |s.threads| then Step(s, i, choice) else s, schedule[1..]))
  }

  lemma SameRoundFirst(s: State, i: nat, choice: Choice, rest: Schedule)
    requires i < |s.threads| && s.words.word == 1
    ensures SameRound(s, [(i, choice)] + rest) <==> SameRound(Step(s, i, choice), rest)
    ensures Run(s, [(i, choice)] + rest) == Run(Step(s, i, choice), rest)
  {
    var schedule: Schedule := [(i, choice)] + rest;
    assert schedule[0] == (i, choice) && schedule[1..] == rest;
  }

  /** Once a round has been announced while such a completer is in flight, its remaining steps lose the round. */
  lemma OverlapLosesTheRound(s: State, h: nat, e: nat) returns (schedule: Schedule)
    requires Inv(s) && h < |s.threads| && e < |s.threads| && h != e
    requires s.threads[h].pending == SyncPending && !s.threads[h].pc.CompleteCas?
    requires FailingCompleter(s.threads[e])
    ensures SameRound(s, schedule) && Stuck(Run(s, schedule), h)
  {
    SumNonNegative(s.threads, Holds);
    if s.threads[e].pc.CompleteErase? {
      EraseLosesTheRound(s, h, e);
      SameRoundFirst(s, e, Proceed, []);
      schedule := [(e, Proceed)] + [];
    } else {
      var s1 := Step(s, e, Proceed);
      StepKeepsInv(s, e, Proceed);
      EraseLosesTheRound(s1, h, e);
      SameRoundFirst(s1, e, Proceed, []);
      SameRoundFirst(s, e, Proceed, [(e, Proceed)] + []);
      schedule := [(e, Proceed)] + ([(e, Proceed)] + []);
    }
  }

  /** Thread `i` is about to start a synchronous round. */
  ghost predicate Starting(s: State, i: nat) {
    Inv(s) && i < |s.threads| && s.threads[i].pc == BeginCas(false) && s.words.word == 0
  }

  /** Some way for the round that `i` starts now to go on leaves `i` without its state for good. */
  ghost predicate CanLoseRound(s: State, i: nat)
    requires i < |s.threads|
  {
    exists schedule: Schedule ::
      SameRound(Step(s, i, Proceed), schedule) && Stuck(Run(Step(s, i, Proceed), schedule), i)
  }

  lemma OverlapCanLose(s: State, i: nat, e: nat)
    requires Starting(s, i) && e < |s.threads| && FailingCompleter(s.threads[e])
    ensures CanLoseRound(s, i)
  {
    var s1 := Step(s, i, Proceed);
    StepKeepsInv(s, i, Proceed);
    var s2 := Step(s1, i, Proceed);
    StepKeepsInv(s1, i, Proceed);
    var rest := OverlapLosesTheRound(s2, i, e);
    SameRoundFirst(s1, i, Proceed, rest);
    assert SameRound(s1, [(i, Proceed)] + rest) && Stuck(Run(s1, [(i, Proceed)] + rest), i);
  }

  /** A round can be lost exactly if it starts while a failing completer is in flight. */
  lemma RoundCanBeLostIff(s: State, i: nat)
    requires Starting(s, i)
    ensures CanLoseRound(s, i) <==> exists e :: 0 <= e < |s.threads| && FailingCompleter(s.threads[e])
  {
    if e :| 0 <= e < |s.threads| && FailingCompleter(s.threads[e]) {
      OverlapCanLose(s, i, e);
    } else {
      forall schedule: Schedule | SameRound(Step(s, i, Proceed), schedule)
        ensures !Stuck(Run(Step(s, i, Proceed), schedule), i)
      {
        InitialiserFindsItsState(s, i, schedule);
      }
    }
  }

  /** An initialiser's completion, run without interruption, succeeds exactly when the map still has an entry. */
  lemma CompletionNeedsTheEntry(s: State, h: nat, args: Args)
    requires Inv(s) && h < |s.threads| && s.threads[h] == Thread(Idle, SyncPending) && Acceptable(args)
    ensures
      var s' := StepFour(s, h, CallComplete(args));
      && (s.words.entry.Some? ==> s'.words.word == FinalValue(args) && s'.threads[h].pending == NotPending)
      && (s.words.entry.None? ==> s'.words == s.words && s'.threads[h] == s.threads[h])
  {
    SumNonNegative(s.threads, Holds);
    assert s.words.word == 1;
  }

  ghost predicate FindableInv(s: State) {
    && Inv(s)
    && (s.words.word == 1 ==> forall j :: 0 <= j < |s.threads| ==> !FailingCompleter(s.threads[j]))
    && (forall j :: 0 <= j < |s.threads| && s.threads[j].pending == SyncPending ==> s.words.entry.Some?)
  }

  /** Within a round a step adds no failing completer while it lasts, and keeps the entry for a pending initialiser. */
  lemma FindableMove(w: Words, t: Thread, choice: Choice)
    requires w.word == 1 && !t.pc.CompleteErase? && !FailingCompleter(t)
    ensures
      var (w', t') := Move(w, t, choice);
      && (w'.word == 1 ==> !FailingCompleter(t'))
      && (w.entry.Some? ==> w'.entry.Some?)
      && (t'.pending == SyncPending ==> t.pending == SyncPending || w'.entry.Some?)
  {
  }

  lemma FindableStep(s: State, i: nat, choice: Choice)
    requires FindableInv(s) && i < |s.threads| && s.words.word == 1
    ensures FindableInv(Step(s, i, choice))
  {
    StepKeepsInv(s, i, choice);
    assert ThreadInv(s.words, s.threads[i]) && !FailingCompleter(s.threads[i]);
    FindableMove(s.words, s.threads[i], choice);
  }

  /** A round that starts without such overlap: at every moment of it the initialiser finds its state. */
  lemma InitialiserFindsItsState(s: State, i: nat, schedule: Schedule)
    requires Starting(s, i) && forall e :: 0 <= e < |s.threads| ==> !FailingCompleter(s.threads[e])
    requires SameRound(Step(s, i, Proceed), schedule)
    ensures i < |Run(Step(s, i, Proceed), schedule).threads|
    ensures
      var s' := Run(Step(s, i, Proceed), schedule);
      s'.threads[i].pending == SyncPending ==> s'.words.entry.Some?
  {
    StepKeepsInv(s, i, Proceed);
    SumNonNegative(s.threads, Holds);
    FindableRun(Step(s, i, Proceed), schedule);
  }

  lemma {:induction false} FindableRun(s: State, schedule: Schedule)
    requires FindableInv(s) && SameRound(s, schedule)
    ensures FindableInv(Run(s, schedule)) && |Run(s, schedule).threads| == |s.threads|
    decreases |schedule|
  {
    if schedule != [] {
      var (i, choice) := schedule[0];
      if i < |s.threads| {
        FindableStep(s, i, choice);
        FindableRun(Step(s, i, choice), schedule[1..]);
      } else {
        FindableRun(s, schedule[1..]);
      }
    }
  }

  /** Four consecutive steps of one thread. */
  function StepFour(s: State, i: nat, call: Choice): State
    requires i < |s.threads|
  {
    Step(Step(Step(Step(s, i, call), i, Proceed), i, Proceed), i, Proceed)
  }

  lemma RunFour(s: State, i: nat, call: Choice) returns (schedule: Schedule)
    requires i < |s.threads|
    ensures Run(s, schedule) == StepFour(s, i, call)
  {
    var s1 := Step(s, i, call);
    var s2 := Step(s1, i, Proceed);
    var s3 := Step(s2, i, Proceed);
    RunOne(s, i, call);
    RunOne(s1, i, Proceed);
    RunOne(s2, i, Proceed);
    RunOne(s3, i, Proceed);
    RunAppends(s, [(i, call)], [(i, Proceed)]);
    RunAppends(s, [(i, call)] + [(i, Proceed)], [(i, Proceed)]);
    RunAppends(s, [(i, call)] + [(i, Proceed)] + [(i, Proceed)], [(i, Proceed)]);
    schedule := [(i, call)] + [(i, Proceed)] + [(i, Proceed)] + [(i, Proceed)];
  }

  /** An uninterrupted begin call on a fresh word starts a synchronous round. */
  lemma BeginStartsRound(s: State, i: nat)
    requires i < |s.threads| && s.threads[i].pc.Idle? && s.words.word == 0
    ensures StepFour(s, i, CallBegin(false)).threads == s.threads[i := Thread(Idle, SyncPending)]
    ensures
      var w := StepFour(s, i, CallBegin(false)).words;
      w.word == 1 && w.entry == Some(|s.words.syncs|)
  {
  }

  /** A failing completion as far as its compare-and-swap. */
  lemma CompletionResetsWord(s: State, i: nat)
    requires i < |s.threads| && s.threads[i] == Thread(Idle, SyncPending)
    requires s.words.word == 1 && s.words.entry.Some?
    ensures
      var s' := StepFour(s, i, CallComplete(Args(true, false, 0)));
      && s'.words.word == 0
      && s'.threads == s.threads[i := Thread(CompletePublish(Args(true, false, 0), s.words.entry.value), NotPending)]
  {
  }

  lemma OverlapIsReachable() returns (schedule: Schedule)
    ensures
      var s := Run(Initial(2), schedule);
      |s.threads| == 2 && FailingCompleter(s.threads[0]) && s.threads[1] == Thread(Idle, SyncPending)
  {
    var s0 := Initial(2);
    var first := RunFour(s0, 0, CallBegin(false));
    BeginStartsRound(s0, 0);
    var s1 := Run(s0, first);
    var failing := RunFour(s1, 0, CallComplete(Args(true, false, 0)));
    CompletionResetsWord(s1, 0);
    var s2 := Run(s1, failing);
    var second := RunFour(s2, 1, CallBegin(false));
    BeginStartsRound(s2, 1);
    RunAppends(s0, first, failing);
    RunAppends(s0, first + failing, second);
    schedule := first + failing + second;
  }

  /** The overlap does happen: two threads, one failed round, and the second round is lost for good. */
  lemma LossIsReachable() returns (schedule: Schedule)
    ensures Stuck(Run(Initial(2), schedule), 1)
  {
    var overlap := OverlapIsReachable();
    InitialInv(2);
    RunKeepsInv(Initial(2), overlap);
    var last := OverlapLosesTheRound(Run(Initial(2), overlap), 1, 0);
    RunAppends(Initial(2), overlap, last);
    schedule := overlap + last;
  }

  // ----- what each call does when nobody interferes

  /** A thread makes a choice and then takes `n` more steps: the shared words and the thread itself. */
  function Solo(w: Words, t: Thread, first: Choice, n: nat): (Words, Thread) {
    if n == 0 then Move(w, t, first)
    else
      var (w', t') := Solo(w, t, first, n - 1);
      Move(w', t', Proceed)
  }

  /** Thread `i` of a state does the same when it moves alone. */
  function Alone(s: State, i: nat, first: Choice, n: nat): (r: State)
    requires i < |s.threads|
    ensures |r.threads| == |s.threads|
  {
    if n == 0 then Step(s, i, first) else Step(Alone(s, i, first, n - 1), i, Proceed)
  }

  lemma {:induction false} AloneIsSolo(s: State, i: nat, first: Choice, n: nat)
    requires i < |s.threads|
    ensures
      var (w, t) := Solo(s.words, s.threads[i], first, n);
      Alone(s, i, first, n) == State(w, s.threads[i := t])
  {
    if n > 0 {
      AloneIsSolo(s, i, first, n - 1);
    }
  }

  /** A fresh word: a begin call starts a round and is told "pending". */
  lemma BeginOnFresh(w: Words, pending: Pending)
    requires w.word == 0
    ensures Solo(w, Thread(Idle, pending), CallBegin(false), 3) ==
            (w.(word := 1, entry := Some(|w.syncs|), syncs := w.syncs + [Sync(false, false, 0)]), Thread(Idle, SyncPending))
    ensures Solo(w, Thread(Idle, pending), CallBegin(true), 2) == (w.(word := 3), Thread(Idle, AsyncPending))
  {
    var t := Thread(Idle, pending);
    assert Solo(w, t, CallBegin(false), 0) == (w, Thread(BeginLoad(false), pending));
    assert Solo(w, t, CallBegin(false), 1) == (w, Thread(BeginCas(false), pending));
    assert Solo(w, t, CallBegin(false), 2) ==
           (w.(word := 1, syncs := w.syncs + [Sync(false, false, 0)]), Thread(BeginInsert(|w.syncs|), pending));
    assert Solo(w, t, CallBegin(true), 0) == (w, Thread(BeginLoad(true), pending));
    assert Solo(w, t, CallBegin(true), 1) == (w, Thread(BeginCas(true), pending));
  }

  /** A completed word: begin and check calls report its context. */
  lemma BeginOnCompleted(w: Words, pending: Pending, context: int, async: bool)
    requires context % 4 == 0 && w.word == context + 2
    ensures Solo(w, Thread(Idle, pending), CallBegin(async), 1) ==
            (w.(reports := w.reports + [context]), Thread(Idle, pending))
    ensures Solo(w, Thread(Idle, pending), CallCheck, 1) == (w.(reports := w.reports + [context]), Thread(Idle, pending))
  {
    var t := Thread(Idle, pending);
    assert w.word % 4 == 2;
    assert Solo(w, t, CallBegin(async), 0) == (w, Thread(BeginLoad(async), pending));
    assert Solo(w, t, CallCheck, 0) == (w, Thread(CheckLoad, pending));
  }

  /** Any other word: a check fails without effect. */
  lemma CheckOnUncompleted(w: Words, pending: Pending)
    requires w.word % 4 != 2
    ensures Solo(w, Thread(Idle, pending), CallCheck, 1) == (w, Thread(Idle, pending))
  {
    assert Solo(w, Thread(Idle, pending), CallCheck, 0) == (w, Thread(CheckLoad, pending));
  }

  /** A round of the other kind refuses a begin call; an asynchronous one admits further initialisers. */
  lemma BeginInOtherRound(w: Words, pending: Pending)
    ensures w.word == 1 ==> Solo(w, Thread(Idle, pending), CallBegin(true), 1) == (w, Thread(Idle, pending))
    ensures w.word == 3 ==> Solo(w, Thread(Idle, pending), CallBegin(false), 1) == (w, Thread(Idle, pending))
    ensures w.word == 3 ==> Solo(w, Thread(Idle, pending), CallBegin(true), 1) == (w, Thread(Idle, AsyncPending))
  {
    var t := Thread(Idle, pending);
    assert Solo(w, t, CallBegin(true), 0) == (w, Thread(BeginLoad(true), pending));
    assert Solo(w, t, CallBegin(false), 0) == (w, Thread(BeginLoad(false), pending));
  }

  /** A synchronous round makes a begin call wait for the state it finds, or look again if it finds none. */
  lemma BeginInSyncRound(w: Words, pending: Pending)
    requires w.word == 1
    ensures Solo(w, Thread(Idle, pending), CallBegin(false), 2) ==
            (w, Thread(if w.entry.None? then BeginLoad(false) else BeginWait(w.entry.value), pending))
  {
    var t := Thread(Idle, pending);
    assert Solo(w, t, CallBegin(false), 0) == (w, Thread(BeginLoad(false), pending));
    assert Solo(w, t, CallBegin(false), 1) == (w, Thread(BeginLookup, pending));
  }

  /** The wait ends when the round is over: with the context if it succeeded, with another attempt if not. */
  lemma WaitEnds(w: Words, round: nat, pending: Pending)
    requires round < |w.syncs|
    ensures
      var (w', t') := Move(w, Thread(BeginWait(round), pending), Proceed);
      if !w.syncs[round].completed then w' == w && t' == Thread(BeginWait(round), pending)
      else if w.syncs[round].success then
        w' == w.(reports := w.reports + [w.syncs[round].context]) && t' == Thread(Idle, pending)
      else w' == w && t' == Thread(BeginLoad(false), pending)
  {
  }

  /** A compare-and-swap that finds another value changes nothing and starts over. */
  lemma LostRaces(w: Words, pending: Pending, async: bool, args: Args, val: int, round: nat)
    ensures w.word != 0 ==> Move(w, Thread(BeginCas(async), pending), Proceed) == (w, Thread(BeginLoad(async), pending))
    ensures w.word != val ==>
              Move(w, Thread(CompleteCas(args, val, round), pending), Proceed) == (w, Thread(CompleteLoad(args), pending))
    ensures w.word != val ==>
              Move(w, Thread(CompleteAsyncCas(args, val), pending), Proceed) == (w, Thread(CompleteLoad(args), pending))
  {
  }

  /** A failing completion carries no context and is synchronous; a succeeding one carries an aligned context. */
  ghost predicate RightArgs(args: Args) {
    (args.failed ==> args.context == 0 && !args.async) && (!args.failed ==> args.context % 4 == 0)
  }

  lemma WrongArgsChangeNothing(w: Words, pending: Pending, args: Args)
    requires !RightArgs(args)
    ensures Solo(w, Thread(Idle, pending), CallComplete(args), 0) == (w, Thread(Idle, pending))
  {
  }

  /** A completion of a synchronous round publishes its outcome and takes the state out of the map. */
  lemma CompleteInSyncRound(w: Words, args: Args, round: nat)
    requires w.word == 1 && w.entry == Some(round) && round < |w.syncs| && RightArgs(args)
    ensures Solo(w, Thread(Idle, SyncPending), CallComplete(args), 5) ==
            (if args.failed then w.(word := 0, entry := None, syncs := w.syncs[round := Sync(true, false, 0)])
             else w.(word := args.context + 2, entry := None, completion := Some(args.context),
                     syncs := w.syncs[round := Sync(true, true, args.context)]),
             Thread(Idle, NotPending))
  {
    var t, call := Thread(Idle, SyncPending), CallComplete(args);
    var final := if args.failed then 0 else args.context + 2;
    var w1 := w.(word := final, completion := if args.failed then w.completion else Some(args.context));
    var w2 := w1.(syncs := w.syncs[round := Sync(true, !args.failed, if args.failed then 0 else args.context)]);
    assert Solo(w, t, call, 0) == (w, Thread(CompleteLoad(args), SyncPending));
    assert Solo(w, t, call, 1) == (w, Thread(CompleteLookup(args, 1), SyncPending));
    assert Solo(w, t, call, 2) == (w, Thread(CompleteCas(args, 1, round), SyncPending));
    assert Solo(w, t, call, 3) == (w1, Thread(CompletePublish(args, round), NotPending));
    assert Solo(w, t, call, 4) == (w2, Thread(CompleteErase(args.failed), NotPending));
  }

  /** An asynchronous round is completed by whoever comes first and says that it is asynchronous. */
  lemma CompleteInAsyncRound(w: Words, args: Args)
    requires w.word == 3 && RightArgs(args)
    ensures args.async ==>
              Solo(w, Thread(Idle, AsyncPending), CallComplete(args), 2) ==
              (w.(word := args.context + 2, completion := Some(args.context)), Thread(Idle, NotPending))
    ensures !args.async ==>
              Solo(w, Thread(Idle, AsyncPending), CallComplete(args), 1) == (w, Thread(Idle, AsyncPending))
  {
    var t, call := Thread(Idle, AsyncPending), CallComplete(args);
    assert Solo(w, t, call, 0) == (w, Thread(CompleteLoad(args), AsyncPending));
    if args.async {
      assert Solo(w, t, call, 1) == (w, Thread(CompleteAsyncCas(args, 3), AsyncPending));
    }
  }

  /** A word that is fresh or completed refuses a completion. */
  lemma CompleteOutsideRound(w: Words, pending: Pending, args: Args)
    requires (w.word == 0 || w.word % 4 == 2) && pending != NotPending && RightArgs(args)
    ensures Solo(w, Thread(Idle, pending), CallComplete(args), 1) == (w, Thread(Idle, pending))
  {
    assert Solo(w, Thread(Idle, pending), CallComplete(args), 0) == (w, Thread(CompleteLoad(args), pending));
  }

  /** The whole life of a word: begin, complete with a context, and every later begin reports that context. */
  lemma BeginCompleteBegin(w: Words, context: int, async: bool)
    requires w.word == 0 && context % 4 == 0
    ensures
      var (w1, t1) := Solo(w, Thread(Idle, NotPending), CallBegin(false), 3);
      var (w2, t2) := Solo(w1, t1, CallComplete(Args(false, false, context)), 5);
      var (w3, t3) := Solo(w2, t2, CallBegin(async), 1);
      w2.word == context + 2 && w3 == w2.(reports := w.reports + [context]) && t3 == Thread(Idle, NotPending)
  {
    BeginOnFresh(w, NotPending);
    var w1 := w.(word := 1, entry := Some(|w.syncs|), syncs := w.syncs + [Sync(false, false, 0)]);
    var args := Args(false, false, context);
    CompleteInSyncRound(w1, args, |w.syncs|);
    var w2 := w1.(word := context + 2, entry := None, completion := Some(context),
                  syncs := w1.syncs[|w.syncs| := Sync(true, true, context)]);
    BeginOnCompleted(w2, NotPending, context, async);
  }
}
