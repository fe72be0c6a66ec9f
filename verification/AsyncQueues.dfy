/**
 The request queues of the epoll backend while it is running: threads submit reads and writes
 on pipes and requests on plain files, file workers carry out the latter, and one worker
 thread serves the pipes and reports every completion. Steps under one lock or in one atomic
 update are atomic here; everything else interleaves freely.
 */
module AsyncQueues {
  import opened Wrappers

  type Id = nat
  type Fd = nat
  type Data = seq<int>

  /** A queued pipe write and how much of it has gone out. */
  datatype Write = Write(id: Id, data: Data, progress: nat)

  /** A write that has been reported, with the byte count that was reported. */
  datatype Report = Report(id: Id, data: Data, count: nat)

  /** A request as it was submitted. */
  datatype Submission = Submission(id: Id, data: Data)

  /**
   What has happened on a pipe: `written` are the bytes the kernel has taken, `reports` the
   writes reported so far and `submitted` all writes ever queued, each in order.
   */
  datatype History = History(written: Data, reports: seq<Report>, submitted: seq<Submission>)

  datatype Pipe = Pipe(writeQueue: seq<Write>, readQueue: seq<Id>, history: History)

  const NO_PIPE := Pipe([], [], History([], [], []))

  /** What the worker thread is in the middle of. */
  datatype Worker =
    | Looking
    | Writing(fd: Fd, write: Write)
    | Reading(fd: Fd, id: Id)
    | Closing(id: Id)             // the caller has been signalled, mPending not yet decremented

  datatype State = State(
    pipes: map<Fd, Pipe>, fileQueue: seq<Id>, completions: seq<Id>, drained: seq<Id>,
    worker: Worker, pending: int, places: map<Id, Place>, signalled: seq<Id>)

  /** Where a request is; every request ever accepted is in exactly one place. */
  datatype Place =
    | Submitting                  // counted, not yet in the file queue
    | FileQueued
    | WithFileWorker
    | Completed                   // in the completion list
    | Drained                     // taken from that list by the worker thread
    | WriteQueued(fd: Fd)
    | ReadQueued(fd: Fd)
    | InHand                      // with the worker thread
    | Signalled                   // reported, still counted
    | Done

  datatype Event =
    | SubmitWrite(fd: Fd, data: Data)
    | SubmitRead(fd: Fd)
    | SubmitFile
    | EnqueueFile(id: Id)
    | FileTake
    | FileFinish(id: Id)
    | Swap
    | TakeDrained
    | TakeWrite(fd: Fd)
    | TakeRead(fd: Fd)
    | Accept(n: nat)              // the kernel takes n more bytes of the write in hand
    | Requeue                     // it would block, or took nothing
    | Finish                      // everything has gone out, or an error ends the request
    | Decrement

  function PipeOf(s: State, fd: Fd): Pipe {
    if fd in s.pipes then s.pipes[fd] else NO_PIPE
  }

  function WithPipe(s: State, fd: Fd, p: Pipe): State {
    s.(pipes := s.pipes[fd := p])
  }

  function MoveTo(s: State, id: Id, place: Place): State {
    s.(places := s.places[id := place])
  }

  function WithSubmission(h: History, id: Id, data: Data): History {
    h.(submitted := h.submitted + [Submission(id, data)])
  }

  function WithBytes(h: History, bytes: Data): History {
    h.(written := h.written + bytes)
  }

  function WithReport(h: History, w: Write): History {
    h.(reports := h.reports + [Report(w.id, w.data, w.progress)])
  }

  /** The next request number. */
  function NextId(s: State): Id {
    |s.places|
  }

  ghost predicate Enabled(s: State, e: Event) {
    match e
    case EnqueueFile(id) => id in s.places && s.places[id] == Submitting
    case FileTake => s.fileQueue != []
    case FileFinish(id) => id in s.places && s.places[id] == WithFileWorker
    case Swap => s.worker.Looking? && s.drained == [] && s.completions != []
    case TakeDrained => s.worker.Looking? && s.drained != []
    case TakeWrite(fd) => s.worker.Looking? && PipeOf(s, fd).writeQueue != []
    case TakeRead(fd) => s.worker.Looking? && PipeOf(s, fd).readQueue != []
    case Accept(n) => s.worker.Writing? && 0 < n <= |s.worker.write.data| - s.worker.write.progress
    case Requeue => s.worker.Reading? || (s.worker.Writing? && s.worker.write.progress < |s.worker.write.data|)
    case Finish => s.worker.Writing? || s.worker.Reading?
    case Decrement => s.worker.Closing?
    case _ => true
  }

  ghost function Step(s: State, e: Event): State
    requires Enabled(s, e)
  {
    match e
    // enqueueRequest
    case SubmitWrite(fd, data) =>
      var p, id := PipeOf(s, fd), NextId(s);
      var p' := p.(writeQueue := p.writeQueue + [Write(id, data, 0)], history := WithSubmission(p.history, id, data));
      MoveTo(WithPipe(s, fd, p'), id, WriteQueued(fd)).(pending := s.pending + 1)
    case SubmitRead(fd) =>
      var p, id := PipeOf(s, fd), NextId(s);
      MoveTo(WithPipe(s, fd, p.(readQueue := p.readQueue + [id])), id, ReadQueued(fd)).(pending := s.pending + 1)
    case SubmitFile => MoveTo(s, NextId(s), Submitting).(pending := s.pending + 1)
    case EnqueueFile(id) => MoveTo(s, id, FileQueued).(fileQueue := s.fileQueue + [id])
    // fileWorkerLoop
    case FileTake => MoveTo(s, s.fileQueue[0], WithFileWorker).(fileQueue := s.fileQueue[1..])
    case FileFinish(id) => MoveTo(s, id, Completed).(completions := s.completions + [id])
    // processCompletions
    case Swap =>
      s.(drained := s.completions, completions := [],
         places := map id | id in s.places :: if s.places[id] == Completed then Drained else s.places[id])
    case TakeDrained =>
      var id := s.drained[0];
      MoveTo(s, id, Signalled).(drained := s.drained[1..], worker := Closing(id), signalled := s.signalled + [id])
    // handleFileEvents
    case TakeWrite(fd) =>
      var p := PipeOf(s, fd);
      MoveTo(WithPipe(s, fd, p.(writeQueue := p.writeQueue[1..])), p.writeQueue[0].id, InHand)
        .(worker := Writing(fd, p.writeQueue[0]))
    case TakeRead(fd) =>
      var p := PipeOf(s, fd);
      MoveTo(WithPipe(s, fd, p.(readQueue := p.readQueue[1..])), p.readQueue[0], InHand)
        .(worker := Reading(fd, p.readQueue[0]))
    case Accept(n) =>
      var fd, w := s.worker.fd, s.worker.write;
      var p := PipeOf(s, fd);
      WithPipe(s, fd, p.(history := WithBytes(p.history, w.data[w.progress..w.progress + n])))
        .(worker := Writing(fd, w.(progress := w.progress + n)))
    case Requeue =>
      var fd := s.worker.fd;
      var p := PipeOf(s, fd);
      (match s.worker
       case Writing(_, w) =>
         MoveTo(WithPipe(s, fd, p.(writeQueue := [w] + p.writeQueue)), w.id, WriteQueued(fd)).(worker := Looking)
       case Reading(_, id) =>
         MoveTo(WithPipe(s, fd, p.(readQueue := [id] + p.readQueue)), id, ReadQueued(fd)).(worker := Looking))
    case Finish =>
      (match s.worker
       case Writing(fd, w) =>
         var p := PipeOf(s, fd);
         MoveTo(WithPipe(s, fd, p.(history := WithReport(p.history, w))), w.id, Signalled)
           .(worker := Closing(w.id), signalled := s.signalled + [w.id])
       case Reading(_, id) =>
         MoveTo(s, id, Signalled).(worker := Closing(id), signalled := s.signalled + [id]))
    case Decrement =>
      MoveTo(s, s.worker.id, Done).(worker := Looking, pending := s.pending - 1)
  }

  const INITIAL := State(map[], [], [], [], Looking, 0, map[], [])

  /** The state after a run; events that are not enabled where they occur change nothing. */
  ghost function Run(s: State, events: seq<Event>): State
    decreases |events|
  {
    if events == [] then s
    else Run(if Enabled(s, events[0]) then Step(s, events[0]) else s, events[1..])
  }

  // ----- bytes on a pipe

  /** The writes not yet reported, the one in hand first. */
  ghost function Open(s: State, fd: Fd): seq<Write> {
    (if s.worker.Writing? && s.worker.fd == fd then [s.worker.write] else []) + PipeOf(s, fd).writeQueue
  }

  ghost function Sent(reports: seq<Report>): Data
    requires forall k :: 0 <= k < |reports| ==> reports[k].count <= |reports[k].data|
  {
    if reports == [] then []
    else
      var last := reports[|reports| - 1];
      Sent(reports[..|reports| - 1]) + last.data[..last.count]
  }

  ghost predicate Fits(w: Write) {
    w.progress <= |w.data|
  }

  ghost function Reported(r: Report): Submission {
    Submission(r.id, r.data)
  }

  ghost function Opened(w: Write): Submission {
    Submission(w.id, w.data)
  }

  /**
   Writes are reported in the order of submission, only the first open one is under way, and
   the bytes on the pipe are the reported prefixes followed by its progress.
   */
  ghost predicate InOrder(h: History, open: seq<Write>) {
    && |h.submitted| == |h.reports| + |open|
    && (forall k :: 0 <= k < |h.reports| ==>
          h.submitted[k] == Reported(h.reports[k]) && h.reports[k].count <= |h.reports[k].data|)
    && (forall k :: 0 <= k < |open| ==>
          h.submitted[|h.reports| + k] == Opened(open[k]) && Fits(open[k]))
    && (forall k :: 0 < k < |open| ==> open[k].progress == 0)
    && h.written == Sent(h.reports) + (if open == [] then [] else open[0].data[..open[0].progress])
  }

  lemma OrderAfterSubmit(h: History, open: seq<Write>, id: Id, data: Data)
    requires InOrder(h, open)
    ensures InOrder(WithSubmission(h, id, data), open + [Write(id, data, 0)])
  {
  }

  lemma OrderAfterAccept(h: History, open: seq<Write>, n: nat)
    requires InOrder(h, open) && open != [] && n <= |open[0].data| - open[0].progress
    ensures
      var w := open[0];
      InOrder(WithBytes(h, w.data[w.progress..w.progress + n]), [w.(progress := w.progress + n)] + open[1..])
  {
    var w := open[0];
    var open' := [w.(progress := w.progress + n)] + open[1..];
    assert w.data[..w.progress + n] == w.data[..w.progress] + w.data[w.progress..w.progress + n];
    assert forall k :: 0 < k < |open| ==> open'[k] == open[k];
    assert Opened(open'[0]) == Opened(w) && Fits(open'[0]);
  }

  lemma OrderAfterBytes(h: History, open: seq<Write>, n: nat, h': History, open': seq<Write>)
    requires InOrder(h, open) && open != [] && n <= |open[0].data| - open[0].progress
    requires Fits(open[0]) && h' == WithBytes(h, open[0].data[open[0].progress..open[0].progress + n])
    requires open' == [open[0].(progress := open[0].progress + n)] + open[1..]
    ensures InOrder(h', open')
  {
    OrderAfterAccept(h, open, n);
  }

  lemma OrderAfterFinish(h: History, open: seq<Write>)
    requires InOrder(h, open) && open != []
    ensures InOrder(WithReport(h, open[0]), open[1..])
  {
    var w := open[0];
    assert Fits(w);
    SentWithReport(h.reports, Report(w.id, w.data, w.progress));
    assert open[1..] != [] ==> open[1..][0] == open[1];
  }

  lemma SentWithReport(reports: seq<Report>, last: Report)
    requires forall k :: 0 <= k < |reports| ==> reports[k].count <= |reports[k].data|
    requires last.count <= |last.data|
    ensures Sent(reports + [last]) == Sent(reports) + last.data[..last.count]
  {
    var all := reports + [last];
    assert all[..|all| - 1] == reports && all[|all| - 1] == last;
  }

  /** Every other event at most moves the first open write between the queue and the hand. */
  lemma OpenUnchanged(s: State, e: Event, fd: Fd)
    requires Enabled(s, e)
    requires e.SubmitWrite? ==> e.fd != fd
    requires e.Accept? ==> s.worker.fd != fd
    requires e.Finish? ==> s.worker.Reading? || s.worker.fd != fd
    ensures PipeOf(Step(s, e), fd).history == PipeOf(s, fd).history && Open(Step(s, e), fd) == Open(s, fd)
  {
    if e.TakeWrite? && e.fd == fd {
      assert PipeOf(s, fd).writeQueue == [PipeOf(s, fd).writeQueue[0]] + PipeOf(s, fd).writeQueue[1..];
    }
  }

  lemma SubmitOpens(s: State, e: Event, fd: Fd)
    requires e.SubmitWrite? && e.fd == fd
    ensures PipeOf(Step(s, e), fd).history == WithSubmission(PipeOf(s, fd).history, NextId(s), e.data)
    ensures Open(Step(s, e), fd) == Open(s, fd) + [Write(NextId(s), e.data, 0)]
  {
  }

  lemma AcceptAdvances(s: State, e: Event, fd: Fd)
    requires Enabled(s, e) && e.Accept? && s.worker.fd == fd
    ensures
      var w := s.worker.write;
      && Open(s, fd) != [] && Open(s, fd)[0] == w
      && PipeOf(Step(s, e), fd).history == WithBytes(PipeOf(s, fd).history, w.data[w.progress..w.progress + e.n])
      && Open(Step(s, e), fd) == [w.(progress := w.progress + e.n)] + Open(s, fd)[1..]
  {
  }

  lemma FinishCloses(s: State, e: Event, fd: Fd)
    requires Enabled(s, e) && e.Finish? && s.worker.Writing? && s.worker.fd == fd
    ensures Open(s, fd) != [] && Open(s, fd)[0] == s.worker.write
    ensures PipeOf(Step(s, e), fd).history == WithReport(PipeOf(s, fd).history, s.worker.write)
    ensures Open(Step(s, e), fd) == Open(s, fd)[1..]
  {
  }

  lemma SubmitKeepsOrder(s: State, e: Event, fd: Fd)
    requires InOrder(PipeOf(s, fd).history, Open(s, fd)) && e.SubmitWrite? && e.fd == fd
    ensures InOrder(PipeOf(Step(s, e), fd).history, Open(Step(s, e), fd))
  {
    SubmitOpens(s, e, fd);
    OrderAfterSubmit(PipeOf(s, fd).history, Open(s, fd), NextId(s), e.data);
  }

  lemma AcceptKeepsOrder(s: State, e: Event, fd: Fd)
    requires InOrder(PipeOf(s, fd).history, Open(s, fd)) && Enabled(s, e) && e.Accept? && s.worker.fd == fd
    ensures InOrder(PipeOf(Step(s, e), fd).history, Open(Step(s, e), fd))
  {
    AcceptAdvances(s, e, fd);
    OrderAfterBytes(PipeOf(s, fd).history, Open(s, fd), e.n, PipeOf(Step(s, e), fd).history, Open(Step(s, e), fd));
  }

  lemma StepKeepsOrderOf(s: State, e: Event, fd: Fd)
    requires InOrder(PipeOf(s, fd).history, Open(s, fd)) && Enabled(s, e)
    ensures InOrder(PipeOf(Step(s, e), fd).history, Open(Step(s, e), fd))
  {
    if e.SubmitWrite? && e.fd == fd {
      SubmitKeepsOrder(s, e, fd);
    } else if e.Accept? && s.worker.fd == fd {
      AcceptKeepsOrder(s, e, fd);
    } else if e.Finish? && s.worker.Writing? && s.worker.fd == fd {
      FinishCloses(s, e, fd);
      OrderAfterFinish(PipeOf(s, fd).history, Open(s, fd));
    } else {
      OpenUnchanged(s, e, fd);
    }
  }

  // ----- every request is in one place

  /** The places that are queues. */
  predicate IsQueue(place: Place) {
    place.FileQueued? || place.Completed? || place.Drained? || place.WriteQueued? || place.ReadQueued?
  }

  ghost function Ids(q: seq<Write>): (r: seq<Id>)
    ensures |r| == |q|
  {
    seq(|q|, i requires 0 <= i < |q| => q[i].id)
  }

  ghost function QueueAt(s: State, place: Place): seq<Id> {
    match place
    case FileQueued => s.fileQueue
    case Completed => s.completions
    case Drained => s.drained
    case WriteQueued(fd) => Ids(PipeOf(s, fd).writeQueue)
    case ReadQueued(fd) => PipeOf(s, fd).readQueue
    case _ => []
  }

  /** Queue `q` lists exactly the requests whose place is `place`, each once. */
  ghost predicate Lists(places: map<Id, Place>, q: seq<Id>, place: Place) {
    && (forall i, j :: 0 <= i < j < |q| ==> q[i] != q[j])
    && (forall id :: id in q <==> id in places && places[id] == place)
  }

  ghost predicate QueueInv(s: State) {
    forall place: Place :: IsQueue(place) ==> Lists(s.places, QueueAt(s, place), place)
  }

  /** The request the worker thread holds, and the place it is in. */
  ghost function Held(w: Worker): Option<(Id, Place)> {
    match w
    case Looking => None
    case Writing(_, write) => Some((write.id, InHand))
    case Reading(_, id) => Some((id, InHand))
    case Closing(id) => Some((id, Signalled))
  }

  predicate IsHand(place: Place) {
    place == InHand || place == Signalled
  }

  ghost predicate WorkerInv(s: State) {
    forall id: Id, place: Place :: IsHand(place) ==>
      ((id in s.places && s.places[id] == place) <==> Held(s.worker) == Some((id, place)))
  }

  /** Nobody is signalled twice, and only finished requests are. */
  ghost predicate SignalInv(s: State) {
    && (forall i, j :: 0 <= i < j < |s.signalled| ==> s.signalled[i] != s.signalled[j])
    && (forall id :: id in s.signalled <==> id in s.places && (s.places[id] == Signalled || s.places[id] == Done))
  }

  /** Requests that have been counted and not yet discounted. */
  ghost function Outstanding(places: map<Id, Place>): set<Id> {
    set id | id in places && places[id] != Done
  }

  ghost predicate CountInv(s: State) {
    && (forall id: Id :: id in s.places <==> id < |s.places|)
    && s.pending == |Outstanding(s.places)|
  }

  ghost predicate PlaceInv(s: State) {
    QueueInv(s) && WorkerInv(s) && SignalInv(s) && CountInv(s)
  }

  // ----- which request an event moves, and where to

  ghost predicate MovesOne(e: Event) {
    !e.Accept? && !e.Swap?
  }

  ghost function Mover(s: State, e: Event): Id
    requires Enabled(s, e) && MovesOne(e)
  {
    match e
    case SubmitWrite(_, _) => NextId(s)
    case SubmitRead(_) => NextId(s)
    case SubmitFile => NextId(s)
    case EnqueueFile(id) => id
    case FileTake => s.fileQueue[0]
    case FileFinish(id) => id
    case TakeDrained => s.drained[0]
    case TakeWrite(fd) => PipeOf(s, fd).writeQueue[0].id
    case TakeRead(fd) => PipeOf(s, fd).readQueue[0]
    case Requeue => Held(s.worker).value.0
    case Finish => Held(s.worker).value.0
    case Decrement => s.worker.id
  }

  ghost function Target(s: State, e: Event): Place
    requires Enabled(s, e) && MovesOne(e)
  {
    match e
    case SubmitWrite(fd, _) => WriteQueued(fd)
    case SubmitRead(fd) => ReadQueued(fd)
    case SubmitFile => Submitting
    case EnqueueFile(_) => FileQueued
    case FileTake => WithFileWorker
    case FileFinish(_) => Completed
    case TakeDrained => Signalled
    case TakeWrite(_) => InHand
    case TakeRead(_) => InHand
    case Requeue => if s.worker.Writing? then WriteQueued(s.worker.fd) else ReadQueued(s.worker.fd)
    case Finish => Signalled
    case Decrement => Done
  }

  /** Where the request was before; a new one was nowhere. */
  ghost function Source(s: State, e: Event): Option<Place>
    requires Enabled(s, e) && MovesOne(e)
  {
    match e
    case SubmitWrite(_, _) => None
    case SubmitRead(_) => None
    case SubmitFile => None
    case EnqueueFile(_) => Some(Submitting)
    case FileTake => Some(FileQueued)
    case FileFinish(_) => Some(WithFileWorker)
    case TakeDrained => Some(Drained)
    case TakeWrite(fd) => Some(WriteQueued(fd))
    case TakeRead(fd) => Some(ReadQueued(fd))
    case Requeue => Some(InHand)
    case Finish => Some(InHand)
    case Decrement => Some(Signalled)
  }

  lemma MoverIsAtSource(s: State, e: Event)
    requires PlaceInv(s) && Enabled(s, e) && MovesOne(e)
    ensures
      var id, from := Mover(s, e), Source(s, e);
      && (from.None? ==> id !in s.places && id == |s.places|)
      && (from.Some? ==> id in s.places && s.places[id] == from.value)
  {
    match e {
      case FileTake => assert Lists(s.places, QueueAt(s, FileQueued), FileQueued);
      case TakeDrained => assert Lists(s.places, QueueAt(s, Drained), Drained);
      case TakeWrite(fd) =>
        assert Lists(s.places, QueueAt(s, WriteQueued(fd)), WriteQueued(fd));
        assert QueueAt(s, WriteQueued(fd))[0] == Mover(s, e);
      case TakeRead(fd) => assert Lists(s.places, QueueAt(s, ReadQueued(fd)), ReadQueued(fd));
      case Requeue => assert IsHand(InHand) && Held(s.worker) == Some((Mover(s, e), InHand));
      case Finish => assert IsHand(InHand) && Held(s.worker) == Some((Mover(s, e), InHand));
      case Decrement => assert IsHand(Signalled) && Held(s.worker) == Some((Mover(s, e), Signalled));
      case _ =>
    }
  }

  lemma PlacesAfterMove(s: State, e: Event)
    requires Enabled(s, e) && MovesOne(e)
    ensures Step(s, e).places == s.places[Mover(s, e) := Target(s, e)]
  {
  }

  /** Taking the first write, and putting one at either end, seen through the ids. */
  lemma IdsOfQueue(q: seq<Write>, w: Write)
    ensures Ids(q + [w]) == Ids(q) + [w.id] && Ids([w] + q) == [w.id] + Ids(q)
    ensures q != [] ==> Ids(q[1..]) == Ids(q)[1..] && Ids(q)[0] == q[0].id
  {
  }

  ghost predicate QueueMoved(e: Event, q: seq<Id>, q': seq<Id>, id: Id, leaves: bool, joins: bool) {
    if leaves then q != [] && q[0] == id && q' == q[1..]
    else if joins then q' == if e.Requeue? then [id] + q else q + [id]
    else q' == q
  }

  lemma WriteQueueAfterMove(s: State, e: Event, fd: Fd)
    requires Enabled(s, e) && MovesOne(e)
    ensures QueueMoved(e, QueueAt(s, WriteQueued(fd)), QueueAt(Step(s, e), WriteQueued(fd)), Mover(s, e),
                       Source(s, e) == Some(WriteQueued(fd)), Target(s, e) == WriteQueued(fd))
  {
    var q := PipeOf(s, fd).writeQueue;
    var w := if s.worker.Writing? then s.worker.write else Write(0, [], 0);
    IdsOfQueue(q, if e.SubmitWrite? then Write(NextId(s), e.data, 0) else w);
  }

  lemma ReadQueueAfterMove(s: State, e: Event, fd: Fd)
    requires Enabled(s, e) && MovesOne(e)
    ensures QueueMoved(e, QueueAt(s, ReadQueued(fd)), QueueAt(Step(s, e), ReadQueued(fd)), Mover(s, e),
                       Source(s, e) == Some(ReadQueued(fd)), Target(s, e) == ReadQueued(fd))
  {
  }

  /** What a move does to one of the queues. */
  lemma QueueAfterMove(s: State, e: Event, place: Place)
    requires Enabled(s, e) && MovesOne(e) && IsQueue(place)
    ensures QueueMoved(e, QueueAt(s, place), QueueAt(Step(s, e), place), Mover(s, e),
                       Source(s, e) == Some(place), Target(s, e) == place)
  {
    match place {
      case WriteQueued(fd) => WriteQueueAfterMove(s, e, fd);
      case ReadQueued(fd) => ReadQueueAfterMove(s, e, fd);
      case _ =>
    }
  }

  // ----- how a move affects the lists

  lemma ListsElsewhere(places: map<Id, Place>, q: seq<Id>, place: Place, id: Id, to: Place)
    requires Lists(places, q, place) && to != place && (id in places ==> places[id] != place)
    ensures Lists(places[id := to], q, place)
  {
  }

  lemma ListsWithoutHead(places: map<Id, Place>, q: seq<Id>, place: Place, to: Place)
    requires Lists(places, q, place) && q != [] && to != place
    ensures Lists(places[q[0] := to], q[1..], place)
  {
    var places', rest := places[q[0] := to], q[1..];
    forall id ensures id in rest <==> id in places' && places'[id] == place {
      if id in places' && places'[id] == place {
        assert id in q && id != q[0];
        var i :| 0 <= i < |q| && q[i] == id;
        assert rest[i - 1] == id;
      }
    }
  }

  lemma ListsWithOneMore(places: map<Id, Place>, q: seq<Id>, place: Place, id: Id)
    requires Lists(places, q, place) && (id in places ==> places[id] != place)
    ensures Lists(places[id := place], q + [id], place)
    ensures Lists(places[id := place], [id] + q, place)
  {
    assert id !in q;
  }

  lemma QueuesAfterMove(s: State, e: Event)
    requires PlaceInv(s) && Enabled(s, e) && MovesOne(e)
    ensures QueueInv(Step(s, e))
  {
    var id, to, from := Mover(s, e), Target(s, e), Source(s, e);
    MoverIsAtSource(s, e);
    PlacesAfterMove(s, e);
    forall place: Place | IsQueue(place)
      ensures Lists(Step(s, e).places, QueueAt(Step(s, e), place), place)
    {
      var q := QueueAt(s, place);
      assert Lists(s.places, q, place);
      QueueAfterMove(s, e, place);
      if from == Some(place) {
        ListsWithoutHead(s.places, q, place, to);
      } else if to == place {
        ListsWithOneMore(s.places, q, place, id);
      } else {
        ListsElsewhere(s.places, q, place, id, to);
      }
    }
  }

  lemma HandAfterMove(s: State, e: Event)
    requires PlaceInv(s) && Enabled(s, e) && MovesOne(e)
    ensures WorkerInv(Step(s, e))
  {
    var id, to, from, s' := Mover(s, e), Target(s, e), Source(s, e), Step(s, e);
    MoverIsAtSource(s, e);
    PlacesAfterMove(s, e);
    forall x: Id, place: Place | IsHand(place)
      ensures (x in s'.places && s'.places[x] == place) <==> Held(s'.worker) == Some((x, place))
    {
      assert (x in s.places && s.places[x] == place) <==> Held(s.worker) == Some((x, place));
    }
  }

  lemma SignalsAfterMove(s: State, e: Event)
    requires PlaceInv(s) && Enabled(s, e) && MovesOne(e)
    ensures SignalInv(Step(s, e))
  {
    var id, to, s' := Mover(s, e), Target(s, e), Step(s, e);
    MoverIsAtSource(s, e);
    PlacesAfterMove(s, e);
    if to == Signalled {
      assert s'.signalled == s.signalled + [id];
      assert id !in s.signalled;
    } else {
      assert s'.signalled == s.signalled;
    }
  }

  lemma OutstandingWithNew(places: map<Id, Place>, id: Id, to: Place)
    requires id !in places && to != Done
    ensures |Outstanding(places[id := to])| == |Outstanding(places)| + 1 && |places[id := to]| == |places| + 1
  {
    assert places[id := to].Keys == places.Keys + {id};
    assert id !in Outstanding(places);
    assert Outstanding(places[id := to]) == Outstanding(places) + {id};
  }

  lemma OutstandingWithoutDone(places: map<Id, Place>, id: Id)
    requires id in places && places[id] != Done
    ensures |Outstanding(places[id := Done])| == |Outstanding(places)| - 1 && |places[id := Done]| == |places|
  {
    assert places[id := Done].Keys == places.Keys;
    assert id in Outstanding(places);
    assert Outstanding(places[id := Done]) == Outstanding(places) - {id};
  }

  lemma OutstandingElsewhere(places: map<Id, Place>, id: Id, to: Place)
    requires id in places && places[id] != Done && to != Done
    ensures Outstanding(places[id := to]) == Outstanding(places) && |places[id := to]| == |places|
  {
    assert places[id := to].Keys == places.Keys;
  }

  lemma PendingAfterMove(s: State, e: Event)
    requires Enabled(s, e) && MovesOne(e)
    ensures Step(s, e).pending ==
            s.pending + (if Source(s, e).None? then 1 else if Target(s, e) == Done then -1 else 0)
    ensures Source(s, e) != Some(Done) && (Source(s, e).None? ==> Target(s, e) != Done)
  {
  }

  lemma CountAfterMove(s: State, e: Event)
    requires PlaceInv(s) && Enabled(s, e) && MovesOne(e)
    ensures CountInv(Step(s, e))
  {
    MoverIsAtSource(s, e);
    PlacesAfterMove(s, e);
    PendingAfterMove(s, e);
    var id, to := Mover(s, e), Target(s, e);
    if Source(s, e).None? {
      OutstandingWithNew(s.places, id, to);
    } else if to == Done {
      OutstandingWithoutDone(s.places, id);
    } else {
      OutstandingElsewhere(s.places, id, to);
    }
  }

  lemma SwapKeepsPlaces(s: State, e: Event)
    requires PlaceInv(s) && Enabled(s, e) && e.Swap?
    ensures PlaceInv(Step(s, e))
  {
    var s' := Step(s, e);
    assert Lists(s.places, QueueAt(s, Completed), Completed);
    assert Lists(s.places, QueueAt(s, Drained), Drained);
    forall place: Place | IsQueue(place) ensures Lists(s'.places, QueueAt(s', place), place) {
      assert Lists(s.places, QueueAt(s, place), place);
    }
    forall x: Id, place: Place | IsHand(place)
      ensures (x in s'.places && s'.places[x] == place) <==> Held(s'.worker) == Some((x, place))
    {
      assert (x in s.places && s.places[x] == place) <==> Held(s.worker) == Some((x, place));
    }
    assert s'.places.Keys == s.places.Keys;
    assert Outstanding(s'.places) == Outstanding(s.places);
  }

  lemma AcceptKeepsPlaces(s: State, e: Event)
    requires PlaceInv(s) && Enabled(s, e) && e.Accept?
    ensures PlaceInv(Step(s, e))
  {
    var s' := Step(s, e);
    forall place: Place | IsQueue(place) ensures Lists(s'.places, QueueAt(s', place), place) {
      assert Lists(s.places, QueueAt(s, place), place);
      assert QueueAt(s', place) == QueueAt(s, place);
    }
    assert Held(s'.worker) == Held(s.worker);
  }

  lemma StepKeepsPlaces(s: State, e: Event)
    requires PlaceInv(s) && Enabled(s, e)
    ensures PlaceInv(Step(s, e))
  {
    if e.Swap? {
      SwapKeepsPlaces(s, e);
    } else if e.Accept? {
      AcceptKeepsPlaces(s, e);
    } else {
      QueuesAfterMove(s, e);
      HandAfterMove(s, e);
      SignalsAfterMove(s, e);
      CountAfterMove(s, e);
    }
  }

  // ----- what every run guarantees

  ghost predicate Inv(s: State) {
    (forall fd: Fd :: InOrder(PipeOf(s, fd).history, Open(s, fd))) && PlaceInv(s)
  }

  lemma InitialInv()
    ensures Inv(INITIAL)
  {
    assert Outstanding(INITIAL.places) == {};
  }

  lemma StepKeepsInv(s: State, e: Event)
    requires Inv(s) && Enabled(s, e)
    ensures Inv(Step(s, e))
  {
    StepKeepsPlaces(s, e);
    forall fd: Fd ensures InOrder(PipeOf(Step(s, e), fd).history, Open(Step(s, e), fd)) {
      StepKeepsOrderOf(s, e, fd);
    }
  }

  lemma {:induction false} RunKeepsInv(s: State, events: seq<Event>)
    requires Inv(s)
    ensures Inv(Run(s, events))
    decreases |events|
  {
    if events != [] {
      if Enabled(s, events[0]) {
        StepKeepsInv(s, events[0]);
        RunKeepsInv(Step(s, events[0]), events[1..]);
      } else {
        RunKeepsInv(s, events[1..]);
      }
    }
  }

  /**
   The bytes on a pipe are the reported prefixes in submission order followed by the progress of
   the first write not yet reported; every other open write is untouched.
   */
  lemma BytesInSubmissionOrder(events: seq<Event>, fd: Fd)
    ensures InOrder(PipeOf(Run(INITIAL, events), fd).history, Open(Run(INITIAL, events), fd))
  {
    InitialInv();
    RunKeepsInv(INITIAL, events);
  }

  /** No request is reported twice, and none is reported while it is still queued or in hand. */
  lemma NoDoubleCompletion(events: seq<Event>)
    ensures SignalInv(Run(INITIAL, events))
  {
    InitialInv();
    RunKeepsInv(INITIAL, events);
  }

  /** `mPending` is the number of accepted requests that have not been discounted. */
  lemma PendingIsExact(events: seq<Event>)
    ensures Run(INITIAL, events).pending == |Outstanding(Run(INITIAL, events).places)|
  {
    InitialInv();
    RunKeepsInv(INITIAL, events);
  }

  /** With nothing pending, every queue is empty and the worker thread holds nothing. */
  lemma NothingPendingNothingLeft(events: seq<Event>, place: Place)
    requires Run(INITIAL, events).pending == 0 && IsQueue(place)
    ensures QueueAt(Run(INITIAL, events), place) == [] && Run(INITIAL, events).worker.Looking?
  {
    InitialInv();
    RunKeepsInv(INITIAL, events);
    EmptyWhenNothingOutstanding(Run(INITIAL, events), place);
  }

  lemma EmptyWhenNothingOutstanding(s: State, place: Place)
    requires QueueInv(s) && WorkerInv(s) && |Outstanding(s.places)| == 0 && IsQueue(place)
    ensures QueueAt(s, place) == [] && s.worker.Looking?
  {
    QueueIsOutstanding(s, place);
    HandIsOutstanding(s);
    assert Outstanding(s.places) == {};
  }

  lemma QueueIsOutstanding(s: State, place: Place)
    requires QueueInv(s) && IsQueue(place)
    ensures QueueAt(s, place) != [] ==> QueueAt(s, place)[0] in Outstanding(s.places)
  {
    assert Lists(s.places, QueueAt(s, place), place);
  }

  lemma HandIsOutstanding(s: State)
    requires WorkerInv(s)
    ensures Held(s.worker).Some? ==> Held(s.worker).value.0 in Outstanding(s.places)
  {
    if Held(s.worker).Some? {
      var (id, hand) := Held(s.worker).value;
      assert IsHand(hand) && Held(s.worker) == Some((id, hand));
    }
  }

  /** The completion list is handed over whole and in its order. */
  lemma SwapKeepsOrder(s: State)
    requires Enabled(s, Swap)
    ensures Step(s, Swap).drained == s.completions && Step(s, Swap).completions == []
  {
  }

  // ----- every accepted request can be brought to its end

  /** How far a request still has to go. */
  function Rank(place: Place): nat {
    match place
    case Submitting => 8
    case FileQueued => 7
    case WithFileWorker => 6
    case Completed => 5
    case Drained | WriteQueued(_) | ReadQueued(_) => 4
    case InHand => 3
    case Signalled => 1
    case Done => 0
  }

  ghost predicate Numbered(places: map<Id, Place>, n: nat) {
    forall id: Id :: id < n ==> id in places
  }

  ghost function Ranks(places: map<Id, Place>, n: nat): nat
    requires Numbered(places, n)
  {
    if n == 0 then 0 else Ranks(places, n - 1) + Rank(places[n - 1])
  }

  lemma {:induction false} RanksDrop(a: map<Id, Place>, b: map<Id, Place>, n: nat)
    requires Numbered(a, n) && Numbered(b, n)
    requires forall id: Id :: id < n ==> Rank(b[id]) <= Rank(a[id])
    ensures Ranks(b, n) <= Ranks(a, n)
    ensures (exists id: Id :: id < n && Rank(b[id]) < Rank(a[id])) ==> Ranks(b, n) < Ranks(a, n)
  {
    if n > 0 {
      RanksDrop(a, b, n - 1);
    }
  }

  /** The event moves requests on, and at least one. */
  ghost predicate Advances(s: State, e: Event) {
    && Enabled(s, e) && |Step(s, e).places| == |s.places|
    && (forall id: Id :: id < |s.places| ==>
          id in s.places && id in Step(s, e).places && Rank(Step(s, e).places[id]) <= Rank(s.places[id]))
    && exists id: Id :: id < |s.places| && id in s.places && id in Step(s, e).places
                        && Rank(Step(s, e).places[id]) < Rank(s.places[id])
  }

  lemma MoveAdvances(s: State, e: Event)
    requires PlaceInv(s) && Enabled(s, e) && MovesOne(e) && Source(s, e).Some?
    requires Rank(Target(s, e)) < Rank(Source(s, e).value)
    ensures Advances(s, e)
  {
    MoverIsAtSource(s, e);
    PlacesAfterMove(s, e);
    var id := Mover(s, e);
    assert s.places[id := Target(s, e)].Keys == s.places.Keys;
    assert |s.places[id := Target(s, e)].Keys| == |s.places.Keys|;
    assert id < |s.places| && Rank(Step(s, e).places[id]) < Rank(s.places[id]);
  }

  lemma SwapAdvances(s: State)
    requires PlaceInv(s) && Enabled(s, Swap)
    ensures Advances(s, Swap)
  {
    assert Lists(s.places, QueueAt(s, Completed), Completed);
    var id := s.completions[0];
    var s' := Step(s, Swap);
    assert id in s.completions && s.places[id] == Completed;
    assert s'.places.Keys == s.places.Keys;
    assert |s'.places.Keys| == |s.places.Keys|;
    assert id < |s.places| && Rank(s'.places[id]) < Rank(s.places[id]);
  }

  /** What can be done for a request that the worker thread does not hold, while that thread is looking for work. */
  lemma RequestCanAdvance(s: State, id: Id) returns (e: Event)
    requires PlaceInv(s) && s.worker.Looking? && id in s.places && s.places[id] != Done
    ensures Advances(s, e)
  {
    assert IsHand(InHand) && IsHand(Signalled) && Held(s.worker) == None;
    match s.places[id] {
      case Submitting =>
        e := EnqueueFile(id);
      case FileQueued =>
        assert Lists(s.places, QueueAt(s, FileQueued), FileQueued);
        e := FileTake;
      case WithFileWorker =>
        e := FileFinish(id);
      case Completed =>
        assert Lists(s.places, QueueAt(s, Completed), Completed);
        if s.drained == [] {
          SwapAdvances(s);
          return Swap;
        }
        e := TakeDrained;
      case Drained =>
        assert Lists(s.places, QueueAt(s, Drained), Drained);
        e := TakeDrained;
      case WriteQueued(fd) =>
        assert Lists(s.places, QueueAt(s, WriteQueued(fd)), WriteQueued(fd));
        assert id in QueueAt(s, WriteQueued(fd));
        e := TakeWrite(fd);
      case ReadQueued(fd) =>
        assert Lists(s.places, QueueAt(s, ReadQueued(fd)), ReadQueued(fd));
        assert id in QueueAt(s, ReadQueued(fd));
        e := TakeRead(fd);
    }
    MoveAdvances(s, e);
  }

  /** While anything is pending, something can move on. */
  lemma SomethingCanAdvance(s: State) returns (e: Event)
    requires Inv(s) && s.pending > 0
    ensures Advances(s, e)
  {
    if s.worker.Closing? {
      e := Decrement;
      MoveAdvances(s, e);
    } else if !s.worker.Looking? {
      e := Finish;
      MoveAdvances(s, e);
    } else {
      var id :| id in Outstanding(s.places);
      e := RequestCanAdvance(s, id);
    }
  }

  /** From every state there is a way on after which nothing is pending: no request is ever stuck. */
  lemma {:induction false} CanDrain(s: State) returns (events: seq<Event>)
    requires Inv(s)
    ensures Run(s, events).pending == 0
    decreases Ranks(s.places, |s.places|)
  {
    if s.pending == 0 {
      return [];
    }
    CountIsNatural(s);
    var e := SomethingCanAdvance(s);
    StepKeepsInv(s, e);
    RanksDrop(s.places, Step(s, e).places, |s.places|);
    var rest := CanDrain(Step(s, e));
    events := [e] + rest;
    assert events[0] == e && events[1..] == rest;
  }

  lemma CountIsNatural(s: State)
    requires Inv(s)
    ensures s.pending >= 0 && Numbered(s.places, |s.places|)
  {
  }

  /** The kernel may take any part of what is left of a write, take nothing, or end any request. */
  lemma KernelDecides(s: State, n: nat)
    ensures s.worker.Writing? && 0 < n <= |s.worker.write.data| - s.worker.write.progress ==> Enabled(s, Accept(n))
    ensures s.worker.Writing? && s.worker.write.progress < |s.worker.write.data| ==> Enabled(s, Requeue)
    ensures s.worker.Reading? ==> Enabled(s, Requeue)
    ensures s.worker.Writing? || s.worker.Reading? ==> Enabled(s, Finish)
  {
  }
}
