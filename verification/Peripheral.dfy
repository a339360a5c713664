/**
 The reader as GATT server (ble_peripheral.py).  `exchange` is a coroutine on a
 single-threaded event loop: between two events it runs to its next await.  Events are
 the peer's writes, the loop's resumptions, the two timeouts and an outside cancellation,
 in any order; an event that the current phase does not await changes nothing.
 */
module Peripheral {
  import opened Common
  import opened Framing
  import opened Inbox

  const CHUNK_SIZE := MIN_CHUNK_SIZE

  datatype Characteristic = StateChar | Client2Server | Server2Client | OtherChar

  datatype Ending =
    | Success(response: Message)
    | SetupFailed        // raised before start() returned: nothing to stop
    | NoDevice           // nobody wrote STATE_START in time
    | ResponseTimeout
    | WasCancelled
    | StopFailed         // stop() itself raised

  datatype Phase =
    | Setup
    | AwaitStart
    | AwaitResponse
    | Stopping(ending: Ending)
    | Finished(ending: Ending)

  datatype Event =
    | Write(at: Characteristic, value: Message)
    | SetupFails
    | Started
    | Resume             // the awaited future is done and the loop runs the coroutine again
    | TimeOut
    | Cancel
    | Stopped
    | StopFails

  datatype World = World(
    phase: Phase,
    start: Future<()>,
    inbox: Inbox,
    shown: Message,              // value of the Server2Client characteristic
    notified: seq<Message>,
    stops: nat)

  const INITIAL := World(Setup, Pending, EMPTY, [], [], 0)

  // ------------------------------------------------------------------- the steps

  function OnWriteStep(w: World, at: Characteristic, value: Message): World {
    match at
    case StateChar =>
      if value == STATE_START && w.start.Pending? then w.(start := Done(())) else w
    case Client2Server => w.(inbox := Deliver(w.inbox, value))
    case Server2Client => w.(shown := value)
    case OtherChar => w
  }

  /** Entering `finally`: the server is told to stop, and the outcome waits for it. */
  function LeaveTry(w: World, ending: Ending): World {
    w.(phase := Stopping(ending), stops := w.stops + 1)
  }

  function Step(session: Message, w: World, e: Event): World {
    match (e, w.phase)
    case (Write(at, value), _) => OnWriteStep(w, at, value)
    case (SetupFails, Setup) => w.(phase := Finished(SetupFailed))
    case (Started, Setup) => w.(phase := AwaitStart)
    case (Cancel, Setup) => w.(phase := Finished(SetupFailed))
    case (Resume, AwaitStart) =>
      if w.start.Done? then
        var chunks := ChunksOf(session, CHUNK_SIZE);
        w.(phase := AwaitResponse, shown := chunks[|chunks| - 1], notified := w.notified + chunks)
      else w
    case (TimeOut, AwaitStart) => LeaveTry(w.(start := CancelFuture(w.start)), NoDevice)
    case (Cancel, AwaitStart) => LeaveTry(w.(start := CancelFuture(w.start)), WasCancelled)
    case (Resume, AwaitResponse) =>
      if w.inbox.response.Done? then LeaveTry(w, Success(w.inbox.response.value)) else w
    case (TimeOut, AwaitResponse) =>
      LeaveTry(w.(inbox := w.inbox.(response := CancelFuture(w.inbox.response))), ResponseTimeout)
    case (Cancel, AwaitResponse) =>
      LeaveTry(w.(inbox := w.inbox.(response := CancelFuture(w.inbox.response))), WasCancelled)
    case (Stopped, Stopping(ending)) => w.(phase := Finished(ending))
    case (StopFails, Stopping(_)) => w.(phase := Finished(StopFailed))
    case (Cancel, Stopping(_)) => w.(phase := Finished(WasCancelled))
    case (_, _) => w
  }

  function Run(session: Message, events: seq<Event>): World {
    if events == [] then INITIAL
    else Step(session, Run(session, events[..|events| - 1]), events[|events| - 1])
  }

  /** The coroutine, its callback and its futures as the source keeps them. */
  class Exchange {
    const session: Message
    const reassembler: Reassembler
    var phase: Phase
    var startFuture: Future<()>
    var responseFuture: Future<Message>
    var shown: Message
    var notified: seq<Message>
    var stops: nat

    ghost function View(): World
      reads this, reassembler
    {
      World(phase, startFuture, Inbox(reassembler.buffer, responseFuture), shown, notified, stops)
    }

    constructor (session: Message)
      ensures View() == INITIAL && fresh(reassembler) && this.session == session
    {
      this.session := session;
      reassembler := new Reassembler();
      phase, startFuture, responseFuture := Setup, Pending, Pending;
      shown, notified, stops := [], [], 0;
    }

    method OnWrite(at: Characteristic, value: Message)
      modifies this, reassembler
      ensures View() == Step(session, old(View()), Write(at, value))
    {
      if at == StateChar {
        if value == STATE_START && startFuture.Pending? {
          startFuture := Done(());
        }
      } else if at == Client2Server {
        ghost var before := Received(reassembler.buffer, []);
        var message := reassembler.Feed(value);
        assert Receive(before, value).buffer == reassembler.buffer;
        if message.Ok? && message.value.Some? && responseFuture.Pending? {
          responseFuture := Done(message.value.value);
        }
      } else if at == Server2Client {
        shown := value;
      }
    }

    /** server.start() returned, or something up to it raised. */
    method OnSetup(ok: bool)
      modifies this
      ensures View() == Step(session, old(View()), if ok then Started else SetupFails)
    {
      if phase.Setup? {
        phase := if ok then AwaitStart else Finished(SetupFailed);
      }
    }

    /** The notify loop has no await: no event can fall inside it. */
    method NotifySession()
      modifies this`shown, this`notified
      ensures notified == old(notified) + ChunksOf(session, CHUNK_SIZE)
      ensures shown == ChunksOf(session, CHUNK_SIZE)[|ChunksOf(session, CHUNK_SIZE)| - 1]
    {
      var framed := ChunkMessage(session, CHUNK_SIZE);
      NotifyAll(framed.value);
    }

    method NotifyAll(chunks: seq<Message>)
      requires chunks != []
      modifies this`shown, this`notified
      ensures notified == old(notified) + chunks
      ensures shown == chunks[|chunks| - 1]
    {
      for k := 0 to |chunks|
        invariant notified == old(notified) + chunks[..k]
        invariant k > 0 ==> shown == chunks[k - 1]
      {
        PrefixGrows(chunks, k);
        shown := chunks[k];
        notified := notified + [shown];
      }
    }

    method OnResume()
      modifies this
      ensures View() == Step(session, old(View()), Resume)
    {
      if phase.AwaitStart? && startFuture.Done? {
        NotifySession();
        phase := AwaitResponse;
      } else if phase.AwaitResponse? && responseFuture.Done? {
        stops := stops + 1;
        phase := Stopping(Success(responseFuture.value));
      }
    }

    method OnTimeOut()
      modifies this
      ensures View() == Step(session, old(View()), TimeOut)
    {
      if phase.AwaitStart? {
        startFuture := CancelFuture(startFuture);
        stops := stops + 1;
        phase := Stopping(NoDevice);
      } else if phase.AwaitResponse? {
        responseFuture := CancelFuture(responseFuture);
        stops := stops + 1;
        phase := Stopping(ResponseTimeout);
      }
    }

    method OnCancel()
      modifies this
      ensures View() == Step(session, old(View()), Cancel)
    {
      if phase.Setup? {
        phase := Finished(SetupFailed);
      } else if phase.AwaitStart? {
        startFuture := CancelFuture(startFuture);
        stops := stops + 1;
        phase := Stopping(WasCancelled);
      } else if phase.AwaitResponse? {
        responseFuture := CancelFuture(responseFuture);
        stops := stops + 1;
        phase := Stopping(WasCancelled);
      } else if phase.Stopping? {
        phase := Finished(WasCancelled);
      }
    }

    /** server.stop() returned, or raised. */
    method OnStopped(ok: bool)
      modifies this
      ensures View() == Step(session, old(View()), if ok then Stopped else StopFails)
    {
      if phase.Stopping? {
        phase := Finished(if ok then phase.ending else StopFailed);
      }
    }
  }

  // ------------------------------------------------- what every run keeps

  /** The chunks the peer wrote to Client2Server, from the very beginning of the run. */
  function Sent(events: seq<Event>): seq<Message> {
    if events == [] then []
    else
      var e := events[|events| - 1];
      Sent(events[..|events| - 1]) + if e.Write? && e.at == Client2Server then [e.value] else []
  }

  ghost predicate WroteStart(events: seq<Event>) { Write(StateChar, STATE_START) in events }

  /** The run got past the first wait. */
  ghost predicate Admitted(events: seq<Event>) {
    exists i, j :: 0 <= i < j < |events| && events[i] == Write(StateChar, STATE_START) && events[j] == Resume
  }

  ghost predicate Invariant(session: Message, events: seq<Event>, w: World) {
    && Consistent(w.inbox, Sent(events))
    && (w.start.Done? ==> WroteStart(events))
    && (w.start.Pending? ==> !WroteStart(events))
    && (w.notified == [] || (w.notified == ChunksOf(session, CHUNK_SIZE) && Admitted(events)))
    && (w.phase.Setup? || w.phase.AwaitStart? ==> w.notified == [])
    && (w.phase.AwaitResponse? ==> w.notified != [])
    && (match w.phase
        case Setup => w.stops == 0
        case AwaitStart => w.stops == 0
        case AwaitResponse => w.stops == 0
        case Stopping(ending) => w.stops == 1 && !ending.SetupFailed?
        case Finished(ending) => w.stops == if ending.SetupFailed? then 0 else 1)
    && (w.phase.Stopping? || w.phase.Finished? ==>
          match w.phase.ending
          case Success(m) =>
            && w.notified != []
            && ReceiveAll(NOTHING, Sent(events)).messages != []
            && ReceiveAll(NOTHING, Sent(events)).messages[0] == m
          case SetupFailed => w.notified == []
          case NoDevice => w.notified == []
          case ResponseTimeout => w.notified != []
          case _ => true)
  }

  lemma AdmittedGrows(events: seq<Event>, e: Event)
    ensures Admitted(events) ==> Admitted(events + [e])
    ensures WroteStart(events) && e == Resume ==> Admitted(events + [e])
  {
    var more := events + [e];
    if Admitted(events) {
      var i, j :| 0 <= i < j < |events| && events[i] == Write(StateChar, STATE_START) && events[j] == Resume;
      assert more[i] == events[i] && more[j] == events[j];
    }
    if WroteStart(events) && e == Resume {
      var i :| 0 <= i < |events| && events[i] == Write(StateChar, STATE_START);
      assert more[i] == events[i] && more[|events|] == Resume;
    }
  }

  lemma ChunkKeeps(session: Message, events: seq<Event>, w: World, value: Message)
    requires Invariant(session, events, w)
    requires Sent(events + [Write(Client2Server, value)]) == Sent(events) + [value]
    requires Admitted(events) ==> Admitted(events + [Write(Client2Server, value)])
    ensures Invariant(session, events + [Write(Client2Server, value)], OnWriteStep(w, Client2Server, value))
  {
    DeliverConsistent(w.inbox, Sent(events), value);
    if ReceiveAll(NOTHING, Sent(events)).messages != [] {
      FirstMessageStays(Sent(events), [value]);
    }
  }

  lemma StateKeeps(session: Message, events: seq<Event>, w: World, at: Characteristic, value: Message)
    requires Invariant(session, events, w) && at != Client2Server
    requires Sent(events + [Write(at, value)]) == Sent(events)
    requires Admitted(events) ==> Admitted(events + [Write(at, value)])
    ensures Invariant(session, events + [Write(at, value)], OnWriteStep(w, at, value))
  {
  }

  lemma ResumeKeeps(session: Message, events: seq<Event>, w: World)
    requires Invariant(session, events, w) && Sent(events + [Resume]) == Sent(events)
    requires Admitted(events) || WroteStart(events) ==> Admitted(events + [Resume])
    ensures Invariant(session, events + [Resume], Step(session, w, Resume))
  {
  }

  lemma OtherKeeps(session: Message, events: seq<Event>, w: World, e: Event)
    requires Invariant(session, events, w) && Sent(events + [e]) == Sent(events)
    requires Admitted(events) ==> Admitted(events + [e])
    requires !e.Write? && !e.Resume?
    ensures Invariant(session, events + [e], Step(session, w, e))
  {
  }

  lemma {:induction false} RunKeeps(session: Message, events: seq<Event>)
    ensures Invariant(session, events, Run(session, events))
  {
    if events != [] {
      var front, e := events[..|events| - 1], events[|events| - 1];
      RunKeeps(session, front);
      assert events == front + [e];
      AdmittedGrows(front, e);
      OneMore(session, front, e);
      match e {
        case Write(Client2Server, value) => ChunkKeeps(session, front, Run(session, front), value);
        case Write(at, value) => StateKeeps(session, front, Run(session, front), at, value);
        case Resume => ResumeKeeps(session, front, Run(session, front));
        case _ => OtherKeeps(session, front, Run(session, front), e);
      }
    }
  }

  // --------------------------------------------------------------- main results

  /** Nothing is notified until the peer has written STATE_START and the coroutine resumed after it. */
  lemma NothingBeforeStart(session: Message, events: seq<Event>)
    requires Run(session, events).notified != []
    ensures exists i, j :: 0 <= i < j < |events| && events[i] == Write(StateChar, STATE_START) && events[j] == Resume
  {
    RunKeeps(session, events);
  }

  /**
   A successful run notified chunks from which the peer reassembles exactly the
   SessionEstablishment, and returned the first complete message of everything the peer
   wrote, however much it wrote before STATE_START or after the answer.
   */
  lemma SuccessMeans(session: Message, events: seq<Event>, answer: Message)
    requires Run(session, events).phase == Finished(Success(answer))
    ensures Frames(Run(session, events).notified, session, CHUNK_SIZE)
    ensures ReceiveAll(NOTHING, Run(session, events).notified) == Received([], [session])
    ensures ReceiveAll(NOTHING, Sent(events)).messages != []
    ensures ReceiveAll(NOTHING, Sent(events)).messages[0] == answer
  {
    RunKeeps(session, events);
    FramingRoundTrip(Run(session, events).notified, session, CHUNK_SIZE, []);
    assert [] + [session] == [session];
  }

  /** The events that end the setup, one way or the other. */
  predicate EndsSetup(e: Event) { e.Started? || e.SetupFails? || e.Cancel? }

  /** start() returned: the first event to end the setup was its success. */
  ghost predicate Launched(events: seq<Event>) {
    exists i :: 0 <= i < |events| && events[i] == Started && forall j | 0 <= j < i :: !EndsSetup(events[j])
  }

  lemma LaunchedSnoc(events: seq<Event>, e: Event)
    ensures Launched(events + [e]) <==>
            Launched(events) || (e == Started && forall f | f in events :: !EndsSetup(f))
  {
    var more := events + [e];
    if Launched(events) {
      var i :| 0 <= i < |events| && events[i] == Started && forall j | 0 <= j < i :: !EndsSetup(events[j]);
      assert more[i] == Started && forall j | 0 <= j < i :: !EndsSetup(more[j]);
    } else if e == Started && forall f | f in events :: !EndsSetup(f) {
      assert more[|events|] == Started && forall j | 0 <= j < |events| :: !EndsSetup(more[j]);
    }
    if Launched(more) {
      var i :| 0 <= i < |more| && more[i] == Started && forall j | 0 <= j < i :: !EndsSetup(more[j]);
      if i < |events| {
        assert forall j | 0 <= j < i :: more[j] == events[j];
        assert events[i] == Started;
      } else {
        forall f | f in events ensures !EndsSetup(f) {
          var j :| 0 <= j < |events| && events[j] == f;
          assert more[j] == f;
        }
      }
    }
  }

  lemma SetupStep(session: Message, w: World, e: Event)
    requires w.phase.Stopping? ==> w.phase.ending != SetupFailed
    ensures Step(session, w, e).phase == Setup <==> w.phase == Setup && !EndsSetup(e)
    ensures Step(session, w, e).phase == Finished(SetupFailed) <==>
            w.phase == Finished(SetupFailed) || (w.phase == Setup && EndsSetup(e) && e != Started)
  {
  }

  lemma {:induction false} LaunchedExactly(session: Message, events: seq<Event>)
    ensures Run(session, events).phase == Setup <==> forall e | e in events :: !EndsSetup(e)
    ensures Run(session, events).phase in {Setup, Finished(SetupFailed)} <==> !Launched(events)
  {
    if events != [] {
      var front, e := events[..|events| - 1], events[|events| - 1];
      assert events == front + [e];
      LaunchedExactly(session, front);
      LaunchedSnoc(front, e);
      NoneEnds(front, e);
      RunKeeps(session, front);
      SetupStep(session, Run(session, front), e);
    }
  }

  lemma NoneEnds(events: seq<Event>, e: Event)
    ensures (forall f | f in events + [e] :: !EndsSetup(f)) <==>
            (forall f | f in events :: !EndsSetup(f)) && !EndsSetup(e)
  {
    assert e in events + [e] && forall f | f in events :: f in events + [e];
  }

  /**
   A finished run stopped the server exactly once if start() had returned, and otherwise never;
   no run stops it twice.
   */
  lemma StopsExactlyOnce(session: Message, events: seq<Event>)
    ensures Run(session, events).stops <= 1
    ensures Run(session, events).stops == 1 ==> Launched(events)
    ensures Run(session, events).phase.Finished? ==> (Run(session, events).stops == 1 <==> Launched(events))
  {
    RunKeeps(session, events);
    LaunchedExactly(session, events);
  }

  /** How a run ended tells what the peer was sent: nothing, or the whole SessionEstablishment. */
  lemma EndingsTell(session: Message, events: seq<Event>)
    requires Run(session, events).phase.Finished?
    ensures var w := Run(session, events);
            && (w.phase.ending.NoDevice? || w.phase.ending.SetupFailed? ==> w.notified == [])
            && (w.phase.ending.ResponseTimeout? || w.phase.ending.Success? ==>
                  w.notified == ChunksOf(session, CHUNK_SIZE))
            && (w.notified == [] || w.notified == ChunksOf(session, CHUNK_SIZE))
  {
    RunKeeps(session, events);
  }

  /** The outcome of a finished run never changes again, nor do the notifications. */
  lemma {:induction false} FinishedStays(session: Message, events: seq<Event>, later: seq<Event>)
    requires Run(session, events).phase.Finished?
    ensures Run(session, events + later).phase == Run(session, events).phase
    ensures Run(session, events + later).notified == Run(session, events).notified
  {
    var all := events + later;
    if later == [] {
      assert all == events;
    } else {
      assert all[..|all| - 1] == events + later[..|later| - 1];
      FinishedStays(session, events, later[..|later| - 1]);
    }
  }

  lemma OneMore(session: Message, events: seq<Event>, e: Event)
    ensures Run(session, events + [e]) == Step(session, Run(session, events), e)
    ensures !e.Write? ==> Sent(events + [e]) == Sent(events)
    ensures e.Write? ==> Sent(events + [e]) == Sent(events) + if e.at == Client2Server then [e.value] else []
  {
    assert (events + [e])[..|events|] == events;
  }

  function Writes(chunks: seq<Message>): seq<Event> {
    if chunks == [] then [] else Writes(chunks[..|chunks| - 1]) + [Write(Client2Server, chunks[|chunks| - 1])]
  }

  lemma OneWrite(session: Message, events: seq<Event>, chunk: Message)
    ensures var w, w' := Run(session, events), Run(session, events + [Write(Client2Server, chunk)]);
            w'.phase == w.phase && (w'.inbox.response.Cancelled? ==> w.inbox.response.Cancelled?)
  {
    OneMore(session, events, Write(Client2Server, chunk));
  }

  lemma OneSent(events: seq<Event>, chunk: Message)
    ensures Sent(events + [Write(Client2Server, chunk)]) == Sent(events) + [chunk]
  {
    assert (events + [Write(Client2Server, chunk)])[..|events|] == events;
  }

  lemma {:induction false} WritesArrive(session: Message, events: seq<Event>, chunks: seq<Message>)
    ensures var w, w' := Run(session, events), Run(session, events + Writes(chunks));
            w'.phase == w.phase && (w'.inbox.response.Cancelled? ==> w.inbox.response.Cancelled?)
    decreases |chunks|
  {
    if chunks == [] {
      assert events + Writes(chunks) == events;
    } else {
      var front, last := chunks[..|chunks| - 1], chunks[|chunks| - 1];
      WritesArrive(session, events, front);
      OneWrite(session, events + Writes(front), last);
      WritesSnoc(events, chunks);
    }
  }

  lemma {:induction false} WritesSent(events: seq<Event>, chunks: seq<Message>)
    ensures Sent(events + Writes(chunks)) == Sent(events) + chunks
    decreases |chunks|
  {
    if chunks == [] {
      assert events + Writes(chunks) == events;
    } else {
      var front, last := chunks[..|chunks| - 1], chunks[|chunks| - 1];
      var before := events + Writes(front);
      WritesSent(events, front);
      WritesSnoc(events, chunks);
      assert Sent(before + [Write(Client2Server, last)]) == Sent(before) + [last] by {
        OneSent(before, last);
      }
      assert Sent(events) + front + [last] == Sent(events) + (front + [last]) && chunks == front + [last];
    }
  }

  lemma WritesSnoc(events: seq<Event>, chunks: seq<Message>)
    requires chunks != []
    ensures events + Writes(chunks) ==
            events + Writes(chunks[..|chunks| - 1]) + [Write(Client2Server, chunks[|chunks| - 1])]
  {
    var front, last := Writes(chunks[..|chunks| - 1]), [Write(Client2Server, chunks[|chunks| - 1])];
    assert Writes(chunks) == front + last;
    assert events + (front + last) == events + front + last;
  }

  /** While the coroutine waits with an empty buffer, a whole framed answer resolves the response. */
  lemma AnswerArrives(session: Message, events: seq<Event>, answer: Message, size: int)
    requires size > 1
    requires Run(session, events).phase == AwaitResponse
    requires Run(session, events).inbox == EMPTY
    ensures var w := Run(session, events + Writes(ChunksOf(answer, size)));
            w.phase == AwaitResponse && w.inbox == Inbox([], Done(answer))
  {
    var chunks := ChunksOf(answer, size);
    var arrived := events + Writes(chunks);
    RunKeeps(session, events);
    RunKeeps(session, arrived);
    WritesArrive(session, events, chunks);
    WritesSent(events, chunks);
    var before := ReceiveAll(NOTHING, Sent(events));
    assert before == NOTHING;
    ReceiveAllAppend(NOTHING, Sent(events), chunks);
    FramingRoundTrip(chunks, answer, size, []);
    assert [] + [answer] == [answer];
  }

  lemma AnswerIsReturned(session: Message, events: seq<Event>, answer: Message)
    requires Run(session, events).phase == AwaitResponse
    requires Run(session, events).inbox.response == Done(answer)
    ensures Run(session, events + [Resume, Stopped]).phase == Finished(Success(answer))
  {
    OneMore(session, events, Resume);
    OneMore(session, events + [Resume], Stopped);
    assert events + [Resume] + [Stopped] == events + [Resume, Stopped];
  }

  lemma OpeningAdmits(session: Message)
    ensures var w := Run(session, [Started, Write(StateChar, STATE_START), Resume]);
            w.phase == AwaitResponse && w.inbox == EMPTY
  {
    var opening := [Started, Write(StateChar, STATE_START), Resume];
    assert opening == [] + [Started] + [Write(StateChar, STATE_START)] + [Resume];
    OneMore(session, [], Started);
    OneMore(session, [] + [Started], Write(StateChar, STATE_START));
    OneMore(session, [] + [Started] + [Write(StateChar, STATE_START)], Resume);
  }

  /**
   The exchange does work: with any SessionEstablishment, any answer and any chunk size of
   the peer, the undisturbed schedule returns the answer.
   */
  lemma UndisturbedRunSucceeds(session: Message, answer: Message, size: int)
    requires size > 1
    ensures var opening := [Started, Write(StateChar, STATE_START), Resume];
            Run(session, opening + Writes(ChunksOf(answer, size)) + [Resume, Stopped]).phase ==
            Finished(Success(answer))
  {
    var opening := [Started, Write(StateChar, STATE_START), Resume];
    OpeningAdmits(session);
    AnswerArrives(session, opening, answer, size);
    AnswerIsReturned(session, opening + Writes(ChunksOf(answer, size)), answer);
  }

  /** The events that can make a run fail. */
  predicate Disturbs(e: Event) { e.SetupFails? || e.TimeOut? || e.Cancel? || e.StopFails? }

  /** Nothing the peer writes, in whatever order, makes a run fail: only the disturbances do. */
  lemma {:induction false} PeerCannotFailARun(session: Message, events: seq<Event>)
    requires forall e | e in events :: !Disturbs(e)
    ensures var phase := Run(session, events).phase;
            phase.Stopping? || phase.Finished? ==> phase.ending.Success?
    ensures Run(session, events).start != Cancelled && Run(session, events).inbox.response != Cancelled
  {
    if events != [] {
      var front := events[..|events| - 1];
      PeerCannotFailARun(session, front);
      assert !Disturbs(events[|events| - 1]);
    }
  }

  // ------------------------------------------------------ what made a run end

  /** What has to come, and in which phase, for a run to end like this. */
  predicate Causes(before: Phase, e: Event, ending: Ending) {
    match ending
    case Success(_) => before.AwaitResponse? && e.Resume?
    case NoDevice => before.AwaitStart? && e.TimeOut?
    case ResponseTimeout => before.AwaitResponse? && e.TimeOut?
    case WasCancelled => !before.Setup? && !before.Finished? && e.Cancel?
    case SetupFailed => before.Setup? && (e.SetupFails? || e.Cancel?)
    case StopFailed => before.Stopping? && e.StopFails?
  }

  /** Some event of the run, in the phase it met, explains the ending. */
  ghost predicate Caused(session: Message, events: seq<Event>, ending: Ending) {
    exists i | 0 <= i < |events| :: Causes(Run(session, events[..i]).phase, events[i], ending)
  }

  lemma CausedSnoc(session: Message, events: seq<Event>, e: Event, ending: Ending)
    requires Caused(session, events, ending) || Causes(Run(session, events).phase, e, ending)
    ensures Caused(session, events + [e], ending)
  {
    var more := events + [e];
    if i :| 0 <= i < |events| && Causes(Run(session, events[..i]).phase, events[i], ending) {
      assert more[..i] == events[..i] && more[i] == events[i];
    } else {
      assert more[..|events|] == events && more[|events|] == e;
    }
  }

  lemma StepCauses(session: Message, w: World, e: Event)
    ensures var before, after := w.phase, Step(session, w, e).phase;
            after.Stopping? || after.Finished? ==>
              Causes(before, e, after.ending)
              || ((before.Stopping? || before.Finished?) && before.ending == after.ending)
  {
  }

  /**
   No run ends without a reason: each ending names the event that caused it and the wait,
   setup or cleanup in which it came.
   */
  lemma {:induction false} EndingsAreCaused(session: Message, events: seq<Event>)
    ensures var phase := Run(session, events).phase;
            phase.Stopping? || phase.Finished? ==> Caused(session, events, phase.ending)
  {
    if events != [] {
      var front, e := events[..|events| - 1], events[|events| - 1];
      assert events == front + [e];
      EndingsAreCaused(session, front);
      OneMore(session, front, e);
      StepCauses(session, Run(session, front), e);
      var phase := Run(session, events).phase;
      if phase.Stopping? || phase.Finished? {
        CausedSnoc(session, front, e, phase.ending);
      }
    }
  }

  /**
   A timeout ends its wait, whatever the peer has written by then: before anything was
   notified with NoDevice, after it with a response timeout, and the server is stopped.
   */
  lemma TimeoutEndsTheWait(session: Message, events: seq<Event>)
    requires Run(session, events).phase.AwaitStart? || Run(session, events).phase.AwaitResponse?
    ensures var w := Run(session, events + [TimeOut]);
            && w.phase == Stopping(if w.notified == [] then NoDevice else ResponseTimeout)
            && w.notified == Run(session, events).notified && w.stops == 1
  {
    OneMore(session, events, TimeOut);
    RunKeeps(session, events);
  }

  /** A cancellation ends every wait, too, and the server is stopped. */
  lemma CancelEndsTheWait(session: Message, events: seq<Event>)
    requires Run(session, events).phase.AwaitStart? || Run(session, events).phase.AwaitResponse?
    ensures var w := Run(session, events + [Cancel]);
            && w.phase == Stopping(WasCancelled)
            && w.notified == Run(session, events).notified && w.stops == 1
  {
    OneMore(session, events, Cancel);
    RunKeeps(session, events);
  }

  /** A cleanup that succeeds returns the ending it was entered with; one that fails has its own. */
  lemma CleanupKeepsTheEnding(session: Message, events: seq<Event>)
    requires Run(session, events).phase.Stopping?
    ensures Run(session, events + [Stopped]).phase == Finished(Run(session, events).phase.ending)
  {
    OneMore(session, events, Stopped);
  }

  lemma CleanupFails(session: Message, events: seq<Event>)
    requires Run(session, events).phase.Stopping?
    ensures Run(session, events + [StopFails]).phase == Finished(StopFailed)
    ensures Run(session, events + [Cancel]).phase == Finished(WasCancelled)
  {
    OneMore(session, events, StopFails);
    OneMore(session, events, Cancel);
  }
}
