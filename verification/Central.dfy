/**
 The reader as GATT client (`exchange` of ble.py, from the moment it is connected).
 Every write is awaited, so the peer's notifications may fall between any two of them.
 */
module Central {
  import opened Framing
  import opened Inbox

  datatype Target = StateChar | Client2Server

  datatype Ending =
    | Success(response: Message)
    | ResponseTimeout
    | TransportFailed    // a BLE call raised before the wait, or with something other than BleakError after it
    | WasCancelled

  datatype Phase =
    | Subscribing                 // awaiting start_notify
    | Starting                    // awaiting the write of STATE_START
    | Sending(sent: nat)          // awaiting the write of chunk sent - 1
    | AwaitResponse
    | Closing(ending: Ending)     // awaiting the write of STATE_END
    | Disconnected(ending: Ending)

  datatype Event =
    | Notified(chunk: Message)
    | Advance            // the awaited BLE call returned, or the response is there
    | BleakFails         // the awaited BLE call raised BleakError
    | OtherFails         // it raised anything else
    | TimeOut
    | Cancel

  /** `log` holds the writes begun, in order; `disconnects` counts leaving the client context. */
  datatype World = World(phase: Phase, inbox: Inbox, log: seq<(Target, Message)>, disconnects: nat)

  const INITIAL := World(Subscribing, EMPTY, [], 0)

  function Leave(w: World, ending: Ending): World {
    w.(phase := Disconnected(ending), disconnects := w.disconnects + 1)
  }

  /** Leaving the wait: STATE_END is always attempted. */
  function Close(w: World, ending: Ending): World {
    w.(phase := Closing(ending), log := w.log + [(StateChar, STATE_END)])
  }

  function Step(chunks: seq<Message>, w: World, e: Event): World {
    match e
    case Notified(chunk) => if w.phase.Disconnected? then w else w.(inbox := Deliver(w.inbox, chunk))
    case Advance =>
      (match w.phase
       case Subscribing => w.(phase := Starting, log := w.log + [(StateChar, STATE_START)])
       case Starting => SendNext(chunks, w, 0)
       case Sending(sent) => SendNext(chunks, w, sent)
       case AwaitResponse => if w.inbox.response.Done? then Close(w, Success(w.inbox.response.value)) else w
       case Closing(ending) => Leave(w, ending)
       case Disconnected(_) => w)
    case BleakFails =>
      (match w.phase
       case AwaitResponse => w
       case Closing(ending) => Leave(w, ending)
       case Disconnected(_) => w
       case _ => Leave(w, TransportFailed))
    case OtherFails =>
      if w.phase.AwaitResponse? || w.phase.Disconnected? then w else Leave(w, TransportFailed)
    case TimeOut =>
      if w.phase.AwaitResponse? then
        Close(w.(inbox := w.inbox.(response := CancelFuture(w.inbox.response))), ResponseTimeout)
      else w
    case Cancel =>
      if w.phase.AwaitResponse? then
        Close(w.(inbox := w.inbox.(response := CancelFuture(w.inbox.response))), WasCancelled)
      else if w.phase.Disconnected? then w
      else Leave(w, WasCancelled)
  }

  /** Begin the next chunk write, or start waiting once all chunks are out. */
  function SendNext(chunks: seq<Message>, w: World, sent: nat): World {
    if sent < |chunks| then
      w.(phase := Sending(sent + 1), log := w.log + [(Client2Server, chunks[sent])])
    else w.(phase := AwaitResponse)
  }

  function Run(chunks: seq<Message>, events: seq<Event>): World {
    if events == [] then INITIAL
    else Step(chunks, Run(chunks, events[..|events| - 1]), events[|events| - 1])
  }

  class Exchange {
    const chunks: seq<Message>
    const reassembler: Reassembler
    var phase: Phase
    var response: Future<Message>
    var log: seq<(Target, Message)>
    var disconnects: nat

    ghost function View(): World
      reads this, reassembler
    {
      World(phase, Inbox(reassembler.buffer, response), log, disconnects)
    }

    constructor (session: Message, mtu: int)
      ensures View() == INITIAL && fresh(reassembler)
      ensures chunks == ChunksOf(session, NegotiateChunkSize(mtu))
    {
      reassembler := new Reassembler();
      phase, response, log, disconnects := Subscribing, Pending, [], 0;
      var framed := ChunkMessage(session, NegotiateChunkSize(mtu));
      chunks := framed.value;
    }

    method OnServer2Client(chunk: Message)
      modifies this, reassembler
      ensures View() == Step(chunks, old(View()), Notified(chunk))
    {
      if !phase.Disconnected? {
        ghost var before := Received(reassembler.buffer, []);
        var message := reassembler.Feed(chunk);
        assert Receive(before, chunk).buffer == reassembler.buffer;
        if message.Ok? && message.value.Some? && response.Pending? {
          response := Done(message.value.value);
        }
      }
    }

    method OnAdvance()
      modifies this
      ensures View() == Step(chunks, old(View()), Advance)
    {
      match phase {
        case Subscribing =>
          log := log + [(StateChar, STATE_START)];
          phase := Starting;
        case Starting =>
          BeginChunk(0);
        case Sending(sent) =>
          BeginChunk(sent);
        case AwaitResponse =>
          if response.Done? {
            log := log + [(StateChar, STATE_END)];
            phase := Closing(Success(response.value));
          }
        case Closing(ending) =>
          disconnects := disconnects + 1;
          phase := Disconnected(ending);
        case Disconnected(_) =>
      }
    }

    method BeginChunk(sent: nat)
      modifies this`phase, this`log
      ensures View() == SendNext(chunks, old(View()), sent)
    {
      if sent < |chunks| {
        log := log + [(Client2Server, chunks[sent])];
        phase := Sending(sent + 1);
      } else {
        phase := AwaitResponse;
      }
    }

    method OnFailure(bleak: bool)
      modifies this
      ensures View() == Step(chunks, old(View()), if bleak then BleakFails else OtherFails)
    {
      if !phase.AwaitResponse? && !phase.Disconnected? {
        disconnects := disconnects + 1;
        phase := Disconnected(if bleak && phase.Closing? then phase.ending else TransportFailed);
      }
    }

    method OnTimeOut()
      modifies this
      ensures View() == Step(chunks, old(View()), TimeOut)
    {
      if phase.AwaitResponse? {
        response := CancelFuture(response);
        log := log + [(StateChar, STATE_END)];
        phase := Closing(ResponseTimeout);
      }
    }

    method OnCancel()
      modifies this
      ensures View() == Step(chunks, old(View()), Cancel)
    {
      if phase.AwaitResponse? {
        response := CancelFuture(response);
        log := log + [(StateChar, STATE_END)];
        phase := Closing(WasCancelled);
      } else if !phase.Disconnected? {
        disconnects := disconnects + 1;
        phase := Disconnected(WasCancelled);
      }
    }
  }

  // ------------------------------------------------- what every run keeps

  /** The notifications that arrived while connected. */
  function Arrived(chunks: seq<Message>, events: seq<Event>): seq<Message> {
    if events == [] then []
    else
      var front, e := events[..|events| - 1], events[|events| - 1];
      Arrived(chunks, front) +
      if e.Notified? && !Run(chunks, front).phase.Disconnected? then [e.chunk] else []
  }

  function Chunked(chunks: seq<Message>): seq<(Target, Message)> {
    seq(|chunks|, i requires 0 <= i < |chunks| => (Client2Server, chunks[i]))
  }

  /** The whole transfer: STATE_START, every chunk in order, STATE_END. */
  function FullLog(chunks: seq<Message>): seq<(Target, Message)> {
    [(StateChar, STATE_START)] + Chunked(chunks) + [(StateChar, STATE_END)]
  }

  ghost predicate Invariant(chunks: seq<Message>, events: seq<Event>, w: World) {
    Keeps(chunks, Arrived(chunks, events), w)
  }

  /** What holds of a world in which exactly `arrived` has been notified. */
  ghost predicate Keeps(chunks: seq<Message>, arrived: seq<Message>, w: World) {
    && Consistent(w.inbox, arrived)
    && (match w.phase
        case Subscribing => w.log == []
        case Starting => w.log == FullLog(chunks)[..1]
        case Sending(sent) => 0 < sent <= |chunks| && w.log == FullLog(chunks)[..1 + sent]
        case AwaitResponse => w.log == FullLog(chunks)[..1 + |chunks|]
        case Closing(_) => w.log == FullLog(chunks)
        case Disconnected(_) => w.log <= FullLog(chunks))
    && w.disconnects == (if w.phase.Disconnected? then 1 else 0)
    && (w.phase.Disconnected? && (w.phase.ending.ResponseTimeout? || w.phase.ending.Success?) ==>
          w.log == FullLog(chunks))
    && (w.phase.Closing? || w.phase.Disconnected? ==>
          w.phase.ending.Success? ==>
            && ReceiveAll(NOTHING, arrived).messages != []
            && ReceiveAll(NOTHING, arrived).messages[0] == w.phase.ending.response)
  }

  lemma NotifiedKeeps(chunks: seq<Message>, arrived: seq<Message>, w: World, chunk: Message)
    requires chunks != [] && Keeps(chunks, arrived, w) && !w.phase.Disconnected?
    ensures Keeps(chunks, arrived + [chunk], Step(chunks, w, Notified(chunk)))
  {
    DeliverConsistent(w.inbox, arrived, chunk);
    if ReceiveAll(NOTHING, arrived).messages != [] {
      FirstMessageStays(arrived, [chunk]);
    }
  }

  lemma OtherKeeps(chunks: seq<Message>, e: Event, w: World, arrived: seq<Message>)
    requires chunks != [] && (e.Notified? ==> w.phase.Disconnected?)
    requires Keeps(chunks, arrived, w)
    ensures Keeps(chunks, arrived, Step(chunks, w, e))
  {
    if w.phase.Sending? && w.phase.sent < |chunks| {
    }
  }

  lemma {:induction false} RunKeeps(chunks: seq<Message>, events: seq<Event>)
    requires chunks != []
    ensures Invariant(chunks, events, Run(chunks, events))
  {
    if events != [] {
      var front, e := events[..|events| - 1], events[|events| - 1];
      RunKeeps(chunks, front);
      assert events == front + [e];
      if e.Notified? && !Run(chunks, front).phase.Disconnected? {
        NotifiedKeeps(chunks, Arrived(chunks, front), Run(chunks, front), e.chunk);
      } else {
        assert Arrived(chunks, events) == Arrived(chunks, front);
        OtherKeeps(chunks, e, Run(chunks, front), Arrived(chunks, front));
      }
    }
  }

  // --------------------------------------------------------------- main results

  /** In every run the writes begun are a prefix of the one full transfer, so STATE_END is last and unique. */
  lemma WritesInOrder(chunks: seq<Message>, events: seq<Event>)
    requires chunks != []
    ensures Run(chunks, events).log <= FullLog(chunks)
  {
    RunKeeps(chunks, events);
  }

  /**
   A success or a response timeout has sent everything, STATE_END included; a success
   returns the first complete message notified; and the connection is left exactly once.
   */
  lemma EndingsMean(session: Message, mtu: int, events: seq<Event>)
    ensures var chunks := ChunksOf(session, NegotiateChunkSize(mtu));
            var w := Run(chunks, events);
            && (w.disconnects == 1 <==> w.phase.Disconnected?) && w.disconnects <= 1
            && (w.phase.Disconnected? && (w.phase.ending.Success? || w.phase.ending.ResponseTimeout?) ==>
                  && w.log == FullLog(chunks)
                  && ReceiveAll(NOTHING, chunks) == Received([], [session]))
            && (w.phase.Disconnected? && w.phase.ending.Success? ==>
                  && ReceiveAll(NOTHING, Arrived(chunks, events)).messages != []
                  && ReceiveAll(NOTHING, Arrived(chunks, events)).messages[0] == w.phase.ending.response)
  {
    var chunks := ChunksOf(session, NegotiateChunkSize(mtu));
    RunKeeps(chunks, events);
    FramingRoundTrip(chunks, session, NegotiateChunkSize(mtu), []);
    assert [] + [session] == [session];
  }

  // ------------------------------------------------------ what made a run end

  lemma OneMore(chunks: seq<Message>, events: seq<Event>, e: Event)
    ensures Run(chunks, events + [e]) == Step(chunks, Run(chunks, events), e)
  {
    assert (events + [e])[..|events|] == events;
  }

  /** What has to come, and in which phase, for a run to end like this. */
  predicate Causes(before: Phase, e: Event, ending: Ending) {
    match ending
    case Success(_) => before.AwaitResponse? && e.Advance?
    case ResponseTimeout => before.AwaitResponse? && e.TimeOut?
    case WasCancelled => !before.Disconnected? && e.Cancel?
    case TransportFailed =>
      || (e.BleakFails? && (before.Subscribing? || before.Starting? || before.Sending?))
      || (e.OtherFails? && !before.AwaitResponse? && !before.Disconnected?)
  }

  /** Some event of the run, in the phase it met, explains the ending. */
  ghost predicate Caused(chunks: seq<Message>, events: seq<Event>, ending: Ending) {
    exists i | 0 <= i < |events| :: Causes(Run(chunks, events[..i]).phase, events[i], ending)
  }

  lemma CausedSnoc(chunks: seq<Message>, events: seq<Event>, e: Event, ending: Ending)
    requires Caused(chunks, events, ending) || Causes(Run(chunks, events).phase, e, ending)
    ensures Caused(chunks, events + [e], ending)
  {
    var more := events + [e];
    if i :| 0 <= i < |events| && Causes(Run(chunks, events[..i]).phase, events[i], ending) {
      assert more[..i] == events[..i] && more[i] == events[i];
    } else {
      assert more[..|events|] == events && more[|events|] == e;
    }
  }

  lemma StepCauses(chunks: seq<Message>, w: World, e: Event)
    ensures var before, after := w.phase, Step(chunks, w, e).phase;
            after.Closing? || after.Disconnected? ==>
              Causes(before, e, after.ending)
              || ((before.Closing? || before.Disconnected?) && before.ending == after.ending)
  {
  }

  /**
   No run ends without a reason: a success needs the wait to return, a response timeout a
   timeout of that wait, a cancellation a Cancel, and a transport failure a failing call.
   */
  lemma {:induction false} EndingsAreCaused(chunks: seq<Message>, events: seq<Event>)
    ensures var phase := Run(chunks, events).phase;
            phase.Closing? || phase.Disconnected? ==> Caused(chunks, events, phase.ending)
  {
    if events != [] {
      var front, e := events[..|events| - 1], events[|events| - 1];
      assert events == front + [e];
      EndingsAreCaused(chunks, front);
      OneMore(chunks, front, e);
      StepCauses(chunks, Run(chunks, front), e);
      var phase := Run(chunks, events).phase;
      if phase.Closing? || phase.Disconnected? {
        CausedSnoc(chunks, front, e, phase.ending);
      }
    }
  }

  /** A connection found stale when STATE_END is written does not hide how the wait ended. */
  lemma StaleConnectionKeepsTheEnding(chunks: seq<Message>, events: seq<Event>)
    requires Run(chunks, events).phase.Closing?
    ensures Run(chunks, events + [BleakFails]).phase == Disconnected(Run(chunks, events).phase.ending)
    ensures Run(chunks, events + [Advance]).phase == Disconnected(Run(chunks, events).phase.ending)
  {
    OneMore(chunks, events, BleakFails);
    OneMore(chunks, events, Advance);
  }

  /** Outside the wait, a failing call or a cancellation leaves the client at once. */
  lemma FailureDisconnects(chunks: seq<Message>, events: seq<Event>)
    requires !Run(chunks, events).phase.AwaitResponse? && !Run(chunks, events).phase.Disconnected?
    ensures Run(chunks, events + [OtherFails]).phase == Disconnected(TransportFailed)
    ensures Run(chunks, events + [Cancel]).phase == Disconnected(WasCancelled)
    ensures !Run(chunks, events).phase.Closing? ==>
              Run(chunks, events + [BleakFails]).phase == Disconnected(TransportFailed)
  {
    OneMore(chunks, events, OtherFails);
    OneMore(chunks, events, Cancel);
    OneMore(chunks, events, BleakFails);
  }

  /** An end of the wait settles the ending: nothing after it turns a timeout into a success. */
  lemma WaitEnds(chunks: seq<Message>, events: seq<Event>)
    requires Run(chunks, events).phase == AwaitResponse
    ensures Run(chunks, events + [TimeOut]).phase == Closing(ResponseTimeout)
    ensures Run(chunks, events + [Cancel]).phase == Closing(WasCancelled)
    ensures var arrived := ReceiveAll(NOTHING, Arrived(chunks, events)).messages;
            chunks != [] && arrived != [] ==>
              Run(chunks, events + [Advance]).phase == Closing(Success(arrived[0]))
  {
    OneMore(chunks, events, TimeOut);
    OneMore(chunks, events, Cancel);
    OneMore(chunks, events, Advance);
    NotCancelled(chunks, events);
    if chunks != [] {
      RunKeeps(chunks, events);
    }
  }

  /** Only leaving the wait can cancel the response. */
  lemma {:induction false} NotCancelled(chunks: seq<Message>, events: seq<Event>)
    ensures var w := Run(chunks, events);
            w.inbox.response.Cancelled? ==> w.phase.Closing? || w.phase.Disconnected?
  {
    if events != [] {
      NotCancelled(chunks, events[..|events| - 1]);
    }
  }

  // ---------------------------------------------------------- the exchange works

  function Repeat(count: nat, e: Event): seq<Event> { seq(count, _ => e) }

  function Notifications(chunks: seq<Message>): seq<Event> {
    seq(|chunks|, i requires 0 <= i < |chunks| => Notified(chunks[i]))
  }

  /** When every write returns, k + 2 returns bring the exchange to the write of chunk k. */
  lemma {:induction false} TransferGoesOn(chunks: seq<Message>, k: nat)
    requires chunks != [] && k <= |chunks|
    ensures Run(chunks, Repeat(k + 2, Advance)).phase == (if k < |chunks| then Sending(k + 1) else AwaitResponse)
  {
    var before := Repeat(k + 1, Advance);
    assert Repeat(k + 2, Advance) == before + [Advance];
    OneMore(chunks, before, Advance);
    if k == 0 {
      assert before == [] + [Advance];
      OneMore(chunks, [], Advance);
    } else {
      TransferGoesOn(chunks, k - 1);
    }
  }

  lemma {:induction false} StillWaiting(chunks: seq<Message>, events: seq<Event>, answer: seq<Message>)
    requires Run(chunks, events).phase == AwaitResponse
    ensures Run(chunks, events + Notifications(answer)).phase == AwaitResponse
    decreases |answer|
  {
    if answer == [] {
      assert events + Notifications(answer) == events;
    } else {
      var front := answer[..|answer| - 1];
      StillWaiting(chunks, events, front);
      NotificationsSnoc(events, answer);
      OneMore(chunks, events + Notifications(front), Notified(answer[|answer| - 1]));
    }
  }

  lemma NotificationsSnoc(events: seq<Event>, answer: seq<Message>)
    requires answer != []
    ensures events + Notifications(answer) ==
            events + Notifications(answer[..|answer| - 1]) + [Notified(answer[|answer| - 1])]
  {
  }

  lemma {:induction false} AnswerArrives(chunks: seq<Message>, events: seq<Event>, answer: seq<Message>)
    requires Run(chunks, events).phase == AwaitResponse
    ensures Arrived(chunks, events + Notifications(answer)) == Arrived(chunks, events) + answer
    decreases |answer|
  {
    if answer == [] {
      assert events + Notifications(answer) == events;
    } else {
      var front, last := answer[..|answer| - 1], answer[|answer| - 1];
      AnswerArrives(chunks, events, front);
      StillWaiting(chunks, events, front);
      NotificationsSnoc(events, answer);
      var all := Arrived(chunks, events);
      assert all + front + [last] == all + (front + [last]) && front + [last] == answer;
    }
  }

  lemma {:induction false} NothingArrived(chunks: seq<Message>, count: nat)
    ensures Arrived(chunks, Repeat(count, Advance)) == []
  {
    if count > 0 {
      assert Repeat(count, Advance)[..count - 1] == Repeat(count - 1, Advance);
      NothingArrived(chunks, count - 1);
    }
  }

  /** A whole framed answer, arriving while the response is awaited, resolves it. */
  lemma AnswerResolves(chunks: seq<Message>, events: seq<Event>, answer: Message, size: int)
    requires chunks != [] && size > 1
    requires Run(chunks, events).phase == AwaitResponse && Arrived(chunks, events) == []
    ensures var w := Run(chunks, events + Notifications(ChunksOf(answer, size)));
            w.phase == AwaitResponse && w.inbox.response == Done(answer)
  {
    var framed := ChunksOf(answer, size);
    var all := events + Notifications(framed);
    StillWaiting(chunks, events, framed);
    NotCancelled(chunks, all);
    RunKeeps(chunks, all);
    assert Arrived(chunks, all) == framed by {
      AnswerArrives(chunks, events, framed);
      assert [] + framed == framed;
    }
    FramingRoundTrip(framed, answer, size, []);
    assert [] + [answer] == [answer];
  }

  /**
   The exchange does work: for any session, MTU, answer and chunk size of the peer, when every
   call returns and the answer arrives while it is awaited, the answer is what comes back.
   */
  lemma UndisturbedRunSucceeds(session: Message, mtu: int, answer: Message, size: int)
    requires size > 1
    ensures var chunks := ChunksOf(session, NegotiateChunkSize(mtu));
            var schedule := Repeat(|chunks| + 2, Advance) + Notifications(ChunksOf(answer, size));
            Run(chunks, schedule + [Advance, Advance]).phase == Disconnected(Success(answer))
  {
    var chunks := ChunksOf(session, NegotiateChunkSize(mtu));
    var schedule := Repeat(|chunks| + 2, Advance) + Notifications(ChunksOf(answer, size));
    TransferGoesOn(chunks, |chunks|);
    NothingArrived(chunks, |chunks| + 2);
    AnswerResolves(chunks, Repeat(|chunks| + 2, Advance), answer, size);
    AnswerIsReturned(chunks, schedule, answer);
  }

  lemma AnswerIsReturned(chunks: seq<Message>, events: seq<Event>, answer: Message)
    requires Run(chunks, events).phase == AwaitResponse && Run(chunks, events).inbox.response == Done(answer)
    ensures Run(chunks, events + [Advance, Advance]).phase == Disconnected(Success(answer))
  {
    OneMore(chunks, events, Advance);
    OneMore(chunks, events + [Advance], Advance);
    assert events + [Advance] + [Advance] == events + [Advance, Advance];
  }
}
