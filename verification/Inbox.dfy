/**
 What both BLE roles share while the peer's chunks arrive: the reassembler's buffer and
 the future that the first complete message resolves (ble.py and ble_peripheral.py).
 */
module Inbox {
  import opened Framing

  const STATE_START: Message := [1]
  const STATE_END: Message := [2]

  /** An asyncio future: once done or cancelled it never changes again. */
  datatype Future<+T> = Pending | Done(value: T) | Cancelled

  /** Cancelling has no effect on a future that is already done. */
  function CancelFuture<T>(f: Future<T>): Future<T> { if f.Pending? then Cancelled else f }

  datatype Inbox = Inbox(buffer: Message, response: Future<Message>)

  const EMPTY := Inbox([], Pending)

  /** The peer writes one chunk. */
  function Deliver(inbox: Inbox, chunk: Message): Inbox {
    var next := Receive(Received(inbox.buffer, []), chunk);
    Inbox(next.buffer,
          if next.messages != [] && inbox.response.Pending? then Done(next.messages[0]) else inbox.response)
  }

  /** The inbox after `chunks` arrived, provided nothing but arrivals and a cancellation touched it. */
  ghost predicate Consistent(inbox: Inbox, chunks: seq<Message>) {
    var all := ReceiveAll(NOTHING, chunks);
    && inbox.buffer == all.buffer
    && (inbox.response.Pending? ==> all.messages == [])
    && (inbox.response.Done? ==> all.messages != [] && inbox.response.value == all.messages[0])
  }

  lemma DeliverConsistent(inbox: Inbox, chunks: seq<Message>, chunk: Message)
    requires Consistent(inbox, chunks)
    ensures Consistent(Deliver(inbox, chunk), chunks + [chunk])
  {
    var all := ReceiveAll(NOTHING, chunks);
    ReceiveAllAppend(NOTHING, chunks, [chunk]);
    assert ReceiveAll(all, [chunk]) == Receive(all, chunk);
  }

  /** A done response stays what it is, whatever arrives later. */
  lemma {:induction false} FirstMessageStays(chunks: seq<Message>, later: seq<Message>)
    requires ReceiveAll(NOTHING, chunks).messages != []
    ensures ReceiveAll(NOTHING, chunks + later).messages != []
    ensures ReceiveAll(NOTHING, chunks + later).messages[0] == ReceiveAll(NOTHING, chunks).messages[0]
  {
    ReceiveAllAppend(NOTHING, chunks, later);
    Conservation(ReceiveAll(NOTHING, chunks), later);
  }
}
