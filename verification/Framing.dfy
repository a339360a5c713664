/**
 BLE framing of ble.py: a message travels as chunks, each a prefix octet (1: more
 follow, 0: last) and a payload; the receiver collects payloads in a Reassembler.
 */
module Framing {
  import opened Common

  type Message = seq<Byte>

  const MIN_CHUNK_SIZE := 20
  const MAX_CHUNK_SIZE := 512

  datatype FramingError = ChunkSizeTooSmall | EmptyChunk

  // -------------------------------------------------------------------- sending

  function NegotiateChunkSize(mtu: int): (size: int)
    ensures MIN_CHUNK_SIZE <= size <= MAX_CHUNK_SIZE
    ensures MIN_CHUNK_SIZE <= mtu - 3 ==> size <= mtu - 3
    ensures MIN_CHUNK_SIZE <= mtu - 3 <= MAX_CHUNK_SIZE ==> size == mtu - 3
    ensures mtu - 3 < MIN_CHUNK_SIZE ==> size == MIN_CHUNK_SIZE
    ensures MAX_CHUNK_SIZE < mtu - 3 ==> size == MAX_CHUNK_SIZE
  {
    Min(Max(mtu - 3, MIN_CHUNK_SIZE), MAX_CHUNK_SIZE)
  }

  /** The payload a chunk carries. */
  function Payload(chunk: Message): Message { if chunk == [] then [] else chunk[1..] }

  predicate IsLast(chunk: Message) { chunk != [] && chunk[0] == 0 }

  function Payloads(chunks: seq<Message>): Message {
    if chunks == [] then [] else Payload(chunks[0]) + Payloads(chunks[1..])
  }

  /**
   What makes a list of chunks a framing of `message` within `size` octets a chunk:
   prefixes 1, ..., 1, 0, payloads that spell the message, and every chunk but the last full.
   */
  ghost predicate Frames(chunks: seq<Message>, message: Message, size: int) {
    && chunks != [] && size > 1
    && Payloads(chunks) == message
    && (forall i | 0 <= i < |chunks| :: chunks[i] != [] && |chunks[i]| <= size)
    && (forall i | 0 <= i < |chunks| - 1 :: |chunks[i]| == size)
    && (forall i | 0 <= i < |chunks| :: chunks[i][0] == if i == |chunks| - 1 then 0 else 1)
    && (|chunks| > 1 ==> |chunks[|chunks| - 1]| > 1)
  }

  lemma FramesCons(rest: seq<Message>, message: Message, size: int)
    requires size > 1 && |message| >= size && Frames(rest, message[size - 1..], size)
    ensures Frames([[1] + message[..size - 1]] + rest, message, size)
  {
    var chunks: seq<Message> := [[1] + message[..size - 1]] + rest;
    assert chunks[1..] == rest && Payload(chunks[0]) == message[..size - 1];
    assert message[..size - 1] + message[size - 1..] == message;
    if |rest| == 1 {
      assert rest[0] == [rest[0][0]] + Payload(rest[0]);
      assert Payloads(rest) == Payload(rest[0]);
    }
  }

  /** The framing, cut off the front one full chunk at a time. */
  function ChunksOf(message: Message, size: int): (chunks: seq<Message>)
    requires size > 1
    ensures Frames(chunks, message, size)
    decreases |message|
  {
    if |message| < size then
      assert Payloads([[0] + message]) == message;
      [[0] + message]
    else
      var rest := ChunksOf(message[size - 1..], size);
      FramesCons(rest, message, size);
      [[1] + message[..size - 1]] + rest
  }

  method ChunkMessage(message: Message, maxChunkSize: int) returns (r: Result<seq<Message>, FramingError>)
    ensures r.Err? <==> maxChunkSize <= 1
    ensures r.Ok? ==> Frames(r.value, message, maxChunkSize)
    ensures r.Ok? ==> r.value == ChunksOf(message, maxChunkSize)
  {
    if maxChunkSize <= 1 {
      return Err(ChunkSizeTooSmall);
    }
    var payloadSize := maxChunkSize - 1;
    if message == [] {
      assert Payloads([[0]]) == [];
      FramingUnique([[0]], ChunksOf(message, maxChunkSize), message, maxChunkSize);
      return Ok([[0]]);
    }
    var chunks: seq<Message> := [];
    var offset := 0;
    while offset < |message|
      invariant 0 <= offset <= |message|
      invariant offset > 0 ==> chunks != []
      invariant Payloads(chunks) == message[..offset]
      invariant forall i | 0 <= i < |chunks| :: 1 < |chunks[i]| <= maxChunkSize
      invariant forall i | 0 <= i < |chunks| - 1 :: |chunks[i]| == maxChunkSize
      invariant forall i | 0 <= i < |chunks| ::
                  chunks[i][0] == if i == |chunks| - 1 && offset == |message| then 0 else 1
      invariant offset < |message| && chunks != [] ==> |chunks[|chunks| - 1]| == maxChunkSize
      decreases |message| - offset
    {
      var end := Min(offset + payloadSize, |message|);
      var prefix: Byte := if end == |message| then 0 else 1;
      var chunk := [prefix] + message[offset..end];
      assert Payload(chunk) == message[offset..end];
      PayloadsAppend(chunks, [chunk]);
      assert message[..end] == message[..offset] + message[offset..end];
      chunks := chunks + [chunk];
      offset := end;
    }
    assert message[..offset] == message;
    FramingUnique(chunks, ChunksOf(message, maxChunkSize), message, maxChunkSize);
    return Ok(chunks);
  }

  lemma {:induction false} PayloadsAppend(a: seq<Message>, b: seq<Message>)
    ensures Payloads(a + b) == Payloads(a) + Payloads(b)
  {
    if a == [] {
      assert a + b == b;
    } else {
      assert (a + b)[1..] == a[1..] + b;
      PayloadsAppend(a[1..], b);
    }
  }

  /** The three conditions leave no freedom: a message has one framing per chunk size. */
  lemma {:induction false} FramingUnique(a: seq<Message>, b: seq<Message>, message: Message, size: int)
    requires Frames(a, message, size) && Frames(b, message, size)
    ensures a == b
  {
    assert a[0] == [a[0][0]] + Payload(a[0]) && b[0] == [b[0][0]] + Payload(b[0]);
    FramingTail(a, message, size);
    FramingTail(b, message, size);
    if |a| > 1 && |b| > 1 {
      FramingUnique(a[1..], b[1..], message[size - 1..], size);
    }
  }

  lemma FramingTail(chunks: seq<Message>, message: Message, size: int)
    requires Frames(chunks, message, size)
    ensures |chunks| == 1 <==> |message| < size
    ensures |chunks| == 1 ==> Payload(chunks[0]) == message
    ensures |chunks| > 1 ==>
              && Payload(chunks[0]) == message[..size - 1]
              && Frames(chunks[1..], message[size - 1..], size)
  {
    var rest := chunks[1..];
    assert message == Payload(chunks[0]) + Payloads(rest);
    if rest != [] {
      assert rest == rest[..|rest| - 1] + [rest[|rest| - 1]];
      PayloadsAppend(rest[..|rest| - 1], [rest[|rest| - 1]]);
      assert |Payloads([rest[|rest| - 1]])| > 0;
    }
  }

  // ------------------------------------------------------------------ receiving

  /** The receiver's buffer and what it has emitted so far. */
  datatype Received = Received(buffer: Message, messages: seq<Message>)

  const NOTHING := Received([], [])

  /** Effect of one chunk; an empty chunk raises before anything changes. */
  function Receive(r: Received, chunk: Message): Received {
    if chunk == [] then r
    else
      var all := r.buffer + chunk[1..];
      if chunk[0] == 0 then Received([], r.messages + [all]) else Received(all, r.messages)
  }

  function ReceiveAll(r: Received, chunks: seq<Message>): Received
    decreases chunks
  {
    if chunks == [] then r else ReceiveAll(Receive(r, chunks[0]), chunks[1..])
  }

  class Reassembler {
    var buffer: Message

    constructor ()
      ensures buffer == []
    {
      buffer := [];
    }

    method Feed(chunk: Message) returns (r: Result<Option<Message>, FramingError>)
      modifies this
      ensures r.Err? <==> chunk == []
      ensures forall sent ::
                var next := Receive(Received(old(buffer), sent), chunk);
                && buffer == next.buffer
                && next.messages == sent + (if r.Ok? && r.value.Some? then [r.value.value] else [])
    {
      if chunk == [] {
        return Err(EmptyChunk);
      }
      var isLast := chunk[0] == 0;
      buffer := buffer + chunk[1..];
      if !isLast {
        return Ok(None);
      }
      var result := buffer;
      buffer := [];
      return Ok(Some(result));
    }
  }

  // ---------------------------------------------------------------- main results

  lemma {:induction false} ReceiveAllAppend(r: Received, a: seq<Message>, b: seq<Message>)
    ensures ReceiveAll(r, a + b) == ReceiveAll(ReceiveAll(r, a), b)
    decreases a
  {
    if a == [] {
      assert a + b == b;
    } else {
      assert (a + b)[1..] == a[1..] + b;
      ReceiveAllAppend(Receive(r, a[0]), a[1..], b);
    }
  }

  /** Chunks that are not last only lengthen the buffer. */
  lemma {:induction false} ReceiveMore(r: Received, chunks: seq<Message>)
    requires forall i | 0 <= i < |chunks| :: !IsLast(chunks[i])
    ensures ReceiveAll(r, chunks) == Received(r.buffer + Payloads(chunks), r.messages)
    decreases chunks
  {
    if chunks != [] {
      var next := Receive(r, chunks[0]);
      assert next == Received(r.buffer + Payload(chunks[0]), r.messages);
      ReceiveMore(next, chunks[1..]);
      assert next.buffer + Payloads(chunks[1..]) == r.buffer + (Payload(chunks[0]) + Payloads(chunks[1..]));
    }
  }

  /** Any framing of a message, fed to an empty receiver, emits that message and empties the buffer. */
  lemma {:induction false} FramingRoundTrip(chunks: seq<Message>, message: Message, size: int, sent: seq<Message>)
    requires Frames(chunks, message, size)
    ensures ReceiveAll(Received([], sent), chunks) == Received([], sent + [message])
  {
    var front, last := chunks[..|chunks| - 1], chunks[|chunks| - 1];
    assert chunks == front + [last];
    assert forall i | 0 <= i < |front| :: front[i] == chunks[i] && !IsLast(front[i]);
    assert last == chunks[|chunks| - 1] && IsLast(last);
    ReceiveAllAppend(Received([], sent), front, [last]);
    ReceiveMore(Received([], sent), front);
    PayloadsAppend(front, [last]);
    assert Payloads([last]) == Payload(last);
    var before := Received(Payloads(front), sent);
    assert ReceiveAll(Received([], sent), front) == before;
    assert ReceiveAll(before, [last]) == Receive(before, last);
  }

  /** framings[i] frames messages[i] within its own chunk size. */
  ghost predicate FramesEach(framings: seq<seq<Message>>, messages: seq<Message>, sizes: seq<int>) {
    && |framings| == |messages| == |sizes|
    && forall i | 0 <= i < |messages| :: Frames(framings[i], messages[i], sizes[i])
  }

  /**
   A stream of messages, empty ones included, each framed with its own chunk size, comes
   out of one receiver unchanged and in order, and leaves nothing behind.
   */
  lemma {:induction false} StreamRoundTrip(framings: seq<seq<Message>>, messages: seq<Message>, sizes: seq<int>,
                                           sent: seq<Message>)
    requires FramesEach(framings, messages, sizes)
    ensures ReceiveAll(Received([], sent), Flatten(framings)) == Received([], sent + messages)
  {
    if framings == [] {
      assert sent + messages == sent;
    } else {
      FramingRoundTrip(framings[0], messages[0], sizes[0], sent);
      ReceiveAllAppend(Received([], sent), framings[0], Flatten(framings[1..]));
      StreamRoundTrip(framings[1..], messages[1..], sizes[1..], sent + [messages[0]]);
      assert sent + [messages[0]] + messages[1..] == sent + messages;
    }
  }

  function CountLast(chunks: seq<Message>): nat {
    if chunks == [] then 0 else (if IsLast(chunks[0]) then 1 else 0) + CountLast(chunks[1..])
  }

  /**
   On arbitrary chunks nothing is lost, invented or reordered: what was emitted followed by
   what is buffered is the concatenation of all payloads, and there is one message per last chunk.
   */
  lemma {:induction false} Conservation(r: Received, chunks: seq<Message>)
    ensures var s := ReceiveAll(r, chunks);
            && Flatten(s.messages) + s.buffer == Flatten(r.messages) + r.buffer + Payloads(chunks)
            && |s.messages| == |r.messages| + CountLast(chunks)
            && r.messages <= s.messages
    decreases chunks
  {
    if chunks != [] {
      var next := Receive(r, chunks[0]);
      Conservation(next, chunks[1..]);
      ReceiveConserves(r, chunks[0]);
      var rest := Payloads(chunks[1..]);
      assert Flatten(r.messages) + r.buffer + Payload(chunks[0]) + rest
          == Flatten(r.messages) + r.buffer + (Payload(chunks[0]) + rest);
    }
  }

  lemma ReceiveConserves(r: Received, chunk: Message)
    ensures var s := Receive(r, chunk);
            Flatten(s.messages) + s.buffer == Flatten(r.messages) + r.buffer + Payload(chunk)
  {
    if IsLast(chunk) {
      var all := r.buffer + chunk[1..];
      FlattenAppend(r.messages, [all]);
      assert Flatten([all]) == all;
    }
  }

  // ------------------------------------------------------------- dropped tails

  /** Python's int() on a real: rounds toward zero. */
  function Truncate(x: real): int { if x >= 0.0 then x.Floor else -((-x).Floor) }

  /** How many of `count` chunks the drop-mid-chunk scenario sends. */
  function KeepCount(count: nat, keepFraction: real): int {
    if count > 1 then Clamped(count, count as real * keepFraction) else count
  }

  function Clamped(count: nat, share: real): int { Max(1, Min(count - 1, Truncate(share))) }

  /** The kept share is the fraction of the chunks rounded down, moved into 1..count-1 where it lies outside. */
  lemma KeepsTheFraction(count: nat, keepFraction: real, share: real)
    requires count >= 2 && share == count as real * keepFraction
    ensures var keep := KeepCount(count, keepFraction);
            && 1 <= keep <= count - 1
            && (1.0 <= share < count as real ==> keep as real <= share < keep as real + 1.0)
            && (share < 1.0 ==> keep == 1)
            && (share >= count as real ==> keep == count - 1)
  {
    assert KeepCount(count, keepFraction) == Clamped(count, share);
  }

  lemma RoundsDown(x: real, n: nat)
    ensures x >= 0.0 ==> Truncate(x) as real <= x < Truncate(x) as real + 1.0
    ensures n > 0 ==> (x >= n as real <==> Truncate(x) >= n)
  {
  }

  /**
   Whatever the fraction, a message of at least two chunks is cut strictly inside: the peer
   emits nothing and is left with a non-empty proper prefix of the message.
   */
  lemma DroppedTailNeverCompletes(chunks: seq<Message>, message: Message, size: int, keepFraction: real)
    requires Frames(chunks, message, size) && |chunks| >= 2
    ensures 1 <= KeepCount(|chunks|, keepFraction) <= |chunks| - 1
    ensures var peer := ReceiveAll(NOTHING, chunks[..KeepCount(|chunks|, keepFraction)]);
            && peer.messages == []
            && peer.buffer != [] && peer.buffer < message
  {
    var keep := KeepCount(|chunks|, keepFraction);
    var kept, dropped := chunks[..keep], chunks[keep..];
    assert kept + dropped == chunks;
    ReceiveMore(NOTHING, kept);
    PayloadsAppend(kept, dropped);
    assert |kept[0]| == size && |Payload(kept[0])| > 0;
    var last := dropped[|dropped| - 1];
    assert last == chunks[|chunks| - 1];
    assert dropped == dropped[..|dropped| - 1] + [last];
    PayloadsAppend(dropped[..|dropped| - 1], [last]);
    assert |Payloads([last])| == |last| - 1 > 0;
  }

  /**
   A single-chunk message is sent whole, last-chunk mark included, so the peer does complete
   it: the transfer stays incomplete exactly for messages that do not fit into one chunk.
   */
  lemma DroppedTailExactly(chunks: seq<Message>, message: Message, size: int, keepFraction: real)
    requires Frames(chunks, message, size)
    ensures 0 <= KeepCount(|chunks|, keepFraction) <= |chunks|
    ensures var peer := ReceiveAll(NOTHING, chunks[..KeepCount(|chunks|, keepFraction)]);
            peer.messages == (if |message| >= size then [] else [message])
  {
    FramingTail(chunks, message, size);
    if |chunks| >= 2 {
      DroppedTailNeverCompletes(chunks, message, size, keepFraction);
    } else {
      assert chunks[..KeepCount(|chunks|, keepFraction)] == chunks;
      FramingRoundTrip(chunks, message, size, []);
      assert [] + [message] == [message];
    }
  }

  /** A failing input of the documented "at least one short": this one-octet message is sent whole and completes. */
  lemma OneChunkIsSentWhole(keepFraction: real)
    ensures var chunks := ChunksOf([5], MIN_CHUNK_SIZE);
            && KeepCount(|chunks|, keepFraction) == |chunks|
            && ReceiveAll(NOTHING, chunks[..KeepCount(|chunks|, keepFraction)]).messages == [[5]]
  {
    var chunks := ChunksOf([5], MIN_CHUNK_SIZE);
    DroppedTailExactly(chunks, [5], MIN_CHUNK_SIZE, keepFraction);
  }
}
