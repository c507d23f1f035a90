/**
 How a socket server turns reads into dispatched messages: FrameBuffer, the drain loop of
 _process_buffer and the read loop of _handle_client_data.

 Link is the value of a connection.  Receive is one read; the theorems say that what a connection
 dispatches depends on the bytes received and not on how TCP cut them, and exactly which messages
 keep it open.
 */
module SocketServer {
  import opened Bytes
  import opened FrameCodec

  /**
   What becomes of a frame: a message, a ValueError that is answered, or any other exception, such as
   the TypeError of a JSON scalar or the OSError of an answer that cannot be sent.
   */
  datatype Parse = Message | ValueError | OtherError

  /** An arbitrary function of the frame and of the number of frames handled before it. */
  type Parser = (nat, ByteString) -> Parse

  /** A frame reaches its handler, or is answered with INVALID_MESSAGE. */
  datatype Event = Dispatched(frame: ByteString) | Refused(frame: ByteString)

  /** receive_data: None, or the bytes of one recv (empty when a TLS record is not complete). */
  datatype Read = PeerClosed | Data(bytes: ByteString)

  datatype Link = Link(open: bool, buffer: ByteString, events: seq<Event>)

  const NEW_LINK := Link(true, [], [])

  function Handle(parse: Parser, k: nat, frame: ByteString): Event {
    if parse(k, frame).Message? then Dispatched(frame) else Refused(frame)
  }

  /** Frames from the k-th on, handled up to the first one that escapes the loop, which goes no further. */
  function Handled(parse: Parser, k: nat, frames: seq<ByteString>): seq<Event>
    decreases |frames|
  {
    if frames == [] || parse(k, frames[0]).OtherError? then []
    else [Handle(parse, k, frames[0])] + Handled(parse, k + 1, frames[1..])
  }

  /** The frames after the first one that escapes the loop. */
  function Unhandled(parse: Parser, k: nat, frames: seq<ByteString>): (r: seq<ByteString>)
    ensures forall m <- r :: m in frames
    decreases |frames|
  {
    if frames == [] then []
    else if parse(k, frames[0]).OtherError? then frames[1..]
    else Unhandled(parse, k + 1, frames[1..])
  }

  /** No frame escapes the loop. */
  predicate Harmless(parse: Parser, k: nat, frames: seq<ByteString>) {
    forall i :: 0 <= i < |frames| ==> !parse(k + i, frames[i]).OtherError?
  }

  /** Every frame is handled if and only if none escapes. */
  lemma {:induction false} HarmlessAreHandled(parse: Parser, k: nat, frames: seq<ByteString>)
    ensures |Handled(parse, k, frames)| <= |frames|
    ensures Harmless(parse, k, frames) <==> |Handled(parse, k, frames)| == |frames|
    decreases |frames|
  {
    if frames != [] {
      assert frames == [frames[0]] + frames[1..];
      HarmlessPrepend(parse, k, frames[0], frames[1..]);
      HarmlessAreHandled(parse, k + 1, frames[1..]);
    }
  }

  /** What is handled is handled in its place. */
  lemma {:induction false} HandledInOrder(parse: Parser, k: nat, frames: seq<ByteString>, i: nat)
    requires i < |Handled(parse, k, frames)|
    ensures i < |frames| && Handled(parse, k, frames)[i] == Handle(parse, k + i, frames[i])
    decreases |frames|
  {
    if i > 0 {
      HandledInOrder(parse, k + 1, frames[1..], i - 1);
    }
  }

  lemma HarmlessPrepend(parse: Parser, k: nat, message: ByteString, frames: seq<ByteString>)
    ensures Harmless(parse, k, [message] + frames)
            <==> !parse(k, message).OtherError? && Harmless(parse, k + 1, frames)
  {
    var all := [message] + frames;
    if Harmless(parse, k, all) {
      assert all[0] == message;
      forall i | 0 <= i < |frames|
        ensures !parse(k + 1 + i, frames[i]).OtherError?
      {
        assert all[i + 1] == frames[i];
      }
    }
  }

  /**
   The drain loop on a buffer, given the events before.  A header above the cap raises with the frame
   still buffered; a frame that escapes is gone, and what follows it stays buffered.
   */
  function Process(parse: Parser, buffer: ByteString, events: seq<Event>): Link
    decreases |buffer|
  {
    match Decode(SERVER_LIMIT, buffer)
    case Incomplete => Link(true, buffer, events)
    case TooLong(_) => Link(false, buffer, events)
    case Frame(message, consumed) =>
      if parse(|events|, message).OtherError? then Link(false, buffer[consumed..], events)
      else Process(parse, buffer[consumed..], events + [Handle(parse, |events|, message)])
  }

  function Receive(parse: Parser, s: Link, read: Read): Link {
    if !s.open then s
    else
      match read
      case PeerClosed => s.(open := false)
      case Data(bytes) => if bytes == [] then s else Process(parse, s.buffer + bytes, s.events)
  }

  function ReceiveAll(parse: Parser, s: Link, arrivals: seq<Read>): Link
    decreases |arrivals|
  {
    if arrivals == [] then s else ReceiveAll(parse, Receive(parse, s, arrivals[0]), arrivals[1..])
  }

  function AsReads(pieces: seq<ByteString>): (arrivals: seq<Read>)
  {
    if pieces == [] then [] else [Data(pieces[0])] + AsReads(pieces[1..])
  }

  lemma ReceiveFirst(parse: Parser, s: Link, pieces: seq<ByteString>)
    requires pieces != []
    ensures ReceiveAll(parse, s, AsReads(pieces))
            == ReceiveAll(parse, Receive(parse, s, Data(pieces[0])), AsReads(pieces[1..]))
  {
    assert AsReads(pieces)[0] == Data(pieces[0]) && AsReads(pieces)[1..] == AsReads(pieces[1..]);
  }

  lemma {:induction false} ClosedStaysClosed(parse: Parser, s: Link, arrivals: seq<Read>)
    requires !s.open
    ensures ReceiveAll(parse, s, arrivals) == s
  {
    if arrivals != [] {
      ClosedStaysClosed(parse, s, arrivals[1..]);
    }
  }

  // ---------------------------------------------------------------- the loop against the frames of the stream

  /** What the loop does, said of the frames that the whole buffer holds. */
  lemma {:induction false} ProcessHandles(parse: Parser, buffer: ByteString, events: seq<Event>)
    ensures var d, p := Drain(SERVER_LIMIT, buffer), Process(parse, buffer, events);
            && p.events == events + Handled(parse, |events|, d.frames)
            && (p.open <==> !d.raised && Harmless(parse, |events|, d.frames))
            && (Harmless(parse, |events|, d.frames) ==> p.buffer == d.rest)
    decreases |buffer|
  {
    match Decode(SERVER_LIMIT, buffer)
    case Incomplete =>
    case TooLong(_) =>
    case Frame(message, consumed) =>
      var later := Drain(SERVER_LIMIT, buffer[consumed..]);
      HarmlessPrepend(parse, |events|, message, later.frames);
      if !parse(|events|, message).OtherError? {
        ProcessHandles(parse, buffer[consumed..], events + [Handle(parse, |events|, message)]);
        HandledPrepend(parse, message, later.frames, events);
      }
  }

  lemma HandledPrepend(parse: Parser, message: ByteString, frames: seq<ByteString>, events: seq<Event>)
    requires !parse(|events|, message).OtherError?
    ensures events + [Handle(parse, |events|, message)] + Handled(parse, |events| + 1, frames)
            == events + Handled(parse, |events|, [message] + frames)
  {
    assert ([message] + frames)[1..] == frames;
  }

  lemma UnhandledPrepend(parse: Parser, k: nat, message: ByteString, frames: seq<ByteString>)
    ensures Unhandled(parse, k, [message] + frames)
            == if parse(k, message).OtherError? then frames else Unhandled(parse, k + 1, frames)
  {
    assert ([message] + frames)[1..] == frames;
  }

  /** A frame that escapes leaves exactly the later frames to drain, unhandled. */
  lemma {:induction false} ProcessKeepsLaterFrames(parse: Parser, buffer: ByteString, events: seq<Event>)
    requires !Harmless(parse, |events|, Drain(SERVER_LIMIT, buffer).frames)
    ensures var d := Drain(SERVER_LIMIT, buffer);
            Drain(SERVER_LIMIT, Process(parse, buffer, events).buffer)
            == Drained(Unhandled(parse, |events|, d.frames), d.rest, d.raised)
    decreases |buffer|
  {
    var Frame(message, consumed) := Decode(SERVER_LIMIT, buffer);
    var k, later := |events|, Drain(SERVER_LIMIT, buffer[consumed..]);
    UnhandledPrepend(parse, k, message, later.frames);
    if !parse(k, message).OtherError? {
      HarmlessPrepend(parse, k, message, later.frames);
      ProcessKeepsLaterFrames(parse, buffer[consumed..], events + [Handle(parse, k, message)]);
    }
  }

  // ---------------------------------------------------------------- fragmentation

  /** Processing a part and then, while open, the rest is processing all of it. */
  lemma {:induction false} ProcessAppend(parse: Parser, a: ByteString, b: ByteString, events: seq<Event>)
    ensures var p := Process(parse, a, events);
            Process(parse, a + b, events) ==
            if p.open then Process(parse, p.buffer + b, p.events) else p.(buffer := p.buffer + b)
    decreases |a|
  {
    match Decode(SERVER_LIMIT, a)
    case Incomplete =>
    case TooLong(_) => DecodeExtends(SERVER_LIMIT, a, b);
    case Frame(message, consumed) =>
      DecodeExtends(SERVER_LIMIT, a, b);
      assert (a + b)[consumed..] == a[consumed..] + b;
      ProcessAppend(parse, a[consumed..], b, events + [Handle(parse, |events|, message)]);
  }

  /** s is what a connection that received seen looks like; once closed it reads no more. */
  ghost predicate Reflects(parse: Parser, s: Link, seen: ByteString) {
    var p := Process(parse, seen, []);
    && s.open == p.open && s.events == p.events
    && (if s.open then s.buffer == p.buffer else s.buffer <= p.buffer)
  }

  lemma ReceiveReflects(parse: Parser, s: Link, seen: ByteString, bytes: ByteString)
    requires Reflects(parse, s, seen)
    ensures Reflects(parse, Receive(parse, s, Data(bytes)), seen + bytes)
  {
    ProcessAppend(parse, seen, bytes, []);
    if bytes == [] {
      assert seen + bytes == seen;
    }
  }

  /** For any bytes and any way of cutting them into reads, the connection reflects the bytes alone. */
  lemma {:induction false} FragmentationIndependence(parse: Parser, s: Link, seen: ByteString, pieces: seq<ByteString>)
    requires Reflects(parse, s, seen)
    ensures Reflects(parse, ReceiveAll(parse, s, AsReads(pieces)), seen + Flatten(pieces))
    decreases |pieces|
  {
    if pieces == [] {
      assert seen + Flatten(pieces) == seen;
    } else {
      ReceiveReflects(parse, s, seen, pieces[0]);
      var next := Receive(parse, s, Data(pieces[0]));
      FragmentationIndependence(parse, next, seen + pieces[0], pieces[1..]);
      FlattenFirst(seen, pieces);
      ReceiveFirst(parse, s, pieces);
    }
  }

  lemma FreshReflects(parse: Parser, pieces: seq<ByteString>)
    ensures Reflects(parse, ReceiveAll(parse, NEW_LINK, AsReads(pieces)), Flatten(pieces))
  {
    FragmentationIndependence(parse, NEW_LINK, [], pieces);
    assert [] + Flatten(pieces) == Flatten(pieces);
  }

  /**
   Any splitting of the encoding of a list of messages within the cap: the messages before the first
   one that escapes are handled, in order, each once.  The connection stays open, with all of them
   handled and only the incomplete frame left, if and only if no message escapes.
   */
  lemma MessagesSurviveFragmentation(parse: Parser, messages: seq<ByteString>, tail: ByteString, pieces: seq<ByteString>)
    requires forall m <- messages :: |m| <= MAX_MESSAGE_SIZE
    requires Decode(SERVER_LIMIT, tail).Incomplete?
    requires Flatten(pieces) == Stream(messages) + tail
    ensures var s := ReceiveAll(parse, NEW_LINK, AsReads(pieces));
            && s.events == Handled(parse, 0, messages)
            && (s.open <==> Harmless(parse, 0, messages))
            && (s.open <==> |s.events| == |messages|)
            && (s.open ==> s.buffer == tail)
            && (!s.open ==> s.buffer <= Stream(Unhandled(parse, 0, messages)) + tail)
  {
    FreshReflects(parse, pieces);
    DrainEncoded(SERVER_LIMIT, messages, tail);
    ProcessHandles(parse, Flatten(pieces), []);
    HarmlessAreHandled(parse, 0, messages);
    if !Harmless(parse, 0, messages) {
      ProcessKeepsLaterFrames(parse, Flatten(pieces), []);
      DrainLosesNothing(SERVER_LIMIT, Process(parse, Flatten(pieces), []).buffer);
    }
  }

  /** A JSON scalar: the frame 00 00 00 01 35 closes the connection, and no message after it is handled. */
  lemma ScalarFrameCloses(parse: Parser, later: seq<ByteString>, pieces: seq<ByteString>)
    requires parse(0, [53]) == OtherError
    requires forall m <- later :: |m| <= MAX_MESSAGE_SIZE
    requires Flatten(pieces) == [0, 0, 0, 1, 53] + Stream(later)
    ensures var s := ReceiveAll(parse, NEW_LINK, AsReads(pieces)); !s.open && s.events == []
  {
    assert ([[53]] + later)[1..] == later;
    StreamCons([53], later, []);
    assert PackU32(1) + [53] == [0, 0, 0, 1, 53];
    assert Stream([[53]] + later) + [] == Flatten(pieces);
    MessagesSurviveFragmentation(parse, [[53]] + later, [], pieces);
    assert ([[53]] + later)[0] == [53];
  }

  lemma DrainOversized(messages: seq<ByteString>, big: ByteString, after: ByteString)
    requires forall m <- messages :: |m| <= MAX_MESSAGE_SIZE
    requires MAX_MESSAGE_SIZE < |big| < U32_LIMIT
    ensures var tail := PackU32(|big|) + big + after;
            Drain(SERVER_LIMIT, Stream(messages) + tail) == Drained(messages, tail, true)
  {
    var tail := PackU32(|big|) + big + after;
    assert tail[..HEADER_SIZE] == PackU32(|big|);
    UnpackPack(|big|);
    assert Drain(SERVER_LIMIT, tail) == Drained([], tail, true);
    DrainEncoded(SERVER_LIMIT, messages, []);
    assert Stream(messages) + [] == Stream(messages);
    DrainAppend(SERVER_LIMIT, Stream(messages), tail);
    assert [] + tail == tail && messages + [] == messages;
  }

  /**
   A message above the cap closes the connection, if nothing before it did: what came before it is
   handled up to the first message that escapes, and nothing after it ever is, whatever follows and
   however the stream is cut.
   */
  lemma OversizedMessageCloses(parse: Parser, messages: seq<ByteString>, big: ByteString,
                               after: ByteString, pieces: seq<ByteString>)
    requires forall m <- messages :: |m| <= MAX_MESSAGE_SIZE
    requires MAX_MESSAGE_SIZE < |big| < U32_LIMIT
    requires Flatten(pieces) == Stream(messages) + (PackU32(|big|) + big + after)
    ensures var s := ReceiveAll(parse, NEW_LINK, AsReads(pieces));
            !s.open && s.events == Handled(parse, 0, messages)
  {
    FreshReflects(parse, pieces);
    DrainOversized(messages, big, after);
    ProcessHandles(parse, Flatten(pieces), []);
  }

  class FrameBuffer {
    const limit: Limit
    var buffer: ByteString

    constructor (limit: Limit)
      ensures this.limit == limit && buffer == []
    {
      this.limit := limit;
      buffer := [];
    }

    method Append(data: ByteString)
      modifies this
      ensures buffer == old(buffer) + data
    {
      buffer := buffer + data;
    }

    method ExtractFrame() returns (r: Decoded)
      modifies this
      ensures r == Decode(limit, old(buffer))
      ensures buffer == if r.Frame? then old(buffer)[r.consumed..] else old(buffer)
    {
      if |buffer| < HEADER_SIZE {
        return Incomplete;
      }
      r := Decode(limit, buffer);
      if r.Frame? {
        buffer := buffer[r.consumed..];
      }
    }

    method Clear()
      modifies this
      ensures buffer == []
    {
      buffer := [];
    }
  }

  class SocketConnection {
    const buffer: FrameBuffer
    var open: bool
    var events: seq<Event>

    ghost predicate Valid() reads this, buffer { buffer.limit == SERVER_LIMIT }

    ghost function Value(): Link
      reads this, buffer
    {
      Link(open, buffer.buffer, events)
    }

    constructor ()
      ensures Valid() && fresh(buffer) && Value() == NEW_LINK
    {
      buffer := new FrameBuffer(SERVER_LIMIT);
      open := true;
      events := [];
    }

    /** Extracts and handles every complete frame, unless one raises something that is not a ValueError. */
    method ProcessBuffer(parse: Parser) returns (raised: bool)
      requires Valid()
      modifies this, buffer
      ensures Valid() && open == old(open)
      ensures Value().(open := !raised) == Process(parse, old(buffer.buffer), old(events))
    {
      while true
        invariant Valid() && open == old(open)
        invariant Process(parse, buffer.buffer, events) == Process(parse, old(buffer.buffer), old(events))
        decreases |buffer.buffer|
      {
        var frame := buffer.ExtractFrame();
        match frame {
          case Incomplete => return false;
          case TooLong(_) => return true;
          case Frame(message, _) =>
            if parse(|events|, message).OtherError? {
              return true;
            }
            events := events + [Handle(parse, |events|, message)];
        }
      }
    }

    /** One readiness event: the reads of the loop, which goes on while TLS has buffered records. */
    method HandleClientData(parse: Parser, arrivals: seq<Read>)
      requires Valid()
      modifies this, buffer
      ensures Valid()
      ensures Value() == ReceiveAll(parse, old(Value()), arrivals)
    {
      if !open {
        ClosedStaysClosed(parse, Value(), arrivals);
        return;
      }
      var i := 0;
      while i < |arrivals|
        invariant 0 <= i <= |arrivals| && Valid() && open
        invariant ReceiveAll(parse, old(Value()), arrivals) == ReceiveAll(parse, Value(), arrivals[i..])
      {
        ghost var before := Value();
        assert ReceiveAll(parse, before, arrivals[i..]) == ReceiveAll(parse, Receive(parse, before, arrivals[i]), arrivals[i + 1..]);
        match arrivals[i] {
          case PeerClosed =>
            open := false;
            ClosedStaysClosed(parse, Value(), arrivals[i + 1..]);
            return;
          case Data(bytes) =>
            if bytes != [] {
              buffer.Append(bytes);
              var raised := ProcessBuffer(parse);
              if raised {
                open := false;
                ClosedStaysClosed(parse, Value(), arrivals[i + 1..]);
                return;
              }
            }
        }
        i := i + 1;
      }
    }
  }
}
