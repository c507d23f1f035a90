/**
 Length-prefixed control-plane frames: four big-endian length bytes, then the message.

 The coordinator's codec refuses a declared length above MAX_MESSAGE_SIZE; the client's codec is the
 same code without that check.  Both are Decode with a limit: SERVER_LIMIT for the coordinator, and
 for the client the largest length four bytes can declare, which no header exceeds.
 */
module FrameCodec {
  import opened Bytes
  import opened Wrappers

  const HEADER_SIZE: nat := 4
  const MAX_MESSAGE_SIZE: nat := 10 * 1024 * 1024
  const SERVER_LIMIT: nat := MAX_MESSAGE_SIZE
  const CLIENT_LIMIT: nat := U32_LIMIT - 1

  type Limit = n: nat | n < U32_LIMIT

  /** What decode_frame yields: (None, 0), a ValueError, or a message and the bytes it used. */
  datatype Decoded = Incomplete | TooLong(declared: nat) | Frame(message: ByteString, consumed: nat)

  /** encode; None is the ValueError of the coordinator, or struct.error for the client. */
  function Encode(limit: Limit, message: ByteString): (r: Option<ByteString>)
  {
    if |message| > limit then None else Some(PackU32(|message|) + message)
  }

  function Decode(limit: Limit, data: ByteString): (r: Decoded)
    ensures r.Frame? ==> HEADER_SIZE <= r.consumed == HEADER_SIZE + |r.message| <= |data|
    ensures r.TooLong? ==> limit < r.declared
  {
    if |data| < HEADER_SIZE then Incomplete
    else
      var length := UnpackU32(data[..HEADER_SIZE]);
      if length > limit then TooLong(length)
      else if |data| < HEADER_SIZE + length then Incomplete
      else Frame(data[HEADER_SIZE..HEADER_SIZE + length], HEADER_SIZE + length)
  }

  /** The concatenated frames of a list of messages. */
  function Stream(messages: seq<ByteString>): (r: ByteString)
    requires forall m <- messages :: |m| < U32_LIMIT
  {
    if messages == [] then []
    else PackU32(|messages[0]|) + messages[0] + Stream(messages[1..])
  }

  /** The frames that repeated extraction takes from a buffer, what stays, and whether it raised. */
  datatype Drained = Drained(frames: seq<ByteString>, rest: ByteString, raised: bool)

  function Drain(limit: Limit, buffer: ByteString): (d: Drained)
    decreases |buffer|
  {
    match Decode(limit, buffer)
    case Incomplete => Drained([], buffer, false)
    case TooLong(_) => Drained([], buffer, true)
    case Frame(message, consumed) =>
      Prepend(message, Drain(limit, buffer[consumed..]))
  }

  function Prepend(message: ByteString, d: Drained): Drained {
    Drained([message] + d.frames, d.rest, d.raised)
  }

  /** More bytes arrive after a drain: they are appended and drained, unless the drain had raised. */
  function Resume(limit: Limit, d: Drained, bytes: ByteString): Drained {
    if d.raised then Drained(d.frames, d.rest + bytes, true)
    else
      var again := Drain(limit, d.rest + bytes);
      Drained(d.frames + again.frames, again.rest, again.raised)
  }

  /** Extraction stops only at an incomplete frame or at a header that raises. */
  lemma {:induction false} DrainStops(limit: Limit, buffer: ByteString)
    ensures var d := Drain(limit, buffer);
            && (d.raised <==> Decode(limit, d.rest).TooLong?)
            && (!d.raised <==> Decode(limit, d.rest).Incomplete?)
            && (forall m <- d.frames :: |m| <= limit)
    decreases |buffer|
  {
    match Decode(limit, buffer)
    case Incomplete =>
    case TooLong(_) =>
    case Frame(message, consumed) => DrainStops(limit, buffer[consumed..]);
  }

  /** What was decoded from a buffer does not depend on the bytes that arrive after it. */
  lemma DecodeExtends(limit: Limit, a: ByteString, b: ByteString)
    requires !Decode(limit, a).Incomplete?
    ensures Decode(limit, a + b) == Decode(limit, a)
  {
    assert (a + b)[..HEADER_SIZE] == a[..HEADER_SIZE];
    var length := UnpackU32(a[..HEADER_SIZE]);
    if length <= limit {
      assert (a + b)[HEADER_SIZE..HEADER_SIZE + length] == a[HEADER_SIZE..HEADER_SIZE + length];
    }
  }

  lemma ResumePrepend(limit: Limit, message: ByteString, d: Drained, bytes: ByteString)
    ensures Resume(limit, Prepend(message, d), bytes) == Prepend(message, Resume(limit, d, bytes))
  {
    var again := Drain(limit, d.rest + bytes);
    assert [message] + d.frames + again.frames == [message] + (d.frames + again.frames);
  }

  /** Draining early and draining again after more bytes arrive takes the same frames as draining once. */
  lemma {:induction false} DrainAppend(limit: Limit, a: ByteString, b: ByteString)
    ensures Drain(limit, a + b) == Resume(limit, Drain(limit, a), b)
    decreases |a|
  {
    match Decode(limit, a)
    case Incomplete =>
    case TooLong(_) =>
      DecodeExtends(limit, a, b);
    case Frame(message, consumed) =>
      DecodeExtends(limit, a, b);
      assert (a + b)[consumed..] == a[consumed..] + b;
      DrainAppend(limit, a[consumed..], b);
      ResumePrepend(limit, message, Drain(limit, a[consumed..]), b);
  }

  /** One encoded message in front of anything decodes to that message. */
  lemma DecodeEncoded(limit: Limit, message: ByteString, tail: ByteString)
    requires |message| <= limit
    ensures Encode(limit, message) == Some(PackU32(|message|) + message)
    ensures Decode(limit, PackU32(|message|) + message + tail) == Frame(message, HEADER_SIZE + |message|)
  {
    var data := PackU32(|message|) + message + tail;
    assert data[..HEADER_SIZE] == PackU32(|message|);
    UnpackPack(|message|);
    assert data[HEADER_SIZE..HEADER_SIZE + |message|] == message;
  }

  /** Messages within the limit come back exactly, in order, and only an incomplete frame stays. */
  lemma {:induction false} DrainEncoded(limit: Limit, messages: seq<ByteString>, tail: ByteString)
    requires forall m <- messages :: |m| <= limit
    requires Decode(limit, tail).Incomplete?
    ensures Drain(limit, Stream(messages) + tail) == Drained(messages, tail, false)
  {
    if messages == [] {
      assert Stream(messages) + tail == tail;
    } else {
      var head, others := messages[0], messages[1..];
      var encoded := PackU32(|head|) + head;
      assert messages == [head] + others;
      StreamCons(head, others, tail);
      DecodeEncoded(limit, head, Stream(others) + tail);
      assert (encoded + (Stream(others) + tail))[HEADER_SIZE + |head|..] == Stream(others) + tail;
      DrainEncoded(limit, others, tail);
    }
  }

  lemma StreamCons(head: ByteString, others: seq<ByteString>, tail: ByteString)
    requires |head| < U32_LIMIT && forall m <- others :: |m| < U32_LIMIT
    ensures Stream([head] + others) + tail == PackU32(|head|) + head + (Stream(others) + tail)
  {
    assert ([head] + others)[1..] == others;
  }

  /** Conversely, re-encoding what was taken and appending what stayed gives the bytes received. */
  lemma {:induction false} DrainLosesNothing(limit: Limit, buffer: ByteString)
    ensures forall m <- Drain(limit, buffer).frames :: |m| < U32_LIMIT
    ensures Stream(Drain(limit, buffer).frames) + Drain(limit, buffer).rest == buffer
    decreases |buffer|
  {
    match Decode(limit, buffer)
    case Incomplete =>
    case TooLong(_) =>
    case Frame(message, consumed) =>
      var later := Drain(limit, buffer[consumed..]);
      DrainLosesNothing(limit, buffer[consumed..]);
      StreamCons(message, later.frames, later.rest);
      DecodeSplits(limit, buffer);
  }

  lemma DecodeSplits(limit: Limit, buffer: ByteString)
    requires Decode(limit, buffer).Frame?
    ensures var Frame(message, consumed) := Decode(limit, buffer);
            buffer == PackU32(|message|) + message + buffer[consumed..]
  {
    var Frame(message, consumed) := Decode(limit, buffer);
    PackUnpack(buffer[..HEADER_SIZE]);
    assert buffer == buffer[..HEADER_SIZE] + buffer[HEADER_SIZE..consumed] + buffer[consumed..];
  }

  /**
   The client's decoder against the coordinator's, on any bytes: they agree frame for frame unless the
   coordinator raised; and then the client has the same frames first.
   */
  lemma {:induction false} ClientAgrees(buffer: ByteString)
    ensures var server, client := Drain(SERVER_LIMIT, buffer), Drain(CLIENT_LIMIT, buffer);
            && !client.raised
            && server.frames <= client.frames
            && (!server.raised ==> client == server)
            && (client == server ==> !server.raised)
    decreases |buffer|
  {
    DrainStops(CLIENT_LIMIT, buffer);
    match Decode(SERVER_LIMIT, buffer)
    case Incomplete =>
      if |buffer| >= HEADER_SIZE {
        assert UnpackU32(buffer[..HEADER_SIZE]) <= CLIENT_LIMIT;
      }
    case TooLong(_) =>
    case Frame(message, consumed) =>
      assert Decode(CLIENT_LIMIT, buffer) == Decode(SERVER_LIMIT, buffer);
      ClientAgrees(buffer[consumed..]);
  }

  /** The coordinator reads back what a client encodes exactly when the message is within the cap. */
  lemma ServerReadsClient(message: ByteString)
    requires |message| < U32_LIMIT
    ensures var sent := PackU32(|message|) + message;
            && Encode(CLIENT_LIMIT, message) == Some(sent)
            && (Encode(SERVER_LIMIT, message) == if |message| <= 10 * 1024 * 1024 then Some(sent) else None)
            && (Drain(SERVER_LIMIT, sent) == Drained([message], [], false) <==> |message| <= MAX_MESSAGE_SIZE)
            && (Drain(SERVER_LIMIT, sent).raised <==> |message| > MAX_MESSAGE_SIZE)
  {
    var sent := PackU32(|message|) + message;
    assert sent[..HEADER_SIZE] == PackU32(|message|);
    UnpackPack(|message|);
    if |message| <= MAX_MESSAGE_SIZE {
      assert Stream([message]) + [] == sent;
      DrainEncoded(SERVER_LIMIT, [message], []);
    }
  }
}
