/**
 Data-plane framing: a length-prefixed header, then length-prefixed data, read from a socket whose
 recv may return fewer bytes than asked for.  The JSON text of a header is carried as bytes.
 */
module DataPlaneFraming {
  import opened Bytes
  import opened Wrappers

  datatype DataFrame = DataFrame(header: ByteString, data: ByteString)

  predicate Sendable(f: DataFrame) {
    |f.header| < U32_LIMIT && |f.data| < U32_LIMIT
  }

  function Prefixed(part: ByteString): (r: ByteString)
    requires |part| < U32_LIMIT
    ensures |r| == 4 + |part|
  {
    PackU32(|part|) + part
  }

  /** The bytes _send_frame writes; struct.pack raises (None) when a length does not fit. */
  function SendFrame(f: DataFrame): (r: Option<ByteString>)
  {
    if Sendable(f) then Some(Prefixed(f.header) + Prefixed(f.data)) else None
  }

  /** On the wire: header length, header, data length, data; a frame is sent exactly when both lengths fit four bytes. */
  lemma FrameLayout(f: DataFrame)
    ensures SendFrame(f).Some? <==> |f.header| < 4294967296 && |f.data| < 4294967296
    ensures SendFrame(f).Some? ==>
              var (h, wire) := (|f.header|, SendFrame(f).value);
              && |wire| == 8 + h + |f.data|
              && wire[..4] == PackU32(h) && wire[4..4 + h] == f.header
              && wire[4 + h..8 + h] == PackU32(|f.data|) && wire[8 + h..] == f.data
  {
  }

  /** Reads one length-prefixed part; None when the stream ends first. */
  function TakePrefixed(stream: ByteString): (r: Option<(ByteString, ByteString)>)
    ensures r.Some? ==> |r.value.1| < |stream|
  {
    if |stream| < 4 || |stream| - 4 < UnpackU32(stream[..4]) then None
    else
      var n := UnpackU32(stream[..4]);
      Some((stream[4..4 + n], stream[4 + n..]))
  }

  /** What _recv_frame makes of a whole stream: a frame and the bytes after it, or a lost connection. */
  function ParseFrame(stream: ByteString): (r: Option<(DataFrame, ByteString)>)
    ensures r.Some? ==> |r.value.1| < |stream|
  {
    match TakePrefixed(stream)
    case None => None
    case Some((header, afterHeader)) =>
      match TakePrefixed(afterHeader)
      case None => None
      case Some((data, rest)) => Some((DataFrame(header, data), rest))
  }

  lemma TakePrefixedReads(part: ByteString, rest: ByteString)
    requires |part| < U32_LIMIT
    ensures TakePrefixed(Prefixed(part) + rest) == Some((part, rest))
  {
    var stream := Prefixed(part) + rest;
    assert stream[..4] == PackU32(|part|);
    UnpackPack(|part|);
    assert stream[4..4 + |part|] == part && stream[4 + |part|..] == rest;
  }

  lemma TakePrefixedTruncated(part: ByteString, cut: nat)
    requires |part| < U32_LIMIT && cut < 4 + |part|
    ensures TakePrefixed(Prefixed(part)[..cut]).None?
  {
    if cut >= 4 {
      assert Prefixed(part)[..cut][..4] == PackU32(|part|);
      UnpackPack(|part|);
    }
  }

  lemma ParseSent(f: DataFrame, rest: ByteString)
    requires Sendable(f)
    ensures ParseFrame(SendFrame(f).value + rest) == Some((f, rest))
  {
    assert SendFrame(f).value + rest == Prefixed(f.header) + (Prefixed(f.data) + rest);
    TakePrefixedReads(f.header, Prefixed(f.data) + rest);
    TakePrefixedReads(f.data, rest);
  }

  /** A frame cut short anywhere is a lost connection, never a different frame. */
  lemma TruncatedFrameIsLost(f: DataFrame, cut: nat)
    requires Sendable(f) && cut < |SendFrame(f).value|
    ensures ParseFrame(SendFrame(f).value[..cut]).None?
  {
    var sent := SendFrame(f).value;
    var header := Prefixed(f.header);
    if cut < |header| {
      assert sent[..cut] == header[..cut];
      TakePrefixedTruncated(f.header, cut);
    } else {
      assert sent[..cut] == header + Prefixed(f.data)[..cut - |header|];
      TakePrefixedReads(f.header, Prefixed(f.data)[..cut - |header|]);
      TakePrefixedTruncated(f.data, cut - |header|);
    }
  }

  /** Everything a sequence of sends puts on the wire. */
  function SentAll(frames: seq<DataFrame>): ByteString
    requires forall f <- frames :: Sendable(f)
  {
    if frames == [] then [] else SendFrame(frames[0]).value + SentAll(frames[1..])
  }

  /** The next count frames of a stream, and what follows them. */
  function ReceiveMany(count: nat, stream: ByteString): Option<(seq<DataFrame>, ByteString)>
  {
    if count == 0 then Some(([], stream))
    else
      match ParseFrame(stream)
      case None => None
      case Some((f, rest)) =>
        match ReceiveMany(count - 1, rest)
        case None => None
        case Some((others, last)) => Some(([f] + others, last))
  }

  lemma SentFirst(frames: seq<DataFrame>, rest: ByteString)
    requires frames != [] && forall f <- frames :: Sendable(f)
    ensures SentAll(frames) + rest == SendFrame(frames[0]).value + (SentAll(frames[1..]) + rest)
    ensures frames == [frames[0]] + frames[1..]
  {
    Associative(SendFrame(frames[0]).value, SentAll(frames[1..]), rest);
  }

  lemma ReceiveFirst(count: nat, stream: ByteString, f: DataFrame, later: ByteString)
    requires ParseFrame(stream) == Some((f, later)) && ReceiveMany(count, later).Some?
    ensures var (others, last) := ReceiveMany(count, later).value;
            ReceiveMany(count + 1, stream) == Some(([f] + others, last))
  {
  }

  /** Any sequence of frames is read back exactly. */
  lemma {:induction false} FramesRoundTrip(frames: seq<DataFrame>, rest: ByteString)
    requires forall f <- frames :: Sendable(f)
    ensures ReceiveMany(|frames|, SentAll(frames) + rest) == Some((frames, rest))
  {
    if frames == [] {
      assert SentAll(frames) + rest == rest;
    } else {
      var head, others := frames[0], frames[1..];
      var later := SentAll(others) + rest;
      SentFirst(frames, rest);
      ParseSent(head, later);
      FramesRoundTrip(others, rest);
      ReceiveFirst(|others|, SentAll(frames) + rest, head, later);
    }
  }

  /** A connected socket: the bytes still to come, and how many each recv is willing to return. */
  class Socket {
    var incoming: ByteString
    var shortReads: seq<nat>

    constructor (incoming: ByteString, shortReads: seq<nat>)
      ensures this.incoming == incoming && this.shortReads == shortReads
    {
      this.incoming := incoming;
      this.shortReads := shortReads;
    }

    /** Between 1 and size bytes; nothing once the peer has closed. */
    method Recv(size: nat) returns (data: ByteString)
      requires size > 0
      modifies this
      ensures old(incoming) == data + incoming && |data| <= size
      ensures data == [] <==> old(incoming) == []
    {
      var offered := if shortReads == [] then size else shortReads[0];
      shortReads := if shortReads == [] then [] else shortReads[1..];
      var wanted := if offered == 0 then 1 else if offered > size then size else offered;
      var n := if wanted > |incoming| then |incoming| else wanted;
      data := incoming[..n];
      incoming := incoming[n..];
    }
  }

  /** Loops until size bytes have come; None is _ConnectionLost. */
  method RecvExact(sock: Socket, size: nat) returns (r: Option<ByteString>)
    modifies sock
    ensures r == if size <= |old(sock.incoming)| then Some(old(sock.incoming)[..size]) else None
    ensures sock.incoming == if size <= |old(sock.incoming)| then old(sock.incoming)[size..] else []
  {
    var chunks: ByteString := [];
    while |chunks| < size
      invariant |chunks| <= size
      invariant old(sock.incoming) == chunks + sock.incoming
      decreases size - |chunks|
    {
      var data := sock.Recv(size - |chunks|);
      if data == [] {
        return None;
      }
      chunks := chunks + data;
    }
    return Some(chunks);
  }

  lemma AfterLength(stream: ByteString, n: nat)
    requires 4 + n <= |stream|
    ensures stream[4..][..n] == stream[4..4 + n] && stream[4..][n..] == stream[4 + n..]
    ensures n == 0 ==> stream[4..4 + n] == [] && stream[4 + n..] == stream[4..]
  {
  }

  /** Whatever the pattern of short reads, one frame is read as ParseFrame reads the whole stream. */
  method RecvFrame(sock: Socket) returns (r: Option<DataFrame>)
    modifies sock
    ensures r.None? <==> ParseFrame(old(sock.incoming)).None?
    ensures r.Some? ==> ParseFrame(old(sock.incoming)) == Some((r.value, sock.incoming))
  {
    ghost var stream := sock.incoming;
    var headerLength := RecvExact(sock, 4);
    if headerLength.None? { return None; }
    var headerSize := UnpackU32(headerLength.value);
    var header := RecvExact(sock, headerSize);
    if header.None? { return None; }
    AfterLength(stream, headerSize);
    ghost var afterHeader := sock.incoming;
    assert TakePrefixed(stream) == Some((header.value, afterHeader));
    var dataLength := RecvExact(sock, 4);
    if dataLength.None? { return None; }
    var dataSize := UnpackU32(dataLength.value);
    var payload := Some([]);
    if dataSize > 0 {
      payload := RecvExact(sock, dataSize);
    }
    if payload.None? { return None; }
    AfterLength(afterHeader, dataSize);
    return Some(DataFrame(header.value, payload.value));
  }

  function OrEmpty(part: Option<ByteString>): ByteString {
    if part.None? then [] else part.value
  }

  function LengthPrefixed(parts: seq<Option<ByteString>>): ByteString
    requires forall p <- parts :: |OrEmpty(p)| < U32_LIMIT
  {
    if parts == [] then [] else Prefixed(OrEmpty(parts[0])) + LengthPrefixed(parts[1..])
  }

  lemma {:induction false} LengthPrefixedSnoc(parts: seq<Option<ByteString>>, last: Option<ByteString>)
    requires forall p <- parts + [last] :: |OrEmpty(p)| < U32_LIMIT
    ensures forall p <- parts :: |OrEmpty(p)| < U32_LIMIT
    ensures LengthPrefixed(parts + [last]) == LengthPrefixed(parts) + Prefixed(OrEmpty(last))
  {
    assert forall p <- parts :: p in parts + [last];
    if parts == [] {
      assert LengthPrefixed([last]) == Prefixed(OrEmpty(last)) + LengthPrefixed([]);
    } else {
      assert (parts + [last])[1..] == parts[1..] + [last];
      assert forall p <- parts[1..] + [last] :: p in parts + [last];
      LengthPrefixedSnoc(parts[1..], last);
    }
  }

  /** _length_prefixed; None is the struct.error of a part of 2^32 bytes or more. */
  method BuildLengthPrefixed(parts: seq<Option<ByteString>>) returns (r: Option<ByteString>)
    ensures r.Some? <==> forall p <- parts :: |OrEmpty(p)| < U32_LIMIT
    ensures r.Some? ==> r.value == LengthPrefixed(parts)
  {
    var out: ByteString := [];
    for i := 0 to |parts|
      invariant forall p <- parts[..i] :: |OrEmpty(p)| < U32_LIMIT
      invariant out == LengthPrefixed(parts[..i])
    {
      var safePart := OrEmpty(parts[i]);
      if |safePart| >= U32_LIMIT {
        return None;
      }
      assert parts[..i + 1] == parts[..i] + [parts[i]];
      LengthPrefixedSnoc(parts[..i], parts[i]);
      out := out + PackU32(|safePart|);
      out := out + safePart;
    }
    assert parts[..|parts|] == parts;
    return Some(out);
  }

  predicate SameParts(a: seq<Option<ByteString>>, b: seq<Option<ByteString>>) {
    |a| == |b| && forall i :: 0 <= i < |a| ==> OrEmpty(a[i]) == OrEmpty(b[i])
  }

  /** The encoding determines the list of parts, a missing part counting as empty. */
  lemma {:induction false} LengthPrefixedInjective(a: seq<Option<ByteString>>, b: seq<Option<ByteString>>)
    requires forall p <- a :: |OrEmpty(p)| < U32_LIMIT
    requires forall p <- b :: |OrEmpty(p)| < U32_LIMIT
    ensures LengthPrefixed(a) == LengthPrefixed(b) <==> SameParts(a, b)
  {
    if a != [] && b != [] {
      var x, y := OrEmpty(a[0]), OrEmpty(b[0]);
      var restA, restB := LengthPrefixed(a[1..]), LengthPrefixed(b[1..]);
      LengthPrefixedInjective(a[1..], b[1..]);
      TakePrefixedReads(x, restA);
      TakePrefixedReads(y, restB);
      assert SameParts(a, b) <==> x == y && SameParts(a[1..], b[1..]) by {
        if x == y && SameParts(a[1..], b[1..]) {
          forall i | 0 <= i < |a| ensures OrEmpty(a[i]) == OrEmpty(b[i]) {
            if i > 0 {
              assert a[1..][i - 1] == a[i] && b[1..][i - 1] == b[i];
            }
          }
        }
      }
    }
  }
}
