/** Request frames of the broker protocol: the command tag, its decoding, and
    the byte layout a request takes on the wire.

    A request frame is written as
      [command tag][payload size, truncated to one byte][payload bytes]
    so the length byte only carries the payload size modulo 256.
 */
module Frame {

  /** An octet as it appears on the wire. */
  type byte = b: int | 0 <= b < 256

  datatype Option<+T> = None | Some(value: T)

  /** The command of a request; its wire tag is given by Tag. */
  datatype Request = Enqueue | Dequeue

  /** The `repr(u8)` discriminant of a command: Enqueue is 1, Dequeue is 2. */
  function Tag(c: Request): byte
  {
    match c
    case Enqueue => 1
    case Dequeue => 2
  }

  /** Decodes a tag byte. Any byte other than the two tags is a failure
      (the source aborts on it), modelled as None. */
  function FromU8(value: byte): (r: Option<Request>)
    ensures r.Some? <==> value == 1 || value == 2
    ensures r.Some? ==> Tag(r.value) == value
  {
    match value
    case 1 => Some(Enqueue)
    case 2 => Some(Dequeue)
    case _ => None
  }

  /** FromU8 inverts Tag for every command. */
  lemma FromU8Tag(c: Request)
    ensures FromU8(Tag(c)) == Some(c)
  {
  }

  /** A request as the client builds it. The size field is set by the caller
      and is not tied to the payload by the type. */
  datatype RequestMessage = RequestMessage(command: Request, payloadSize: nat, payload: seq<byte>)

  /** A message whose size field agrees with its payload, as every frame the
      client sends does. */
  predicate SizeMatches(m: RequestMessage)
  {
    m.payloadSize == |m.payload|
  }

  /** The truncating `as u8` cast of a size. */
  function LengthByte(size: nat): byte
  {
    size % 256
  }

  /** Serialises a request: tag, one length byte, then the payload. */
  function AsBytes(m: RequestMessage): (bytes: seq<byte>)
    ensures |bytes| == 2 + |m.payload|
    ensures bytes[0] == Tag(m.command)
    ensures bytes[1] == m.payloadSize % 256
    ensures bytes[2..] == m.payload
  {
    [Tag(m.command), LengthByte(m.payloadSize)] + m.payload
  }

  /** Sizes that differ by a multiple of 256 give the same frame: the length
      byte cannot tell them apart. */
  lemma AsBytesForgetsWraps(c: Request, size: nat, k: nat, payload: seq<byte>)
    ensures AsBytes(RequestMessage(c, size + 256 * k, payload)) == AsBytes(RequestMessage(c, size, payload))
  {
    assert (size + 256 * k) % 256 == size % 256;
  }

  /** The concatenation of the frames of several requests, in order. */
  function Frames(ms: seq<RequestMessage>): (bytes: seq<byte>)
  {
    if ms == [] then [] else AsBytes(ms[0]) + Frames(ms[1..])
  }

  /** Frames of consecutive batches are the concatenation of their frames. */
  lemma {:induction false} FramesAppend(a: seq<RequestMessage>, b: seq<RequestMessage>)
    ensures Frames(a + b) == Frames(a) + Frames(b)
  {
    if a == [] {
      assert a + b == b;
    } else {
      assert (a + b)[1..] == a[1..] + b;
      FramesAppend(a[1..], b);
    }
  }

  /** Reads back one whole frame, trusting its length byte: the layout AsBytes
      writes, read the way a receiver of the stream would read it. */
  ghost function ReadFrame(bytes: seq<byte>): (r: Option<RequestMessage>)
    ensures r.Some? ==> SizeMatches(r.value) && AsBytes(r.value) == bytes
  {
    if |bytes| < 2 then None
    else match FromU8(bytes[0])
      case None => None
      case Some(c) =>
        if bytes[1] == |bytes| - 2 then Some(RequestMessage(c, bytes[1], bytes[2..])) else None
  }

  /** A frame reads back as the request that produced it exactly when its size
      field is the payload length and that length fits in the length byte. */
  lemma ReadAsBytes(m: RequestMessage)
    ensures ReadFrame(AsBytes(m)) == Some(m) <==> SizeMatches(m) && m.payloadSize < 256
  {
    var bytes := AsBytes(m);
    if SizeMatches(m) && m.payloadSize < 256 {
      FromU8Tag(m.command);
      assert bytes[2..] == m.payload;
    }
  }

  /** Every request in the batch has a size that matches its payload and fits
      the length byte. */
  predicate Readable(ms: seq<RequestMessage>)
  {
    forall i :: 0 <= i < |ms| ==> SizeMatches(ms[i]) && ms[i].payloadSize < 256
  }

  /** Splits a byte stream into consecutive frames, each delimited by its own
      length byte; None if the stream does not split into whole frames. */
  ghost function ReadFrames(bytes: seq<byte>): (r: Option<seq<RequestMessage>>)
    ensures r.Some? ==> Frames(r.value) == bytes
    ensures r.Some? ==> Readable(r.value)
    decreases |bytes|
  {
    if bytes == [] then Some([])
    else if |bytes| < 2 || |bytes| < 2 + bytes[1] as int then None
    else
      var n := 2 + bytes[1] as int;
      match ReadFrame(bytes[..n])
      case None => None
      case Some(m) =>
        match ReadFrames(bytes[n..])
        case None => None
        case Some(rest) =>
          assert ([m] + rest)[1..] == rest;
          assert bytes == bytes[..n] + bytes[n..];
          Some([m] + rest)
  }

  /** The stream of frames of readable requests splits back into exactly those
      requests, in order: frames are neither merged nor torn. */
  lemma {:induction false} ReadFramesOfFrames(ms: seq<RequestMessage>)
    requires Readable(ms)
    ensures ReadFrames(Frames(ms)) == Some(ms)
  {
    if ms != [] {
      var bytes := Frames(ms);
      var head := AsBytes(ms[0]);
      var n := 2 + |ms[0].payload|;
      assert bytes == head + Frames(ms[1..]);
      assert bytes[1] == head[1] == ms[0].payloadSize;
      assert bytes[..n] == head;
      assert bytes[n..] == Frames(ms[1..]);
      ReadAsBytes(ms[0]);
      ReadFramesOfFrames(ms[1..]);
      assert [ms[0]] + ms[1..] == ms;
    }
  }

  /** Two batches of readable requests that put the same bytes on the wire are
      the same batch. */
  lemma FramesInjective(a: seq<RequestMessage>, b: seq<RequestMessage>)
    requires Readable(a) && Readable(b)
    requires Frames(a) == Frames(b)
    ensures a == b
  {
    ReadFramesOfFrames(a);
    ReadFramesOfFrames(b);
  }

  /** A frame whose payload is 256 bytes or longer does not read back: its
      length byte has wrapped around. */
  lemma OversizedFrameUnreadable(m: RequestMessage)
    requires SizeMatches(m) && m.payloadSize >= 256
    ensures ReadFrame(AsBytes(m)) == None
  {
  }

  /** A 256-byte file of zero bytes is sent with length byte 0, so a reader of
      the stream takes it as an empty Enqueue followed by the zero bytes, whose
      first byte is no command tag: the stream cannot be split. */
  lemma ZeroFile256Misread()
    ensures ReadFrames(AsBytes(RequestMessage(Enqueue, 256, seq(256, _ => 0)))) == None
  {
    var bytes := AsBytes(RequestMessage(Enqueue, 256, seq(256, _ => 0)));
    assert bytes[1] == 0;
    assert ReadFrame(bytes[..2]) == Some(RequestMessage(Enqueue, 0, []));
    var rest := bytes[2..];
    assert rest[0] == 0 && rest[1] == 0;
    assert ReadFrame(rest[..2]) == None;
  }
}
