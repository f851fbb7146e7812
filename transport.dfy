/** The frame codec of internal/p2p/transport.go. Every message travels as a
    4-byte big-endian length followed by the message's JSON; a reader refuses a
    declared length above 100 MiB before reading the body. */
module Transport {
  import opened Bytes
  import opened Wrappers
  import Json

  /** `ChunkSize`: the sender's read buffer, 1 MiB. */
  const ChunkSize: nat := 1024 * 1024

  /** The largest length `receiveMessage` accepts, 100 MiB. */
  const MaxMessageSize: nat := 100 * 1024 * 1024

  /** `MessageType` constants. */
  const KindMetadata: Uint8 := 1
  const KindChunk: Uint8 := 2
  const KindError: Uint8 := 3
  const KindDone: Uint8 := 4

  /** `FileMetadata`. */
  datatype FileMetadata = FileMetadata(fileName: string, fileSize: Int64, fileHash: string)

  /** `Message`. `kind` is any `uint8` a peer may send; `metadata` is a pointer
      and is absent unless the JSON carries it. */
  datatype Message = Message(kind: Uint8, metadata: Option<FileMetadata>, data: seq<Byte>, error: string)

  /** Errors of `receiveMessage` and of the typed receive helpers. */
  datatype FrameError =
    | LengthReadFailed           // "failed to read message length"
    | TooLarge(length: nat)      // "message too large"
    | BodyReadFailed             // "failed to read message"
    | UnmarshalFailed            // "failed to unmarshal message"
    | RemoteError(message: string)  // "remote error: ..."
    | UnexpectedKind(kind: Uint8)   // "expected ... message, got %d"

  /** What `sendMessage` reports. */
  datatype WriteStatus = Written | LengthWriteFailed | BodyWriteFailed

  /** `SendMetadata`'s message. */
  function MetadataMessage(md: Option<FileMetadata>): Message
  {
    Message(KindMetadata, md, [], "")
  }

  /** `SendChunk`'s message. */
  function ChunkMessage(data: seq<Byte>): Message
  {
    Message(KindChunk, None, data, "")
  }

  /** `SendDone`'s message. */
  function DoneMessage(): Message
  {
    Message(KindDone, None, [], "")
  }

  /** `SendError`'s message. */
  function ErrorMessage(text: string): Message
  {
    Message(KindError, None, [], text)
  }

  /** A frame as `sendMessage` writes it: the payload length truncated to
      `uint32`, big-endian, then the payload. No ceiling is applied here. */
  function Frame(c: Json.Codec<Message>, m: Message): (f: seq<Byte>)
    ensures |f| == 4 + |c.marshal(m)|
  {
    BE32(|c.marshal(m)| % Two32) + c.marshal(m)
  }

  /** The frames of several messages, back to back: every message adds at
      least its 4-byte length prefix. */
  function Wire(c: Json.Codec<Message>, ms: seq<Message>): (w: seq<Byte>)
    ensures |w| >= 4 * |ms|
    decreases |ms|
  {
    if ms == [] then [] else Frame(c, ms[0]) + Wire(c, ms[1..])
  }

  /** The chunk messages of a sequence of chunks, in order. */
  function ChunkMessages(chunks: seq<seq<Byte>>): (ms: seq<Message>)
    ensures |ms| == |chunks|
    decreases |chunks|
  {
    if chunks == [] then [] else [ChunkMessage(chunks[0])] + ChunkMessages(chunks[1..])
  }

  /** A message whose JSON fits under the reader's ceiling. */
  ghost predicate Fits(c: Json.Codec<Message>, m: Message)
  {
    |c.marshal(m)| <= MaxMessageSize
  }

  /** The outcome of reading one frame, and the bytes the stream still holds after it. */
  datatype Reading = Reading(result: Result<Message, FrameError>, rest: seq<Byte>)

  /** `receiveMessage` on a stream that will deliver exactly `input` and then end.
      A short read drains the stream; a rejected length leaves the body unread. */
  function ReadFrame(c: Json.Codec<Message>, input: seq<Byte>): (r: Reading)
    ensures |r.rest| <= |input|
    ensures r.result.Ok? ==> |r.rest| <= |input| - 4
  {
    if |input| < 4 then Reading(Err(LengthReadFailed), [])
    else
      var length := FromBE32(input[..4]);
      if length > MaxMessageSize then Reading(Err(TooLarge(length)), input[4..])
      else if |input| - 4 < length then Reading(Err(BodyReadFailed), [])
      else
        match c.unmarshal(input[4..4 + length])
        case None => Reading(Err(UnmarshalFailed), input[4 + length..])
        case Some(m) => Reading(Ok(m), input[4 + length..])
  }

  /** The kind dispatch of `ReceiveChunk`: an Error frame carries the peer's
      message, Done is end of stream (not data), a Chunk yields its data, and
      every other kind is refused. */
  datatype ChunkResult = ChunkData(data: seq<Byte>) | EndOfStream | ChunkFailed(error: FrameError)

  function ChunkOf(r: Result<Message, FrameError>): (cr: ChunkResult)
    ensures r.Err? ==> cr == ChunkFailed(r.error)
    ensures r.Ok? ==> (cr.EndOfStream? <==> r.value.kind == KindDone)
    ensures r.Ok? ==> (cr.ChunkData? <==> r.value.kind == KindChunk)
    ensures cr.ChunkData? ==> cr.data == r.value.data
    ensures r.Ok? && r.value.kind == KindError ==> cr == ChunkFailed(RemoteError(r.value.error))
    ensures r.Ok? && r.value.kind !in {KindChunk, KindError, KindDone} ==>
              cr == ChunkFailed(UnexpectedKind(r.value.kind))
  {
    match r
    case Err(e) => ChunkFailed(e)
    case Ok(m) =>
      if m.kind == KindError then ChunkFailed(RemoteError(m.error))
      else if m.kind == KindDone then EndOfStream
      else if m.kind != KindChunk then ChunkFailed(UnexpectedKind(m.kind))
      else ChunkData(m.data)
  }

  /** The kind dispatch of `ReceiveMetadata`: only a Metadata frame succeeds, and
      its metadata pointer is passed on unchecked, absent or not. */
  function MetadataOf(r: Result<Message, FrameError>): (md: Result<Option<FileMetadata>, FrameError>)
    ensures md.Ok? <==> r.Ok? && r.value.kind == KindMetadata
    ensures md.Ok? ==> md.value == r.value.metadata
    ensures r.Err? ==> md == Err(r.error)
    ensures r.Ok? && r.value.kind != KindMetadata ==> md == Err(UnexpectedKind(r.value.kind))
  {
    match r
    case Err(e) => Err(e)
    case Ok(m) => if m.kind != KindMetadata then Err(UnexpectedKind(m.kind)) else Ok(m.metadata)
  }

  /** A network stream seen from one end. `incoming` is what the peer will still
      deliver before the stream ends (closed, reset or timed out); `room` is how
      many more bytes the peer will take before a write fails. */
  class Stream {
    var incoming: seq<Byte>
    var outgoing: seq<Byte>
    var room: nat

    constructor (incoming: seq<Byte>, room: nat)
      ensures this.incoming == incoming && outgoing == [] && this.room == room
    {
      this.incoming := incoming;
      outgoing := [];
      this.room := room;
    }

    /** `Write`: what fits goes out; the call fails unless all of `d` did. */
    method Write(d: seq<Byte>) returns (ok: bool)
      modifies this
      ensures ok == (|d| <= old(room))
      ensures outgoing == old(outgoing) + Take(d, old(room))
      ensures room == old(room) - |Take(d, old(room))|
      ensures incoming == old(incoming)
    {
      ok := |d| <= room;
      var sent := Take(d, room);
      outgoing := outgoing + sent;
      room := room - |sent|;
    }

    /** `io.ReadFull`: fills `buf` from the stream, or fails having drained it. */
    method ReadFull(buf: array<Byte>) returns (ok: bool)
      modifies this, buf
      ensures ok == (buf.Length <= |old(incoming)|)
      ensures ok ==> buf[..] == old(incoming)[..buf.Length] && incoming == old(incoming)[buf.Length..]
      ensures !ok ==> incoming == []
      ensures outgoing == old(outgoing) && room == old(room)
    {
      if buf.Length <= |incoming| {
        forall i | 0 <= i < buf.Length {
          buf[i] := incoming[i];
        }
        incoming := incoming[buf.Length..];
        ok := true;
      } else {
        incoming := [];
        ok := false;
      }
    }
  }

  /** `sendMessage`: the stream receives the frame of `m`, or as much of it as
      the peer takes. The length is written without checking it against the
      reader's ceiling. */
  method SendMessage(stream: Stream, c: Json.Codec<Message>, m: Message) returns (status: WriteStatus)
    modifies stream
    ensures stream.outgoing == old(stream.outgoing) + Take(Frame(c, m), old(stream.room))
    ensures stream.room == old(stream.room) - |Take(Frame(c, m), old(stream.room))|
    ensures stream.incoming == old(stream.incoming)
    ensures status == (if old(stream.room) < 4 then LengthWriteFailed
                       else if old(stream.room) < |Frame(c, m)| then BodyWriteFailed
                       else Written)
  {
    var data := c.marshal(m);
    var length := |data| % Two32;
    var ok := stream.Write(BE32(length));
    if !ok {
      return LengthWriteFailed;
    }
    ok := stream.Write(data);
    if !ok {
      return BodyWriteFailed;
    }
    return Written;
  }

  /** `receiveMessage`: a 4-byte prefix, the ceiling check, a freshly allocated
      body buffer filled by `io.ReadFull`, then JSON parsing. */
  method ReceiveMessage(stream: Stream, c: Json.Codec<Message>) returns (r: Result<Message, FrameError>)
    modifies stream
    ensures Reading(r, stream.incoming) == ReadFrame(c, old(stream.incoming))
    ensures stream.outgoing == old(stream.outgoing) && stream.room == old(stream.room)
  {
    var header := new Byte[4];
    var ok := stream.ReadFull(header);
    if !ok {
      return Err(LengthReadFailed);
    }
    var length := FromBE32(header[..]);
    if length > MaxMessageSize {
      return Err(TooLarge(length));
    }
    var data := new Byte[length];
    ok := stream.ReadFull(data);
    if !ok {
      return Err(BodyReadFailed);
    }
    ghost var input := old(stream.incoming);
    assert data[..] == input[4..4 + length];
    var parsed := c.unmarshal(data[..]);
    if parsed.None? {
      return Err(UnmarshalFailed);
    }
    return Ok(parsed.value);
  }

  method SendMetadata(stream: Stream, c: Json.Codec<Message>, md: Option<FileMetadata>) returns (status: WriteStatus)
    modifies stream
    ensures stream.outgoing == old(stream.outgoing) + Take(Frame(c, MetadataMessage(md)), old(stream.room))
    ensures stream.room == old(stream.room) - |Take(Frame(c, MetadataMessage(md)), old(stream.room))|
    ensures stream.incoming == old(stream.incoming)
    ensures status == Written <==> |Frame(c, MetadataMessage(md))| <= old(stream.room)
  {
    status := SendMessage(stream, c, MetadataMessage(md));
  }

  method SendChunk(stream: Stream, c: Json.Codec<Message>, data: seq<Byte>) returns (status: WriteStatus)
    modifies stream
    ensures stream.outgoing == old(stream.outgoing) + Take(Frame(c, ChunkMessage(data)), old(stream.room))
    ensures stream.room == old(stream.room) - |Take(Frame(c, ChunkMessage(data)), old(stream.room))|
    ensures stream.incoming == old(stream.incoming)
    ensures status == Written <==> |Frame(c, ChunkMessage(data))| <= old(stream.room)
  {
    status := SendMessage(stream, c, ChunkMessage(data));
  }

  method SendDone(stream: Stream, c: Json.Codec<Message>) returns (status: WriteStatus)
    modifies stream
    ensures stream.outgoing == old(stream.outgoing) + Take(Frame(c, DoneMessage()), old(stream.room))
    ensures stream.room == old(stream.room) - |Take(Frame(c, DoneMessage()), old(stream.room))|
    ensures stream.incoming == old(stream.incoming)
    ensures status == Written <==> |Frame(c, DoneMessage())| <= old(stream.room)
  {
    status := SendMessage(stream, c, DoneMessage());
  }

  method SendError(stream: Stream, c: Json.Codec<Message>, text: string) returns (status: WriteStatus)
    modifies stream
    ensures stream.outgoing == old(stream.outgoing) + Take(Frame(c, ErrorMessage(text)), old(stream.room))
    ensures stream.room == old(stream.room) - |Take(Frame(c, ErrorMessage(text)), old(stream.room))|
    ensures stream.incoming == old(stream.incoming)
    ensures status == Written <==> |Frame(c, ErrorMessage(text))| <= old(stream.room)
  {
    status := SendMessage(stream, c, ErrorMessage(text));
  }

  /** `ReceiveMetadata`. */
  method ReceiveMetadata(stream: Stream, c: Json.Codec<Message>) returns (r: Result<Option<FileMetadata>, FrameError>)
    modifies stream
    ensures r == MetadataOf(ReadFrame(c, old(stream.incoming)).result)
    ensures stream.incoming == ReadFrame(c, old(stream.incoming)).rest
    ensures stream.outgoing == old(stream.outgoing) && stream.room == old(stream.room)
  {
    var msg := ReceiveMessage(stream, c);
    r := MetadataOf(msg);
  }

  /** `ReceiveChunk`. */
  method ReceiveChunk(stream: Stream, c: Json.Codec<Message>) returns (r: ChunkResult)
    modifies stream
    ensures r == ChunkOf(ReadFrame(c, old(stream.incoming)).result)
    ensures stream.incoming == ReadFrame(c, old(stream.incoming)).rest
    ensures stream.outgoing == old(stream.outgoing) && stream.room == old(stream.room)
  {
    var msg := ReceiveMessage(stream, c);
    r := ChunkOf(msg);
  }

  // Properties of the codec

  /** Each send helper builds a message of its own kind carrying only its own
      field, and the matching receive dispatch gives that field back. */
  lemma HelpersDispatchBack(md: Option<FileMetadata>, data: seq<Byte>, text: string)
    ensures MetadataOf(Ok(MetadataMessage(md))) == Ok(md)
    ensures ChunkOf(Ok(ChunkMessage(data))) == ChunkData(data)
    ensures ChunkOf(Ok(DoneMessage())) == EndOfStream
    ensures ChunkOf(Ok(ErrorMessage(text))) == ChunkFailed(RemoteError(text))
    ensures MetadataOf(Ok(ChunkMessage(data))) == Err(UnexpectedKind(KindChunk))
    ensures MetadataOf(Ok(DoneMessage())) == Err(UnexpectedKind(KindDone))
    ensures MetadataOf(Ok(ErrorMessage(text))) == Err(UnexpectedKind(KindError))
    ensures ChunkOf(Ok(MetadataMessage(md))) == ChunkFailed(UnexpectedKind(KindMetadata))
  {
  }

  /** What the reader makes of a well-formed four-byte prefix declaring
      `length`, followed by `body`. */
  lemma ReadAfterPrefix(c: Json.Codec<Message>, length: nat, body: seq<Byte>)
    requires length < Two32
    ensures ReadFrame(c, BE32(length) + body) ==
            if length > MaxMessageSize then Reading(Err(TooLarge(length)), body)
            else if |body| < length then Reading(Err(BodyReadFailed), [])
            else
              match c.unmarshal(body[..length])
              case None => Reading(Err(UnmarshalFailed), body[length..])
              case Some(m) => Reading(Ok(m), body[length..])
  {
    var input := BE32(length) + body;
    BE32RoundTrip(length);
    assert input[..4] == BE32(length);
    assert input[4..] == body;
    if length <= |body| {
      assert input[4..4 + length] == body[..length];
      assert input[4 + length..] == body[length..];
    }
  }

  /** A frame is its prefix followed by its payload. */
  lemma FrameSplit(c: Json.Codec<Message>, m: Message, rest: seq<Byte>)
    requires |c.marshal(m)| < Two32
    ensures Frame(c, m) + rest == BE32(|c.marshal(m)|) + (c.marshal(m) + rest)
    ensures (c.marshal(m) + rest)[..|c.marshal(m)|] == c.marshal(m)
    ensures (c.marshal(m) + rest)[|c.marshal(m)|..] == rest
  {
  }

  /** Reading a frame that `sendMessage` wrote gives back the message and leaves
      the following bytes untouched, for any payload up to the ceiling. */
  lemma FrameRoundTrip(c: Json.Codec<Message>, m: Message, rest: seq<Byte>)
    requires Json.RoundTrips(c)
    requires Fits(c, m)
    ensures ReadFrame(c, Frame(c, m) + rest) == Reading(Ok(m), rest)
  {
    FrameSplit(c, m, rest);
    ReadAfterPrefix(c, |c.marshal(m)|, c.marshal(m) + rest);
  }

  /** A payload above the ceiling (but below 4 GiB, so the prefix is exact) is
      written anyway and refused by the reader, which leaves the body unread. */
  lemma OversizeFrameRejected(c: Json.Codec<Message>, m: Message, rest: seq<Byte>)
    requires MaxMessageSize < |c.marshal(m)| < Two32
    ensures ReadFrame(c, Frame(c, m) + rest) == Reading(Err(TooLarge(|c.marshal(m)|)), c.marshal(m) + rest)
  {
    FrameSplit(c, m, rest);
    ReadAfterPrefix(c, |c.marshal(m)|, c.marshal(m) + rest);
  }

  /** A declared length above the ceiling is refused whatever the body and the
      codec, before the body is read. */
  lemma DeclaredOversizeRejected(c: Json.Codec<Message>, length: nat, body: seq<Byte>)
    requires MaxMessageSize < length < Two32
    ensures ReadFrame(c, BE32(length) + body) == Reading(Err(TooLarge(length)), body)
  {
    ReadAfterPrefix(c, length, body);
  }

  /** A length of exactly the ceiling is accepted: the body is read and parsed. */
  lemma CeilingAccepted(c: Json.Codec<Message>, body: seq<Byte>, rest: seq<Byte>)
    requires |body| == MaxMessageSize
    ensures ReadFrame(c, BE32(|body|) + body + rest) ==
            match c.unmarshal(body)
            case None => Reading(Err(UnmarshalFailed), rest)
            case Some(m) => Reading(Ok(m), rest)
  {
    assert BE32(|body|) + body + rest == BE32(|body|) + (body + rest);
    ReadAfterPrefix(c, |body|, body + rest);
    assert (body + rest)[..|body|] == body;
    assert (body + rest)[|body|..] == rest;
  }

  /** A frame cut short anywhere, in the prefix or in the body, is an error:
      the body read must deliver the whole declared length. */
  lemma TruncatedFrameRejected(c: Json.Codec<Message>, m: Message, k: nat)
    requires Fits(c, m)
    requires k < |Frame(c, m)|
    ensures ReadFrame(c, Frame(c, m)[..k]) ==
            Reading(Err(if k < 4 then LengthReadFailed else BodyReadFailed), [])
  {
    var p := c.marshal(m);
    var cut := Frame(c, m)[..k];
    if k >= 4 {
      var body := p[..k - 4];
      assert cut == BE32(|p|) + body;
      ReadAfterPrefix(c, |p|, body);
      assert |body| < |p| <= MaxMessageSize;
    } else {
      assert |cut| < 4;
    }
  }

  /** The ceiling is applied only by the reader: a payload of 4 GiB or more is
      written with a wrapped length prefix that understates it. */
  lemma WriteSideDoesNotCheck(c: Json.Codec<Message>, m: Message)
    requires |c.marshal(m)| >= Two32
    ensures FromBE32(Frame(c, m)[..4]) == |c.marshal(m)| % Two32 < |c.marshal(m)|
  {
    BE32RoundTrip(|c.marshal(m)| % Two32);
    assert Frame(c, m)[..4] == BE32(|c.marshal(m)| % Two32);
  }

  lemma {:induction false} WireAppend(c: Json.Codec<Message>, a: seq<Message>, b: seq<Message>)
    ensures Wire(c, a + b) == Wire(c, a) + Wire(c, b)
    decreases |a|
  {
    if a != [] {
      assert (a + b)[1..] == a[1..] + b;
      WireAppend(c, a[1..], b);
    } else {
      assert a + b == b;
    }
  }

  /** The frames of a message list start with the frame of its first message. */
  lemma WireCons(c: Json.Codec<Message>, m: Message, ms: seq<Message>, tail: seq<Byte>)
    ensures Wire(c, [m] + ms) + tail == Frame(c, m) + (Wire(c, ms) + tail)
  {
    assert ([m] + ms)[0] == m && ([m] + ms)[1..] == ms;
  }

  /** One message's wire is its frame. */
  lemma WireOne(c: Json.Codec<Message>, m: Message)
    ensures Wire(c, [m]) == Frame(c, m)
  {
    assert Wire(c, [m]) == Frame(c, m) + Wire(c, []);
  }

  /** A cut of two frames that keeps the first whole keeps a cut of the second. */
  lemma WireTwo(c: Json.Codec<Message>, m1: Message, m2: Message, room: nat)
    requires |Frame(c, m1)| <= room
    ensures Take(Wire(c, [m1, m2]), room) == Frame(c, m1) + Take(Frame(c, m2), room - |Frame(c, m1)|)
  {
    WireAppend(c, [m1], [m2]);
    assert [m1, m2] == [m1] + [m2];
    WireOne(c, m1);
    WireOne(c, m2);
    TakeAppend(Frame(c, m1), Frame(c, m2), room);
  }

  lemma {:induction false} ChunkMessagesAppend(a: seq<seq<Byte>>, b: seq<seq<Byte>>)
    ensures ChunkMessages(a + b) == ChunkMessages(a) + ChunkMessages(b)
    decreases |a|
  {
    if a != [] {
      assert (a + b)[1..] == a[1..] + b;
      ChunkMessagesAppend(a[1..], b);
    } else {
      assert a + b == b;
    }
  }
}
