/** The sender session of internal/sender/sender.go: `StartShare` checks the
    path, hashes the file and builds the ticket; `handleStream` answers one
    incoming stream with Metadata, the file in chunks of at most 1 MiB, and Done,
    or an Error after a local failure. */
module Sender {
  import opened Bytes
  import opened Wrappers
  import opened Transport
  import opened FileSystem
  import opened Progress
  import TicketCodec

  /** The fields `StartShare` stores in a `Sender` and each stream handler reads. */
  datatype SenderConfig = SenderConfig(filePath: Path, fileHash: string, fileName: string, fileSize: Int64)

  /** What creating the peer node and asking it for its address gives. */
  datatype NodeStart = NodeFailed | AddressFailed | Listening(peerAddr: string)

  datatype ShareError =
    | FileNotFound      // "file not found"
    | IsDirectory       // "path is a directory, only files are supported in v1"
    | NodeCreateFailed  // "failed to create P2P node"
    | NoPeerAddress     // "failed to get peer address"

  /** `StartShare`: a missing path and a directory are refused before anything
      is hashed or any node is created; otherwise the ticket and the sender
      carry the same hash, name and size. */
  function StartShare(disk: Disk, filePath: Path, env: Platform, node: NodeStart)
    : (r: Result<(TicketCodec.Ticket, SenderConfig), ShareError>)
    requires disk.Valid()
    reads disk
    ensures !disk.Exists(filePath) ==> r == Err(FileNotFound)
    ensures filePath in disk.dirs ==> r == Err(IsDirectory)
    ensures r.Ok? <==> filePath in disk.files && node.Listening?
    ensures r.Ok? ==>
              r.value.1 == SenderConfig(filePath, env.sha256Hex(disk.files[filePath]), env.base(filePath),
                                        |disk.files[filePath]|)
              && r.value.0 == TicketCodec.Ticket(node.peerAddr, r.value.1.fileHash, r.value.1.fileName,
                                                 r.value.1.fileSize)
  {
    if !disk.Exists(filePath) then Err(FileNotFound)
    else if filePath in disk.dirs then Err(IsDirectory)
    else
      var contents := disk.files[filePath];
      var fileHash := env.sha256Hex(contents);
      match node
      case NodeFailed => Err(NodeCreateFailed)
      case AddressFailed => Err(NoPeerAddress)
      case Listening(peerAddr) =>
        var cfg := SenderConfig(filePath, fileHash, env.base(filePath), |contents|);
        Ok((TicketCodec.Ticket(peerAddr, fileHash, cfg.fileName, cfg.fileSize), cfg))
  }

  /** The metadata `handleStream` sends first: the name, size and hash the
      sender was set up with. */
  function MetadataFor(cfg: SenderConfig): (md: FileMetadata)
    ensures md.fileName == cfg.fileName && md.fileSize == cfg.fileSize && md.fileHash == cfg.fileHash
  {
    FileMetadata(cfg.fileName, cfg.fileSize, cfg.fileHash)
  }

  /** The successive results of `file.Read(buffer)` with a 1 MiB buffer on a
      regular file: full buffers, then what is left, never an empty chunk. */
  function Chunks(data: seq<Byte>): (cs: seq<seq<Byte>>)
    ensures |cs| == (|data| + ChunkSize - 1) / ChunkSize
    decreases |data|
  {
    if data == [] then []
    else
      var n := if |data| < ChunkSize then |data| else ChunkSize;
      [data[..n]] + Chunks(data[n..])
  }

  /** The chunks put back together are the file. */
  lemma {:induction false} ChunksFlatten(data: seq<Byte>)
    ensures Flatten(Chunks(data)) == data
    decreases |data|
  {
    if data != [] {
      var n := if |data| < ChunkSize then |data| else ChunkSize;
      ChunksFlatten(data[n..]);
      assert data == data[..n] + data[n..];
    }
  }

  /** Every chunk holds between one byte and `ChunkSize` bytes, and only the
      last may be short. */
  lemma {:induction false} ChunksBounded(data: seq<Byte>)
    ensures forall i :: 0 <= i < |Chunks(data)| ==> 0 < |Chunks(data)[i]| <= ChunkSize
    ensures forall i :: 0 <= i < |Chunks(data)| - 1 ==> |Chunks(data)[i]| == ChunkSize
    decreases |data|
  {
    if data != [] {
      var n := if |data| < ChunkSize then |data| else ChunkSize;
      ChunksBounded(data[n..]);
      assert Chunks(data) == [data[..n]] + Chunks(data[n..]);
    }
  }

  datatype ReadStatus = ReadOk | ReadEof | ReadError

  /** What `os.Open` returned, read front to back: a regular file, or a
      directory, which opens but refuses every read. */
  class OpenFile {
    const contents: seq<Byte>
    const directory: bool
    var offset: nat

    ghost predicate Valid()
      reads this
    {
      offset <= |contents| && (directory ==> contents == [])
    }

    constructor (contents: seq<Byte>, directory: bool)
      requires directory ==> contents == []
      ensures Valid() && this.contents == contents && this.directory == directory && offset == 0
    {
      this.contents := contents;
      this.directory := directory;
      offset := 0;
    }

    /** `(*os.File).Read`: `fault` stands for an I/O error on this call; on a
        directory every read fails (`EISDIR`). */
    method Read(buffer: array<Byte>, fault: bool) returns (n: nat, status: ReadStatus)
      requires Valid()
      modifies this, buffer
      ensures Valid()
      ensures fault || directory ==> status == ReadError && offset == old(offset)
      ensures !fault && !directory && old(offset) == |contents| ==> status == ReadEof && offset == old(offset)
      ensures !fault && !directory && old(offset) < |contents| ==>
                status == ReadOk
                && n == (if |contents| - old(offset) < buffer.Length then |contents| - old(offset) else buffer.Length)
                && buffer[..n] == contents[old(offset)..old(offset) + n]
                && offset == old(offset) + n
    {
      if fault || directory {
        return 0, ReadError;
      }
      if offset == |contents| {
        return 0, ReadEof;
      }
      n := if |contents| - offset < buffer.Length then |contents| - offset else buffer.Length;
      forall i | 0 <= i < n {
        buffer[i] := contents[offset + i];
      }
      offset := offset + n;
      status := ReadOk;
    }
  }

  /** Events outside the loop's control, by the loop iteration they hit:
      the cancellation observed by the poll before read `cancelAt`, and an I/O
      error on read `readFailAt`; `openFails` is `os.Open` refusing a path that
      exists (permissions changed since sharing, no descriptor left). */
  datatype Faults = Faults(cancelAt: Option<nat>, readFailAt: Option<nat>, openFails: bool)

  /** The faults the loop meets on a file that is a directory or not: on a
      directory the first read fails, whatever else happens later. */
  function Effective(f: Faults, directory: bool): (e: Faults)
    ensures e.cancelAt == f.cancelAt && e.openFails == f.openFails
    ensures directory ==> e.readFailAt == Some(0)
    ensures !directory ==> e == f
  {
    if directory then f.(readFailAt := Some(0)) else f
  }

  /** No fault hits an iteration before `k`. */
  predicate Quiet(f: Faults, k: nat)
  {
    (f.cancelAt.None? || f.cancelAt.value >= k) && (f.readFailAt.None? || f.readFailAt.value >= k)
  }

  /** How one run of `handleStream` ends. */
  datatype SendOutcome =
    | MetadataNotSent          // SendMetadata failed: nothing else is sent
    | OpenFailed               // os.Open failed (nothing at the path, or refused): an Error frame is sent
    | Cancelled(sent: nat)     // the context was done before read `sent`: no Done
    | ReadFailed(sent: nat)    // read `sent` failed: an Error frame is sent
    | ChunkNotSent(index: nat) // SendChunk of chunk `index` failed
    | DoneNotSent              // all chunks went out, SendDone failed
    | Completed                // Metadata, every chunk and Done went out

  const OpenErrorText: string := "failed to open file"
  const ReadErrorText: string := "failed to read file"

  /** How many chunks the outcome says were fully sent. */
  function ChunksSent(outcome: SendOutcome, total: nat): nat
  {
    match outcome
    case Cancelled(k) => k
    case ReadFailed(k) => k
    case ChunkNotSent(k) => k
    case DoneNotSent => total
    case Completed => total
    case _ => 0
  }

  /** The messages `handleStream` tries to send, in order, for an outcome; the
      last of them is the one that failed when the outcome is a send failure. */
  function Attempted(cfg: SenderConfig, chunks: seq<seq<Byte>>, outcome: SendOutcome): seq<Message>
    requires ChunksSent(outcome, |chunks|) <= |chunks|
    requires outcome.ChunkNotSent? ==> outcome.index < |chunks|
  {
    var meta := MetadataMessage(Some(MetadataFor(cfg)));
    match outcome
    case MetadataNotSent => [meta]
    case OpenFailed => [meta, ErrorMessage(OpenErrorText)]
    case Cancelled(k) => [meta] + ChunkMessages(chunks[..k])
    case ReadFailed(k) => [meta] + ChunkMessages(chunks[..k]) + [ErrorMessage(ReadErrorText)]
    case ChunkNotSent(k) => [meta] + ChunkMessages(chunks[..k + 1])
    case DoneNotSent => [meta] + ChunkMessages(chunks) + [DoneMessage()]
    case Completed => [meta] + ChunkMessages(chunks) + [DoneMessage()]
  }

  /** Everything a complete run sends: Metadata, every chunk, Done. */
  function FullTransfer(cfg: SenderConfig, contents: seq<Byte>): seq<Message>
  {
    [MetadataMessage(Some(MetadataFor(cfg)))] + ChunkMessages(Chunks(contents)) + [DoneMessage()]
  }

  /** Why a run of `handleStream` ended as it did, given whether the file could
      be opened, its chunks, the faults and the room the peer had. */
  ghost predicate Explained(c: Json.Codec<Message>, cfg: SenderConfig, openable: bool, chunks: seq<seq<Byte>>,
                            faults: Faults, room: nat, outcome: SendOutcome)
  {
    && ChunksSent(outcome, |chunks|) <= |chunks|
    && (outcome.ChunkNotSent? ==> outcome.index < |chunks|)
    && (outcome.MetadataNotSent? <==> room < |Frame(c, MetadataMessage(Some(MetadataFor(cfg))))|)
    && (outcome.OpenFailed? <==> !openable && !outcome.MetadataNotSent?)
    && (outcome.Cancelled? ==> faults.cancelAt == Some(outcome.sent) && Quiet(faults, outcome.sent))
    && (outcome.ReadFailed? ==>
          faults.readFailAt == Some(outcome.sent) && faults.cancelAt != Some(outcome.sent)
          && Quiet(faults, outcome.sent))
    && (outcome.ChunkNotSent? ==> Quiet(faults, outcome.index + 1))
    && (outcome.DoneNotSent? || outcome.Completed? ==> Quiet(faults, |chunks| + 1))
    && (outcome.Cancelled? || outcome.ReadFailed? ==>
          |Wire(c, [MetadataMessage(Some(MetadataFor(cfg)))] + ChunkMessages(chunks[..outcome.sent]))| <= room)
    && (outcome.ChunkNotSent? ==> |Wire(c, SentSoFar(cfg, chunks[..outcome.index]))| <= room)
    && (outcome.DoneNotSent? ==> |Wire(c, SentSoFar(cfg, chunks))| <= room)
    && (outcome.ChunkNotSent? || outcome.DoneNotSent? ==> |Wire(c, Attempted(cfg, chunks, outcome))| > room)
    && (outcome.Completed? ==> |Wire(c, Attempted(cfg, chunks, outcome))| <= room)
  }

  /** What `handleStream` leaves behind for a given outcome: why it stopped,
      the stream holding the frames of the attempted messages cut off where the
      peer stopped taking bytes, and one report per fully sent chunk with the
      running byte count against the stored size. */
  ghost predicate Finished(c: Json.Codec<Message>, cfg: SenderConfig, openable: bool, chunks: seq<seq<Byte>>,
                           faults: Faults, out0: seq<Byte>, room0: nat, outgoing: seq<Byte>,
                           progress: seq<Report>, outcome: SendOutcome)
  {
    && Explained(c, cfg, openable, chunks, faults, room0, outcome)
    && outgoing == out0 + Take(Wire(c, Attempted(cfg, chunks, outcome)), room0)
    && progress == Reports(chunks[..ChunksSent(outcome, |chunks|)], cfg.fileSize)
  }

  /** The peer, the file and the faults decide how a run ends: at most one
      outcome explains them. */
  lemma OutcomeDetermined(c: Json.Codec<Message>, cfg: SenderConfig, openable: bool, chunks: seq<seq<Byte>>,
                          faults: Faults, room: nat, o1: SendOutcome, o2: SendOutcome)
    requires Explained(c, cfg, openable, chunks, faults, room, o1)
    requires Explained(c, cfg, openable, chunks, faults, room, o2)
    ensures o1 == o2
  {
    if !o1.MetadataNotSent? && !o1.OpenFailed? && !o2.MetadataNotSent? && !o2.OpenFailed? {
      StopsNoEarlier(c, cfg, openable, chunks, faults, room, o1, o2);
      StopsNoEarlier(c, cfg, openable, chunks, faults, room, o2, o1);
      LoopOutcome(c, cfg, openable, chunks, faults, room, o1);
    }
  }

  /** So a run's stream and reports are determined too. */
  lemma FinishedDetermined(c: Json.Codec<Message>, cfg: SenderConfig, openable: bool, chunks: seq<seq<Byte>>,
                           faults: Faults, out0: seq<Byte>, room0: nat,
                           outgoing1: seq<Byte>, progress1: seq<Report>, o1: SendOutcome,
                           outgoing2: seq<Byte>, progress2: seq<Report>, o2: SendOutcome)
    requires Finished(c, cfg, openable, chunks, faults, out0, room0, outgoing1, progress1, o1)
    requires Finished(c, cfg, openable, chunks, faults, out0, room0, outgoing2, progress2, o2)
    ensures o1 == o2 && outgoing1 == outgoing2 && progress1 == progress2
  {
    OutcomeDetermined(c, cfg, openable, chunks, faults, room0, o1, o2);
  }

  /** A run that reached the loop sent Metadata and every chunk before the
      one it stopped at, and met no fault before that. */
  lemma LoopOutcome(c: Json.Codec<Message>, cfg: SenderConfig, openable: bool, chunks: seq<seq<Byte>>,
                    faults: Faults, room: nat, o: SendOutcome)
    requires Explained(c, cfg, openable, chunks, faults, room, o)
    requires !o.MetadataNotSent? && !o.OpenFailed?
    ensures |Wire(c, SentSoFar(cfg, chunks[..ChunksSent(o, |chunks|)]))| <= room
    ensures Quiet(faults, ChunksSent(o, |chunks|))
  {
    assert chunks[..|chunks|] == chunks;
    if o.Completed? {
      assert Attempted(cfg, chunks, o) == SentSoFar(cfg, chunks) + [DoneMessage()];
      WireAppend(c, SentSoFar(cfg, chunks), [DoneMessage()]);
    }
  }

  /** A loop outcome stops no earlier than any other explained one: an
      earlier stop is either a fault the other did not meet, or a chunk that
      did not fit where the other fitted more. */
  lemma StopsNoEarlier(c: Json.Codec<Message>, cfg: SenderConfig, openable: bool, chunks: seq<seq<Byte>>,
                       faults: Faults, room: nat, o1: SendOutcome, o2: SendOutcome)
    requires Explained(c, cfg, openable, chunks, faults, room, o1)
    requires Explained(c, cfg, openable, chunks, faults, room, o2)
    requires !o1.MetadataNotSent? && !o1.OpenFailed? && !o2.MetadataNotSent? && !o2.OpenFailed?
    ensures ChunksSent(o2, |chunks|) <= ChunksSent(o1, |chunks|)
  {
    LoopOutcome(c, cfg, openable, chunks, faults, room, o2);
    if o1.ChunkNotSent? && o1.index < ChunksSent(o2, |chunks|) {
      SentSoFarGrows(c, cfg, chunks, o1.index + 1, ChunksSent(o2, |chunks|));
    }
  }

  /** Sending more chunks never shortens the wire. */
  lemma SentSoFarGrows(c: Json.Codec<Message>, cfg: SenderConfig, chunks: seq<seq<Byte>>, j: nat, k: nat)
    requires j <= k <= |chunks|
    ensures |Wire(c, SentSoFar(cfg, chunks[..j]))| <= |Wire(c, SentSoFar(cfg, chunks[..k]))|
  {
    assert chunks[..k] == chunks[..j] + chunks[j..k];
    ChunkMessagesAppend(chunks[..j], chunks[j..k]);
    assert SentSoFar(cfg, chunks[..k]) == SentSoFar(cfg, chunks[..j]) + ChunkMessages(chunks[j..k]);
    WireAppend(c, SentSoFar(cfg, chunks[..j]), ChunkMessages(chunks[j..k]));
  }

  /** Whatever the outcome, a run leaves what was on the stream before it in
      place and then writes the Metadata frame holding the name, size and hash
      the sender was set up with, cut short only when the peer took less. */
  lemma FirstFrameIsMetadata(c: Json.Codec<Message>, cfg: SenderConfig, openable: bool, chunks: seq<seq<Byte>>,
                             faults: Faults, out0: seq<Byte>, room0: nat, outgoing: seq<Byte>,
                             progress: seq<Report>, outcome: SendOutcome)
    requires Finished(c, cfg, openable, chunks, faults, out0, room0, outgoing, progress, outcome)
    ensures var f := Frame(c, MetadataMessage(Some(FileMetadata(cfg.fileName, cfg.fileSize, cfg.fileHash))));
            && (outcome.MetadataNotSent? ==> outgoing == out0 + Take(f, room0))
            && (!outcome.MetadataNotSent? ==>
                  |out0| + |f| <= |outgoing| && outgoing[..|out0| + |f|] == out0 + f)
  {
    var meta := MetadataMessage(Some(MetadataFor(cfg)));
    var all := Attempted(cfg, chunks, outcome);
    var later := all[1..];
    assert all == [meta] + later;
    WireAppend(c, [meta], later);
    WireOne(c, meta);
    if outcome.MetadataNotSent? {
      assert later == [];
      assert Wire(c, later) == [];
      assert Wire(c, all) == Frame(c, meta);
    } else {
      TakeAppend(Frame(c, meta), Wire(c, later), room0);
      assert outgoing == (out0 + Frame(c, meta)) + Take(Wire(c, later), room0 - |Frame(c, meta)|);
    }
  }

  /** Metadata followed by the chunks sent so far. */
  function SentSoFar(cfg: SenderConfig, sent: seq<seq<Byte>>): (ms: seq<Message>)
    ensures |ms| == 1 + |sent|
  {
    [MetadataMessage(Some(MetadataFor(cfg)))] + ChunkMessages(sent)
  }

  /** The state of the chunking loop of `handleStream` at the top of an
      iteration: the chunks sent so far are the first chunks of the file and
      cover its first `offset` bytes, all of their frames went out, one report
      was made per chunk, and no fault has hit yet. */
  ghost predicate InFlight(c: Json.Codec<Message>, cfg: SenderConfig, contents: seq<Byte>, chunks: seq<seq<Byte>>,
                           faults: Faults, out0: seq<Byte>, room0: nat, offset: nat, sent: seq<seq<Byte>>,
                           outgoing: seq<Byte>, room: nat, progress: seq<Report>)
  {
    && offset <= |contents|
    && chunks == sent + Chunks(contents[offset..])
    && Flatten(sent) == contents[..offset]
    && |Wire(c, SentSoFar(cfg, sent))| <= room0
    && outgoing == out0 + Wire(c, SentSoFar(cfg, sent))
    && room == room0 - |Wire(c, SentSoFar(cfg, sent))|
    && progress == Reports(sent, cfg.fileSize)
    && Quiet(faults, |sent|)
  }

  /** `handleStream` on one stream: Metadata first; Error when nothing is at
      the path or `os.Open` refuses it; otherwise the chunking loop, which on
      a directory stops at its first read. */
  method HandleStream(cfg: SenderConfig, disk: Disk, stream: Stream, c: Json.Codec<Message>, faults: Faults)
    returns (outcome: SendOutcome, progress: seq<Report>)
    requires disk.Valid()
    modifies stream
    ensures stream.incoming == old(stream.incoming)
    ensures var chunks := if cfg.filePath in disk.files then Chunks(disk.files[cfg.filePath]) else [];
            Finished(c, cfg, disk.Exists(cfg.filePath) && !faults.openFails, chunks,
                     Effective(faults, cfg.filePath in disk.dirs),
                     old(stream.outgoing), old(stream.room), stream.outgoing, progress, outcome)
  {
    ghost var out0, room0 := stream.outgoing, stream.room;
    ghost var chunks := if cfg.filePath in disk.files then Chunks(disk.files[cfg.filePath]) else [];
    ghost var eff := Effective(faults, cfg.filePath in disk.dirs);
    var status := SendMetadata(stream, c, Some(MetadataFor(cfg)));
    if status != Written {
      EarlyExit(c, cfg, disk.Exists(cfg.filePath) && !faults.openFails, chunks, eff, out0, room0, stream.outgoing,
                MetadataNotSent);
      return MetadataNotSent, [];
    }
    if !disk.Exists(cfg.filePath) || faults.openFails {
      status := SendError(stream, c, OpenErrorText);
      EarlyExit(c, cfg, false, chunks, eff, out0, room0, stream.outgoing, OpenFailed);
      return OpenFailed, [];
    }
    var file;
    if cfg.filePath in disk.files {
      file := new OpenFile(disk.files[cfg.filePath], false);
    } else {
      file := new OpenFile([], true);
    }
    WireOne(c, MetadataMessage(Some(MetadataFor(cfg))));
    outcome, progress := SendFile(cfg, file, stream, c, faults, out0, room0);
  }

  /** `handleStream` stops before its loop: Metadata did not go out, or the
      file did not open and Error was attempted. */
  lemma EarlyExit(c: Json.Codec<Message>, cfg: SenderConfig, openable: bool, chunks: seq<seq<Byte>>, faults: Faults,
                  out0: seq<Byte>, room0: nat, outgoing: seq<Byte>, outcome: SendOutcome)
    requires outcome == MetadataNotSent || outcome == OpenFailed
    requires outcome.MetadataNotSent? ==>
               room0 < |Frame(c, MetadataMessage(Some(MetadataFor(cfg))))|
               && outgoing == out0 + Take(Frame(c, MetadataMessage(Some(MetadataFor(cfg)))), room0)
    requires outcome.OpenFailed? ==>
               !openable && |Frame(c, MetadataMessage(Some(MetadataFor(cfg))))| <= room0
               && outgoing == out0 + Frame(c, MetadataMessage(Some(MetadataFor(cfg))))
                  + Take(Frame(c, ErrorMessage(OpenErrorText)), room0 - |Frame(c, MetadataMessage(Some(MetadataFor(cfg))))|)
    ensures Finished(c, cfg, openable, chunks, faults, out0, room0, outgoing, [], outcome)
  {
    var meta := MetadataMessage(Some(MetadataFor(cfg)));
    WireOne(c, meta);
    if outcome.OpenFailed? {
      WireTwo(c, meta, ErrorMessage(OpenErrorText), room0);
    }
  }

  /** A file that cannot be opened, absent or refused by `os.Open`, ends the
      run after Metadata with one Error frame, no chunk and no report. */
  lemma UnopenableSendsError(c: Json.Codec<Message>, cfg: SenderConfig, chunks: seq<seq<Byte>>, faults: Faults,
                             out0: seq<Byte>, room0: nat, outgoing: seq<Byte>, progress: seq<Report>,
                             outcome: SendOutcome)
    requires Finished(c, cfg, false, chunks, faults, out0, room0, outgoing, progress, outcome)
    requires |Frame(c, MetadataMessage(Some(MetadataFor(cfg))))| <= room0
    ensures outcome == OpenFailed && progress == []
    ensures outgoing == out0 + Frame(c, MetadataMessage(Some(MetadataFor(cfg))))
                        + Take(Frame(c, ErrorMessage(OpenErrorText)),
                               room0 - |Frame(c, MetadataMessage(Some(MetadataFor(cfg))))|)
  {
    WireTwo(c, MetadataMessage(Some(MetadataFor(cfg))), ErrorMessage(OpenErrorText), room0);
  }

  /** What one iteration of the chunking loop ends in. */
  datatype Next = Sent(chunk: seq<Byte>) | EndOfFile | Stopped(outcome: SendOutcome)

  /** The chunking loop of `handleStream`, after the Metadata frame went out:
      iterate until end of file, then send Done. */
  method SendFile(cfg: SenderConfig, file: OpenFile, stream: Stream, c: Json.Codec<Message>, faults: Faults,
                  ghost out0: seq<Byte>, ghost room0: nat)
    returns (outcome: SendOutcome, progress: seq<Report>)
    requires file.Valid() && file.offset == 0
    requires |Frame(c, MetadataMessage(Some(MetadataFor(cfg))))| <= room0
    requires stream.outgoing == out0 + Frame(c, MetadataMessage(Some(MetadataFor(cfg))))
    requires stream.room == room0 - |Frame(c, MetadataMessage(Some(MetadataFor(cfg))))|
    modifies stream, file
    ensures stream.incoming == old(stream.incoming)
    ensures Finished(c, cfg, true, Chunks(file.contents), Effective(faults, file.directory), out0, room0,
                     stream.outgoing, progress, outcome)
  {
    ghost var contents := file.contents;
    ghost var chunks := Chunks(contents);
    var eff := Effective(faults, file.directory);
    InFlightStart(c, cfg, contents, eff, out0, room0, stream.outgoing, stream.room);
    var buffer := new Byte[ChunkSize];
    var bytesSent: nat := 0;
    var i: nat := 0;
    ghost var sent: seq<seq<Byte>> := [];
    progress := [];
    while true
      invariant file.Valid() && file.contents == contents
      invariant stream.incoming == old(stream.incoming)
      invariant i == |sent| && bytesSent == file.offset
      invariant InFlight(c, cfg, contents, chunks, eff, out0, room0, file.offset, sent,
                         stream.outgoing, stream.room, progress)
      decreases |contents| - file.offset
    {
      var next := SendNext(cfg, file, buffer, stream, c, eff, i, chunks, sent, progress, out0, room0);
      match next
      case EndOfFile =>
        break;
      case Stopped(o) =>
        return o, progress;
      case Sent(chunk) =>
        sent := sent + [chunk];
        bytesSent := bytesSent + |chunk|;
        progress := progress + [Report(bytesSent, cfg.fileSize)];
        i := i + 1;
    }
    ghost var outgoing, room := stream.outgoing, stream.room;
    var status := SendDone(stream, c);
    outcome := if status == Written then Completed else DoneNotSent;
    DoneExit(c, cfg, contents, chunks, eff, out0, room0, sent, outgoing, room, progress, outcome);
  }

  /** One iteration of the chunking loop: poll for cancellation, read up to
      `ChunkSize` bytes into the reused buffer, then send them, or send Error
      after a failed read. */
  method SendNext(cfg: SenderConfig, file: OpenFile, buffer: array<Byte>, stream: Stream, c: Json.Codec<Message>,
                  faults: Faults, i: nat, ghost chunks: seq<seq<Byte>>, ghost sent: seq<seq<Byte>>,
                  ghost progress: seq<Report>, ghost out0: seq<Byte>, ghost room0: nat)
    returns (next: Next)
    requires file.Valid() && buffer.Length == ChunkSize && i == |sent| && chunks == Chunks(file.contents)
    requires file.directory ==> faults.readFailAt == Some(0)
    requires InFlight(c, cfg, file.contents, chunks, faults, out0, room0, file.offset, sent,
                      stream.outgoing, stream.room, progress)
    modifies file, buffer, stream
    ensures file.Valid() && stream.incoming == old(stream.incoming)
    ensures next.EndOfFile? ==>
              file.offset == old(file.offset) && sent == chunks && Quiet(faults, |chunks| + 1)
              && stream.outgoing == old(stream.outgoing) && stream.room == old(stream.room)
    ensures next.Stopped? ==>
              Finished(c, cfg, true, chunks, faults, out0, room0, stream.outgoing, progress, next.outcome)
    ensures next.Sent? ==>
              old(file.offset) < file.offset && file.offset == old(file.offset) + |next.chunk|
              && InFlight(c, cfg, file.contents, chunks, faults, out0, room0, file.offset, sent + [next.chunk],
                          stream.outgoing, stream.room, progress + [Report(file.offset, cfg.fileSize)])
  {
    ghost var outgoing, room := stream.outgoing, stream.room;
    if faults.cancelAt == Some(i) {
      CancelledExit(c, cfg, file.contents, chunks, faults, out0, room0, file.offset, sent, outgoing, room, progress);
      return Stopped(Cancelled(i));
    }
    ghost var before := file.offset;
    var n, readStatus := file.Read(buffer, faults.readFailAt == Some(i));
    if readStatus == ReadEof {
      EndOfFileReached(c, cfg, file.contents, chunks, faults, out0, room0, sent, outgoing, room, progress);
      return EndOfFile;
    }
    if readStatus == ReadError {
      if file.directory {
        assert Chunks([]) == [] && sent == [];
      }
      var status := SendError(stream, c, ReadErrorText);
      ReadFailedExit(c, cfg, file.contents, chunks, faults, out0, room0, before, sent, outgoing, room, progress);
      return Stopped(ReadFailed(i));
    }
    var chunk := buffer[..n];
    var status := SendChunk(stream, c, chunk);
    if status != Written {
      ChunkExit(c, cfg, file.contents, chunks, faults, out0, room0, before, n, chunk, sent, outgoing, room, progress);
      return Stopped(ChunkNotSent(i));
    }
    ChunkSent(c, cfg, file.contents, chunks, faults, out0, room0, before, n, chunk, sent, outgoing, room, progress);
    return Sent(chunk);
  }

  /** The loop starts with only Metadata sent. */
  lemma InFlightStart(c: Json.Codec<Message>, cfg: SenderConfig, contents: seq<Byte>, faults: Faults,
                      out0: seq<Byte>, room0: nat, outgoing: seq<Byte>, room: nat)
    requires |Frame(c, MetadataMessage(Some(MetadataFor(cfg))))| <= room0
    requires outgoing == out0 + Frame(c, MetadataMessage(Some(MetadataFor(cfg))))
    requires room == room0 - |Frame(c, MetadataMessage(Some(MetadataFor(cfg))))|
    ensures InFlight(c, cfg, contents, Chunks(contents), faults, out0, room0, 0, [], outgoing, room, [])
  {
    assert SentSoFar(cfg, []) == [MetadataMessage(Some(MetadataFor(cfg)))];
    WireOne(c, MetadataMessage(Some(MetadataFor(cfg))));
    assert contents[0..] == contents;
  }

  /** The context was done before read `|sent|`. */
  lemma CancelledExit(c: Json.Codec<Message>, cfg: SenderConfig, contents: seq<Byte>, chunks: seq<seq<Byte>>,
                      faults: Faults, out0: seq<Byte>, room0: nat, offset: nat, sent: seq<seq<Byte>>,
                      outgoing: seq<Byte>, room: nat, progress: seq<Report>)
    requires InFlight(c, cfg, contents, chunks, faults, out0, room0, offset, sent, outgoing, room, progress)
    requires faults.cancelAt == Some(|sent|)
    ensures Finished(c, cfg, true, chunks, faults, out0, room0, outgoing, progress, Cancelled(|sent|))
  {
    PrefixSent(contents, chunks, offset, sent);
    MetadataFits(c, cfg, sent);
    assert Attempted(cfg, chunks, Cancelled(|sent|)) == SentSoFar(cfg, sent);
  }

  /** Read `|sent|` failed after every earlier chunk went out; Error follows. */
  lemma ReadFailedExit(c: Json.Codec<Message>, cfg: SenderConfig, contents: seq<Byte>, chunks: seq<seq<Byte>>,
                       faults: Faults, out0: seq<Byte>, room0: nat, offset: nat, sent: seq<seq<Byte>>,
                       outgoing: seq<Byte>, room: nat, progress: seq<Report>)
    requires InFlight(c, cfg, contents, chunks, faults, out0, room0, offset, sent, outgoing, room, progress)
    requires faults.readFailAt == Some(|sent|) && faults.cancelAt != Some(|sent|)
    ensures Finished(c, cfg, true, chunks, faults, out0, room0,
                     outgoing + Take(Frame(c, ErrorMessage(ReadErrorText)), room), progress, ReadFailed(|sent|))
  {
    PrefixSent(contents, chunks, offset, sent);
    MetadataFits(c, cfg, sent);
    assert Attempted(cfg, chunks, ReadFailed(|sent|)) == SentSoFar(cfg, sent) + [ErrorMessage(ReadErrorText)];
    SendStep(c, SentSoFar(cfg, sent), ErrorMessage(ReadErrorText), out0, outgoing, room0);
  }

  /** The read at `before` came back empty: every chunk went out. */
  lemma EndOfFileReached(c: Json.Codec<Message>, cfg: SenderConfig, contents: seq<Byte>, chunks: seq<seq<Byte>>,
                         faults: Faults, out0: seq<Byte>, room0: nat, sent: seq<seq<Byte>>,
                         outgoing: seq<Byte>, room: nat, progress: seq<Report>)
    requires InFlight(c, cfg, contents, chunks, faults, out0, room0, |contents|, sent, outgoing, room, progress)
    requires faults.cancelAt != Some(|sent|) && faults.readFailAt != Some(|sent|)
    ensures sent == chunks && Quiet(faults, |chunks| + 1)
  {
    assert contents[|contents|..] == [];
    assert Chunks([]) == [];
  }

  /** In the loop, the file is read to its end exactly when every chunk of it
      has been sent. */
  lemma EndOfFileExactly(c: Json.Codec<Message>, cfg: SenderConfig, contents: seq<Byte>, chunks: seq<seq<Byte>>,
                         faults: Faults, out0: seq<Byte>, room0: nat, offset: nat, sent: seq<seq<Byte>>,
                         outgoing: seq<Byte>, room: nat, progress: seq<Report>)
    requires InFlight(c, cfg, contents, chunks, faults, out0, room0, offset, sent, outgoing, room, progress)
    ensures offset == |contents| <==> sent == chunks
  {
    assert chunks == sent + Chunks(contents[offset..]);
    if offset < |contents| {
      assert |Chunks(contents[offset..])| > 0;
    } else {
      assert contents[offset..] == [];
    }
  }

  /** Chunk `|sent|`, read as `n` bytes at `before`, did not fit in what the
      peer would still take. */
  lemma ChunkExit(c: Json.Codec<Message>, cfg: SenderConfig, contents: seq<Byte>, chunks: seq<seq<Byte>>,
                  faults: Faults, out0: seq<Byte>, room0: nat, before: nat, n: nat, chunk: seq<Byte>,
                  sent: seq<seq<Byte>>, outgoing: seq<Byte>, room: nat, progress: seq<Report>)
    requires InFlight(c, cfg, contents, chunks, faults, out0, room0, before, sent, outgoing, room, progress)
    requires faults.cancelAt != Some(|sent|) && faults.readFailAt != Some(|sent|)
    requires before < |contents|
    requires n == if |contents| - before < ChunkSize then |contents| - before else ChunkSize
    requires chunk == contents[before..before + n]
    requires room < |Frame(c, ChunkMessage(chunk))|
    ensures Finished(c, cfg, true, chunks, faults, out0, room0,
                     outgoing + Take(Frame(c, ChunkMessage(chunk)), room), progress, ChunkNotSent(|sent|))
  {
    ChunkAdvance(contents, before, n, chunk, sent, chunks, cfg.fileSize);
    PrefixSent(contents, chunks, before, sent);
    MetadataFits(c, cfg, sent);
    assert Attempted(cfg, chunks, ChunkNotSent(|sent|)) == SentSoFar(cfg, sent + [chunk]);
    assert SentSoFar(cfg, sent + [chunk]) == SentSoFar(cfg, sent) + [ChunkMessage(chunk)];
    SendStep(c, SentSoFar(cfg, sent), ChunkMessage(chunk), out0, outgoing, room0);
  }

  /** Chunk `|sent|`, read as `n` bytes at `before`, went out whole. */
  lemma ChunkSent(c: Json.Codec<Message>, cfg: SenderConfig, contents: seq<Byte>, chunks: seq<seq<Byte>>,
                  faults: Faults, out0: seq<Byte>, room0: nat, before: nat, n: nat, chunk: seq<Byte>,
                  sent: seq<seq<Byte>>, outgoing: seq<Byte>, room: nat, progress: seq<Report>)
    requires InFlight(c, cfg, contents, chunks, faults, out0, room0, before, sent, outgoing, room, progress)
    requires faults.cancelAt != Some(|sent|) && faults.readFailAt != Some(|sent|)
    requires before < |contents|
    requires n == if |contents| - before < ChunkSize then |contents| - before else ChunkSize
    requires chunk == contents[before..before + n]
    requires |Frame(c, ChunkMessage(chunk))| <= room
    ensures |chunk| == n
    ensures InFlight(c, cfg, contents, chunks, faults, out0, room0, before + n, sent + [chunk],
                     outgoing + Take(Frame(c, ChunkMessage(chunk)), room),
                     room - |Take(Frame(c, ChunkMessage(chunk)), room)|,
                     progress + [Report(before + n, cfg.fileSize)])
  {
    ChunkAdvance(contents, before, n, chunk, sent, chunks, cfg.fileSize);
    assert SentSoFar(cfg, sent + [chunk]) == SentSoFar(cfg, sent) + [ChunkMessage(chunk)];
    SendStep(c, SentSoFar(cfg, sent), ChunkMessage(chunk), out0, outgoing, room0);
  }

  /** Done was attempted after the last chunk. */
  lemma DoneExit(c: Json.Codec<Message>, cfg: SenderConfig, contents: seq<Byte>, chunks: seq<seq<Byte>>,
                 faults: Faults, out0: seq<Byte>, room0: nat, sent: seq<seq<Byte>>,
                 outgoing: seq<Byte>, room: nat, progress: seq<Report>, outcome: SendOutcome)
    requires InFlight(c, cfg, contents, chunks, faults, out0, room0, |contents|, sent, outgoing, room, progress)
    requires sent == chunks && Quiet(faults, |chunks| + 1)
    requires outcome == if |Frame(c, DoneMessage())| <= room then Completed else DoneNotSent
    ensures Finished(c, cfg, true, chunks, faults, out0, room0,
                     outgoing + Take(Frame(c, DoneMessage()), room), progress, outcome)
  {
    MetadataFits(c, cfg, sent);
    assert Attempted(cfg, chunks, outcome) == SentSoFar(cfg, sent) + [DoneMessage()];
    assert chunks[..|chunks|] == chunks;
    SendStep(c, SentSoFar(cfg, sent), DoneMessage(), out0, outgoing, room0);
  }

  /** The chunks sent so far are the first chunks of the file. */
  lemma PrefixSent(contents: seq<Byte>, chunks: seq<seq<Byte>>, offset: nat, sent: seq<seq<Byte>>)
    requires offset <= |contents| && chunks == sent + Chunks(contents[offset..])
    ensures |sent| <= |chunks| && chunks[..|sent|] == sent
  {
  }

  /** The Metadata frame is the start of the wire. */
  lemma MetadataFits(c: Json.Codec<Message>, cfg: SenderConfig, sent: seq<seq<Byte>>)
    ensures |Frame(c, MetadataMessage(Some(MetadataFor(cfg))))| <= |Wire(c, SentSoFar(cfg, sent))|
  {
    assert SentSoFar(cfg, sent)[0] == MetadataMessage(Some(MetadataFor(cfg)));
  }

  /** One full read of `n` bytes at `before` moves a chunk from the file's
      remaining chunks to the sent ones. */
  lemma ChunkAdvance(contents: seq<Byte>, before: nat, n: nat, chunk: seq<Byte>,
                     sent: seq<seq<Byte>>, chunks: seq<seq<Byte>>, total: int)
    requires before < |contents|
    requires n == if |contents| - before < ChunkSize then |contents| - before else ChunkSize
    requires chunk == contents[before..before + n]
    requires chunks == sent + Chunks(contents[before..])
    requires Flatten(sent) == contents[..before]
    ensures |sent| < |chunks| && chunks[..|sent| + 1] == sent + [chunk] && |chunk| == n
    ensures chunks == (sent + [chunk]) + Chunks(contents[before + n..])
    ensures Flatten(sent + [chunk]) == contents[..before + n]
    ensures ChunkMessages(sent + [chunk]) == ChunkMessages(sent) + [ChunkMessage(chunk)]
    ensures Reports(sent + [chunk], total) == Reports(sent, total) + [Report(before + n, total)]
  {
    NextChunk(contents, before, n, chunk);
    assert sent + ([chunk] + Chunks(contents[before + n..])) == (sent + [chunk]) + Chunks(contents[before + n..]);
    assert chunks[..|sent| + 1] == sent + [chunk];
    FlattenSnoc(sent, chunk);
    assert contents[..before + n] == contents[..before] + chunk;
    ChunkMessagesAppend(sent, [chunk]);
    assert |Flatten(sent)| == before;
    ReportsSnoc(sent, chunk, total);
  }

  /** The chunks from `before` on are the `n` bytes read there, then the chunks after them. */
  lemma NextChunk(contents: seq<Byte>, before: nat, n: nat, chunk: seq<Byte>)
    requires before < |contents|
    requires n == if |contents| - before < ChunkSize then |contents| - before else ChunkSize
    requires chunk == contents[before..before + n]
    ensures Chunks(contents[before..]) == [chunk] + Chunks(contents[before + n..])
  {
    var rest := contents[before..];
    assert chunk == rest[..n];
    assert rest[n..] == contents[before + n..];
  }

  /** Sending one more message after `attempted` all went out: the stream
      holds the cut-off wire of `attempted + [m]`. */
  lemma SendStep(c: Json.Codec<Message>, attempted: seq<Message>, m: Message,
                 out0: seq<Byte>, out: seq<Byte>, room0: nat)
    requires |Wire(c, attempted)| <= room0
    requires out == out0 + Wire(c, attempted)
    ensures Wire(c, attempted + [m]) == Wire(c, attempted) + Frame(c, m)
    ensures out + Take(Frame(c, m), room0 - |Wire(c, attempted)|) ==
            out0 + Take(Wire(c, attempted + [m]), room0)
  {
    var w, f := Wire(c, attempted), Frame(c, m);
    WireAppend(c, attempted, [m]);
    WireOne(c, m);
    assert Wire(c, attempted + [m]) == w + f;
    TakeAfter(out0, w, f, room0);
    assert out == out0 + w;
  }
}
