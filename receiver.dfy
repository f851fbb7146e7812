/** The receiver session of internal/receiver/receiver.go: `Receive` connects to
    the peer named in the ticket, takes the Metadata frame, checks its hash
    against the ticket, picks the output path, refuses an existing file, then
    appends every Chunk frame to the file and to a SHA-256 accumulator until
    Done, and finally removes the file when the digest differs from the
    declared hash. */
module Receiver {
  import opened Bytes
  import opened Wrappers
  import opened Transport
  import opened FileSystem
  import opened Progress
  import TicketCodec
  import Json

  /** The network steps before the first frame: creating the node, connecting
      to the peer, parsing its id from the address, opening the stream. */
  datatype SetupStep = CreateNode | ConnectToPeer | ParsePeerId | OpenStream

  /** Whether the stream to the sender came up, or which step failed. */
  datatype Link = Up | Down(step: SetupStep)

  /** File-system failures the model does not derive from the disk's contents:
      `os.Create` failing, the write of chunk number `writeFailAt` failing, and
      the `os.Remove` after a failed integrity check failing (its error is
      ignored, so the file stays). */
  datatype IoFaults = IoFaults(createFails: bool, writeFailAt: Option<nat>, removeFails: bool)

  /** The errors `Receive` returns, in the order it can meet them. */
  datatype ReceiveError =
    | SetupFailed(step: SetupStep)
    | MetadataFailed(cause: FrameError)             // "failed to receive metadata"
    | NilMetadata                                    // the metadata pointer is nil: reading its hash panics
    | HashMismatch(expected: string, got: string)    // "file hash mismatch"
    | FileExists(path: Path)                         // "file already exists"
    | DirectoryFailed(dir: Path)                     // "failed to create output directory"
    | CreateFailed(path: Path)                       // "failed to create output file"
    | ChunkReceiveFailed(cause: FrameError)          // "failed to receive chunk"
    | WriteFailed                                    // "failed to write file"
    | IntegrityFailed(expected: string, got: string) // "file integrity check failed"

  /** A completed receive: where the file was written and how many bytes it holds. */
  datatype Received = Received(path: Path, bytes: nat)

  /** The output path: inside `outputPath` when that names an existing
      directory, `outputPath` itself when it names anything else, and the
      sender's file name (in the working directory) when it is empty. */
  function OutputFilePath(env: Platform, dirs: set<Path>, outputPath: Path, fileName: string): (p: Path)
    ensures outputPath == "" ==> p == fileName
    ensures outputPath != "" && outputPath in dirs ==> p == env.join(outputPath, fileName)
    ensures outputPath != "" && outputPath !in dirs ==> p == outputPath
  {
    if outputPath != "" then
      if outputPath in dirs then env.join(outputPath, fileName) else outputPath
    else fileName
  }

  /** No write fault hits a chunk before number `n`. */
  predicate WritesHold(writeFailAt: Option<nat>, n: nat)
  {
    writeFailAt.None? || writeFailAt.value >= n
  }

  /** Why the chunk loop stopped: Done, a frame that was not a chunk or could
      not be read, or a write that failed. */
  datatype LoopEnd = SawDone | FrameFailed(cause: FrameError) | WriteRefused

  /** The chunks the loop wrote, why it stopped, and what the stream still held. */
  datatype Collected = Collected(chunks: seq<seq<Byte>>, end: LoopEnd, rest: seq<Byte>)

  /** The chunk loop of `Receive` on a stream that delivers `input`, once the
      chunks `done` are in the file. A chunk is written unless the write fails
      or the file would outgrow `int64`; the loop runs until something other
      than a chunk arrives. */
  function Collect(c: Json.Codec<Message>, input: seq<Byte>, writeFailAt: Option<nat>, done: seq<seq<Byte>>)
    : (r: Collected)
    ensures |done| <= |r.chunks| && r.chunks[..|done|] == done
    ensures |r.rest| <= |input|
    decreases |input|
  {
    var rd := ReadFrame(c, input);
    match ChunkOf(rd.result)
    case EndOfStream => Collected(done, SawDone, rd.rest)
    case ChunkFailed(e) => Collected(done, FrameFailed(e), rd.rest)
    case ChunkData(d) =>
      if writeFailAt == Some(|done|) || |Flatten(done)| + |d| >= MaxFileSize then
        Collected(done, WriteRefused, rd.rest)
      else
        var r := Collect(c, rd.rest, writeFailAt, done + [d]);
        assert (done + [d])[..|done|] == done;
        r
  }

  /** Everything a call of `Receive` leaves behind: its result, the disk, the
      progress reports, what the stream still held, and the file it created
      (even if it later removed it). */
  datatype Outcome = Outcome(result: Result<Received, ReceiveError>, files: map<Path, seq<Byte>>, dirs: set<Path>,
                             progress: seq<Report>, rest: seq<Byte>, created: Option<Path>)

  /** `Receive`, step by step, on a disk holding `files` and `dirs` and a
      stream that delivers `input`. */
  function ReceiveSpec(c: Json.Codec<Message>, env: Platform, tkt: TicketCodec.Ticket, outputPath: Path,
                       files: map<Path, seq<Byte>>, dirs: set<Path>, link: Link, input: seq<Byte>,
                       faults: IoFaults): (o: Outcome)
    ensures dirs <= o.dirs
    ensures o.created.None? ==> o.files == files && o.progress == []
    ensures o.result.Ok? ==> link.Up? && o.created == Some(o.result.value.path)
  {
    if link.Down? then Outcome(Err(SetupFailed(link.step)), files, dirs, [], input, None)
    else
      var rd := ReadFrame(c, input);
      match MetadataOf(rd.result)
      case Err(e) => Outcome(Err(MetadataFailed(e)), files, dirs, [], rd.rest, None)
      case Ok(None) => Outcome(Err(NilMetadata), files, dirs, [], rd.rest, None)
      case Ok(Some(md)) =>
        if md.fileHash != tkt.fileHash then
          Outcome(Err(HashMismatch(tkt.fileHash, md.fileHash)), files, dirs, [], rd.rest, None)
        else
          var path := OutputFilePath(env, dirs, outputPath, md.fileName);
          if path in files || path in dirs then Outcome(Err(FileExists(path)), files, dirs, [], rd.rest, None)
          else
            var dir := env.dir(path);
            if dir in files then Outcome(Err(DirectoryFailed(dir)), files, dirs, [], rd.rest, None)
            else
              var dirs' := dirs + {dir};
              if faults.createFails || path in dirs' then
                Outcome(Err(CreateFailed(path)), files, dirs', [], rd.rest, None)
              else Deliver(c, env, md, path, files, dirs', rd.rest, faults)
  }

  /** The rest of `Receive` once the empty file at `path` is created: the chunk
      loop on `input`, then the integrity check, which tries to remove the file
      when the digest of what arrived is not the declared hash and reports the
      mismatch whether or not the removal worked. */
  function Deliver(c: Json.Codec<Message>, env: Platform, md: FileMetadata, path: Path,
                   files: map<Path, seq<Byte>>, dirs: set<Path>, input: seq<Byte>, faults: IoFaults)
    : (o: Outcome)
    ensures o.created == Some(path) && o.dirs == dirs
    ensures o.result.Ok? ==> Collect(c, input, faults.writeFailAt, []).end == SawDone
    ensures Collect(c, input, faults.writeFailAt, []).end.FrameFailed? ==>
              o.result == Err(ChunkReceiveFailed(Collect(c, input, faults.writeFailAt, []).end.cause))
              && o.files == files[path := Flatten(Collect(c, input, faults.writeFailAt, []).chunks)]
    ensures o.result.Ok? ==>
              o.result.value.path == path && path in o.files
              && env.sha256Hex(o.files[path]) == md.fileHash && |o.files[path]| == o.result.value.bytes
  {
    var got := Collect(c, input, faults.writeFailAt, []);
    var data := Flatten(got.chunks);
    var progress := Reports(got.chunks, md.fileSize);
    match got.end
    case FrameFailed(e) =>
      Outcome(Err(ChunkReceiveFailed(e)), files[path := data], dirs, progress, got.rest, Some(path))
    case WriteRefused =>
      Outcome(Err(WriteFailed), files[path := data], dirs, progress, got.rest, Some(path))
    case SawDone =>
      var digest := env.sha256Hex(data);
      if digest != md.fileHash then
        var left := if faults.removeFails then files[path := data] else files[path := data] - {path};
        Outcome(Err(IntegrityFailed(md.fileHash, digest)), left, dirs, progress, got.rest, Some(path))
      else
        Outcome(Ok(Received(path, |data|)), files[path := data], dirs, progress, got.rest, Some(path))
  }

  /** `Receive`: the session as the source runs it. The progress callback is
      the returned list of reports; the connection set-up is `link`. */
  method Receive(tkt: TicketCodec.Ticket, outputPath: Path, link: Link, disk: Disk, stream: Stream,
                 c: Json.Codec<Message>, env: Platform, faults: IoFaults)
    returns (r: Result<Received, ReceiveError>, progress: seq<Report>)
    requires disk.Valid()
    modifies disk, stream
    ensures disk.Valid()
    ensures var o := ReceiveSpec(c, env, tkt, outputPath, old(disk.files), old(disk.dirs), link,
                                 old(stream.incoming), faults);
            r == o.result && disk.files == o.files && disk.dirs == o.dirs && progress == o.progress
            && stream.incoming == o.rest
    ensures stream.outgoing == old(stream.outgoing) && stream.room == old(stream.room)
  {
    if link.Down? {
      return Err(SetupFailed(link.step)), [];
    }
    var md := ReceiveMetadata(stream, c);
    if md.Err? {
      return Err(MetadataFailed(md.error)), [];
    }
    if md.value.None? {
      return Err(NilMetadata), [];
    }
    var metadata := md.value.value;
    if metadata.fileHash != tkt.fileHash {
      return Err(HashMismatch(tkt.fileHash, metadata.fileHash)), [];
    }
    var outputFilePath := OutputFilePath(env, disk.dirs, outputPath, metadata.fileName);
    if disk.Exists(outputFilePath) {
      return Err(FileExists(outputFilePath)), [];
    }
    var dir := env.dir(outputFilePath);
    var ok := disk.MkdirAll(dir);
    if !ok {
      return Err(DirectoryFailed(dir)), [];
    }
    ok := disk.Create(outputFilePath, faults.createFails);
    if !ok {
      return Err(CreateFailed(outputFilePath)), [];
    }

    assert ReceiveSpec(c, env, tkt, outputPath, old(disk.files), old(disk.dirs), link, old(stream.incoming), faults)
           == Deliver(c, env, metadata, outputFilePath, old(disk.files), disk.dirs, stream.incoming, faults);
    assert disk.files - {outputFilePath} == old(disk.files);
    r, progress := ReceiveFile(outputFilePath, metadata, disk, stream, c, env, faults);
  }

  /** The part of `Receive` after the output file is created: the chunk loop,
      then the integrity check, which tries to remove the file on a digest
      mismatch and ignores whether that worked. */
  method ReceiveFile(path: Path, metadata: FileMetadata, disk: Disk, stream: Stream, c: Json.Codec<Message>,
                     env: Platform, faults: IoFaults)
    returns (r: Result<Received, ReceiveError>, progress: seq<Report>)
    requires disk.Valid() && path in disk.files && disk.files[path] == [] && path !in disk.dirs
    modifies disk, stream
    ensures disk.Valid()
    ensures var o := Deliver(c, env, metadata, path, old(disk.files) - {path}, old(disk.dirs),
                             old(stream.incoming), faults);
            r == o.result && disk.files == o.files && disk.dirs == o.dirs && progress == o.progress
            && stream.incoming == o.rest
    ensures stream.outgoing == old(stream.outgoing) && stream.room == old(stream.room)
  {
    var end, hashed, bytesReceived;
    end, hashed, bytesReceived, progress := ReceiveChunks(path, disk, stream, c, faults.writeFailAt, metadata.fileSize);
    assert (old(disk.files) - {path})[path := hashed] == old(disk.files)[path := hashed];
    if end.FrameFailed? {
      return Err(ChunkReceiveFailed(end.cause)), progress;
    }
    if end.WriteRefused? {
      return Err(WriteFailed), progress;
    }
    var calculatedHash := env.sha256Hex(hashed);
    if calculatedHash != metadata.fileHash {
      var removed := disk.Remove(path, faults.removeFails);
      return Err(IntegrityFailed(metadata.fileHash, calculatedHash)), progress;
    }
    return Ok(Received(path, bytesReceived)), progress;
  }

  /** The chunk loop of `Receive` on the freshly created file at `path`: each
      chunk goes to the file and to the hash input (`hashed`), `bytesReceived`
      counts them, and a report follows every chunk, until Done, a frame that is
      not a chunk, or a failed write. */
  method ReceiveChunks(path: Path, disk: Disk, stream: Stream, c: Json.Codec<Message>, writeFailAt: Option<nat>,
                       fileSize: Int64)
    returns (end: LoopEnd, hashed: seq<Byte>, bytesReceived: Int64, progress: seq<Report>)
    requires disk.Valid() && path in disk.files && disk.files[path] == []
    modifies disk, stream
    ensures var got := Collect(c, old(stream.incoming), writeFailAt, []);
            && end == got.end && hashed == Flatten(got.chunks) && bytesReceived == |hashed|
            && progress == Reports(got.chunks, fileSize) && stream.incoming == got.rest
    ensures disk.Valid() && disk.files == old(disk.files)[path := hashed] && disk.dirs == old(disk.dirs)
    ensures stream.outgoing == old(stream.outgoing) && stream.room == old(stream.room)
  {
    ghost var input := stream.incoming;
    ghost var target := Collect(c, input, writeFailAt, []);
    hashed, bytesReceived, progress := [], 0, [];
    var i: nat := 0;
    ghost var chunks: seq<seq<Byte>> := [];
    assert disk.files == old(disk.files)[path := Flatten(chunks)];
    while true
      invariant disk.Valid() && path in disk.files
      invariant disk.files == old(disk.files)[path := Flatten(chunks)] && disk.dirs == old(disk.dirs)
      invariant hashed == Flatten(chunks) && bytesReceived == |hashed| && i == |chunks|
      invariant progress == Reports(chunks, fileSize)
      invariant Collect(c, stream.incoming, writeFailAt, chunks) == target
      invariant stream.outgoing == old(stream.outgoing) && stream.room == old(stream.room)
      decreases |stream.incoming|
    {
      ghost var before := stream.incoming;
      var chunk := ReceiveChunk(stream, c);
      assert chunk == ChunkOf(ReadFrame(c, before).result);
      if chunk.EndOfStream? {
        assert target == Collected(chunks, SawDone, stream.incoming);
        return SawDone, hashed, bytesReceived, progress;
      }
      if chunk.ChunkFailed? {
        assert target == Collected(chunks, FrameFailed(chunk.error), stream.incoming);
        return FrameFailed(chunk.error), hashed, bytesReceived, progress;
      }
      var data := chunk.data;
      var ok := disk.Append(path, data, writeFailAt == Some(i));
      if !ok {
        assert target == Collected(chunks, WriteRefused, stream.incoming);
        return WriteRefused, hashed, bytesReceived, progress;
      }
      assert target == Collect(c, stream.incoming, writeFailAt, chunks + [data]);
      ReportsSnoc(chunks, data, fileSize);
      FlattenSnoc(chunks, data);
      hashed := hashed + data;
      bytesReceived := bytesReceived + |data|;
      chunks := chunks + [data];
      i := i + 1;
      progress := progress + [Report(bytesReceived, fileSize)];
    }
  }

  // Properties of the session

  /** The loop reads frames written for `cs`, writes each chunk, and goes on
      after them with `tail`. */
  lemma {:induction false} CollectWire(c: Json.Codec<Message>, cs: seq<seq<Byte>>, tail: seq<Byte>,
                                       writeFailAt: Option<nat>, done: seq<seq<Byte>>)
    requires Json.RoundTrips(c)
    requires forall m | m in ChunkMessages(cs) :: Fits(c, m)
    requires WritesHold(writeFailAt, |done| + |cs|)
    requires |Flatten(done + cs)| < MaxFileSize
    ensures Collect(c, Wire(c, ChunkMessages(cs)) + tail, writeFailAt, done) == Collect(c, tail, writeFailAt, done + cs)
    decreases |cs|
  {
    if cs == [] {
      assert done + cs == done;
      assert Wire(c, ChunkMessages(cs)) + tail == tail;
    } else {
      var m := ChunkMessage(cs[0]);
      var later := Wire(c, ChunkMessages(cs[1..])) + tail;
      var input := Wire(c, ChunkMessages(cs)) + tail;
      WireCons(c, m, ChunkMessages(cs[1..]), tail);
      assert input == Frame(c, m) + later;
      FrameRoundTrip(c, m, later);
      assert ReadFrame(c, input) == Reading(Ok(m), later);
      assert done + cs == (done + [cs[0]]) + cs[1..];
      FlattenAppend(done + [cs[0]], cs[1..]);
      FlattenSnoc(done, cs[0]);
      assert |Flatten(done)| + |cs[0]| < MaxFileSize;
      assert writeFailAt != Some(|done|);
      assert Collect(c, input, writeFailAt, done) == Collect(c, later, writeFailAt, done + [cs[0]]);
      CollectWire(c, cs[1..], tail, writeFailAt, done + [cs[0]]);
    }
  }

  /** A Done frame ends the loop normally. */
  lemma CollectDone(c: Json.Codec<Message>, rest: seq<Byte>, writeFailAt: Option<nat>, done: seq<seq<Byte>>)
    requires Json.RoundTrips(c) && Fits(c, DoneMessage())
    ensures Collect(c, Frame(c, DoneMessage()) + rest, writeFailAt, done) == Collected(done, SawDone, rest)
  {
    FrameRoundTrip(c, DoneMessage(), rest);
  }

  /** A stream that ends where a frame should start stops the loop with a failed read. */
  lemma CollectClosed(c: Json.Codec<Message>, writeFailAt: Option<nat>, done: seq<seq<Byte>>)
    ensures Collect(c, [], writeFailAt, done) == Collected(done, FrameFailed(LengthReadFailed), [])
  {
  }

  /** Once a Metadata frame with the ticket's hash has been read and the output
      path is free, the call creates the file and goes on to the chunk loop. */
  lemma ReachesChunkLoop(c: Json.Codec<Message>, env: Platform, tkt: TicketCodec.Ticket, outputPath: Path,
                         files: map<Path, seq<Byte>>, dirs: set<Path>, input: seq<Byte>, md: FileMetadata,
                         rest: seq<Byte>, faults: IoFaults)
    requires ReadFrame(c, input) == Reading(Ok(MetadataMessage(Some(md))), rest)
    requires md.fileHash == tkt.fileHash && !faults.createFails
    requires var p := OutputFilePath(env, dirs, outputPath, md.fileName);
             p !in files && p !in dirs && env.dir(p) !in files && env.dir(p) != p
    ensures var p := OutputFilePath(env, dirs, outputPath, md.fileName);
            ReceiveSpec(c, env, tkt, outputPath, files, dirs, Up, input, faults)
            == Deliver(c, env, md, p, files, dirs + {env.dir(p)}, rest, faults)
  {
  }

  /** A Metadata frame whose hash is not the ticket's ends the call before any
      path is resolved: nothing is created and the disk is untouched. */
  lemma ForeignHashRefused(c: Json.Codec<Message>, env: Platform, tkt: TicketCodec.Ticket, outputPath: Path,
                           files: map<Path, seq<Byte>>, dirs: set<Path>, md: FileMetadata, rest: seq<Byte>,
                           faults: IoFaults)
    requires Json.RoundTrips(c) && Fits(c, MetadataMessage(Some(md)))
    requires md.fileHash != tkt.fileHash
    ensures var o := ReceiveSpec(c, env, tkt, outputPath, files, dirs, Up,
                                 Frame(c, MetadataMessage(Some(md))) + rest, faults);
            o.result == Err(HashMismatch(tkt.fileHash, md.fileHash))
            && o.files == files && o.dirs == dirs && o.created.None? && o.rest == rest
  {
    FrameRoundTrip(c, MetadataMessage(Some(md)), rest);
  }

  /** A file or directory already at the resolved path ends the call before any
      chunk is read: nothing is created or overwritten. */
  lemma ExistingDestinationRefused(c: Json.Codec<Message>, env: Platform, tkt: TicketCodec.Ticket,
                                   outputPath: Path, files: map<Path, seq<Byte>>, dirs: set<Path>,
                                   md: FileMetadata, rest: seq<Byte>, faults: IoFaults)
    requires Json.RoundTrips(c) && Fits(c, MetadataMessage(Some(md)))
    requires md.fileHash == tkt.fileHash
    requires var p := OutputFilePath(env, dirs, outputPath, md.fileName); p in files || p in dirs
    ensures var o := ReceiveSpec(c, env, tkt, outputPath, files, dirs, Up,
                                 Frame(c, MetadataMessage(Some(md))) + rest, faults);
            o.result == Err(FileExists(OutputFilePath(env, dirs, outputPath, md.fileName)))
            && o.files == files && o.dirs == dirs && o.created.None? && o.rest == rest
  {
    FrameRoundTrip(c, MetadataMessage(Some(md)), rest);
  }

  /** Whatever the stream delivers, no file that existed before is changed or
      removed, and the only file that can appear is the one the call created,
      at a path that was free. It disappears again exactly when the integrity
      check fails and its removal works; a failure inside the loop, or a
      removal that fails, leaves it in place. */
  lemma OnlyDestinationTouched(c: Json.Codec<Message>, env: Platform, tkt: TicketCodec.Ticket, outputPath: Path,
                               files: map<Path, seq<Byte>>, dirs: set<Path>, link: Link, input: seq<Byte>,
                               faults: IoFaults)
    ensures var o := ReceiveSpec(c, env, tkt, outputPath, files, dirs, link, input, faults);
            && dirs <= o.dirs
            && (forall p | p in files :: p in o.files && o.files[p] == files[p])
            && (o.created.None? ==> o.files == files && o.progress == [])
            && (o.created.Some? ==>
                  o.created.value !in files && o.created.value !in o.dirs
                  && (o.created.value in o.files <==>
                        !(o.result.Err? && o.result.error.IntegrityFailed?) || faults.removeFails)
                  && o.files.Keys <= files.Keys + {o.created.value})
  {
    if link.Up? {
      var rd := ReadFrame(c, input);
      var md := MetadataOf(rd.result);
      if md.Ok? && md.value.Some? && md.value.value.fileHash == tkt.fileHash {
        var m := md.value.value;
        var path := OutputFilePath(env, dirs, outputPath, m.fileName);
        var dir := env.dir(path);
        if path !in files && path !in dirs && dir !in files && !faults.createFails && path !in dirs + {dir} {
          DeliverTouches(c, env, m, path, files, dirs + {dir}, rd.rest, faults);
        }
      }
    }
  }

  /** After the file at the free `path` is created, only that file changes:
      it stays unless the integrity check fails and its removal works. */
  lemma DeliverTouches(c: Json.Codec<Message>, env: Platform, md: FileMetadata, path: Path,
                       files: map<Path, seq<Byte>>, dirs: set<Path>, input: seq<Byte>, faults: IoFaults)
    requires path !in files
    ensures var o := Deliver(c, env, md, path, files, dirs, input, faults);
            && o.dirs == dirs && o.created == Some(path)
            && (forall p | p in files :: p in o.files && o.files[p] == files[p])
            && (path in o.files <==> !(o.result.Err? && o.result.error.IntegrityFailed?) || faults.removeFails)
            && o.files.Keys <= files.Keys + {path}
  {
  }

  /** A call that succeeds has verified the content: the file it reports holds
      exactly the bytes counted, whose digest is the ticket's hash, and the last
      progress report counts them all. */
  lemma SuccessIsVerified(c: Json.Codec<Message>, env: Platform, tkt: TicketCodec.Ticket, outputPath: Path,
                          files: map<Path, seq<Byte>>, dirs: set<Path>, link: Link, input: seq<Byte>,
                          faults: IoFaults)
    ensures var o := ReceiveSpec(c, env, tkt, outputPath, files, dirs, link, input, faults);
            o.result.Ok? ==>
              && o.created == Some(o.result.value.path) && o.result.value.path in o.files
              && |o.files[o.result.value.path]| == o.result.value.bytes
              && env.sha256Hex(o.files[o.result.value.path]) == tkt.fileHash
              && (o.progress != [] ==> o.progress[|o.progress| - 1].transferred == o.result.value.bytes)
  {
    var o := ReceiveSpec(c, env, tkt, outputPath, files, dirs, link, input, faults);
    if o.result.Ok? && o.progress != [] {
      var md := MetadataOf(ReadFrame(c, input).result).value.value;
      var got := Collect(c, ReadFrame(c, input).rest, faults.writeFailAt, []);
      ReportsAt(got.chunks, md.fileSize, |got.chunks| - 1);
      assert got.chunks[..|got.chunks|] == got.chunks;
    }
  }
}
