/** Both ends of one transfer: what a sender's `handleStream` writes, read by a
    receiver's `Receive`. */
module Session {
  import opened Bytes
  import opened Wrappers
  import opened Transport
  import opened FileSystem
  import opened Progress
  import opened Sender
  import opened Receiver
  import TicketCodec
  import Json

  /** A complete run of `handleStream` on a fresh stream writes exactly the
      frames of Metadata, every chunk of the file in order, and Done, and
      reports once per chunk. */
  lemma CompletedRunSendsFullTransfer(c: Json.Codec<Message>, cfg: SenderConfig, contents: seq<Byte>,
                                      faults: Sender.Faults, room0: nat, outgoing: seq<Byte>,
                                      progress: seq<Report>)
    requires Finished(c, cfg, true, Chunks(contents), faults, [], room0, outgoing, progress, Completed)
    ensures outgoing == Wire(c, FullTransfer(cfg, contents))
    ensures progress == Reports(Chunks(contents), cfg.fileSize)
  {
    var chunks := Chunks(contents);
    assert Attempted(cfg, chunks, Completed) == FullTransfer(cfg, contents);
    assert chunks[..|chunks|] == chunks;
  }

  /** Receiving the frames of a complete transfer of `contents` into a free
      path: the loop collects exactly `contents`, and the call succeeds exactly
      when its digest is the declared hash; otherwise the file is removed,
      unless that removal fails, which leaves it behind. Both ends make the
      same progress reports. */
  lemma FullTransferReceived(c: Json.Codec<Message>, env: Platform, tkt: TicketCodec.Ticket, outputPath: Path,
                             files: map<Path, seq<Byte>>, dirs: set<Path>, cfg: SenderConfig,
                             contents: seq<Byte>, rest: seq<Byte>, faults: IoFaults)
    requires Json.RoundTrips(c)
    requires forall m | m in FullTransfer(cfg, contents) :: Fits(c, m)
    requires tkt.fileHash == cfg.fileHash && |contents| < MaxFileSize
    requires !faults.createFails && faults.writeFailAt.None?
    requires var p := OutputFilePath(env, dirs, outputPath, cfg.fileName);
             p !in files && p !in dirs && env.dir(p) !in files && env.dir(p) != p
    ensures var p := OutputFilePath(env, dirs, outputPath, cfg.fileName);
            var o := ReceiveSpec(c, env, tkt, outputPath, files, dirs, Up,
                                 Wire(c, FullTransfer(cfg, contents)) + rest, faults);
            && o.created == Some(p) && o.rest == rest && o.dirs == dirs + {env.dir(p)}
            && o.progress == Reports(Chunks(contents), cfg.fileSize)
            && (env.sha256Hex(contents) == cfg.fileHash ==>
                  o.result == Ok(Received(p, |contents|)) && o.files == files[p := contents])
            && (env.sha256Hex(contents) != cfg.fileHash ==>
                  o.result == Err(IntegrityFailed(cfg.fileHash, env.sha256Hex(contents)))
                  && o.files == if faults.removeFails then files[p := contents] else files)
  {
    var afterMeta := FullTransferFrames(c, cfg, contents, rest, faults.writeFailAt);
    ReachesChunkLoop(c, env, tkt, outputPath, files, dirs, Wire(c, FullTransfer(cfg, contents)) + rest,
                     MetadataFor(cfg), afterMeta, faults);
    ChunksFlatten(contents);
  }

  /** The frames of a complete transfer read back as its Metadata, and then,
      in the chunk loop, as every chunk followed by Done. */
  lemma FullTransferFrames(c: Json.Codec<Message>, cfg: SenderConfig, contents: seq<Byte>, rest: seq<Byte>,
                           writeFailAt: Option<nat>)
    returns (afterMeta: seq<Byte>)
    requires Json.RoundTrips(c)
    requires forall m | m in FullTransfer(cfg, contents) :: Fits(c, m)
    requires |contents| < MaxFileSize && writeFailAt.None?
    ensures ReadFrame(c, Wire(c, FullTransfer(cfg, contents)) + rest)
            == Reading(Ok(MetadataMessage(Some(MetadataFor(cfg)))), afterMeta)
    ensures Collect(c, afterMeta, writeFailAt, []) == Collected(Chunks(contents), SawDone, rest)
  {
    var meta := MetadataMessage(Some(MetadataFor(cfg)));
    var chunks := Chunks(contents);
    var cms := ChunkMessages(chunks);
    afterMeta := Wire(c, cms) + (Frame(c, DoneMessage()) + rest);
    assert FullTransfer(cfg, contents) == [meta] + (cms + [DoneMessage()]);
    WireCons(c, meta, cms + [DoneMessage()], rest);
    WireAppend(c, cms, [DoneMessage()]);
    WireOne(c, DoneMessage());
    assert Wire(c, FullTransfer(cfg, contents)) + rest == Frame(c, meta) + afterMeta;
    assert meta in FullTransfer(cfg, contents);
    assert DoneMessage() in FullTransfer(cfg, contents);
    FrameRoundTrip(c, meta, afterMeta);
    ChunksFlatten(contents);
    assert [] + chunks == chunks;
    CollectWire(c, chunks, Frame(c, DoneMessage()) + rest, writeFailAt, []);
    CollectDone(c, rest, writeFailAt, chunks);
  }

  /** A stream that closes after Metadata and some chunks, before Done, never
      completes: the call fails on the missing frame, and the file holds what
      arrived. */
  lemma TruncatedTransferFails(c: Json.Codec<Message>, env: Platform, tkt: TicketCodec.Ticket, outputPath: Path,
                               files: map<Path, seq<Byte>>, dirs: set<Path>, md: FileMetadata,
                               chunks: seq<seq<Byte>>, faults: IoFaults)
    requires Json.RoundTrips(c)
    requires Fits(c, MetadataMessage(Some(md))) && forall m | m in ChunkMessages(chunks) :: Fits(c, m)
    requires md.fileHash == tkt.fileHash && |Flatten(chunks)| < MaxFileSize
    requires !faults.createFails && faults.writeFailAt.None?
    requires var p := OutputFilePath(env, dirs, outputPath, md.fileName);
             p !in files && p !in dirs && env.dir(p) !in files && env.dir(p) != p
    ensures var p := OutputFilePath(env, dirs, outputPath, md.fileName);
            var o := ReceiveSpec(c, env, tkt, outputPath, files, dirs, Up,
                                 Wire(c, [MetadataMessage(Some(md))] + ChunkMessages(chunks)), faults);
            && o.result == Err(ChunkReceiveFailed(LengthReadFailed))
            && o.created == Some(p) && o.files == files[p := Flatten(chunks)]
            && o.progress == Reports(chunks, md.fileSize)
  {
    var meta := MetadataMessage(Some(md));
    var afterMeta := Wire(c, ChunkMessages(chunks)) + [];
    WireCons(c, meta, ChunkMessages(chunks), []);
    assert Wire(c, [meta] + ChunkMessages(chunks)) + [] == Wire(c, [meta] + ChunkMessages(chunks));
    FrameRoundTrip(c, meta, afterMeta);
    ReachesChunkLoop(c, env, tkt, outputPath, files, dirs, Wire(c, [meta] + ChunkMessages(chunks)),
                     md, afterMeta, faults);
    assert [] + chunks == chunks;
    CollectWire(c, chunks, [], faults.writeFailAt, []);
    CollectClosed(c, faults.writeFailAt, chunks);
    assert Collect(c, afterMeta, faults.writeFailAt, []) == Collected(chunks, FrameFailed(LengthReadFailed), []);
  }

  /** A frame other than a chunk or Done in the middle of a transfer (the
      sender's Error frame, or a frame of any other kind) fails the call with
      the peer's message or the unexpected kind, and the file keeps the chunks
      that arrived before it. */
  lemma InterruptedTransferFails(c: Json.Codec<Message>, env: Platform, tkt: TicketCodec.Ticket, outputPath: Path,
                                 files: map<Path, seq<Byte>>, dirs: set<Path>, md: FileMetadata,
                                 chunks: seq<seq<Byte>>, m: Message, rest: seq<Byte>, faults: IoFaults)
    requires Json.RoundTrips(c)
    requires Fits(c, MetadataMessage(Some(md))) && Fits(c, m) && forall cm | cm in ChunkMessages(chunks) :: Fits(c, cm)
    requires m.kind != KindChunk && m.kind != KindDone
    requires md.fileHash == tkt.fileHash && |Flatten(chunks)| < MaxFileSize
    requires !faults.createFails && faults.writeFailAt.None?
    requires var p := OutputFilePath(env, dirs, outputPath, md.fileName);
             p !in files && p !in dirs && env.dir(p) !in files && env.dir(p) != p
    ensures var p := OutputFilePath(env, dirs, outputPath, md.fileName);
            var o := ReceiveSpec(c, env, tkt, outputPath, files, dirs, Up,
                                 Wire(c, [MetadataMessage(Some(md))] + ChunkMessages(chunks)) + Frame(c, m) + rest,
                                 faults);
            && o.result == Err(ChunkReceiveFailed(if m.kind == KindError then RemoteError(m.error)
                                                  else UnexpectedKind(m.kind)))
            && o.created == Some(p) && o.files == files[p := Flatten(chunks)] && o.rest == rest
            && o.progress == Reports(chunks, md.fileSize)
  {
    var meta := MetadataMessage(Some(md));
    var input := Wire(c, [meta] + ChunkMessages(chunks)) + Frame(c, m) + rest;
    var afterMeta := Wire(c, ChunkMessages(chunks)) + (Frame(c, m) + rest);
    WireCons(c, meta, ChunkMessages(chunks), Frame(c, m) + rest);
    assert input == Frame(c, meta) + afterMeta;
    FrameRoundTrip(c, meta, afterMeta);
    ReachesChunkLoop(c, env, tkt, outputPath, files, dirs, input, md, afterMeta, faults);
    assert [] + chunks == chunks;
    CollectWire(c, chunks, Frame(c, m) + rest, faults.writeFailAt, []);
    FrameRoundTrip(c, m, rest);
    assert Collect(c, Frame(c, m) + rest, faults.writeFailAt, chunks)
           == Collected(chunks, FrameFailed(ChunkOf(Ok(m)).error), rest);
  }

  /** Sharing a file and receiving it end to end: `StartShare` on the sender's
      disk gives a ticket that survives its text form; a complete run of
      `handleStream` for the sender then delivers, through a receiver holding
      that ticket, a file equal to the shared one at the free output path,
      with the same progress reports on both ends. */
  lemma ShareThenReceive(disk: Disk, filePath: Path, env: Platform, node: NodeStart,
                         tc: Json.Codec<TicketCodec.Ticket>, c: Json.Codec<Message>,
                         sendFaults: Sender.Faults, room0: nat, outgoing: seq<Byte>, sent: seq<Report>,
                         outputPath: Path, files: map<Path, seq<Byte>>, dirs: set<Path>, faults: IoFaults)
    requires disk.Valid() && Json.RoundTrips(tc) && Json.RoundTrips(c)
    requires StartShare(disk, filePath, env, node).Ok?
    requires var tkt := StartShare(disk, filePath, env, node).value.0;
             tkt.peerAddr != "" && tkt.fileHash != ""
    requires var cfg := StartShare(disk, filePath, env, node).value.1;
             && (forall m | m in FullTransfer(cfg, disk.files[filePath]) :: Fits(c, m))
             && Finished(c, cfg, true, Chunks(disk.files[filePath]), sendFaults, [], room0, outgoing, sent, Completed)
             && var p := OutputFilePath(env, dirs, outputPath, cfg.fileName);
                p !in files && p !in dirs && env.dir(p) !in files && env.dir(p) != p
    requires !faults.createFails && faults.writeFailAt.None?
    ensures var tkt := StartShare(disk, filePath, env, node).value.0;
            var cfg := StartShare(disk, filePath, env, node).value.1;
            var p := OutputFilePath(env, dirs, outputPath, cfg.fileName);
            && TicketCodec.Decode(tc, TicketCodec.Encode(tc, tkt)) == Ok(tkt)
            && var o := ReceiveSpec(c, env, tkt, outputPath, files, dirs, Up, outgoing, faults);
               o.result == Ok(Received(p, |disk.files[filePath]|))
               && o.files == files[p := disk.files[filePath]]
               && o.progress == sent
  {
    var share := StartShare(disk, filePath, env, node).value;
    var tkt, cfg := share.0, share.1;
    var contents := disk.files[filePath];
    TicketCodec.DecodeEncode(tc, tkt);
    CompletedRunSendsFullTransfer(c, cfg, contents, sendFaults, room0, outgoing, sent);
    FullTransferReceived(c, env, tkt, outputPath, files, dirs, cfg, contents, [], faults);
    assert outgoing + [] == outgoing;
  }
}
