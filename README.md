# sendme transfer protocol in Dafny

A model of the transfer core of `alt-sendme-go`, a tool that shares one file
directly between two peers. A sender hashes the file and hands out a
*ticket*: the peer address, the SHA-256 of the content, the file name and the
size, as JSON in padded URL-safe base64. A receiver holding the ticket opens a
stream to the sender. The sender answers with a Metadata frame, the file in
chunks of at most 1 MiB, and a Done frame. The receiver writes the chunks to a
new file, hashes them as they arrive, and removes the file when the final
digest is not the declared hash.

Modules, one per source file or component:

- `Bytes` (`bytes.dfy`): bytes, `int64`, the 4-byte big-endian length prefix and its round trip, sequence helpers.
- `Wrappers` (`wrappers.dfy`): `Option` and `Result`.
- `Json` (`json.dfy`): `encoding/json` as an abstract codec. Its round trip is a hypothesis (`Json.RoundTrips`) that the lemmas needing it take as a `requires`.
- `Transport` (`transport.dfy`): the frame codec of `internal/p2p/transport.go`. It contains the typed send helpers, `sendMessage` and `receiveMessage` over a `Stream` object, and the kind dispatch of `ReceiveMetadata` and `ReceiveChunk`.
- `Base64Url` (`base64url.dfy`): the padded URL-safe alphabet of section 5 of RFC 4648, with Go's decoder rules, proved to round-trip.
- `TicketCodec` (`ticket.dfy`): `internal/ticket/ticket.go`.
- `FileSystem` (`filesystem.dfy`): a `Disk` class. Files are a map from path to bytes and directories a set of paths. SHA-256 with lowercase hex, `filepath.Join`, `filepath.Dir` and `filepath.Base` are uninterpreted function fields of `Platform`.
- `Progress` (`progress.dfy`): the progress callback as a list of `(bytes so far, declared total)` reports.
- `Sender` (`sender.dfy`): `StartShare` and the `handleStream` chunking loop of `internal/sender/sender.go`.
- `Receiver` (`receiver.dfy`): `Receive` of `internal/receiver/receiver.go`. The imperative method is proved equal to the step-by-step function `ReceiveSpec`, and the session properties are lemmas about that function.
- `Session` (`session.dfy`): the two ends together. The frames a completed sender run writes, fed to a receiver, give a file equal to the shared one.
- `FileSize` (`filesize.dfy`): the magnitude loop of `FormatFileSize` in `internal/utils/file.go`.

Things outside the program's control are parameters:

- Connection set-up is `Receiver.Link` on the receiver side and `Sender.NodeStart` on the sender side.
- A stream that closes, resets or times out is a `Stream` whose `incoming` bytes run out, or whose `room` for writes is used up.
- Sender cancellation and read errors come from `Sender.Faults`, given as the loop iteration they hit; its `openFails` is `os.Open` refusing a file that exists (permissions changed after sharing, or no file descriptor left).
- Receiver create, write and remove errors come from `Receiver.IoFaults`.

The model follows the code, including these behaviours:

- A ticket's size and name are not validated, so an empty name or a negative size still decodes.
- The 100 MiB ceiling is enforced only by the reader. A payload of 4 GiB or more is written with a length prefix that has wrapped around.
- A path that names a directory when a stream is served opens, as `os.Open` allows, and the first read of it fails: the run ends in an Error frame, or in cancellation when that is observed first.
- A failed `os.Remove` after an integrity failure is ignored: the call still reports the integrity failure, and the corrupt file stays.
- A Metadata frame whose JSON has no metadata object reaches the receiver as a nil pointer. Reading its hash then panics, which the model records as the outcome `NilMetadata`: no file is touched.

## Model

| member | source | states |
|---|---|---|
| Bytes.BE32RoundTrip | internal/p2p/transport.go:131-132 | reading back the big-endian prefix of a length below 2^32 gives the length |
| Bytes.FromBE32RoundTrip | internal/p2p/transport.go:150-153 | every 4 bytes are the prefix of exactly one `uint32` length |
| Transport.Wire | internal/p2p/transport.go:120-142 | the frames of several messages written back to back; each adds at least its 4-byte prefix |
| Transport.Frame | internal/p2p/transport.go:130-139 | a frame is 4 bytes of length followed by the whole JSON payload |
| Transport.ReadFrame | internal/p2p/transport.go:149-172 | reading one frame consumes at most the input, and at least 4 bytes when it succeeds |
| Transport.ChunkOf | internal/p2p/transport.go:87-99 | Error gives a remote error carrying the peer's text, Done gives end of stream, Chunk gives its data, and any other kind is refused; a read error passes through |
| Transport.MetadataOf | internal/p2p/transport.go:64-68 | only a Metadata frame succeeds, and it yields the metadata pointer as is, nil included |
| Transport.Stream.Write | internal/p2p/transport.go:137-139 | a write sends what the peer still accepts and fails unless all of it went |
| Transport.Stream.ReadFull | internal/p2p/transport.go:161-164 | `io.ReadFull` delivers exactly the buffer's length or fails |
| Transport.SendMessage | internal/p2p/transport.go:120-142 | the stream receives the frame of the message, cut where the peer stopped taking bytes; the status says whether the length or the body write failed |
| Transport.ReceiveMessage | internal/p2p/transport.go:145-173 | result and remaining stream equal `ReadFrame` of the incoming bytes |
| Transport.SendMetadata | internal/p2p/transport.go:48-55 | writes the frame of a Metadata-kind message carrying only the metadata |
| Transport.SendChunk | internal/p2p/transport.go:72-78 | writes the frame of a Chunk-kind message carrying only the data |
| Transport.SendDone | internal/p2p/transport.go:103-108 | writes the frame of a Done-kind message with no fields |
| Transport.SendError | internal/p2p/transport.go:111-117 | writes the frame of an Error-kind message carrying only the text |
| Transport.ReceiveMetadata | internal/p2p/transport.go:58-69 | reads one frame and dispatches it with `MetadataOf` |
| Transport.ReceiveChunk | internal/p2p/transport.go:81-100 | reads one frame and dispatches it with `ChunkOf` |
| Transport.HelpersDispatchBack | internal/p2p/transport.go:48-117 | each send helper's message has its own kind, and the matching receive dispatch gives its field back while the other dispatch refuses it |
| Transport.ReadAfterPrefix | internal/p2p/transport.go:150-172 | after a well-formed prefix, the reader rejects a length above the ceiling, fails on a short body, or parses exactly `length` bytes |
| Transport.FrameRoundTrip | internal/p2p/transport.go:120-173 | reading what `sendMessage` wrote returns the message and leaves the following bytes, for every payload up to 100 MiB |
| Transport.OversizeFrameRejected | internal/p2p/transport.go:155-158 | a payload above 100 MiB is written anyway and the reader refuses it without reading the body |
| Transport.DeclaredOversizeRejected | internal/p2p/transport.go:155-158 | any declared length above 100 MiB is refused before the body, whatever follows |
| Transport.CeilingAccepted | internal/p2p/transport.go:155-172 | a length of exactly 100 MiB is accepted and its body parsed |
| Transport.TruncatedFrameRejected | internal/p2p/transport.go:150-164 | a frame cut short in the prefix or the body is an error: the body read must deliver all declared bytes |
| Transport.WriteSideDoesNotCheck | internal/p2p/transport.go:130-133 | the writer does not check the ceiling: a payload of 4 GiB or more gets a wrapped-around, smaller length prefix |
| Base64Url.Encode | internal/ticket/ticket.go:24 | the encoding has 4 characters per started group of 3 bytes and contains no line breaks |
| Base64Url.Decode | internal/ticket/ticket.go:29-32 | decoding succeeds only on input whose length without line breaks is a multiple of 4 |
| Base64Url.GroupRoundTrip | internal/ticket/ticket.go:24-29 | one to three bytes survive their group's encoding and decoding; padded groups only at the end |
| Base64Url.DecodeEncode | internal/ticket/ticket.go:24-29 | decoding the base64url of any bytes gives those bytes back |
| TicketCodec.Encode | internal/ticket/ticket.go:18-25 | the ticket text decodes, as base64url, to exactly the ticket's JSON |
| TicketCodec.Decode | internal/ticket/ticket.go:28-48 | for any text: invalid base64 is refused before parsing; a JSON failure is refused; a parsed ticket is accepted exactly when it has a peer address and a hash, a missing peer address being reported before a missing hash; a success is the parsed ticket |
| TicketCodec.DecodeEncode | internal/ticket/ticket.go:18-48 | every ticket with a peer address and a hash decodes back to itself, whatever its name and size |
| TicketCodec.DecodeEncodeRejects | internal/ticket/ticket.go:39-45 | a ticket missing its peer address is refused for that first, otherwise for the missing hash |
| TicketCodec.UnparsableRejected | internal/ticket/ticket.go:34-37 | valid base64 whose JSON does not parse is refused as such |
| FileSystem.Disk.MkdirAll | internal/utils/file.go:47-52 | creating the output directory fails when a file is at that path, and otherwise makes it a directory; missing parents are not modelled |
| FileSystem.Disk.Create | internal/receiver/receiver.go:90-93 | creating the output file adds an empty file at that path or fails, changing nothing |
| FileSystem.Disk.Append | internal/receiver/receiver.go:114-116 | a write appends the chunk to that file alone, or fails leaving the file as it was |
| FileSystem.Disk.Remove | internal/receiver/receiver.go:131 | removing the output file deletes that path only, or fails and leaves everything as it was |
| Progress.Reports | internal/sender/sender.go:138-145 | one report per chunk, each against the declared total |
| Progress.ReportsSnoc | internal/receiver/receiver.go:118-125 | one more chunk adds one report, counting every byte so far |
| Progress.ReportsAt | internal/sender/sender.go:138-145 | report `j` counts exactly the bytes of the first `j + 1` chunks against the declared total |
| Progress.ReportsStep | internal/receiver/receiver.go:118-125 | consecutive reports grow by the size of the chunk between them |
| Sender.StartShare | internal/sender/sender.go:29-85 | a missing path and a directory are refused whatever the node start does; success exactly for an existing file and a listening node, and then the ticket and the sender carry the same hash (the file's digest), base name and size |
| Sender.MetadataFor | internal/sender/sender.go:90-94 | the metadata holds the name, size and hash the sender was set up with |
| Sender.FirstFrameIsMetadata | internal/sender/sender.go:90-100 | every run first writes, after what the stream already held, the Metadata frame with the configured name, size and hash, cut only when the peer took less |
| Sender.Chunks | internal/sender/sender.go:111-131 | the successive reads of the file with a 1 MiB buffer: as many as started MiB |
| Sender.ChunksFlatten | internal/sender/sender.go:123-133 | the chunks read from the file, put back together, are the file |
| Sender.ChunksBounded | internal/sender/sender.go:111-133 | every chunk holds 1 to 1 MiB bytes, and only the last may be short |
| Sender.OpenFile.Read | internal/sender/sender.go:123-130 | a read fills the buffer with the next bytes of the file, reports EOF at the end, or fails; on a directory it always fails |
| Sender.HandleStream | internal/sender/sender.go:88-155 | the stream gets Metadata, then chunks in file order, then Done, or stops as the outcome says; Error when nothing is at the path, when `os.Open` refuses an existing file (`openFails`), or when a read fails (the first read, on a directory); one report per sent chunk; the outcome is the one `OutcomeDetermined` pins down |
| Sender.SendFile | internal/sender/sender.go:110-152 | the chunk loop ends in Done after EOF, or in cancellation, a read error or a send failure, with the stream and reports the outcome prescribes; on a directory the first read fails |
| Sender.Effective | internal/sender/sender.go:103-130 | a directory opens but its first read fails; other faults are as given |
| Sender.OutcomeDetermined | internal/sender/sender.go:96-152 | the peer's room, the file and the faults admit one outcome only: a failed send is the first message that did not fit, after everything before it did, and nothing follows it |
| Sender.FinishedDetermined | internal/sender/sender.go:96-152 | so the stream contents and the reports of a run are determined too |
| Sender.StopsNoEarlier | internal/sender/sender.go:115-136 | no explained outcome stops at an earlier chunk than another: an earlier stop needs a fault or a full peer there |
| Sender.SendNext | internal/sender/sender.go:115-145 | one pass checks cancellation before reading, then sends the chunk read, or Error after a failed read |
| Sender.EarlyExit | internal/sender/sender.go:96-107 | a Metadata send failure sends nothing further; a file that does not open gets one Error frame after Metadata |
| Sender.UnopenableSendsError | internal/sender/sender.go:103-107 | when the file cannot be opened, whether absent or refused, and Metadata fits, the run ends with Metadata and one cut-off Error frame, no chunk and no report |
| Sender.CancelledExit | internal/sender/sender.go:116-119 | cancellation observed before a read ends the run with no Done |
| Sender.ReadFailedExit | internal/sender/sender.go:127-130 | a failed read ends the run with an Error frame and no Done |
| Sender.ChunkExit | internal/sender/sender.go:133-136 | a chunk that cannot be sent ends the run with nothing after it |
| Sender.ChunkSent | internal/sender/sender.go:133-145 | a sent chunk extends the sent bytes, the stream and the reports by exactly that chunk |
| Sender.DoneExit | internal/sender/sender.go:148-152 | Done is attempted after every chunk went out |
| Sender.EndOfFileReached | internal/sender/sender.go:123-126 | at EOF every chunk of the file has been sent and no fault has hit |
| Sender.EndOfFileExactly | internal/sender/sender.go:121-126 | in the loop, the read offset is at the end of the file exactly when every chunk has been sent |
| Receiver.OutputFilePath | internal/receiver/receiver.go:64-77 | an existing directory gives a path inside it under the sender's name; another non-empty path is used as given; no path gives the sender's name |
| Receiver.Collect | internal/receiver/receiver.go:104-126 | the chunk loop only adds chunks after those already written, and consumes the stream |
| Receiver.ReceiveSpec | internal/receiver/receiver.go:27-136 | `Receive` step by step: directories only grow; nothing changes on disk and nothing is reported before the file is created; success names the created file |
| Receiver.Deliver | internal/receiver/receiver.go:96-136 | the loop then the integrity check: success needs the Done frame, and means the file's digest is the declared hash and its size the count returned; a frame that fails the loop fails the call with its cause and keeps the chunks that arrived |
| Receiver.Receive | internal/receiver/receiver.go:27-136 | the session's result, disk, reports and stream equal `ReceiveSpec` of the initial state |
| Receiver.ReceiveFile | internal/receiver/receiver.go:96-136 | after the file is created, the result and disk equal the chunk loop followed by the integrity check |
| Receiver.ReceiveChunks | internal/receiver/receiver.go:100-126 | each chunk goes to the file and to the hash input, `bytesReceived` is their total, one report per chunk, until something other than a chunk arrives or a write fails |
| Receiver.CollectWire | internal/receiver/receiver.go:104-118 | the loop writes every chunk of a run of chunk frames, in order |
| Receiver.CollectDone | internal/receiver/receiver.go:105-107 | a Done frame ends the loop normally |
| Receiver.CollectClosed | internal/receiver/receiver.go:105-111 | a stream that ends before a frame stops the loop with a read failure |
| Receiver.ReachesChunkLoop | internal/receiver/receiver.go:54-93 | Metadata with the ticket's hash and a free output path lead to the directory, the file and the chunk loop |
| Receiver.ForeignHashRefused | internal/receiver/receiver.go:59-62 | Metadata whose hash differs from the ticket's fails the call before any path is resolved; disk untouched |
| Receiver.ExistingDestinationRefused | internal/receiver/receiver.go:79-82 | an existing file at the resolved path fails the call before any chunk is read; nothing created or overwritten |
| Receiver.OnlyDestinationTouched | internal/receiver/receiver.go:79-136 | no existing file changes; the only new file is the one created at a free path; it is gone exactly when the integrity check failed and its removal worked; loop errors and a failed removal leave it in place |
| Receiver.DeliverTouches | internal/receiver/receiver.go:96-136 | after creation only the new file changes, and it stays unless the integrity check fails and removal works |
| Receiver.SuccessIsVerified | internal/receiver/receiver.go:128-136 | on success the file holds exactly the bytes counted, their digest is the ticket's hash, and the last report counts them all |
| Session.CompletedRunSendsFullTransfer | internal/sender/sender.go:96-152 | a complete sender run writes exactly Metadata, every chunk in order, then Done, and reports once per chunk |
| Session.FullTransferFrames | internal/receiver/receiver.go:54-126 | those frames read back as the Metadata, then every chunk, then Done |
| Session.FullTransferReceived | internal/receiver/receiver.go:54-136 | receiving a full transfer keeps a file equal to the source when its digest is the declared hash; otherwise it reports the mismatch and removes the file, which stays only if the removal fails; both ends report alike |
| Session.InterruptedTransferFails | internal/receiver/receiver.go:104-111 | an Error frame after some chunks fails the call with the peer's text, any other non-chunk kind with that kind; the file keeps the chunks that arrived |
| Session.TruncatedTransferFails | internal/receiver/receiver.go:104-111 | a stream closing after some chunks and before Done fails the call and leaves what arrived |
| Session.ShareThenReceive | internal/sender/sender.go:29-155 | a shared file's ticket survives its text form, and a complete sender run delivers to its holder a file equal to the shared one, with the same reports |
| FileSize.FormatFileSize | internal/utils/file.go:55-66 | below 1024 (negatives included) plain bytes; otherwise `div = 1024^(exp+1)` with `div <= size < div*1024`, `exp <= 5` so the letter index is in range, `div <= 2^60` so nothing overflows, and `'K'` for sizes under 1024² |
| FileSize.PowSix | internal/utils/file.go:60-65 | 1024^6 is 2^60 and one more step would leave `int64` |
| FileSize.DivDiv | internal/utils/file.go:61 | dividing `n` by 1024 again is dividing the size by the next divisor |
| FileSize.MagnitudeUnique | internal/utils/file.go:60-64 | only one power of 1024 leaves a quotient in [1, 1024), so the loop's choice is determined |

## Left out

- Peer networking in `internal/p2p/node.go` is not part of this model: host construction, keys, discovery, relays, `ConnectToPeer`, `ParsePeerIDFromAddr`, `NewStream` and `GetPeerAddr`. Their success or failure is a parameter.
- Read and write deadlines and `time.Now`: a timeout is the stream ending early or refusing further bytes.
- `encoding/json` and SHA-256 internals are uninterpreted. The JSON round trip is a hypothesis, and `json.Marshal` is taken never to fail, as it cannot for these types.
- The speed argument of the progress callback, `CalculateSpeed`, `FormatSpeed`, `FormatProgress` and the float formatting in `FormatFileSize` are floating point. Reports keep only the byte count and the total.
- Concurrent stream handlers: one stream is modelled. Each run opens its own file and keeps its own counter, so runs do not share state.
- `Sender.Stop`, the deferred `Close` calls and the `fmt.Printf` messages are not modelled.
- `cmd/sendme/main.go` is not part of this model: command line, signals and progress bar.
- Sender.StartShare: does not model a read error while hashing the file, because the disk model has no read faults at share time.
- FileSystem.Disk.MkdirAll: creates only the directory it is given, and fails only when a file is at that path. `os.MkdirAll` also creates every missing parent and fails when any ancestor is a regular file or permissions forbid it. Paths are opaque strings with an uninterpreted `filepath.Dir`, so ancestors are not modelled.
- FileSystem.Disk.Append: a failed write changes nothing, while a real failed write may leave part of the chunk in the file.
- Sender.Chunks: every read of a regular file returns a full buffer until the last one. `io.Reader` allows short reads, which would give more and smaller chunks with the same bytes. `Sender.ChunksBounded` ("only the last may be short") rests on this.
- The Error frames carry only the fixed texts "failed to open file" and "failed to read file", without the wrapped OS error that `%w` appends. The operating system's error text is not modelled.
- Strings are sequences of Unicode characters, so a file name, hash or peer address is always valid Unicode. A Go string may hold any bytes, and `encoding/json` replaces invalid UTF-8 with U+FFFD. A base name that is not valid UTF-8 therefore comes back changed in the ticket and the metadata, and the receiver writes under another name. `Json.RoundTrips`, `TicketCodec.DecodeEncode` and the session lemmas cover names that are valid UTF-8 only.
- `os.Stat` errors other than "absent" (permissions) are not distinguished: a path is present exactly when the disk holds it.
