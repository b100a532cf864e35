# Verified core of v2ray-core's streams, signalling and caches

This project models, in Dafny, the parts of v2ray-core where state is carried from one call to the
next and where two parties have to agree, and proves what they promise over all inputs and all runs.

* **Framed streams.** `AuthenticationWriter` and `AuthenticationReader` cut a byte stream into sealed
  chunks with a coded size, random padding and an end chunk. Each end keeps hidden state (nonce
  counters, the Shake stream, a saved size, a done flag). The wire format is defined once, in
  `Codecs`, as a relation between plaintext chunks, frames and that hidden state. The writer is proved
  to emit frames, the reader to follow them draw by draw, however the transport cuts the wire and however
  far it reads ahead, and the two are composed into round trips, for streams and for packets, and for
  streams over a wire that breaks off anywhere. `AuthenticStreams` is about the reader on
  any wire at all, `WireFormat` about the bytes of each field. The plain `ChunkStreamWriter` and
  `ChunkStreamReader` get the same treatment.
* **Buffers.** `MultiBuffers` states the list operations on values; `Buffers` runs them in place on
  mutable windows and proves both agree. `BufferedReader`, `BufferedWriter`, the dispatcher's
  `cachedReader` and the byte pools are classes whose invariants are conservation and sole ownership.
* **WebRTC signalling.** The client loop, its candidate channel and send gate, the acceptor's sessions
  and a relay that loses, repeats and reorders messages form one transition system. `SignallingProofs`
  has the invariant, the completeness theorem and the safety theorems for every reachable state;
  `SignallingOrder` shows that the acceptor follows the client's list in order, `SignallingGate` what
  each request lists, `SignallingSessions` which sessions are open and what becomes of a request;
  `SignallingRuns` and `SignallingLosses` give runs that stop, with nothing lost and with something lost;
  `SignallingLoops` proves the source's loops against the functions the system uses. `Handoff` is the
  current-session protocol under all interleavings.
* **Caches and selectors.** The LRU with its reverse index, the replay filter, the TCP name server's
  record cache, DNS rule attribution and client order, and least-load selection, each against a simple
  specification.

How to read it: a pure function states what an operation computes on values; a class or method with loops,
in the form of the source, is proved to compute it; lemmas then say what it means over whole runs.

What is taken as given, as parameters or preconditions:

* an AEAD cipher opens what it sealed under the same nonce and additional data, and adds a fixed overhead
  (sections 2.1 and 2.2 of RFC 5116): `Codecs.Correct`. Both ends start from equal hidden state. For
  authenticity instead: it opens nothing the writer did not seal;
* a maximal padding leaves room for one byte of payload in a regular buffer: part of `Codecs.Sound`;
* a transport returns data or an error, not both, and its one error is io.EOF;
* in signalling, reply tags have 16 bytes and differ between clients, and a peer's candidate callbacks
  precede its gathering-done callback. The relay may do anything else;
* a set filter has no false negatives, or, where acceptance is at stake, no false positives; clocks do not
  go back; a matcher numbers its patterns from 1.

Where the code does not meet what one might expect of it, the exact condition is proved; where that alone does
not show a failing input, a lemma or method gives one:

* in packet mode a packet that is too large is skipped after a padding length has been drawn, so
  the ends stay in step exactly when nothing is padded or nothing is skipped (`AuthWriters.PacketLockstepExactly`;
  a full regular buffer is such a packet: `AuthWriters.DesyncIsReal`);
* `SplitSize` panics exactly when the first buffer exceeds the requested size and that size exceeds a
  regular buffer (`MultiBuffers.SplitSizeCuts`), so `ChunkStreamWriter` panics exactly on a buffer longer
  than 8192 bytes (`ChunkStreams.ChunkStreamWriter.WriteMultiBuffer`);
* `Compact` keeps the content exactly when everything it merges is non-empty and fits behind the content
  before it; otherwise it panics or drops bytes (`MultiBuffers.CompactKeepsExactly`, `MultiBuffers.CompactLoses`);
* a `Put` leaves the LRU's value index exact exactly when it keeps keys and values one to one
  (`LruCache.Lru.Put`; `LruRuns.SharedValueLost` and `LruRuns.ReplacedValueLost` are runs in which a value in the
  cache is not found);
* the domains of a server are attributed by size range exactly when every rule of size zero lies behind them
  (`DnsRules.AttributionBySizeExactly`, whose proof names the first domain that goes wrong);
* a lookup sees a cleanup exactly when it asks for no address family and the cleanup left the domain without
  a record (`DnsCache.CleanupSeenExactly`, `DnsCache.NoFamilySeesCleanup`). The cache gets no such lookup from its
  caller: `Client.QueryIP` answers an option without a family itself (app/dns/nameserver.go:184);
* `Cache` reads the pipe before it takes its lock, and a read looks at the cache and then reads the pipe under another
  lock. The pipe read keeps the stream in order exactly when the pipe is empty or nothing is cached and nothing in
  flight (`CachedReaders.OverlappingReadExactly`); over every schedule of these steps, what has been delivered is the
  beginning of the stream exactly as long as every pipe read met that (`CachedReaders.ScheduleExact`); two schedules
  break it (`CachedReaders.OverlappingReadsReorder`). The one user of the reader does not read while it sniffs:
  `sniffer` has returned before `routedDispatch` starts (app/dispatcher/default.go:223-238);
* a local candidate that finds the channel full is dropped (app/webrtc/webrtc.go:1127-1133): the last request lists all that
  was gathered exactly when every dropped candidate was accepted at another time
  (`SignallingProofs.StopListsGatheredExactly`); in `SignallingLosses.StopMayLose` the seventeenth is lost;
* the client may stop without an acceptor candidate that was gathered after the acceptor's peer was connected
  (`SignallingRuns.StopIsReachable`); `SignallingProofs.StopIsComplete` says that this is the only way;
* the client may stop although its last request was lost, when the relay repeats a final response
  (`SignallingLosses.StopMayLose`). The peer of a session of the client's has every candidate exactly when it has
  the last one listed (`SignallingOrder.StopReachesAcceptorExactly`), for which it suffices that the response acted
  on answers the last request (`SignallingProofs.StopReachesAcceptor`);
* a transport that ends early is reported as EOF, like the end of the stream, at a frame's boundary and just behind a
  header, and as an error elsewhere (`AuthCuts.CutStream`); on the plain chunk stream as an error only within a header
  (`ChunkTransfers.ReadAll`).

## Model

| member | source | states |
|---|---|---|
| `AuthReaders.Transfer` | common/crypto/auth.go:119-360 | any non-empty stream writes closed by an empty write, sent over a wire cut up in any way, come back as exactly the bytes written, then EOF; both loops terminate |
| `AuthCuts.TransferCut` | common/crypto/auth.go:119-360 | the same over a wire that breaks off after any number of bytes: exactly the chunks whose frames got through whole, the beginning of what was written; EOF exactly at the end chunk, at a boundary or just behind a header, and an error otherwise |
| `AuthCuts.ReadToEnd` | common/crypto/auth.go:208-228 | repeated reads of a stream that ends early return exactly the whole chunks and then EOF or an error, by where it ends |
| `AuthCuts.CutStream` | common/crypto/auth.go:119-228 | for every cut of every stream of frames and every fragmentation: the chunks before the cut, then EOF if and only if the stream ends at a boundary, just behind a header or in the end chunk |
| `AuthCuts.BatchCut` | common/crypto/auth.go:208-228 | one `ReadMultiBuffer` by how much of the next frame has arrived; read-ahead never turns a cut into an error |
| `AuthCuts.HardCut` | common/crypto/auth.go:153-206 | one hard read by how much of the next frame has arrived: EOF, error, end chunk, or as if everything had arrived |
| `AuthCuts.SoftExtended` | common/crypto/auth.go:153-206 | a soft read does not depend on what has not been buffered |
| `AuthReaders.WriteAll` | common/crypto/auth.go:280-360 | the output of such writes is a run of frames of non-empty chunks followed by the one end chunk, and the chunks join up to the bytes written |
| `AuthReaders.ReadAll` | common/crypto/auth.go:153-228 | a reader in step returns all bytes of the chunks and then EOF; one buffer to a chunk when every frame fits a regular buffer |
| `PacketTransfers.TransferPackets` | common/crypto/auth.go:153-228 | packet writes that pad nothing or skip nothing come back as exactly the packets that went out, one to a buffer, then EOF; all the non-empty ones when none was skipped |
| `PacketTransfers.WritePackets` | common/crypto/auth.go:318-360 | several packet writes and the closing empty write emit the frames of one long packet write and an end frame made in the state it leaves |
| `PacketTransfers.PacketsEnded` | common/crypto/auth.go:318-352 | packets sent in step, then the end chunk, are a well-formed stream whose frames all fit a regular buffer |
| `AuthStream.ReadAheadRefinesHardReads` | common/crypto/auth.go:153-228 | one `ReadMultiBuffer` delivers what some number of plain one-chunk reads deliver, whatever either reader has buffered, and its hidden state is theirs plus at most the next header's draws |
| `AuthStream.ReadBatchInSync` | common/crypto/auth.go:208-228 | on a well-formed stream: EOF exactly at the end chunk, else one to sixteen whole chunks in order, never an error, and still in lockstep with the writer; fewer than sixteen only when the end is reached or the next frame does not lie whole in the buffer |
| `AuthStream.ReadMoreInSync` | common/crypto/auth.go:216-227 | the soft reads deliver further chunks whole and in order and stop in step, a saved size included |
| `AuthStream.ReadInternalInSync` | common/crypto/auth.go:153-206 | one call delivers exactly the next chunk, or waits without losing its place, or ends at the end chunk; a hard call never waits |
| `AuthStream.ReadSizeInSync` | common/crypto/auth.go:119-133 | padding length and size decode to what the writer encoded, from a new header or the saved one, and leave the writer's hidden state |
| `AuthStream.ReadPayloadInSync` | common/crypto/auth.go:137-151 | the payload opens to the chunk, its padding is dropped, and the reader is in step behind the frame |
| `AuthStream.ReadsWholeStream` | common/crypto/auth.go:208-228 | some number of `ReadMultiBuffer` calls returns the whole plaintext, and the next one returns EOF |
| `AuthStream.HardReadsInSync` | common/crypto/auth.go:153-206 | n plain reads return the first n chunks |
| `AuthenticStreams.AnyWireIsSafe` | common/crypto/auth.go:119-228 | authenticity, for any bytes on the wire and any fragmentation: if the cipher opens only what the writer sealed and no nonce repeats, all that any number of reads hands out is the beginning of what was written |
| `AuthenticStreams.HandsOutOnlyWritten` | common/crypto/auth.go:119-228 | the same from any point of the stream: the j-th payload that opens is the j-th chunk |
| `AuthenticStreams.OpensOrFails` | common/crypto/auth.go:137-206 | for any payload bytes: data, and then what the cipher opened, exactly when the cipher opens them without their padding under the nonce and additional data drawn; an error otherwise |
| `AuthenticStreams.DataOpened` | common/crypto/auth.go:153-206 | a read hands out only what the cipher opened of the bytes next on the wire |
| `AuthenticStreams.HeaderSays` | common/crypto/chunk.go:47-72 | for any header bytes: the size each parser reads, and an error exactly when a sealed size does not open to two bytes |
| `AuthenticStreams.BatchFailsExactly` | common/crypto/auth.go:208-228 | a batch is an error, and hands out nothing, if and only if its first read is neither data nor the end or the soft read that stops it neither a wait nor the end |
| `AuthenticStreams.FailedOpenHandsOutNothing` | common/crypto/auth.go:211-214 | a first read that fails makes the batch an error |
| `AuthenticStreams.HandsOutRegular` | common/crypto/auth.go:181-205 | every buffer handed out of any wire fits a regular one, however long the chunk was |
| `AuthenticStreams.GuardedIsPossible` | common/crypto/auth.go:60-71 | a cipher, a seed and a stream that meet the assumptions of authenticity |
| `AuthReaders.AuthenticationReader.ReadMultiBuffer` | common/crypto/auth.go:208-228 | the loop computes the batched read of the specification, result and new state |
| `AuthReaders.AuthenticationReader.ReadInternal` | common/crypto/auth.go:153-206 | result and new state are those of the specification, for malformed and cut streams too, io.EOF of the transport included |
| `AuthReaders.AuthenticationReader.ReadSize` | common/crypto/auth.go:119-133 | result and new state are those of the specification, the saved size and the kind of error included |
| `AuthReaders.AuthenticationReader.ReadPayload` | common/crypto/auth.go:137-206 | result and new state are those of the specification, for small and large chunks, failed opens, negative bounds and an ended transport |
| `AuthWriters.AuthenticationWriter.Seal` | common/crypto/auth.go:251-278 | "size too large" exactly when the total exceeds a regular buffer, after the padding draw; otherwise a frame, with padding, size and payload drawn in that order |
| `AuthWriters.AuthenticationWriter.WriteStream` | common/crypto/auth.go:280-316 | a non-empty write emits frames of the maximal pieces of its content, all at once, and never fails on size; it fails only at the slice limit, with nothing changed |
| `AuthWriters.AuthenticationWriter.WritePacket` | common/crypto/auth.go:318-345 | each non-empty packet that fits is framed in the state of its turn, the others are dropped, and one too large still costs a padding draw |
| `AuthWriters.AuthenticationWriter.WriteMultiBuffer` | common/crypto/auth.go:348-360 | an empty write is exactly the end frame; other writes are as above |
| `AuthWriters.Pieces` | common/crypto/auth.go:288-313 | the pieces join up to the content, and those of a non-empty content are between one byte and the payload size, so never an end chunk |
| `AuthWriters.PacketLockstepExactly` | common/crypto/auth.go:255-261 | after a packet write the writer is where a reader of its frames will be if and only if it pads nothing or skipped nothing |
| `AuthWriters.OversizedPacketDesyncs` | common/crypto/auth.go:255-261 | with padding, every packet too large for its frame sends nothing and leaves the writer one draw ahead of its readers |
| `AuthWriters.DesyncIsReal` | common/crypto/auth.go:255-261 | a sound codec and a regular buffer for which this happens |
| `AuthWriters.PacketsAreFrames` | common/crypto/auth.go:318-345 | under that condition the output is a plain run of frames of the packets sent |
| `AuthWriters.AllSentExactly` | common/crypto/auth.go:327-338 | the packets that go out are the non-empty ones if and only if none is too large in its turn |
| `AuthWriters.PacketsAppend` | common/crypto/auth.go:327-338 | two packet writes in a row emit and leave what one write of both lists does |
| `Lockstep.PayloadNonce` | common/crypto/auth.go:60-84 | chunk i is sealed and opened under the draw that follows all draws of earlier chunks and this chunk's size, also when size parser and payload share one generator |
| `Lockstep.SizeNonce` | common/crypto/chunk.go:59-72 | the size of chunk i is sealed and opened under the first draw of that chunk |
| `Lockstep.FramesCount` | common/crypto/auth.go:251-275 | each generator has been drawn from a fixed number of times per frame, whatever the content |
| `Lockstep.StreamNoncesDistinct` | common/crypto/auth.go:30-45 | within the first 256^len draws no two payloads share a nonce, nor, on a shared generator, two sizes, nor a size and a payload |
| `Lockstep.SizeNoncesDistinct` | common/crypto/chunk.go:59-64 | within the first 256^len draws of the generator the sizes are sealed from, its own or a shared one, no two sizes share a nonce |
| `Nonce.NthValue` | common/crypto/auth.go:30-41 | the k-th nonce is the little-endian seed plus k modulo 256^len |
| `Nonce.NonceRepeatsExactly` | common/crypto/auth.go:30-41 | two draws give the same nonce if and only if they are a multiple of 256^len apart |
| `Nonce.IncrementAddsOne` | common/crypto/auth.go:33-38 | the carrying loop adds one and wraps only at 256^len |
| `Nonce.IncreasingNonce.Next` | common/crypto/auth.go:32-40 | the in-place loop is that increment, and the new counter is the nonce returned |
| `Codecs.OpenSeal` | common/crypto/auth.go:60-84 | opening from the state that sealed returns the plaintext and leaves the same state |
| `Codecs.DecodeEncode` | common/crypto/chunk.go:42-72 | each size decoder inverts its encoder from the same state and leaves the same state, 16-bit wrap-around included, up to its constant offset |
| `Codecs.MakeHeader` | common/crypto/auth.go:252-265 | the header has its fixed size, the padding drawn is within its maximum, and the draws keep the stream well configured |
| `Basics.Xor16Cancels` | proxy/vmess/encoding/auth.go:101-115 | masking a size twice with the same Shake word is the identity |
| `Basics.Xor16Bit` | proxy/vmess/encoding/auth.go:101-112 | a bit of a masked size is set exactly where mask and size differ |
| `Codecs.DecodeHeader` | proxy/shadowsocks2022/encoding.go:269-290 | a reader decodes the header the writer made with the same draws, the constant offset taken off |
| `WireFormat.SizeField` | common/crypto/chunk.go:42-49 | the size field in clear is the length of what follows, the high byte first; masked, with the bits of the word drawn after the padding flipped |
| `WireFormat.SealedSizeField` | common/crypto/chunk.go:59-64 | a sealed size field is the length less the size's own overhead, in two bytes, sealed under the nonce and additional data drawn |
| `WireFormat.PaddingField` | proxy/vmess/encoding/auth.go:113-119 | the padding of frame i is as long as the next word of the Shake stream says modulo 64 |
| `WireFormat.PayloadField` | common/crypto/auth.go:73-84 | the payload field is the chunk sealed under the nonce drawn and the additional data drawn after it |
| `WireFormat.InputsInOrder` | common/crypto/auth.go:60-84 | nonce first, then additional data if there is a generator for it, each from its own generator |
| `WireFormat.GeneratorGives` | common/crypto/auth.go:16-41 | a static generator gives its bytes and stays as it is, an increasing one gives its counter plus one, and no other generator moves |
| `WireFormat.PiecesFill` | common/crypto/auth.go:283-298 | every piece of a stream write but the last fills its frame, the largest padding reckoned in, to 2048 bytes |
| `Sources.ReadFullTakesPrefix` | common/buf/reader.go:61-86 | a full read takes the next n bytes of the stream; with fewer it is io.EOF if there is none and io.ErrUnexpectedEOF otherwise; however the transport cut it |
| `Sources.ReadFullExtended` | common/buf/reader.go:61-86 | a full read that what is there suffices for does not depend on what is to come |
| `BufferedReaders.BufferedReader.Read` | common/buf/reader.go:61-86 | the buffered bytes first, else one transport read, with the rest kept for later |
| `BufferedReaders.BufferedReader.ReadFull` | common/buf/reader.go:61-86 | repeated reads compute the full read of the specification, the kind of error included |
| `BufferedReaders.BufferedReader.ReadAtMost` | common/buf/reader.go:100-115 | at most the requested bytes come off the front and nothing is lost; the exact conditions of its panic and of its error; every call makes progress |
| `BufferedReaders.BufferedReader.FillFront` | common/buf/reader.go:101-107 | something is buffered afterwards unless the transport has ended, and the stream is unchanged |
| `BufferedReaders.BufferedReader.Split` | common/buf/reader.go:109-114 | the exact panic condition; otherwise at most the requested bytes are split off, and an emptied leftover is dropped |
| `ChunkTransfers.Transfer` | common/crypto/chunk.go:103-168 | any non-empty writes of buffers of at most 8192 bytes, closed by an empty write, come back byte for byte and then EOF over any wire cut into regular buffers |
| `ChunkTransfers.TransferCut` | common/crypto/chunk.go:103-168 | the same over a wire that ends after any number of bytes: exactly the payload before the end, the beginning of what was written, and an error exactly when the wire ends within a header |
| `ChunkTransfers.WriteAll` | common/crypto/chunk.go:148-168 | the wire is the chunks, each of 1 to 8192 bytes, followed by the one end marker |
| `ChunkTransfers.ReadAll` | common/crypto/chunk.go:110-134 | from a stream cut off anywhere: exactly the payload before the cut, of as many chunks as the limit allows (the largest 32-bit limit is none); then an error if the stream ends within a header, and EOF otherwise |
| `ChunkTransfers.EndSeen` | common/crypto/chunk.go:110-134 | where a reader stops by itself nothing more is to be seen, and it fails exactly within a header |
| `ChunkTransfers.StepToCome` | common/crypto/chunk.go:126-132 | the bytes one call takes are the next ones to be seen |
| `ChunkStreams.ChunkStreamWriter.WriteMultiBuffer` | common/crypto/chunk.go:148-168 | panics if and only if some buffer exceeds 8192 bytes; otherwise the wire grows by the coded slices of the content |
| `ChunkStreams.SlicesCover` | common/crypto/chunk.go:153-165 | slices lose nothing; those of a non-empty write have 1 to 8192 bytes; an empty write is exactly one empty slice |
| `ChunkStreams.SlicesMaximal` | common/crypto/chunk.go:148-156 | a slice with another behind it could not have taken the next buffer within 8192 bytes |
| `ChunkStreams.ChunkStreamReader.ReadMultiBuffer` | common/crypto/chunk.go:110-134 | on a well-formed stream or the beginning of one: at a boundary an error exactly within a header, EOF at the end marker, at the chunk limit and when nothing is left; otherwise the next bytes of the current chunk and never any beyond it, or EOF when there is none; the exact panic condition; progress on every call |
| `ChunkStreams.ChunkStreamReader.BeginChunk` | common/crypto/chunk.go:112-126 | at a boundary the chunk is counted, with 32-bit wrap-around, and its size read, or the call ends: with EOF when nothing is left, with an error when only part of a header is |
| `ChunkStreams.ChunkStreamReader.ReadChunk` | common/crypto/chunk.go:126-133 | leftover accounting: the bytes taken are those of the chunk that has begun; EOF when the transport has ended; the exact panic condition |
| `ChunkStreams.LimitMeans` | common/crypto/chunk.go:112-116 | when the counter ends the stream: after exactly the configured number of chunks |
| `ChunkStreams.ChunkStreamReader.ReadSize` | common/crypto/chunk.go:103-108 | io.EOF exactly when nothing is left, an error on part of a header; at a boundary a whole header gives the next chunk's size, zero for the end marker |
| `MultiBuffers.SplitBytesCuts` | common/buf/multi_buffer.go:100-123 | exactly the first min(n, length) bytes move, the rest stays in order, and no empty buffer is left in front |
| `MultiBuffers.SplitSizeCuts` | common/buf/multi_buffer.go:173-204 | the exact panic condition; otherwise at most `size` bytes come off and content and order are kept |
| `MultiBuffers.WholeBuffersMaximal` | common/buf/multi_buffer.go:185-203 | as many whole buffers are taken as fit, and one more would not |
| `MultiBuffers.MergeRoomAppends` | common/buf/multi_buffer.go:39-54 | merging bytes appends them to the content, whatever space the last buffer has |
| `MultiBuffers.MergeRoomFills` | common/buf/multi_buffer.go:39-54 | the last buffer is topped up first, and no new one is opened while it has room |
| `MultiBuffers.RefillIsFull` | common/buf/multi_buffer.go:46-51 | new buffers are full but for the last |
| `MultiBuffers.MergeBytesRegular` | common/buf/multi_buffer.go:39-54 | merging into regular buffers leaves regular buffers |
| `MultiBuffers.Refill` | common/buf/multi_buffer.go:46-51 | new buffers hold exactly the bytes, none is empty, none exceeds a regular buffer |
| `MultiBuffers.MergeMulti` | common/buf/multi_buffer.go:30-36 | contents are joined in order and the source is left empty |
| `MultiBuffers.CompactKeepsExactly` | common/buf/multi_buffer.go:137-158 | content is kept if and only if every merged buffer is non-empty and fits behind the content it joins; it never grows |
| `MultiBuffers.CompactLoses` | common/buf/multi_buffer.go:150-153 | two buffers whose second byte is lost, and two that make it panic |
| `MultiBuffers.CompactIsTight` | common/buf/multi_buffer.go:145-157 | no two neighbours of the result would still fit together |
| `MultiBuffers.RegularCompacts` | common/buf/multi_buffer.go:137-158 | regular non-empty buffers with content at offset zero always meet that condition |
| `MultiBuffers.EmptyIffNoBytes` | common/buf/multi_buffer.go:239-246 | a list is empty if and only if it has no bytes |
| `Buffers.SplitBytes` | common/buf/multi_buffer.go:100-123 | in place on windows: the leftover is a suffix of the list and holds what the specification leaves |
| `Buffers.SplitSize` | common/buf/multi_buffer.go:173-204 | in place on windows: both halves hold what the specification says, with the same panic condition |
| `Buffers.Copy` | common/buf/multi_buffer.go:66-76 | the longest prefix that fits is copied, the rest of the target and all buffers are unchanged |
| `Buffers.MergeBytes` | common/buf/multi_buffer.go:39-54 | in place on windows: the list is extended by new buffers and holds what the specification says |
| `Buffers.Compact` | common/buf/multi_buffer.go:137-158 | in place on windows, capacities and offsets included: the result shows what the specification says, with the same panic |
| `Buffers.MergeInto` | common/buf/multi_buffer.go:150-153 | one merge changes only the two buffers involved |
| `Buffers.Buffer.Write` | common/buf/buffer.go:195-199 | as many bytes as there is room for are appended to the content |
| `Buffers.Buffer.Read` | common/buf/buffer.go:239-250 | the front of the content moves out; a drained buffer starts at offset zero again |
| `Buffers.Absorb` | common/buf/buffer.go:253-257 | the first buffer takes what the space behind its content holds of the second |
| `BufferedWriters.Run` | common/buf/writer.go:90-194 | over every run of writes, flushes and mode changes that reports no error, followed by a flush, any downstream writer has received exactly the accepted bytes in order; a downstream writer that never fails gives no error |
| `BufferedWriters.BufferedWriter.Write` | common/buf/writer.go:90-124 | what was handed downstream, then held, is all accepted bytes in order, also after failures; while buffering, only full buffers are handed down; the buffer is not left full, is empty when buffering is off or a write failed; the count reported is what was moved in; the loop ends |
| `BufferedWriters.BufferedWriter.WriteOnce` | common/buf/writer.go:105-121 | one turn moves at least a byte and keeps the balance, a failed flush included |
| `BufferedWriters.AllTaken` | common/buf/writer.go:167-182 | without a failed write everything handed downstream was taken |
| `BufferedWriters.BufferedWriter.WriteMultiBuffer` | common/buf/writer.go:127-157 | the same from a list of buffers |
| `BufferedWriters.BufferedWriter.FlushInternal` | common/buf/writer.go:167-182 | the buffer is handed over whole, in one write, and is gone even when the write fails |
| `BufferedWriters.BufferedWriter.Flush` | common/buf/writer.go:160-165 | everything accepted has been handed downstream, and delivered unless some write failed |
| `BufferedWriters.BufferedWriter.SetBuffered` | common/buf/writer.go:185-194 | switching buffering off delivers everything accepted unless some write failed |
| `SignallingProofs.StopIsComplete` | app/webrtc/webrtc.go:1184-1322 | in every run, once the loop has stopped by itself the answer is applied, the last answered request listed exactly the distinct candidates the channel accepted, and either the acceptor's peer was connected when it built the final response or every candidate of that session is applied |
| `SignallingProofs.StopListsGatheredExactly` | app/webrtc/webrtc.go:1126-1134 | when the loop has stopped, the last request lists all distinct gathered candidates if and only if each one dropped on a full channel was accepted at another time; with none dropped, in order |
| `SignallingProofs.StopReachesAcceptor` | app/webrtc/webrtc.go:475-515 | if the response acted on answers the last request, the acceptor session is the client's own and has handed its peer every candidate the channel accepted |
| `SignallingOrder.StopReachesAcceptorExactly` | app/webrtc/webrtc.go:475-515 | when the loop has stopped, the peer of a session of this client has every candidate the channel accepted if and only if it has the last one listed |
| `SignallingOrder.AcceptorFollowsClient` | app/webrtc/webrtc.go:698-729 | in every state, under any loss, repetition and reordering: a session of this client has handed its peer the beginning of the client's own list, in the client's order |
| `SignallingLosses.StopMayLose` | app/webrtc/webrtc.go:1126-1134 | a run that stops with the seventeenth candidate in no request and the last request never handled |
| `SignallingProofs.ClientSafety` | app/webrtc/webrtc.go:1251-1283 | under any loss, repetition and reordering: nothing is applied before the answer, each candidate at most once, applied or else buffered are the distinct ones in first-seen order (up to a failed call), requests only extend one another |
| `SignallingGate.RequestListsExactly` | app/webrtc/webrtc.go:1185-1197 | in every run: with the workaround off a request lists the whole local list; with it on nothing before 500 ms have passed since the client first decided on a stop response with the answer applied, and the whole list from then on |
| `SignallingGate.OnlySendsSend` | app/webrtc/webrtc.go:1185-1216 | no other step of any party sends a request |
| `SignallingGate.DecisionExactly` | app/webrtc/webrtc.go:1285-1320 | after a response: a pause unless told to stop, with the answer and the holdback over; else another request at once if something was not listed, and otherwise a wait for more |
| `SignallingGate.SendsAreSpaced` | app/webrtc/webrtc.go:1217-1249 | between two requests the client has paused, or was told to stop with the answer applied |
| `SignallingGate.OpenExactly` | app/webrtc/webrtc.go:1830-1847 | the gate is open exactly when it is off or 500 ms have passed since such a decision |
| `SignallingProofs.AcceptorSafety` | app/webrtc/webrtc.go:475-583 | each session object accepts at most one offer, first, and the client's own if it is the client's session; applies each candidate once in order of arrival; its responses only extend one another |
| `SignallingSessions.OneOpenSession` | app/webrtc/webrtc.go:517-583 | in every state at most one session object to a key is open, and it is the registered one |
| `SignallingSessions.RequestIsServed` | app/webrtc/webrtc.go:475-515 | a request that the peer takes is handled to the end by the session of its key, all candidates in order, and a response to it queued; other sessions are untouched |
| `SignallingSessions.RefusalEndsHandling` | app/webrtc/webrtc.go:494-512 | a refused candidate counts as seen and ends the handling without a response; it closes the session exactly if the request created it |
| `SignallingProofs.RunKeepsInv` | app/webrtc/webrtc.go:1163-1322 | the protocol invariant holds in every state of every run |
| `SignallingProofs.StepKeepsInv` | app/webrtc/webrtc.go:1163-1322 | every step of client, acceptor, peers and relay keeps the invariant |
| `SignallingProofs.RemoteStep` | app/webrtc/webrtc.go:1251-1283 | acting on a response, a peer call that fails half-way included, keeps the order of calls on the client's peer |
| `SignallingProofs.LocalStep` | app/webrtc/webrtc.go:1679-1774 | draining, collecting and resuming keep the local list the distinct candidates read so far |
| `SignallingProofs.RequestStep` | app/webrtc/webrtc.go:1185-1197 | requests grow by extension, and one that lists something was sent with the gate open |
| `SignallingProofs.AcceptorKeeps` | app/webrtc/webrtc.go:475-583 | handling a request, peer callbacks and closing keep the acceptor's invariant and only extend its sessions' lists |
| `SignallingProofs.AddLocalKeeps` | app/webrtc/webrtc.go:654-666 | a gathered candidate extends a session's list and repeats nothing |
| `SignallingProofs.AddRemoteKeeps` | app/webrtc/webrtc.go:698-729 | a candidate of a request reaches the session's peer once, in order |
| `SignallingProofs.QueueKeeps` | app/webrtc/webrtc.go:796-806 | a queued response is a prefix of its session's list, and the whole list for ever if it stops polling without a connected peer |
| `SignallingProofs.FreshExtendsDedup` | app/webrtc/webrtc.go:1268-1283 | the new candidates of a response extend the distinct ones heard before, in first-seen order |
| `Basics.DedupInOrder` | app/webrtc/webrtc.go:1268-1283 | distinct candidates are kept in the order in which they first occur |
| `SignallingRuns.StopIsReachable` | app/webrtc/webrtc.go:1184-1322 | runs that stop exist: with the acceptor's candidate applied when gathering ended first, without it when its peer was connected first |
| `Signalling.SessionKeyInjective` | app/webrtc/webrtc.go:1795-1797 | reply tags of one size make the session key injective |
| `SignallingLoops.DrainLocalCandidates` | app/webrtc/webrtc.go:1679-1702 | whatever the selects receive, callbacks in between included, the list becomes the distinct non-empty candidates heard and the end of gathering is noted |
| `SignallingLoops.ClientState.ApplyResponse` | app/webrtc/webrtc.go:1251-1283 | the loop does all of the protocol's response step, or, when a peer call fails, exactly what precedes that call: calls, answer flag, seen set and buffered candidates |
| `SignallingLoops.ClientState.ApplyCandidates` | app/webrtc/webrtc.go:1268-1283 | exactly the candidates not seen before are applied, or buffered while there is no answer, in order, up to one the peer refuses |
| `SignallingLoops.SessionState.AddCandidates` | app/webrtc/webrtc.go:698-729 | every candidate up to the first refused one is handled, and each distinct one has reached the peer once |
| `Handoff.ClosedAtMostOnce` | app/webrtc/webrtc.go:1367-1389 | under every interleaving of setCurrent, clearCurrent and Close no notify channel is closed twice |
| `Handoff.WaiterCannotMiss` | app/webrtc/webrtc.go:1391-1408 | a waiter that saw no session holds the current channel and there is still none, or its channel is closed, or exactly one pending closer will close it |
| `Handoff.LookReturnsCurrent` | app/webrtc/webrtc.go:1391-1400 | a waiter that looks returns if and only if there is a session, and with the current one; else it holds the current channel |
| `Handoff.ReturnedWasCurrent` | app/webrtc/webrtc.go:1391-1408 | every session ever returned was current in an earlier state |
| `Handoff.CurrentWasSet` | app/webrtc/webrtc.go:1367-1376 | the current session was made by one Set, and no state before that Set had it |
| `Handoff.SetMakesNew` | app/webrtc/webrtc.go:1367-1376 | Set makes a session current that no earlier state had, nor any waiter |
| `Handoff.WaiterMoves` | app/webrtc/webrtc.go:1402-1406 | a waiter is moved by its own steps only: woken it looks again, and it gives up only on its context |
| `Handoff.WokenWaiterReturns` | app/webrtc/webrtc.go:1391-1408 | a waiter whose channel is closed while there is a session returns with it by its next two steps |
| `Handoff.CloseDropsSession` | app/webrtc/webrtc.go:1049-1057 | Close leaves no session and closes the current channel once |
| `Handoff.ClearRemovesExactly` | app/webrtc/webrtc.go:1378-1389 | a clear removes the current session if and only if the generations agree modulo 2^64, so never a newer one within 2^64 sessions |
| `Handoff.NextKeepsInv` | app/webrtc/webrtc.go:1049-1057 | every step, Close's close under the lock included, keeps the channel accounting |
| `LruRuns.Replay` | common/cache/lru.go:39-80 | over every run the linked list and indexes answer as the bounded recency list, reverse lookups too when keys and values are paired one to one across the run |
| `LruRuns.HoldsMostRecent` | common/cache/lru.go:61-80 | the entries are exactly the `capacity` most recently used distinct keys, most recent first |
| `LruRuns.GetFindsExactly` | common/cache/lru.go:39-48 | a lookup finds a key exactly when it is among the `capacity` most recently used, and then the value last put for it |
| `LruRuns.HoldsLastPut` | common/cache/lru.go:61-80 | every entry holds the value last put for its key |
| `LruRuns.GetKeyFindsExactly` | common/cache/lru.go:50-59 | the recency list answers a reverse lookup exactly when an entry holds the value, with a key of such an entry |
| `LruRuns.EntriesWerePut` | common/cache/lru.go:61-80 | every entry held was put with that key and value |
| `LruCache.Lru.Get` | common/cache/lru.go:39-48 | answers and reorders as the recency list |
| `LruCache.Lru.GetKeyFromValue` | common/cache/lru.go:50-59 | answers from the value index; with an exact index, as the recency list |
| `LruCache.Lru.Put` | common/cache/lru.go:61-80 | refines the recency list, eviction included; which values the value index knows afterwards; an exact value index stays exact if and only if the pair keeps keys and values one to one |
| `LruCache.Lru.PushFront` | common/cache/lru.go:69-71 | a new entry is in front and in both indexes, and when the value index is then exact |
| `LruCache.Lru.Evict` | common/cache/lru.go:73-76 | the last entry leaves the list and both indexes |
| `LruRuns.SharedValueLost` | common/cache/lru.go:72-77 | two keys put with one value: after the older is evicted the value is not found, although the newer key holds it |
| `LruRuns.ReplacedValueLost` | common/cache/lru.go:64-67 | a key put again with another value: the new value is not found |
| `ReplayFilters.RefusedWithinInterval` | common/antireplay/replayfilter.go:35-58 | a sum accepted at time t is refused by every check before t + interval, over every run of other checks and swaps |
| `ReplayFilters.FreshIsAccepted` | common/antireplay/replayfilter.go:46-57 | with a filter that holds only what was inserted, a sum that no check has carried since the swap before the last one is accepted |
| `ReplayFilters.FirstIsAccepted` | common/antireplay/replayfilter.go:35-58 | the first check of any sum is accepted |
| `ReplayFilters.ForgetsAfterTwoSwaps` | common/antireplay/replayfilter.go:46-57 | a run in which a sum is accepted, refused within the interval, and accepted again after two swaps |
| `ReplayFilters.SetsAreFilters` | common/antireplay/replayfilter.go:57 | a plain set meets both assumptions about filters |
| `ReplayFilters.GuardedRefuses` | common/antireplay/replayfilter.go:46-57 | one check, with or without a swap, keeps an accepted sum guarded and refuses it |
| `ReplayFilters.ReplayFilter.Check` | common/antireplay/replayfilter.go:35-58 | result and new state are those of the specification |
| `BytesPools.Pools.SoleHolder` | common/bytespool/pool.go:52-72 | no array belongs to two live owning buffers, two pools, or an owning buffer and a pool or caller, and every pooled array is at least its class size |
| `BytesPools.Pools.GetPool` | common/bytespool/pool.go:40-47 | the first class that covers the size, or none when none does |
| `BytesPools.Pools.Alloc` | common/bytespool/pool.go:52-58 | at least the requested size and 2048 bytes, held by the caller alone |
| `BytesPools.Pools.Free` | common/bytespool/pool.go:63-72 | the array goes to exactly the largest class it covers, where it was not before |
| `BytesPools.Pools.LargestCovered` | common/bytespool/pool.go:66-71 | the downward search finds exactly the largest class covered |
| `BytesPools.Pools.New` | common/buf/buffer.go:36-40 | at least 2048 bytes that nothing else holds |
| `BytesPools.Pools.NewWithSize` | common/buf/buffer.go:43-48 | at least n bytes that nothing else holds |
| `BytesPools.Pools.FromBytes` | common/buf/buffer.go:51-57 | a buffer over any array, held elsewhere or not; who holds the array does not change, and releasing the buffer gives nothing back |
| `BytesPools.Pools.Release` | common/buf/buffer.go:68-82 | an array goes back once; repeated releases and unmanaged buffers change nothing |
| `DnsCache.CleanupInvisible` | app/dns/nameserver_tcp.go:108-138 | cleanups anywhere among updates and lookups change no answer of a lookup that asks for some family, whenever lookups read the clock no earlier than the cleanups before them did, as the locking ensures |
| `DnsCache.CleanupSeenExactly` | app/dns/nameserver_tcp.go:108-138 | a lookup answers differently after a cleanup if and only if it asks for no family and the cleanup left the domain without a record |
| `DnsCache.UpdateAlike` | app/dns/nameserver_tcp.go:140-179 | the newer-wins rule keeps two caches indistinguishable although it also compares with expired records |
| `DnsCache.NoExpiredAddress` | app/dns/dnscommon.go:37-45 | every address returned comes from an unexpired successful record of an enabled family of that domain |
| `DnsCache.LookupExactly` | app/dns/nameserver_tcp.go:269-305 | what a lookup answers from the records alone: the usable IPv4 and then IPv6 addresses if there is any, and the exact condition of each error |
| `DnsCache.CleanedExactly` | app/dns/nameserver_tcp.go:117-131 | a sweep keeps exactly the unexpired records, unchanged, and the domains that have one |
| `DnsCache.LatestIsKept` | app/dns/nameserver_tcp.go:147-170 | after any updates the record kept is the first of those that expire last |
| `DnsCache.NoFamilySeesCleanup` | app/dns/nameserver_tcp.go:269-305 | an input: a lookup without a family tells an expired record from a cleaned one |
| `DnsCache.TCPNameServer.Cleanup` | app/dns/nameserver_tcp.go:108-138 | the sweep over the map removes exactly the expired records and the domains left without any |
| `DnsCache.TCPNameServer.UpdateIP` | app/dns/nameserver_tcp.go:140-179 | the cache after it is that of the newer-wins rule, with AAAA answers filtered |
| `DnsCache.TCPNameServer.FindIPs` | app/dns/nameserver_tcp.go:269-305 | the answer of the specification, the order of its errors included |
| `DnsCache.OnlyIPv6Exactly` | app/dns/nameserver_tcp.go:154-160 | exactly the 16-byte addresses are kept |
| `DnsCache.OnlyIPv6InOrder` | app/dns/nameserver_tcp.go:154-160 | they are kept in order |
| `CachedReaders.CachedReader.Cache` | app/dispatcher/default.go:36-51 | nothing exactly when the pipe is empty; otherwise delivered, cached and piped bytes still make up the stream, and the payload shown is the longest prefix of the undelivered cache that fits |
| `CachedReaders.CachedReader.CacheFetch` | app/dispatcher/default.go:37-40 | the part before the lock takes everything the pipe holds |
| `CachedReaders.CachedReader.CacheMerge` | app/dispatcher/default.go:41-50 | the part under the lock appends it to the cache and shows the longest prefix that fits |
| `CachedReaders.CachedReader.ReadMultiBuffer` | app/dispatcher/default.go:53-73 | while no `Cache` call is under way the cache is delivered before the pipe, and nothing is lost or reordered |
| `CachedReaders.CachedReader.ReadInternal` | app/dispatcher/default.go:53-64 | the region under the reader's lock takes the whole cache, or notes that there is none |
| `CachedReaders.CachedReader.ReadPipe` | app/dispatcher/default.go:66-73 | the pipe read takes what the pipe holds by then, and keeps the order if it overtakes nothing |
| `CachedReaders.CachedReader.PipeRead` | transport/pipe/impl.go:70-81 | a read takes everything the pipe holds |
| `CachedReaders.OverlappingReadExactly` | app/dispatcher/default.go:36-73 | both parts of `Cache` and the look at the cache keep the stream in order, and the pipe read if and only if the pipe is empty or nothing is cached and nothing in flight |
| `CachedReaders.ScheduleExact` | app/dispatcher/default.go:36-73 | over every schedule of writes, `Cache` parts and read parts: delivered is the beginning of the stream if and only if no pipe read overtook anything |
| `CachedReaders.OverlappingReadsReorder` | app/dispatcher/default.go:36-73 | two schedules that deliver a later byte first: a read between the parts of `Cache`, and a `Cache` call between those of a read |
| `DnsRules.AttributionBySizeExactly` | app/dns/dns.go:131-150 | the n domains of a server are attributed by the configured size ranges if and only if every rule of size zero begins behind them |
| `DnsRules.RangeCovers` | app/dns/dns.go:136-150 | a domain belongs to the one rule whose range covers it; beyond the last rule each domain is a rule of its own |
| `DnsRules.EstablishServer` | app/dns/dns.go:127-160 | fails if and only if a matcher cannot be made; otherwise each domain is stored with its rule, and the rule texts are the configured ones, then the matchers' own |
| `DnsRules.EstablishDomainRules` | app/dns/dns.go:108-168 | the table behind matcher indices 1, 2, ... lists the domains of all servers in order |
| `DnsRules.StoredIndexesExact` | app/dns/dns.go:151-160 | with fewer than 65536 clients and rules no index is truncated or out of bounds, and it leads to the domain's own client and its rule's text, configured or generated |
| `DnsRules.SortClients` | app/dns/dns.go:319-366 | first the distinct eligible matched clients in match order, then the eligible fallbacks in configuration order; and the rule texts of the matches |
| `DnsRules.EstablishAndSort` | app/dns/dns.go:108-168 | rules established, then a lookup through the table: for whatever patterns match no index is out of bounds, the matched clients are those the patterns were configured for, and each match is reported with its own rule |
| `DnsRules.Locate` | app/dns/dns.go:126-155 | every matcher index belongs to exactly one place: a domain of a server |
| `DnsRules.OrderIsExact` | app/dns/dns.go:319-366 | each client at most once, and exactly the eligible ones that matched or may fall back |
| `DnsRules.MatchedInOrder` | app/dns/dns.go:326-342 | matched clients come in the order in which the matches first lead to them |
| `LeastLoad.SelectLeastLoad` | app/router/strategy_leastload.go:99-137 | the result is a prefix; before padding its length is the number of nodes cheaper than the largest baseline tried; the scan stops at the first baseline that reaches the expected count; a positive setting gives at least that many or all |
| `LeastLoad.StrictTotalOrder` | app/router/strategy_leastload.go:197-213 | the comparator is a strict order, total exactly up to the fields it compares, so total on nodes of different tags |
| `LeastLoad.SortedMeans` | app/router/strategy_leastload.go:200-212 | on sorted nodes costs do not fall; at equal cost averages do not, then failures do not, then checks do not rise, then tags are in order |
| `LeastLoad.TagLessExactly` | app/router/strategy_leastload.go:212 | tags are compared by the first differing character, a beginning before the whole |
| `LeastLoad.SortedIsUnique` | app/router/strategy_leastload.go:196-214 | sorting by it has one result in all compared fields, whatever algorithm does it, and one result altogether for nodes of distinct tags |
| `LeastLoad.ScanReaches` | app/router/strategy_leastload.go:119-126 | after each baseline the count is the number of nodes cheaper than the largest baseline so far, sorted baselines or not |
| `LeastLoad.CountBelowIs` | app/router/strategy_leastload.go:121-126 | the count is the number of positions with a cost below the baseline |
| `LeastLoad.LargestIs` | app/router/strategy_leastload.go:119-132 | the largest baseline tried is one of them and none of them exceeds it |

## Left out

- Stream readers and writers hold buffers as values; moving windows in place is proved separately in `Buffers`, so reuse of one array for ciphertext and plaintext is not captured.
- Lengths are unbounded: the int32 sums of buffer lengths do not wrap. The 16-bit sizes, the 32-bit chunk counter and the 64-bit generation do.
- Other generators and size parsers (the VMess chunk nonce with its 16-bit counter, no-op and FNV authenticators); cipher internals; the Shake function, of which only the word stream is used.
- `BufferedReader` with another splitter, its `ReadMultiBuffer` and `WriteTo`; `BufferedWriter.ReadFrom` and `Close`; readv; `MultiBufferContainer`; `Interrupt` of pipe and cached reader: easy beside what is proved.
- Peers, SDP and ICE, port blossom, the relay's transport, real timers and poll delays: peers are calls that succeed or fail, time is a clock that does not go back.
- The acceptor's response queue: a response dropped because its session is gone counts as lost by the relay.
- Creating a session and accepting its offer is one step, since the poll loop handles one request at a time and no response is built in between.
- Locks: each locked region is one step or one method call. Sniffing makes one `Cache` call at a time, so two at once are not modelled.
- Linked-list elements of the LRU are identities with a store, not heap objects; `sync.Map` is a map.
- Cuckoo filter internals and `strmatcher`; `sort.Slice`; the floating-point weights behind node costs.
- A nil record passed to `updateIP`; publishing to subscribers; the UDP name server, whose cleanup also drops pending requests.
- Generated code, configuration, routing, proxies, transports and services.
