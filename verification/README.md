# Verified models of the Outline SDK's protocol core

This project models, in Dafny, the parts of the Outline SDK where bytes are framed, split, cached or
raced, and proves what they promise. `dafny verify dfyconfig.toml` covers all of it.

| file | what it models |
|---|---|
| `Bytes.dfy`, `Streams.dfy` | bytes; an io.Reader with any chunking, stalls and failures, and an io.Writer with any short writes, also where it reads a source itself and loses some of it |
| `Counting.dfy` | totals over the goroutines of a protocol |
| `Nonce.dfy` | the little-endian nonce counter |
| `ShadowsocksFormat.dfy`, `ShadowsocksBuffer.dfy` | the Shadowsocks stream as a value, and the writer's one buffer as a value |
| `ShadowsocksWriter.dfy`, `ShadowsocksReader.dfy`, `ShadowsocksSession.dfy` | the in-place sealing writer with its concurrent Flush, the chunk reader, and both ends together |
| `TlsRecord.dfy` | TLS record headers, what fragmenting means, and why it keeps the handshake |
| `RecordLenWriter.dfy`, `HelloWriter.dfy`, `TlsFragmenters.dfy` | the streaming fragmenter, the buffering one, and their agreement |
| `InterceptRelay.dfy` | the DNS-intercepting packet relay: a reference-counted parent and any number of goroutines |
| `HappyEyeballs.dfy`, `ParallelResolve.dfy` | the Happy Eyeballs dial loop with its dial goroutines and delays, and the parallel resolver |
| `IdleTimeout.dfy`, `StaggeredRace.dfy` | the idle timer of an association, and the staggered race |
| `SplitWriter.dfy` | the stream splitter and its iterators |
| `DnsTunnel.dfy` | capacity, names and packet framing of the DNS tunnel |
| `LruCache.dfy` | the caching resolver |
| `Socks5.dfy` | SOCKS5 addresses, request, reply and datagrams |

Writers and readers are classes with the source's fields; each method states the new state in terms of
the old one, and a ghost record of what was accepted ties the calls together. The concurrent protocols
are step relations: one critical section, select case or call into another component is one step, a
run is any finite sequence of steps, and the theorems are about the last state of every run.

An AEAD is a pair of functions with `open(s, n, seal(s, n, m)) = m` and a fixed overhead, keyed by the
salt. An iterator, a callback, base32 and randomness are function parameters. Time is a natural number
that never decreases.

## What the proofs found

- `transport/tlsfrag/record_len_writer.go:104` passes the whole size of the first record as the limit of
  a resumed write. If the base writer stopped strictly inside the first five-byte header, the resumed
  write can run up to four bytes past the first record, and the stream is then always wrong.
  `RecordLenFragWriter.Write` states the exact condition.
- `transport/tlsfrag/record_len_writer.go:176-183`, against the comment at line 243, turns an error that
  comes before the fifth byte into the end of the stream, and drops one that comes with it, as io.ReadFull
  does. `RecordLenFragWriter.ReadFrom` states that exactly these go unreported; `FailureWithTheFifthByte`
  and `FailureWithinTheHeader` are such inputs.
- `transport/tlsfrag/writer.go:122-140` and `transport/tlsfrag/buffer.go:115-123`, against the comment at
  line 115 of writer.go: if the source fails before the first record is settled, the fragmenter gives up
  splitting and the error is overwritten by what follows; an error that comes with the byte that settles
  the record is dropped, too. `HelloFragWriter.ReadFrom` states when exactly, `FailureWithinTheRecord`
  shows both, and `TlsRecord.UnsplitExactlyWhen` says for which inputs giving up is harmless.
- `transport/split/writer.go:97-102`: a base writer whose own write fails while it reads the source may
  count bytes that are not out, and those bytes are gone. The writer is then out of step if and only if a
  split point lies behind what is out (`SplitWriter.ReadFrom`), and a later call may cross one
  (`SplitWriter.SlippedCrosses`, `SplitWriter.SlippedExample`).
- `transport/tlsfrag/tls.go:69-71` also accepts version 0x0304, which the layout comment does not list; the
  model follows the code.
- `transport/happyeyeballs.go:241-244`: a connection that a dialer returns together with an error is not
  closed once the loop takes the result (`HappyEyeballs.ConnectionWithErrorIsLost`); every other one is
  returned or closed.
- `network/dnsintercept/packet_relay.go:164-167,181-185`: a DNS query that fails while nothing else is active
  brings the count back to zero and so closes the parent (`InterceptRelay.CountsAreRight`).
- `transport/socks5/socks5.go:157,175` reads single bytes with Read instead of ReadFull. A reader that
  returns no byte and no error once makes it take the type for the length of a name
  (`Socks5.StallsMisread`).
- `transport/socks5/packet_listener.go:72-74` rejects datagrams of fewer than 10 bytes, which its own
  WriteTo produces for names and payloads of fewer than 3 bytes together; datagrams over 16384 bytes
  arrive cut (`Socks5.DatagramRoundTrip`). WriteTo's count includes the header.
- `transport/socks5/packet_listener.go:104`: joining host and port and splitting them again refuses a name
  with a bracket, and takes a pair of brackets off one without a colon (`Socks5.NamesAreKept`).
- `x/smart/cache.go:105`: with a capacity of zero the first cacheable answer panics (`Resolver.AddToCache`).
- `x/smart/cache.go:111-126`: the lock is dropped between a miss and adding the answer, so two queries may
  add a key twice: exactly if it is then among the entries that stay (`LruCache.PushIsUnique`). A hit is
  still the last answer, but the copies take room: a key is kept for as many other keys as there are
  different ones in the cache, and no longer in general (`LruCache.DroppedWasOld`, `LruCache.CopiesForget`).
- `x/dnstt/dnstt.go:101-105`: the capacity is exact although it rounds down twice.

## Model

| member | source | states |
|---|---|---|
| `ShadowsocksSession.SentThenBufferedIsAccepted` | transport/shadowsocks/stream.go:116-258 | Between any calls, while no write has failed and the nonces last, what a receiver decodes from the bytes sent, followed by what is still buffered, is exactly what was accepted, in order, and the decoding ends cleanly |
| `ShadowsocksSession.SaltIsTheGenerators` | transport/shadowsocks/stream.go:79-97 | Once a chunk was sent and no write has failed, the stream begins with a salt that the generator gave, and is the frames under that salt, one write a chunk |
| `ShadowsocksSession.ReaderRecoversWriter` | transport/shadowsocks/stream.go:289-299 | A fresh reader on the bytes a writer has sent will hand out exactly what was accepted, short of what is still buffered |
| `ShadowsocksSession.ReadAll` | transport/shadowsocks/stream.go:376-423 | Any sequence of reads of any sizes hands out the next bytes of what is coming, in order; an error comes only when all of it was handed out, and is the one the stream ends with |
| `ShadowsocksSession.RunCalls` | transport/shadowsocks/stream.go:110-224 | Any sequence of LazyWrite, Write, ReadFrom and Flush keeps the writer's invariant; while every call succeeds, what was accepted is everything offered, in order |
| `ShadowsocksSession.RunCall` | transport/shadowsocks/stream.go:110-224 | One call accepts a prefix of what it is offered, all of it if it succeeds; after success Write, ReadFrom and Flush leave nothing buffered |
| `ShadowsocksSession.NoncesLast` | transport/shadowsocks/stream.go:90-95 | With 12-byte nonces, 2^95 accepted bytes never use up the nonces |
| `ShadowsocksSession.ChunksAreNotEmpty` | transport/shadowsocks/stream.go:236-239 | A writer seals no empty chunk, so it seals at most as many chunks as bytes |
| `ShadowsocksFormat.FramesRoundTrip` | transport/shadowsocks/stream.go:236-374 | While the nonces last, decoding what was framed gives the chunks in order and then a clean end |
| `ShadowsocksFormat.DecodeBody` | transport/shadowsocks/stream.go:339-374 | From any chunk number on, the reader's counter stays in step with the writer's and every sealed chunk opens to its plaintext |
| `ShadowsocksFormat.DecodeAfter` | transport/shadowsocks/stream.go:339-374 | Behind any sealed chunks, whatever follows is read with the counter that comes next |
| `ShadowsocksFormat.CutBody` | transport/shadowsocks/stream.go:326-374 | A stream that is cut anywhere past the salt gives exactly the chunks that are there as a whole, and then a clean end if it was cut between two chunks, a truncation otherwise |
| `ShadowsocksFormat.ForgedLength` | transport/shadowsocks/stream.go:326-351 | A length block that does not open ends the stream as forged right behind the chunks before it |
| `ShadowsocksFormat.ForgedPayload` | transport/shadowsocks/stream.go:326-374 | And so does a payload block, whatever follows |
| `ShadowsocksFormat.AnyLengthIsRead` | transport/shadowsocks/stream.go:352-363 | A length block counts with its low 14 bits, most significant byte first |
| `ShadowsocksFormat.FrameBytes` | transport/shadowsocks/stream.go:236-255 | In bytes: salt, then the length in two bytes sealed with nonce 0, 0, ... and the text sealed with nonce 1, 0, ...; the next chunk takes 2 and 3, and no salt |
| `ShadowsocksFormat.SaltLeadsOnce` | transport/shadowsocks/stream.go:242-249 | The salt is the first bytes sent and never appears again if and only if at least one chunk was sent and two nonces a chunk fit into one period of the counter |
| `ShadowsocksFormat.SaltReturns` | transport/shadowsocks/stream.go:244-249 | Beyond that number of chunks the salt is sent again |
| `ShadowsocksFormat.Log.AsChunks` | transport/shadowsocks/stream.go:236-258 | The bytes of a writer's history are the frames of its chunks, one write a chunk, and the plaintext is their concatenation |
| `ShadowsocksBuffer.ArrivalIsOutOfReach` | transport/shadowsocks/stream.go:194-197 | Bytes that arrive behind the pending bytes and their tag change nothing that a flush looks at |
| `ShadowsocksBuffer.SealedBufferContents` | transport/shadowsocks/stream.go:251-255 | Sealing both blocks in place leaves salt, sealed size and sealed payload next to each other and touches nothing behind them |
| `ShadowsocksBuffer.SealingSteps` | transport/shadowsocks/stream.go:164-175 | The size block and the payload block never overlap: sealing one leaves the other's plaintext as it was |
| `ShadowsocksBuffer.SentBytesAreAFrame` | transport/shadowsocks/stream.go:240-255 | What a flush sends is the next frame, with the salt exactly when the counter reads zero |
| `ShadowsocksBuffer.EnqueuedKeepsLayout` | transport/shadowsocks/stream.go:228-233 | Queued plaintext lands behind what is pending and changes nothing else |
| `ShadowsocksWriter.Writer.Init` | transport/shadowsocks/stream.go:79-100 | The first call asks the salt generator once and takes exactly its answer as the salt, lays out the buffer and starts the counter at zero; a failing generator leaves the writer as it was, and the next call asks again; once there is a salt, nothing changes |
| `ShadowsocksWriter.Writer.EncryptBlock` | transport/shadowsocks/stream.go:104-108 | Seals in place with the current nonce and moves on to the next, so seal number i uses nonce i |
| `ShadowsocksWriter.Writer.SealBlocks` | transport/shadowsocks/stream.go:251-254 | Both blocks of chunk k are sealed with nonces 2k and 2k+1 |
| `ShadowsocksWriter.Writer.SendChunk` | transport/shadowsocks/stream.go:236-258 | One write carries exactly the next frame, and there is no other; nothing behind the pending bytes and their tag changes |
| `ShadowsocksWriter.Writer.SealAndSend` | transport/shadowsocks/stream.go:236-258 | The pending bytes become one more chunk, or nothing happens if there are none |
| `ShadowsocksWriter.Writer.Flush` | transport/shadowsocks/stream.go:146-153 | At any moment, from any thread: sends what is pending if a flush is due, and leaves the region that a concurrent read fills alone |
| `ShadowsocksWriter.Writer.Enqueue` | transport/shadowsocks/stream.go:228-233 | Takes as much as fits behind what is pending |
| `ShadowsocksWriter.Writer.LazyWrite` | transport/shadowsocks/stream.go:118-143 | Queues everything; a chunk is sent only when the buffer is full, so every chunk it sends is full, and reports how much was queued if and only if a write fails |
| `ShadowsocksWriter.Writer.ReadWhileFlushable` | transport/shadowsocks/stream.go:188-201 | A read into the tail of the buffer with another thread free to flush at every byte: what arrived is there, whatever was flushed |
| `ShadowsocksWriter.Writer.EnqueueFromBuffer` | transport/shadowsocks/stream.go:203 | The ignored result of enqueue loses nothing: what was read always fits, flushed or not |
| `ShadowsocksWriter.Writer.ReadAhead` | transport/shadowsocks/stream.go:186-209 | The one thread-safe read accepts exactly what was read and sends it; of the failures, exactly those that no concurrent Flush was told of are reported |
| `ShadowsocksWriter.Writer.TransferAll` | transport/shadowsocks/stream.go:211-218 | The main loop accepts exactly what it reads, in order, until the source ends or something fails; of a source that gives all that is asked for it makes full chunks, but for the last |
| `ShadowsocksWriter.Writer.ReadFrom` | transport/shadowsocks/stream.go:178-224 | Accepts exactly the bytes taken off the source, buffers nothing, succeeds only at the end of the source, and reports a failed write exactly if there was one that no concurrent Flush was told of, a failed source only if it failed |
| `ShadowsocksWriter.Writer.Write` | transport/shadowsocks/stream.go:110-114 | Accepts a prefix of p, all of it on success, buffers nothing, and with nothing buffered before takes as few chunks as possible; reports a failed write exactly if there was one that no concurrent Flush was told of |
| `Nonce.Increment` | transport/shadowsocks/stream.go:426-433 | In place, the counter becomes its successor |
| `Nonce.SuccessorValue` | transport/shadowsocks/stream.go:426-433 | The successor stands for one more, modulo 256^n |
| `Nonce.ValueOfNth` | transport/shadowsocks/stream.go:104-108 | The nonce of seal i stands for i modulo the period |
| `Nonce.FirstOf12` | transport/shadowsocks/stream.go:426-433 | In bytes: nonces 0 to 3 of 12 bytes differ in their first byte, which counts, and only the first of all is zero |
| `Nonce.Distinct` | transport/shadowsocks/stream.go:426-433 | Two seals share a nonce if and only if their numbers agree modulo 256^n |
| `Nonce.IsZero` | transport/shadowsocks/stream.go:155-162 | True exactly for the counter that stands for zero |
| `ShadowsocksReader.ChunkReader.Init` | transport/shadowsocks/stream.go:302-320 | The salt is the first bytes of the stream; a stream that ends earlier is an end or a truncation, and only a failure of the connection is reported as one |
| `ShadowsocksReader.ChunkReader.ReadMessage` | transport/shadowsocks/stream.go:326-337 | Opens exactly the next block with the current nonce; every error says what was wrong with the bytes, or that the connection has failed |
| `ShadowsocksReader.ChunkReader.ReadBlocks` | transport/shadowsocks/stream.go:346-373 | Yields the next chunk of the stream or the error it decodes to; the payload buffer is leased exactly while a chunk is out, and is always large enough |
| `ShadowsocksReader.ChunkReader.ReadChunk` | transport/shadowsocks/stream.go:341-374 | The same from any point of the stream, salt included |
| `ShadowsocksReader.ReadConverter.EnsureLeftover` | transport/shadowsocks/stream.go:412-423 | Refilling changes nothing in what is still to come, and fails only if nothing is |
| `ShadowsocksReader.ReadConverter.Read` | transport/shadowsocks/stream.go:383-390 | Reads of any size hand out the next bytes of what is coming, in order; an error comes only after everything |
| `ShadowsocksReader.ReadConverter.WriteTo` | transport/shadowsocks/stream.go:392-407 | Everything that is coming goes to the sink, in order, until the stream ends, the connection fails or the sink does; a failure of the sink is reported exactly if there was one |
| `TlsRecord.SetPayloadLen` | transport/tlsfrag/tls.go:83-89 | Rewrites only the length bytes, and only for a length in range |
| `TlsRecord.ValidHeaderBytes` | transport/tlsfrag/tls.go:65-77 | In bytes: a header is accepted if and only if its type is 22, its version 3.1 to 3.4, and its length 1 to 16384, most significant byte first |
| `TlsRecord.WithLenParses` | transport/tlsfrag/tls.go:65-89 | A rewritten header keeps type and version, reads back its length and stays valid |
| `TlsRecord.FragmentingPreservesTheHandshake` | transport/tlsfrag/writer.go:163-180 | Parsed as TLS records (section 5.1 of RFC 8446), the fragments are two non-empty handshake records of at most 2^14 bytes with the original type, version and joint payload, and what follows parses as before |
| `TlsRecord.EmitPreservesTheHandshake` | transport/tlsfrag/record_len_writer.go:78-141 | The same of everything the streaming fragmenter sends for an input whose first record it splits |
| `TlsRecord.HelloEmitPreservesTheHandshake` | transport/tlsfrag/writer.go:80-184 | The same of the buffering fragmenter |
| `TlsRecord.EmittedBytes` | transport/tlsfrag/record_len_writer.go:78-141 | In bytes: of a record with 22, 3 and 1 to 4 in front, at most 16384 bytes of payload and a split strictly inside, two with the same three bytes and the lengths s and n - s are sent, and what follows as it is; any other input is sent unchanged |
| `TlsRecord.HelloEmittedBytes` | transport/tlsfrag/writer.go:151-184 | The same in bytes of the buffering fragmenter, whose callback sees the payload |
| `TlsRecord.StreamingRefinesBuffering` | transport/tlsfrag/record_len_writer.go:78-141 | For a callback of the length alone, both fragmenters owe the same bytes once the first record is complete or rejected, and before that the buffering one's are a prefix |
| `TlsRecord.EmitPastSplit` | transport/tlsfrag/record_len_writer.go:125-140 | Past the first record the output is the input as it comes |
| `TlsRecord.SlippedHeaderShows` | transport/tlsfrag/record_len_writer.go:104 | A second header that slipped by up to four bytes always gives a wrong stream |
| `TlsRecord.SlippedExample` | transport/tlsfrag/record_len_writer.go:104 | A concrete case: a two-byte record split after one byte, of which the resumed write carries both, is not what is owed |
| `TlsRecord.UnsplitExactlyWhen` | transport/tlsfrag/writer.go:151-158 | The buffering fragmenter owes its input unchanged exactly when there is no acceptable header or the callback leaves the complete record whole |
| `TlsFragmenters.WritersAgree` | transport/tlsfrag/writer.go:80-184 | Two writers, one streaming and one buffering, that accepted the same input in any chunks and owe nothing: the buffering one waits exactly while the first record is unsettled, and has then sent nothing; they have sent the same if and only if the record is settled or its header is not there yet |
| `RecordLenWriter.WriteN` | transport/tlsfrag/record_len_writer.go:278-286 | At most `limit` bytes of p, in one write, or none |
| `RecordLenWriter.WriteBothN` | transport/tlsfrag/record_len_writer.go:296-332 | At most `limit` bytes of p1 and p2, in order, in exactly one write if there is anything to write, and how many of each |
| `RecordLenWriter.RecordLenFragWriter.OutIsAFunctionOfTheInput` | transport/tlsfrag/record_len_writer.go:78-141 | After any mix of Write and ReadFrom, what is out and the header bytes still owed are a fixed function of the concatenated input |
| `RecordLenWriter.RecordLenFragWriter.UpdateSplitRecordLens` | transport/tlsfrag/record_len_writer.go:263-275 | Accepts a split strictly inside the payload and computes both record sizes |
| `RecordLenWriter.RecordLenFragWriter.ParseHeader` | transport/tlsfrag/record_len_writer.go:89-97 | At the fifth byte: split exactly if the header is valid and the callback's place is inside |
| `RecordLenWriter.RecordLenFragWriter.WriteFirst` | transport/tlsfrag/record_len_writer.go:100-114 | How far a write of the first record can go, short writes included |
| `RecordLenWriter.RecordLenFragWriter.WriteBody` | transport/tlsfrag/record_len_writer.go:100-140 | A write once the header is known, and when the stream is right after it |
| `RecordLenWriter.RecordLenFragWriter.Write` | transport/tlsfrag/record_len_writer.go:78-141 | Accepts a prefix of p, all of it on success, and reports an error exactly if a base write failed; after a success the base writer has exactly what is owed if and only if the call did not resume strictly inside the first header with more than the first record still needs; a record that comes at once goes out in two writes, one for each fragment, if the second fits 16384 bytes, and later calls are one write each |
| `RecordLenWriter.RecordLenFragWriter.FirstRecordRead` | transport/tlsfrag/record_len_writer.go:171-219 | Hands out the first record's header and payload, never beyond it nor more than was asked for, in reads of any size |
| `RecordLenWriter.RecordLenFragWriter.RemainingRead` | transport/tlsfrag/record_len_writer.go:221-235 | Hands out what is left of the second header and then the input |
| `RecordLenWriter.RecordLenFragWriter.ReadFrom` | transport/tlsfrag/record_len_writer.go:166-257 | Takes what it accepts off the source, in order; of the source's failures exactly the one that strikes before or with the fifth byte goes unreported; what the base writer has put out is a prefix of what is owed, and with what it lost it is what this writer takes to be out, so this writer is still right if and only if nothing was lost; at the end of the source exactly what is owed is out |
| `RecordLenWriter.RecordLenFragWriter.ReadSplitting` | transport/tlsfrag/record_len_writer.go:247-255 | The same through the two readers, lost bytes included, where the count is always of what was read from the source |
| `RecordLenWriter.RecordLenFragWriter.ReadPassing` | transport/tlsfrag/record_len_writer.go:256 | Once nothing is owed the base writer reads the source itself, and may count any of what it lost |
| `RecordLenWriter.RecordLenFragWriter.LostShows` | transport/tlsfrag/record_len_writer.go:246-257 | If bytes were lost on their way out, what is out is a prefix of what is owed, and the writer's state fits what is out exactly if nothing was lost |
| `RecordLenWriter.FailureWithTheFifthByte` | transport/tlsfrag/record_len_writer.go:174-183 | For any header and callback, a failure that comes with the fifth byte is met, and the call ends as if the source had ended well |
| `RecordLenWriter.FailureWithinTheHeader` | transport/tlsfrag/record_len_writer.go:178-180 | And so does one that comes earlier |
| `HelloWriter.HelloBuffer.ReadHeader` | transport/tlsfrag/buffer.go:83-106 | Collects five bytes, then rejects the header or makes room for the payload and five spare bytes; a failure that comes with the fifth byte is dropped |
| `HelloWriter.HelloBuffer.ReadPayload` | transport/tlsfrag/buffer.go:114-133 | Fills all but the five spare bytes, and never takes a byte past the record; reports a failure exactly if it strikes before the last of them, and drops one that comes with it |
| `HelloWriter.HelloBuffer.ReadFrom` | transport/tlsfrag/buffer.go:82-134 | Takes off the source exactly what it appends; complete and invalid are reported exactly when the bytes are, a failure exactly when it strikes before the record is settled at a place where it is noticed |
| `HelloWriter.HelloBuffer.Write` | transport/tlsfrag/buffer.go:62-69 | The same for a slice; a short write never happens |
| `HelloWriter.ShiftTail` | transport/tlsfrag/writer.go:173-176 | The overlapping move puts the tail five bytes further |
| `HelloWriter.SplitInPlace` | transport/tlsfrag/writer.go:151-184 | In the five spare bytes, the array becomes header, head, header, tail: the two fragments |
| `HelloWriter.HelloFragWriter.SplitHelloBufToRecord` | transport/tlsfrag/writer.go:151-184 | What is left to flush is what the callback's answer calls for, split or whole |
| `HelloWriter.HelloFragWriter.FlushRecord` | transport/tlsfrag/writer.go:187-194 | Exactly one write of all that is left of the record, if anything is; a short write can be resumed |
| `HelloWriter.HelloFragWriter.Write` | transport/tlsfrag/writer.go:80-107 | Accepts a prefix of p, all of it on success, and reports an error exactly if a base write failed; after a success the base writer has what is owed unless splitting was given up on an input that should have been split; the first record goes out in one write, both fragments together, and nothing before it is complete |
| `HelloWriter.HelloFragWriter.ReadFrom` | transport/tlsfrag/writer.go:118-142 | The same for a source. Splitting is given up exactly if the source fails before the first record is settled (and not just with the header's last byte), and exactly the failures before or with the byte that settles it are forgotten; what the base writer has put out is a prefix of what is owed, and with what it lost it is what this writer takes to be out, so this writer is still right if and only if nothing was lost |
| `HelloWriter.HelloFragWriter.ReadOn` | transport/tlsfrag/writer.go:138-141 | The base writer reads the rest itself: what it takes and does not put out is lost, and the count may be of any of it |
| `HelloWriter.FailureWithinTheRecord` | transport/tlsfrag/buffer.go:115-129 | A failure with the last payload byte is met and forgotten though the record is split; one a byte earlier is forgotten too, and splitting is given up |
| `InterceptRelay.CountsAreRight` | network/dnsintercept/packet_relay.go:123-205 | In every interleaving activeCount is the number of goroutines between increment and Release, plus the default receiver while it is queued; it is never negative; closeChan is closed once, exactly if the parent is closed; the default relay is asked at most once; a parent whose count has returned to zero is closed |
| `InterceptRelay.ClosedMeansClosed` | network/dnsintercept/packet_relay.go:142-190 | In every interleaving, once the parent is closed a sender that is still open is in the hands of a goroutine that has to close it |
| `InterceptRelay.DoneMeansClosed` | network/dnsintercept/packet_relay.go:142-205 | In every interleaving, when the parent is closed and every goroutine is done, every sub-sender ever created is closed |
| `InterceptRelay.NobodyClosesEarly` | network/dnsintercept/packet_relay.go:142-235 | In every interleaving, while the parent is open the default sender is open, and so is that of a query until it was answered or its goroutine has ended it |
| `InterceptRelay.AutoCloseOnlyAtZero` | network/dnsintercept/packet_relay.go:123-130 | In every interleaving a close without a call of Close leaves nothing active: the count is zero, no goroutine is between increment and Release, no receiver is queued |
| `InterceptRelay.OneAnswerPerQuery` | network/dnsintercept/packet_relay.go:217-235 | In every interleaving a DNS sub-association carries at most one query, to the remote resolver, and forwards at most one answer, from the local one; nothing for the local resolver goes to the default relay |
| `InterceptRelay.PacketsGoWhereTheyShould` | network/dnsintercept/packet_relay.go:217-307 | In every interleaving every packet that was passed on was asked for and went the right way: a query carries the packet of a call to the local resolver and goes to the remote one, its answer one that came back over it, as from the local resolver; any other packet goes to where its call sent it, which is not the local resolver, and comes as from its source |
| `InterceptRelay.CallsGoTheirWay` | network/dnsintercept/packet_relay.go:297-313 | A call starts a query if and only if port and address, IPv4-mapped or not, are the local resolver's; any other call starts on the default association with its own packet and destination |
| `InterceptRelay.ClosedRejects` | network/dnsintercept/packet_relay.go:132-160 | Any call that enters a closed parent ends with ErrClosed and changes nothing |
| `InterceptRelay.FailuresAreReported` | network/dnsintercept/packet_relay.go:162-295 | Past its first critical section a call ends with an error exactly if a relay failed or the parent was closed meanwhile |
| `InterceptRelay.QueryComesThrough` | network/dnsintercept/packet_relay.go:154-235 | For any query and answer there is a run in which they come through |
| `InterceptRelay.OtherPacketsComeThrough` | network/dnsintercept/packet_relay.go:237-307 | And for any other packet and what comes back |
| `InterceptRelay.OnlyWaitersWait` | network/dnsintercept/packet_relay.go:237-284 | In every interleaving a goroutine can move or waits for something the open parent may bring; nobody waits after the close, and nobody sleeps on the condition variable without an initializer that can move |
| `InterceptRelay.EveryStepIsProgress` | network/dnsintercept/packet_relay.go:123-353 | Every step leaves its goroutine fewer steps, so the calls made so far end in every interleaving |
| `InterceptRelay.AccountsKept` | network/dnsintercept/packet_relay.go:123-152 | Every step keeps the count, and closes at zero only |
| `InterceptRelay.LazyKept` | network/dnsintercept/packet_relay.go:237-284 | Every step keeps one initializer, and wakes the sleepers when the initialization or the parent ends |
| `InterceptRelay.RoutedKept` | network/dnsintercept/packet_relay.go:297-313 | Every step keeps packets and addresses on their own relay, IPv4-mapped addresses included |
| `InterceptRelay.TracedKept` | network/dnsintercept/packet_relay.go:154-313 | Every step keeps every packet on hand, and every one passed on, traced to the call or the arrival it comes from |
| `InterceptRelay.NoLeakKept` | network/dnsintercept/packet_relay.go:154-205 | Every step keeps every sender closed, stored, or due to be closed |
| `InterceptRelay.UnhurriedKept` | network/dnsintercept/packet_relay.go:142-295 | Every step closes senders only in time, and leaves a query one goroutine |
| `InterceptRelay.OneShotKept` | network/dnsintercept/packet_relay.go:220-235 | Every step keeps one query and one answer per DNS sub-association |
| `HappyEyeballs.PendingIsExact` | transport/happyeyeballs.go:164-186 | At every loop head opsPending is the open lookup, the waiting addresses and the dials whose result was not taken; it is zero exactly when nothing is left |
| `HappyEyeballs.GivingUpMeansAllFailed` | transport/happyeyeballs.go:193-258 | Giving up means that every lookup is in and every address of the error-free ones was dialled, once, in order within its family, and failed; which error is returned is determined by the lookups |
| `HappyEyeballs.EveryConnectionHasOnePlace` | transport/happyeyeballs.go:224-249 | In every run the connection the loop returned, if any, is that of a taken result without an error; one that is neither held, returned nor closed is one that the dialer returned with an error and the loop took |
| `HappyEyeballs.OthersAreClosed` | transport/happyeyeballs.go:224-235 | Once the loop and a dial goroutine are over, its connection was returned or closed if and only if the loop did not take it with an error |
| `HappyEyeballs.HoldersCanGo` | transport/happyeyeballs.go:228-234 | Once the loop is over, a goroutine that still holds a result can go, and has then closed its connection |
| `HappyEyeballs.ConnectionIsReturned` | transport/happyeyeballs.go:239-245 | There is a run in which the loop returns the connection of the one address |
| `HappyEyeballs.CancelledByTheCaller` | transport/happyeyeballs.go:247-250 | The loop ends as cancelled only if the caller cancelled, and while something was pending |
| `HappyEyeballs.ConnectionWithErrorIsLost` | transport/happyeyeballs.go:239-244 | A run in which a dialer that returns both makes the loop drop the connection unclosed |
| `HappyEyeballs.FamiliesAlternate` | transport/happyeyeballs.go:209-218 | The next dial is of the other family than the last while both have addresses, and of IPv6 first (section 4 of RFC 8305) |
| `HappyEyeballs.FirstIpv4WaitsForIpv6` | transport/happyeyeballs.go:172-184 | While lookups are open and no IPv6 address is known, the first IPv4 dial comes only 50 milliseconds after the first address came, or after a cancellation (section 8 of RFC 8305) |
| `HappyEyeballs.DialsExactlyWhenDue` | transport/happyeyeballs.go:167-226 | While an address waits the loop can dial if and only if it is due: the first at once unless it is an IPv4 one and lookups are open, or 50 milliseconds after the first address came; each other when the dial before it is over or 250 milliseconds old |
| `HappyEyeballs.AttemptsAreSpaced` | transport/happyeyeballs.go:219-235 | Each dial after the first begins 250 milliseconds after the one before it, or when that one is over (section 5 of RFC 8305) |
| `HappyEyeballs.EveryStepIsProgress` | transport/happyeyeballs.go:166-251 | Every step of the loop, a goroutine or the caller leaves less to do, and time alone does not add to it, so the loop ends for any finite lookups |
| `HappyEyeballs.TheLoopNeverHangs` | transport/happyeyeballs.go:166-251 | In every run, a loop that is on can take a step of its own within 250 milliseconds, whether the caller cancels or not, unless it was not cancelled and all it waits for is a dialer that has not returned |
| `HappyEyeballs.StepKeepsInv` | transport/happyeyeballs.go:166-251 | Every step keeps the counts, the address ledger of each family, the results and the delays |
| `ParallelResolve.SendsNeverBlock` | transport/happyeyeballs.go:80-104 | In every interleaving a resolver finds room in a channel that is not closed, none is ever stuck, and the channel is closed once, after every result |
| `ParallelResolve.AllAreRead` | transport/happyeyeballs.go:80-104 | For any k there is a run in which k results are read; with all of them every goroutine is done and the channel is closed |
| `IdleTimeout.IdleCloseIsIdle` | network/packetrelay/timeout_packet_relay.go:96-122 | An idle close comes at least a timeout after the creation and after every accepted send |
| `IdleTimeout.OpenMeansWatched` | network/packetrelay/timeout_packet_relay.go:64-69 | While the association is open, the callback is on its way or the timer goes off within a timeout of the last accepted send (plus the lag of first setting it) |
| `IdleTimeout.OverdueCloses` | network/packetrelay/timeout_packet_relay.go:96-127 | Once an open association is overdue its timer may go off, and the callback's step closes it as idle |
| `IdleTimeout.OverdueCanClose` | network/packetrelay/timeout_packet_relay.go:64-122 | And without anybody else's doing: the timer goes off, unless the callback is there already, and the callback closes it |
| `IdleTimeout.CallbackIsExact` | network/packetrelay/timeout_packet_relay.go:96-127 | The callback closes an open association if and only if a timeout has passed since the last accepted send, or the creation, and sets the timer to that moment otherwise |
| `IdleTimeout.OpenAccepts` | network/packetrelay/timeout_packet_relay.go:83-142 | A send is accepted if and only if the association is open, and counts from then on; a call of Close closes it if and only if it is open |
| `IdleTimeout.AcceptedIsPassedOn` | network/packetrelay/timeout_packet_relay.go:83-94 | Every accepted send reaches the inner sender once, or is about to |
| `IdleTimeout.CallRuns` | network/packetrelay/timeout_packet_relay.go:83-142 | Left alone, a send reaches the inner sender in two steps, and a call of Close closes it |
| `IdleTimeout.InnerIsClosedOnce` | network/packetrelay/timeout_packet_relay.go:110-142 | Over every interleaving of Close and the callback the inner sender is closed exactly once, and never while open |
| `IdleTimeout.LaterSendsAreRejected` | network/packetrelay/timeout_packet_relay.go:83-94 | A send that starts on a closed association is rejected whatever happens later |
| `IdleTimeout.StepKeepsInv` | network/packetrelay/timeout_packet_relay.go:83-142 | Every critical section keeps one watcher, one closer and the time of the last send |
| `StaggeredRace.TestsStartInOrder` | x/smart/racer.go:43-69 | Entries are started in order, once, never past the last, and each only after the previous one finished, its wait expired or the search was cancelled |
| `StaggeredRace.SendsNeverBlock` | x/smart/racer.go:40-69 | A test that ends finds room in the channel, read or not |
| `StaggeredRace.OutcomeIsRight` | x/smart/racer.go:71-81 | What is returned is the first result received without an error; while the race is on only errors were received; giving up means that every entry's test ended with one, and a cancellation comes only before every result is in |
| `StaggeredRace.CancelledByTheCaller` | x/smart/racer.go:46-49 | The race ends as cancelled only if the caller cancelled |
| `StaggeredRace.AnyTestCanWin` | x/smart/racer.go:43-79 | For any number of entries and any of them there is a race that it wins after all before it have failed |
| `StaggeredRace.AllTestsCanFail` | x/smart/racer.go:80-81 | And one in which all fail and the race gives up |
| `StaggeredRace.EveryStepIsProgress` | x/smart/racer.go:43-79 | Every step leaves less to do |
| `StaggeredRace.TheRaceNeverHangs` | x/smart/racer.go:43-79 | In every run, a race that is on can take a step of its own, whether the caller cancels or not, unless it was not cancelled and waits for a test goroutine that still has a step: one of them when all are started, the latest one within its time otherwise |
| `SplitWriter.SplitWriter.Write` | transport/split/writer.go:128-143 | The data goes out in order, up to where a base write failed, which is reported exactly then; no base call carries bytes from both sides of a cumulative split point, none is empty, and there are no more than one for each split point reached and one more |
| `SplitWriter.SplitWriter.ReadFrom` | transport/split/writer.go:93-112 | The same for a source, mixed with writes in any way and with base writers that fail while they read: the source's bytes go out in order and no base call crosses a split point; afterwards the writer is in step if and only if the count it returns is of what is out, or no split point lies behind that |
| `SplitWriter.SplitWriter.CopySegment` | transport/split/writer.go:95-106 | One read of the base writer stays within one segment, whatever it loses; this writer is in step after it if and only if the count is of what is out, or no split point lies behind that |
| `SplitWriter.SlippedCrosses` | transport/split/writer.go:97-124 | A writer that has counted up to a split point while less is out crosses it with its next full segment if and only if that is longer than what is missing |
| `SplitWriter.SlippedExample` | transport/split/writer.go:97-124 | A concrete case: in segments of three, after three were counted and one is out, the next three bytes cross a split point |
| `SplitWriter.SplitWriter.Advance` | transport/split/writer.go:114-125 | The distance to the next split point stays right, and the iterator is asked no more after its first zero |
| `SplitWriter.SplitWriter.WriteSegment` | transport/split/writer.go:129-142 | One base call stays within one segment, short or not |
| `SplitWriter.EverySplitPointIsCut` | transport/split/writer.go:37-38 | Every split point that the stream has reached lies between two base calls |
| `SplitWriter.AskedCountsPoints` | transport/split/writer.go:114-125 | The iterator was asked once, and once more for every split point that is out |
| `SplitWriter.WithinSegment` | transport/split/writer.go:81-85 | Between two neighbouring cumulative split points there is no other |
| `SplitWriter.RemoveNoOps` | transport/split/writer.go:60-67 | Dropping the pairs that mean nothing does not change what the pairs mean |
| `SplitWriter.RepeatedSplitIterator.constructor` | transport/split/writer.go:59-67 | The answers will be the expansion of the positive pairs |
| `SplitWriter.RepeatedSplitIterator.Next` | transport/split/writer.go:68-78 | The i-th call answers with the i-th length of the expansion, and with zero after the last |
| `SplitWriter.RepeatedSplitPoints` | transport/split/writer.go:52-79 | A writer over a repeated iterator has exactly the split points its pairs describe: after the first length of the expansion, the first two, and so on to the last |
| `SplitWriter.ExpansionExample` | transport/split/writer.go:52-79 | For example: three segments of two bytes and one of five, with pairs that mean nothing in between |
| `SplitWriter.FixedSplitIterator.Next` | transport/split/writer.go:42-48 | The length it was given, negative ones included, once, then zeros |
| `SplitWriter.FixedSplitPoint` | transport/split/writer.go:39-48 | A writer over a fixed iterator has the one split point, or none for a length of zero |
| `DnsTunnel.DnsNameCapacity` | x/dnstt/dnstt.go:95-106 | The capacity is exact: n bytes, in base32 and labels, fit into a name under the domain if and only if n is at most the capacity |
| `DnsTunnel.CapacityIsExact` | x/dnstt/dnstt.go:101-105 | The arithmetic behind it: both roundings together lose nothing |
| `DnsTunnel.SessionMtu` | x/dnstt/dnstt.go:271-276 | An accepted MTU is at least 80 and below 224, every packet up to it and every empty poll fits, and no longer packet does; it is refused exactly if 80 bytes do not fit |
| `DnsTunnel.Chunks` | x/dnstt/dnspacketconn.go:146-157 | Non-empty pieces of at most n bytes, all but the last full, that concatenate to p |
| `DnsTunnel.LabelsHaveTheReckonedLength` | x/dnstt/dnspacketconn.go:185-186 | Labels of at most 63 bytes take exactly the bytes the capacity reckons with |
| `DnsTunnel.BuildName` | x/dnstt/dnspacketconn.go:159-190 | The name is legal (section 2.3.4 of RFC 1035); its first labels are the lower-case base32 text of the client's eight bytes, 224 plus the number of random bytes, these, and the packet behind its length unless it is empty; it fails exactly for a packet of 224 bytes or one that does not fit |
| `DnsTunnel.NameLimits` | x/dnstt/dnspacketconn.go:183-190 | In numbers: a legal name has labels of 1 to 63 bytes, and takes at most 255 with a byte for each label and one more |
| `DnsTunnel.UnpacksDecoded` | x/dnstt/dnspacketconn.go:165-180 | Client, padding and packet are found again behind their prefixes |
| `DnsTunnel.NextPacket` | x/dnstt/dnspacketconn.go:101-112 | The next whole packet, or nothing if it is cut off |
| `DnsTunnel.QueuePackets` | x/dnstt/dnspacketconn.go:125-141 | Every whole packet is queued in order, and a poll is asked for exactly if there was one |
| `DnsTunnel.DecodeFrames` | x/dnstt/dnspacketconn.go:101-136 | What a server frames is what is queued; a cut-off packet at the end harms none before it |
| `DnsTunnel.DecodeBytes` | x/dnstt/dnspacketconn.go:101-112 | In bytes: a packet comes behind its length in two bytes, most significant byte first |
| `DnsTunnel.EveryPayloadIsFrames` | x/dnstt/dnspacketconn.go:101-136 | Every payload is the frames of what is read from it and a cut-off rest |
| `LruCache.Resolver.Query` | x/smart/cache.go:111-126 | A hit is the last cacheable answer for the key, from under 60 seconds ago; a miss is answered exactly as the inner resolver answers, and a success or name error is then cached for 60 seconds; a key cached under 60 seconds ago is a hit if fewer other keys were used since than there is room for; the room is the capacity and stays it, with every key there once, unless concurrent queries add a key twice; only a cache without capacity panics |
| `LruCache.Resolver.RemoveExpired` | x/smart/cache.go:60-72 | In place, exactly the live entries remain, in order, the first entry of a key stays its last answer, and keys that were there once still are |
| `LruCache.Resolver.SearchCache` | x/smart/cache.go:83-95 | Finds the key exactly if it is there, answers with its last answer even if it is there twice, moves that entry to the front, and makes no key double or single |
| `LruCache.Resolver.AddToCache` | x/smart/cache.go:97-108 | The new entry goes first and only the last one is dropped when full, whether or not the key is already there; the room shrinks at most to the number of different keys that are left; it panics exactly without capacity |
| `LruCache.MoveToFront` | x/smart/slice_helper.go:17-23 | The overlapping shift moves one element to the front and keeps the others in order; an index out of range changes nothing |
| `LruCache.PurgeKeepsInv` | x/smart/cache.go:60-72 | Purging keeps the last answers, the order of use and what must not be forgotten, even with keys that are there twice |
| `LruCache.HitKeepsInv` | x/smart/cache.go:86-92 | So does a hit |
| `LruCache.PushKeepsInv` | x/smart/cache.go:100-107 | So does adding an answer for any key, with the room that is then left |
| `LruCache.PurgeKeepsLatest` | x/smart/cache.go:60-72 | The first entry of a key stays its last answer when entries expire: the later ones expire no later |
| `LruCache.HitKeepsLatest` | x/smart/cache.go:86-92 | So does a hit |
| `LruCache.PurgeKeepsByUse` | x/smart/cache.go:60-72 | Purging keeps that whatever stands before the first entry of a key was used after it |
| `LruCache.HitKeepsByUse` | x/smart/cache.go:86-92 | So does a hit |
| `LruCache.PushKeepsByUse` | x/smart/cache.go:97-107 | So does adding an answer for any key |
| `LruCache.PushKeepsLatest` | x/smart/cache.go:97-107 | So does adding an answer for any key |
| `LruCache.DroppedWasOld` | x/smart/cache.go:100-105 | The entry that is dropped, the only one of its key, has seen as many other keys since its last use as there are different keys then: the capacity, unless one is there twice |
| `LruCache.PushHolds` | x/smart/cache.go:97-107 | Adding an answer loses exactly the key of the last entry, and only without room for it, if no other entry has it and it is not the key that is added |
| `LruCache.PushIsUnique` | x/smart/cache.go:97-107 | In a cache where every key is there once, adding keeps that if and only if the key is not among the entries that stay |
| `LruCache.RoomStays` | x/smart/cache.go:97-107 | As long as every key is there once after an answer was added, the room does not shrink |
| `LruCache.CopiesForget` | x/smart/cache.go:111-126 | At any capacity, if all but one entry are of one key that concurrent queries added, a key is dropped after two other keys: the bound of DroppedWasOld is met |
| `LruCache.KeysIdentifyQuestions` | x/smart/cache.go:78-81 | Two questions share a key exactly if they ask for the same type and class of the same name, up to 'A' to 'Z' and the letters 32 above, even if names contain the separator |
| `LruCache.CanonicalNamesAgree` | x/smart/cache.go:27-37 | Two names have the same canonical form exactly if they are the same up to the case of US-ASCII letters |
| `Socks5.AppendAddress` | transport/socks5/socks5.go:114-151 | Appends the normalised address, and fails only for a name over 255 bytes |
| `Socks5.EncodedBytes` | transport/socks5/socks5.go:114-151 | In bytes: type 1 and four bytes, type 4 and sixteen, or type 3, the length and the name, then the port, most significant byte first |
| `Socks5.NormalisedBytes` | transport/socks5/socks5.go:124-133 | An IP address is sent in four bytes if and only if it is ten zeros, twice 255 and those four |
| `Socks5.AddressMeaning` | transport/socks5/socks5.go:153-195 | What any bytes mean as an address: type 1 with 4, type 4 with 16, type 3 with a length and as many bytes, two bytes of port each, and anything else nothing |
| `Socks5.ReadAddr` | transport/socks5/socks5.go:153-195 | Reads what the bytes say and leaves the rest, unless a one-byte read stalls; without a failure of the reader there is no error but for bytes that say nothing |
| `Socks5.AddressRoundTrip` | transport/socks5/socks5.go:112-195 | An address that was written is read back, and the rest of the input is left alone (section 5 of RFC 1928) |
| `Socks5.ParsedIsEncoded` | transport/socks5/socks5.go:161-193 | And what is read is what those bytes encode |
| `Socks5.StallsMisread` | transport/socks5/socks5.go:157-178 | With a stalled one-byte read an address is read back exactly if it is an IP address whose type byte did not stall |
| `Socks5.Client.SetCredentials` | transport/socks5/stream_dialer.go:51-68 | Accepts exactly user names and passwords of 1 to 255 bytes (section 2 of RFC 1929) |
| `Socks5.Client.BuildRequest` | transport/socks5/stream_dialer.go:85-126 | The one buffer is the greeting and the command, and parses as the offered method, the credentials, the command and the destination; fails only for a bad destination |
| `Socks5.Client.Request` | transport/socks5/stream_dialer.go:77-209 | Exactly one write, the greeting and the command, which a server reads as exactly that, with nothing left over, and a reply that is understood as its bytes mean, given which one-byte reads stall, up to its last byte and no further, unless the connection fails |
| `Socks5.RequestRoundTrip` | transport/socks5/stream_dialer.go:88-126 | The pipelined request is read back as the same method, credentials, command and destination (sections 3 to 5 of RFC 1928, section 2 of RFC 1929), and whatever follows is left |
| `Socks5.RequestBytes` | transport/socks5/stream_dialer.go:88-126 | In bytes: 5, 1, 0, or 5, 1, 2 with 1 and both credentials behind their lengths, then 5, the command, 0 and the destination |
| `Socks5.ReplyRoundTrip` | transport/socks5/stream_dialer.go:136-208 | An accepting reply is understood, with or without authentication, and nothing after it is touched, if and only if the read of the address type does not stall, nor that of a name's length |
| `Socks5.ReadReply` | transport/socks5/stream_dialer.go:145-208 | Every server answer is understood as its bytes mean, errors included, given which one-byte reads stall, unless the connection fails; without stalls as it was meant |
| `Socks5.ReplyMeaning` | transport/socks5/stream_dialer.go:136-208 | What any bytes mean as a reply: a success only with version 5, method 0, or 2 with 1 and 0 behind it, version 5 and code 0 and a bound address; another code is an error with that code, another version, method or status a rejection |
| `Socks5.RefusalsAreErrors` | transport/socks5/stream_dialer.go:197-200 | A refused request is an error with the server's code, with and without authentication, whatever follows |
| `Socks5.WriteTo` | transport/socks5/packet_listener.go:123-141 | One datagram of header and payload, and none for a bad destination; an error exactly for that or a failed write; the count it returns includes the header |
| `Socks5.ReadFrom` | transport/socks5/packet_listener.go:62-118 | The address and payload of a datagram cut to the pooled buffer, or why there is none: a failed read, a malformed header, a name that cannot be turned into an address, or too long a payload; the caller's buffer is written only for a payload |
| `Socks5.MalformedExactlyWhen` | transport/socks5/packet_listener.go:68-118 | A datagram is malformed exactly if it has fewer than 10 bytes, a reserved byte or fragment number that is not zero, or no address; otherwise the name may not be printable, or the payload too long, in this order |
| `Socks5.DatagramBytes` | transport/socks5/packet_listener.go:123-141 | In bytes: three zeros, the address, and the payload |
| `Socks5.NamesAreKept` | transport/socks5/packet_listener.go:103-107 | The sender is reported as the address in the datagram if and only if it is no name with a bracket; a name in one pair of brackets loses them, and exactly the other names with a bracket are refused |
| `Socks5.DatagramRoundTrip` | transport/socks5/packet_listener.go:60-141 | A datagram that was written is read back if and only if it has at least 10 and at most 16384 bytes, its payload fits, and no bracket is in its name (section 7 of RFC 1928) |

## Left out

- ShadowsocksWriter.Writer.Init: making the AEAD from the salt does not fail, here and in the reader.
- ShadowsocksWriter.Writer.ReadFrom: an error of the sink that is io.EOF would be taken for the end of the source; the sinks here have no such error.
- ShadowsocksWriter.Writer.FlushByOtherThread: a concurrent Flush happens between the bytes of the one unlocked read, where the code allows it, not inside a critical section; concurrent LazyWrite, Write or ReadFrom calls are not modelled, as the code does not allow them.
- ShadowsocksReader.ReadConverter.Read: what a reader returns after it has returned an error is not described, and its buffer must not be one of the reader's own arrays.
- ShadowsocksFormat.FramesRoundTrip: nothing about secrecy or forgery; keys, HKDF, AES-GCM, ChaCha20 and random salts are behind the abstract seal and open.
- RecordLenWriter.WriteBothN: writev and a buffered single write are one write of both parts.
- HelloWriter.HelloFragWriter.Write: setting helloBuf to nil for the garbage collector has no counterpart; the buffer is simply not used again.
- InterceptRelay.OnlyWaitersWait: goroutines are scheduled in any order, and fairness is not assumed; calls into other relays return at some time or not, and closing a sender twice is harmless.
- InterceptRelay.OneAnswerPerQuery: packet contents are carried along but not interpreted.
- HappyEyeballs.FirstIpv4WaitsForIpv6: a delay counts whole milliseconds, and the end of a dial ends its delay at once; hosts that are IP addresses already, and address parsing, are left out.
- HappyEyeballs.TheLoopNeverHangs: a lookup result is there when the loop asks for it; a lookup stream that never ends, or a dialer that never returns, leaves the loop waiting.
- StaggeredRace.TheRaceNeverHangs: the time of a test may be up at any moment, and a test that never returns leaves the last wait open.
- IdleTimeout.OpenMeansWatched: the clock stands still within a critical section.
- SplitWriter.SplitWriter.Write: the iterator of a writer answers with lengths that are not negative.
- DnsTunnel.BuildName: base32 is any function with the right length, and the domain's labels are legal, as the name parser makes them; message packing, the checks of dnsResponsePayload, polling and the send loop are left out.
- LruCache.Resolver.Query: its three critical sections follow each other; concurrent queries are covered by what each section keeps, even of a cache with a key twice.
- LruCache.KeysIdentifyQuestions: type and class names are strings without the separator, and names are sequences of characters; the source maps every byte that is not UTF-8 to one replacement character.
- Socks5.Client.Request: host and port strings are parsed already, and dialling the proxy is left out.
- Socks5.ReadFrom: a name that reads like an IP address is reported as that address by the source, and as the name here.
- Socks5.AppendAddress: an IP address is its 16 bytes, as net.ParseIP gives them.
- The dnstt session (KCP, Noise, smux, DoH, DoT), the configuration language, the lwIP device, the WebSocket, TURN, Psiphon and HTTP wrappers, dnstruncate, the delegate relays, the slice pool and the Shadowsocks packet connection would only add easy members or depend on other libraries.
