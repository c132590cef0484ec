/** The encrypting writer: one buffer, sealed in place, that also takes lazy writes, a concurrent
    Flush, and a read straight into the part of the buffer a Flush cannot touch. */
module ShadowsocksWriter {
  import opened Bytes
  import opened Streams
  import opened ShadowsocksFormat
  import opened ShadowsocksBuffer
  import Nonce

  datatype WriteStatus = Done | NoSalt | WriteFailed | SourceFailed

  /** A salt generator: any salt of the right size, or an error. `answers` remembers what it has given. */
  class SaltGenerator {
    ghost var answers: seq<Option<seq<byte>>>

    constructor ()
      ensures answers == []
    {
      answers := [];
    }

    method GetSalt(size: nat) returns (salt: Option<seq<byte>>)
      modifies this
      ensures answers == old(answers) + [salt]
      ensures salt.Some? ==> |salt.value| == size
    {
      var s: seq<byte> := [];
      while |s| < size
        invariant |s| <= size
      {
        var b: byte :| true;
        s := s + [b];
      }
      if * { salt := None; } else { salt := Some(s); }
      answers := answers + [salt];
    }
  }

  /** Only full chunks so far, or a last one for all there was. */
  ghost predicate Packing(from: Log, log: Log, atEnd: bool) {
    log.FullSince(from) || (log.PackedSince(from) && atEnd)
  }

  lemma PackingMore(from: Log, log: Log, log': Log, left: nat, n: nat)
    requires if n == 0 then log' == log else log'.Then? && log'.before == log && |log'.chunk| == n
    ensures Packing(from, log, left == 0) && n == Min(MAX_PAYLOAD, left) ==> Packing(from, log', left == n)
    ensures Packing(from, log, left == 0) ==> log.PackedSince(from)
  {}

  class Writer {
    const cipher: Cipher
    const generator: SaltGenerator
    const sink: Sink
    // Whether a concurrent Flush may find something to send.
    var needFlush: bool
    // How long the text is that waits in the buffer to be sealed.
    var pending: nat
    // Whether init has chosen a salt and made the AEAD, the buffer and the counter.
    var ready: bool
    // Stands for the AEAD, which is keyed from it.
    var salt: seq<byte>
    var buf: array<byte>
    var counter: array<byte>
    // What the buffer and the counter say, what has been sealed chunk by chunk, and what callers
    // have been told was accepted.
    ghost var mem: Memory
    ghost var log: Log
    ghost var accepted: seq<byte>
    // Which of the generator's answers the salt is.
    ghost var saltAt: nat
    // How many of the sink's failures another thread, with its Flush, was told of.
    ghost var elsewhere: nat

    ghost predicate Mirrored()
      reads this, buf, counter
    {
      buf != counter && mem == Memory(buf[..], counter[..], pending)
    }

    /** Once a salt has been chosen: the buffer is in order and the books balance. */
    ghost predicate Active()
      reads this, generator, buf, counter, sink
    {
      && ready && cipher.Sound() && Mirrored()
      && saltAt < |generator.answers| && generator.answers[saltAt] == Some(salt)
      && Layout(cipher, mem, salt, log.Count())
      && Balanced(cipher, salt, log, accepted, Buffered(cipher, mem), sink.Failed(), sink.calls, sink.out)
    }

    ghost predicate Valid()
      reads this, generator, buf, counter, sink
    {
      if ready then Active()
      else
        && cipher.Sound() && buf != counter
        && pending == 0 && !needFlush && log == Start && accepted == []
        && (!sink.Failed() ==> sink.out == [] && sink.calls == [])
    }

    /** The plaintext that has been accepted but not sealed yet. */
    ghost function Unsent(): seq<byte>
      requires Valid()
      reads this, generator, buf, counter, sink
    {
      if ready then Buffered(cipher, mem) else []
    }

    /** Between calls, whatever is buffered is there for a Flush to send. */
    ghost predicate Quiescent()
      reads this, generator, buf, counter, sink
    {
      Valid() && (pending > 0 ==> needFlush)
    }

    constructor (cipher: Cipher, generator: SaltGenerator, sink: Sink)
      requires cipher.Sound() && sink.out == [] && sink.calls == [] && !sink.Failed()
      ensures Quiescent() && this.cipher == cipher && this.generator == generator && this.sink == sink
      ensures accepted == [] && !ready
      ensures fresh(buf) && fresh(counter)
    {
      this.cipher := cipher;
      this.generator := generator;
      this.sink := sink;
      needFlush, pending, ready, salt := false, 0, false, [];
      buf := new byte[0];
      counter := new byte[0];
      mem, log, accepted, saltAt, elsewhere := Memory([], [], 0), Start, [], 0, 0;
    }

    /** The sink's failures that the calls of this thread have to report. */
    ghost function Own(): int
      reads this, sink
    {
      sink.failures - elsewhere
    }

    /** What a call does about the salt: the first one asks the generator, once, and takes its answer; if
        that is an error, the next call asks again. */
    twostate predicate Salted()
      reads this, generator
    {
      && generator.answers == old(generator.answers) + (if old(ready) then [] else [if ready then Some(salt) else None])
      && (old(ready) ==> ready && salt == old(salt))
    }

    method Init() returns (ok: bool)
      requires Quiescent()
      modifies this, generator
      ensures Quiescent() && ok == ready && Salted()
      ensures accepted == old(accepted) && log == old(log) && elsewhere == old(elsewhere)
      ensures old(ready) ==> unchanged(this)
      ensures !old(ready) ==> pending == 0 && !needFlush
      ensures buf == old(buf) || fresh(buf)
      ensures counter == old(counter) || fresh(counter)
    {
      if !ready {
        var s := generator.GetSalt(cipher.saltSize);
        if s.None? {
          return false;
        }
        salt := s.value;
        saltAt := |old(generator.answers)|;
        counter := new byte[cipher.nonceSize](i => 0);
        buf := new byte[BufferSize(cipher)](i => 0);
        CopyInto(buf, 0, salt);
        ready := true;
        assert counter[..] == Nonce.Nth(cipher.nonceSize, 0);
        mem := Memory(buf[..], counter[..], 0);
      }
      assert generator.answers + [] == generator.answers;
      return true;
    }

    /** Seals buf[lo..hi] in place; the tag lands in the bytes after hi. */
    method EncryptBlock(lo: nat, hi: nat, ghost k: nat, ghost plaintext: seq<byte>) returns (size: nat)
      requires lo <= hi && hi + cipher.overhead <= buf.Length && buf != counter && cipher.Sound()
      requires buf[..][lo..hi] == plaintext
      requires counter[..] == Nonce.Nth(cipher.nonceSize, k)
      modifies buf, counter
      ensures size == |cipher.SealNth(salt, k, plaintext)| == hi - lo + cipher.overhead
      ensures buf[..] == Overwrite(old(buf[..]), lo, cipher.SealNth(salt, k, plaintext))
      ensures counter[..] == Nonce.Nth(cipher.nonceSize, k + 1)
    {
      var out := cipher.seal(salt, counter[..], buf[..][lo..hi]);
      CopyInto(buf, lo, out);
      Nonce.Increment(counter);
      size := |out|;
    }

    /** The sealing half of `flush`: both blocks of the next chunk, in place. */
    method SealBlocks(ghost k: nat) returns (end: nat)
      requires cipher.Sound() && Mirrored() && Layout(cipher, mem, salt, k)
      modifies buf, counter
      ensures end == SafeStart(cipher, pending)
      ensures buf[..] == SealedBuffer(cipher, mem, salt, k)
      ensures counter[..] == Nonce.Nth(cipher.nonceSize, 2 * (k + 1))
    {
      var sizeStart, payloadStart := SizeStart(cipher), PayloadStart(cipher);
      SealingSteps(cipher, mem, salt, k);
      CopyInto(buf, sizeStart, BigEndian16(pending));
      var sizeBlock := EncryptBlock(sizeStart, sizeStart + 2, 2 * k, BigEndian16(pending));
      var payloadBlock :=
        EncryptBlock(payloadStart, payloadStart + pending, 2 * k + 1, Buffered(cipher, mem));
      end := sizeStart + sizeBlock + payloadBlock;
    }

    /** The body of `flush` when something is pending: one chunk, sealed and handed to the sink in
        a single write. */
    method SendChunk(ghost k: nat) returns (ok: bool)
      requires cipher.Sound() && Mirrored() && Layout(cipher, mem, salt, k)
      modifies this`pending, this`mem, buf, counter, sink
      ensures Mirrored() && Layout(cipher, mem, salt, k + 1) && pending == 0
      ensures Buffered(cipher, mem) == []
      ensures sink.failures == old(sink.failures) + B(!ok) && |sink.calls| == |old(sink.calls)| + 1
      ensures ok ==> sink.out == old(sink.out) + cipher.Frame(salt, k, old(Buffered(cipher, mem)))
      ensures ok ==> sink.calls == old(sink.calls) + [cipher.Frame(salt, k, old(Buffered(cipher, mem)))]
      ensures var safe := SafeStart(cipher, old(pending)); mem.buf[safe..] == old(mem).buf[safe..]
    {
      var first := Nonce.IsZero(counter);
      var start := if first then 0 else cipher.saltSize;
      SentBytesAreAFrame(cipher, mem, salt, k, start);
      SealedBufferKeepsLayout(cipher, mem, salt, k);
      var end := SealBlocks(k);
      var frame := buf[..][start..end];
      var n, sent := sink.Write(frame);
      assert sent ==> frame[..n] == frame;
      ok := sent;
      pending := 0;
      mem := Memory(SealedBuffer(cipher, mem, salt, k), Nonce.Nth(cipher.nonceSize, 2 * (k + 1)), 0);
    }

    /** `flush`: seals the pending bytes as one chunk and sends it. Nothing beyond the pending
        bytes and their tag is touched. */
    method SealAndSend() returns (ok: bool)
      requires Active()
      modifies this`pending, this`mem, this`log, buf, counter, sink
      ensures Active() && pending == 0
      ensures log == if old(pending) == 0 then old(log) else Then(old(log), old(Buffered(cipher, mem)))
      ensures sink.failures == old(sink.failures) + B(!ok)
      ensures var safe := SafeStart(cipher, old(pending)); mem.buf[safe..] == old(mem).buf[safe..]
    {
      if pending == 0 {
        return true;
      }
      ghost var unsent, failed, calls, out := Buffered(cipher, mem), sink.Failed(), sink.calls, sink.out;
      ok := SendChunk(log.Count());
      BalancedAfterSending(cipher, salt, log, accepted, unsent, failed, calls, out, sink.Failed(), sink.calls, sink.out);
      log := Then(log, unsent);
    }

    /** Thread-safe: may be called while ReadFrom is reading. */
    method Flush() returns (ok: bool)
      requires Valid()
      modifies this`pending, this`mem, this`log, buf, counter, sink
      ensures Valid()
      ensures pending == if needFlush then 0 else old(pending)
      ensures log == if !needFlush || old(pending) == 0 then old(log) else Then(old(log), old(Unsent()))
      ensures sink.failures == old(sink.failures) + B(!ok)
      ensures ready ==> var safe := SafeStart(cipher, old(pending)); mem.buf[safe..] == old(mem).buf[safe..]
    {
      if !needFlush {
        return true;
      }
      ok := SealAndSend();
    }

    /** Copies as much of the plaintext as fits behind what is already pending. */
    method Enqueue(plaintext: seq<byte>) returns (n: nat)
      requires Active()
      modifies this`pending, this`mem, this`accepted, buf
      ensures Active() && n == Min(|plaintext|, MAX_PAYLOAD - old(pending))
      ensures pending == old(pending) + n && accepted == old(accepted) + plaintext[..n]
      ensures n == |plaintext| ==> accepted == old(accepted) + plaintext
    {
      n := Min(|plaintext|, MAX_PAYLOAD - pending);
      var fitting := plaintext[..n];
      AcceptingKeeps(cipher, mem, salt, log, accepted, sink.Failed(), sink.calls, sink.out, fitting);
      CopyInto(buf, PayloadStart(cipher) + pending, fitting);
      mem := Enqueued(cipher, mem, fitting);
      pending := pending + n;
      accepted := accepted + fitting;
    }

    /** Queues p; chunks are sent only when the buffer runs full. */
    method LazyWrite(p: seq<byte>) returns (queued: nat, status: WriteStatus)
      requires Quiescent()
      modifies this, generator, buf, counter, sink
      ensures Quiescent() && Salted()
      ensures log.FullSince(old(log)) && (old(pending) + |p| <= MAX_PAYLOAD ==> log == old(log))
      ensures status == Done && (p != [] || old(pending) > 0) ==> pending > 0
      ensures buf == old(buf) || fresh(buf)
      ensures counter == old(counter) || fresh(counter)
      ensures queued <= |p| && accepted == old(accepted) + p[..queued]
      ensures status == Done ==> queued == |p| && ready
      ensures status == NoSalt <==> !ready
      ensures status != SourceFailed
      ensures sink.failures == old(sink.failures) + B(status == WriteFailed) && elsewhere == old(elsewhere)
    {
      var ok := Init();
      if !ok {
        return 0, NoSalt;
      }
      queued, ok := QueueAll(p);
      status := if ok then Done else WriteFailed;
    }

    /** Queues what fits of p, and sends the chunk if that is not all. */
    method QueueSome(p: seq<byte>) returns (n: nat, ok: bool)
      requires Active()
      modifies this`pending, this`mem, this`log, this`accepted, buf, counter, sink
      ensures Active() && n == Min(|p|, MAX_PAYLOAD - old(pending)) && accepted == old(accepted) + p[..n]
      ensures sink.failures == old(sink.failures) + B(!ok)
      ensures n == |p| ==> ok && pending == old(pending) + n && log == old(log)
      ensures n < |p| ==> pending == 0 && log.Then? && log.before == old(log) && |log.chunk| == MAX_PAYLOAD
    {
      n := Enqueue(p);
      ok := true;
      if n < |p| {
        ok := SealAndSend();
      }
    }

    method QueueAll(p: seq<byte>) returns (queued: nat, ok: bool)
      requires Active() && (pending > 0 ==> needFlush)
      modifies this`pending, this`mem, this`needFlush, this`log, this`accepted, buf, counter, sink
      ensures Active() && (pending > 0 ==> needFlush)
      ensures queued <= |p| && accepted == old(accepted) + p[..queued]
      ensures ok ==> queued == |p|
      ensures sink.failures == old(sink.failures) + B(!ok)
      ensures log.FullSince(old(log)) && (old(pending) + |p| <= MAX_PAYLOAD ==> log == old(log))
      ensures ok && (p != [] || old(pending) > 0) ==> pending > 0
    {
      queued := 0;
      var rest := p;
      ghost var before := accepted;
      LeavesNothingTaken(before, p);
      while true
        invariant Active() && Leaves(p, queued, rest) && log.FullSince(old(log))
        invariant accepted == before + p[..queued]
        invariant pending > 0 ==> needFlush
        invariant sink.failures == old(sink.failures)
        invariant if old(pending) + |p| > MAX_PAYLOAD then rest != []
                  else queued == 0 && pending == old(pending) && log == old(log)
        decreases |rest|, pending
      {
        var n;
        n, ok := QueueSome(rest);
        LeavesDropped(rest, n);
        LeavesTwice(before, p, queued, rest, n, rest[n..]);
        queued := queued + n;
        rest := rest[n..];
        if |rest| == 0 {
          needFlush := true;
          return queued, true;
        }
        if !ok {
          return queued, false;
        }
      }
    }

    /** One read into the part of the buffer that a Flush leaves alone, with another thread free to
        Flush before, after, and between any two bytes as they arrive. */
    method ReadWhileFlushable(r: Source, lo: nat) returns (n: nat, err: ReadStatus)
      requires Active() && lo == SafeStart(cipher, pending)
      modifies this`pending, this`mem, this`log, this`elsewhere, buf, counter, sink, r
      ensures Active() && pending <= old(pending) && Own() == old(Own())
      ensures Leaves(old(r.rest), n, r.rest) && r.patience <= old(r.patience)
      ensures n <= BufferSize(cipher) - lo && mem.buf[lo..lo + n] == old(r.rest)[..n]
      ensures err == Eof ==> r.rest == []
      ensures r.met == old(r.met) + B(err == ReadFailed) && (err == ReadFailed ==> r.met <= |r.Faults()|)
    {
      var data;
      data, err := r.Read(buf.Length - lo);
      LeavesTheRest(data, r.rest);
      n := |data|;
      DeliverWhileFlushable(lo, data);
    }

    method DeliverWhileFlushable(lo: nat, data: seq<byte>)
      requires Active() && SafeStart(cipher, pending) <= lo && lo + |data| <= BufferSize(cipher)
      modifies this`pending, this`mem, this`log, this`elsewhere, buf, counter, sink
      ensures Active() && pending <= old(pending) && mem.buf[lo..lo + |data|] == data
      ensures Own() == old(Own())
    {
      var n := 0;
      while n < |data|
        invariant Active() && pending <= old(pending) && Arrived(mem.buf, lo, data, n)
        invariant Own() == old(Own())
      {
        FlushByOtherThread(lo, data, n);
        ByteArrives(lo, data, n);
        n := n + 1;
      }
      FlushByOtherThread(lo, data, n);
      AllArrived(mem.buf, lo, data);
    }

    method ByteArrives(lo: nat, data: seq<byte>, n: nat)
      requires Active() && SafeStart(cipher, pending) <= lo
      requires Arrived(mem.buf, lo, data, n) && n < |data|
      modifies this`mem, buf
      ensures Active() && Arrived(mem.buf, lo, data, n + 1)
    {
      ArrivalIsOutOfReach(cipher, mem, salt, log.Count(), lo + n, [data[n]]);
      OneMoreArrived(mem.buf, lo, data, n);
      CopyInto(buf, lo + n, [data[n]]);
      mem := mem.(buf := Overwrite(mem.buf, lo + n, [data[n]]));
    }

    /** Another thread calls Flush, or does not: what has arrived stays as it is. */
    method FlushByOtherThread(lo: nat, ghost data: seq<byte>, ghost n: nat)
      requires Active() && SafeStart(cipher, pending) <= lo && Arrived(mem.buf, lo, data, n)
      modifies this`pending, this`mem, this`log, this`elsewhere, buf, counter, sink
      ensures Active() && pending <= old(pending) && Arrived(mem.buf, lo, data, n)
      ensures Own() == old(Own())
    {
      var flushing := *;
      if flushing {
        ghost var safe, before := SafeStart(cipher, pending), mem.buf;
        var ok := Flush();
        elsewhere := elsewhere + B(!ok);
        ArrivedSurvives(before, mem.buf, safe, lo, data, n);
      }
    }

    /** One read of the main transfer loop, straight into the payload part of the buffer. */
    method ReadPayload(r: Source) returns (n: nat, err: ReadStatus)
      requires Active() && pending == 0
      modifies this`pending, this`mem, this`accepted, buf, r
      ensures Active() && n == pending && Leaves(old(r.rest), n, r.rest)
      ensures accepted == old(accepted) + old(r.rest)[..n]
      ensures err == Eof ==> r.rest == []
      ensures r.met == old(r.met) + B(err == ReadFailed) && (err == ReadFailed ==> r.met <= |r.Faults()|)
      ensures err == ReadOk ==> r.Budget() < old(r.Budget())
      ensures r.eager && r.reliable ==> n == Min(MAX_PAYLOAD, |old(r.rest)|)
    {
      var data;
      data, err := r.Read(MAX_PAYLOAD);
      LeavesTheRest(data, r.rest);
      n := Enqueue(data);
    }

    /** Sends everything r delivers until it ends or something fails. If r gives all that is asked for, and
        nothing is buffered, every chunk is full but for the last. */
    method ReadFrom(r: Source) returns (written: nat, status: WriteStatus)
      requires Quiescent()
      modifies this, generator, buf, counter, sink, r
      ensures Quiescent() && Salted()
      ensures r.eager && r.reliable && !old(needFlush) ==> log.PackedSince(old(log))
      ensures buf == old(buf) || fresh(buf)
      ensures counter == old(counter) || fresh(counter)
      ensures Leaves(old(r.rest), written, r.rest)
      ensures accepted == old(accepted) + old(r.rest)[..written]
      ensures status == NoSalt <==> !ready
      ensures ready ==> pending == 0 && !needFlush
      ensures status == Done ==> r.rest == []
      ensures Own() == old(Own()) + B(status == WriteFailed) && (!old(needFlush) ==> elsewhere == old(elsewhere))
      ensures status == SourceFailed ==> r.met == old(r.met) + 1 <= |r.Faults()|
      ensures status == Done ==> r.met == old(r.met)
    {
      var ok := Init();
      if !ok {
        return 0, NoSalt;
      }
      written, status := ReadReady(r);
    }

    /** The same once the salt is there. */
    method ReadReady(r: Source) returns (written: nat, status: WriteStatus)
      requires Active() && (pending > 0 ==> needFlush)
      modifies this`pending, this`mem, this`needFlush, this`log, this`accepted, this`elsewhere, buf, counter, sink, r
      ensures Active() && pending == 0 && !needFlush
      ensures r.eager && r.reliable && !old(needFlush) ==> log.PackedSince(old(log))
      ensures Leaves(old(r.rest), written, r.rest)
      ensures accepted == old(accepted) + old(r.rest)[..written]
      ensures status != NoSalt && (status == Done ==> r.rest == [] && r.met == old(r.met))
      ensures Own() == old(Own()) + B(status == WriteFailed) && (!old(needFlush) ==> elsewhere == old(elsewhere))
      ensures status == SourceFailed ==> r.met == old(r.met) + 1 <= |r.Faults()|
    {
      ghost var before, all := accepted, r.rest;
      LeavesNothingTaken(before, all);
      var head, err, sent := 0, ReadOk, true;
      if needFlush {
        head, err, sent := ReadAhead(r);
      }
      ghost var mid := r.rest;
      var tail;
      tail, err, sent := TransferAll(r, err, sent);
      LeavesTwice(before, all, head, mid, tail, r.rest);
      written := head + tail;
      status := if !sent then WriteFailed else if err == Eof then Done else SourceFailed;
    }

    /** The one thread-safe read that ReadFrom makes while a Flush may still come from another
        thread. What was read always fits behind whatever is pending afterwards. */
    method ReadAhead(r: Source) returns (n: nat, err: ReadStatus, sent: bool)
      requires Active() && needFlush
      modifies this`pending, this`mem, this`needFlush, this`log, this`accepted, this`elsewhere, buf, counter, sink, r
      ensures Active() && pending == 0 && !needFlush
      ensures Leaves(old(r.rest), n, r.rest)
      ensures accepted == old(accepted) + old(r.rest)[..n]
      ensures err == Eof ==> r.rest == []
      ensures r.met == old(r.met) + B(err == ReadFailed) && (err == ReadFailed ==> r.met <= |r.Faults()|)
      ensures Own() == old(Own()) + B(!sent)
    {
      var lo := SafeStart(cipher, pending);
      n, err := ReadWhileFlushable(r, lo);
      EnqueueFromBuffer(lo, n, old(r.rest)[..n]);
      sent := SealAndSend();
      needFlush := false;
    }

    /** `enqueue(readBuf[:n])`, whose result ReadFrom ignores: everything fits. */
    method EnqueueFromBuffer(lo: nat, n: nat, ghost got: seq<byte>)
      requires Active() && lo + n <= BufferSize(cipher) && mem.buf[lo..lo + n] == got
      requires pending + n <= MAX_PAYLOAD
      modifies this`pending, this`mem, this`accepted, buf
      ensures Active() && pending == old(pending) + n && accepted == old(accepted) + got
    {
      var queued := Enqueue(buf[..][lo..lo + n]);
      assert queued == n;
    }

    /** One turn of the main transfer loop: what was read goes out as one chunk. */
    method Transfer(r: Source) returns (n: nat, err: ReadStatus, sent: bool)
      requires Active() && pending == 0
      modifies this`pending, this`mem, this`log, this`accepted, buf, counter, sink, r
      ensures Active() && pending == 0
      ensures Leaves(old(r.rest), n, r.rest) && accepted == old(accepted) + old(r.rest)[..n]
      ensures err == Eof ==> r.rest == []
      ensures r.met == old(r.met) + B(err == ReadFailed) && (err == ReadFailed ==> r.met <= |r.Faults()|)
      ensures err == ReadOk ==> r.Budget() < old(r.Budget())
      ensures sink.failures == old(sink.failures) + B(!sent)
      ensures if n == 0 then log == old(log) else log.Then? && log.before == old(log) && |log.chunk| == n
      ensures r.eager && r.reliable ==> n == Min(MAX_PAYLOAD, |old(r.rest)|)
    {
      n, err := ReadPayload(r);
      sent := SealAndSend();
    }

    /** The main transfer loop. */
    method TransferAll(r: Source, err0: ReadStatus, sent0: bool)
      returns (written: nat, err: ReadStatus, sent: bool)
      requires Active() && pending == 0 && !needFlush
      requires err0 == Eof ==> r.rest == []
      modifies this`pending, this`mem, this`log, this`accepted, buf, counter, sink, r
      ensures Active() && pending == 0
      ensures Leaves(old(r.rest), written, r.rest)
      ensures accepted == old(accepted) + old(r.rest)[..written]
      ensures err == Eof ==> r.rest == []
      ensures r.met == old(r.met) + B(err == ReadFailed && err0 == ReadOk)
      ensures err == ReadFailed && err0 == ReadOk ==> r.met <= |r.Faults()|
      ensures err0 == ReadOk || err == err0
      ensures sink.failures == old(sink.failures) + B(sent0 && !sent) && (sent ==> sent0)
      ensures r.eager && r.reliable ==> log.PackedSince(old(log))
      ensures sent ==> err != ReadOk
    {
      written, err, sent := 0, err0, sent0;
      ghost var before, all := accepted, r.rest;
      LeavesNothingTaken(before, all);
      while err == ReadOk && sent
        invariant Active() && pending == 0
        invariant Leaves(all, written, r.rest)
        invariant accepted == before + all[..written]
        invariant err == Eof ==> r.rest == []
        invariant r.met == old(r.met) + B(err == ReadFailed && err0 == ReadOk)
        invariant err == ReadFailed && err0 == ReadOk ==> r.met <= |r.Faults()|
        invariant err0 == ReadOk || err == err0
        invariant sink.failures == old(sink.failures) + B(sent0 && !sent) && (sent ==> sent0)
        invariant r.eager && r.reliable ==> Packing(old(log), log, r.rest == [])
        decreases err == ReadOk && sent, r.Budget()
      {
        ghost var mid, sofar := r.rest, log;
        var n;
        n, err, sent := Transfer(r);
        LeavesTwice(before, all, written, mid, n, r.rest);
        PackingMore(old(log), sofar, log, |mid|, n);
        written := written + n;
      }
    }

    /** `Write`: ReadFrom for a slice. With nothing buffered it takes as few chunks as possible. */
    method Write(p: seq<byte>) returns (written: nat, status: WriteStatus)
      requires Quiescent()
      modifies this, generator, buf, counter, sink
      ensures Quiescent() && Salted()
      ensures !old(needFlush) ==> log.PackedSince(old(log))
      ensures buf == old(buf) || fresh(buf)
      ensures counter == old(counter) || fresh(counter)
      ensures written <= |p| && accepted == old(accepted) + p[..written]
      ensures status == NoSalt <==> !ready
      ensures ready ==> pending == 0 && !needFlush
      ensures status == Done ==> written == |p|
      ensures status != SourceFailed
      ensures Own() == old(Own()) + B(status == WriteFailed) && (!old(needFlush) ==> elsewhere == old(elsewhere))
    {
      var byteWrapper := new Source.OfBytes(p);
      written, status := ReadFrom(byteWrapper);
      if status == Done {
        LeavesAll(p, written);
      }
    }
  }
}
