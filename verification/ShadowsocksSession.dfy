/** Both ends of a session: any run of writer calls, and what a reader makes of the bytes sent. */
module ShadowsocksSession {
  import opened Bytes
  import opened Streams
  import opened ShadowsocksFormat
  import opened ShadowsocksWriter
  import opened ShadowsocksReader
  import Nonce

  datatype Call =
    | CallLazyWrite(p: seq<byte>)
    | CallWrite(p: seq<byte>)
    | CallReadFrom(data: seq<byte>, patience: nat, faults: seq<Fault>)
    | CallFlush
  {
    function Offered(): seq<byte> {
      match this
      case CallLazyWrite(p) => p
      case CallWrite(p) => p
      case CallReadFrom(data, _, _) => data
      case CallFlush => []
    }
  }

  ghost function AllOffered(calls: seq<Call>): seq<byte> {
    if calls == [] then [] else AllOffered(calls[..|calls| - 1]) + calls[|calls| - 1].Offered()
  }

  method RunReadFrom(w: Writer, data: seq<byte>, patience: nat, faults: seq<Fault>) returns (n: nat, ok: bool)
    requires w.Quiescent()
    modifies w, w.generator, w.buf, w.counter, w.sink
    ensures w.Quiescent()
    ensures w.buf == old(w.buf) || fresh(w.buf)
    ensures w.counter == old(w.counter) || fresh(w.counter)
    ensures n <= |data| && w.accepted == old(w.accepted) + data[..n]
    ensures ok ==> n == |data| && w.ready && w.pending == 0
  {
    var r := new Source(data, patience, faults);
    var status;
    n, status := w.ReadFrom(r);
    ok := status == Done;
    if ok {
      LeavesAll(data, n);
    }
  }

  method RunWrite(w: Writer, p: seq<byte>, lazily: bool) returns (n: nat, ok: bool)
    requires w.Quiescent()
    modifies w, w.generator, w.buf, w.counter, w.sink
    ensures w.Quiescent()
    ensures w.buf == old(w.buf) || fresh(w.buf)
    ensures w.counter == old(w.counter) || fresh(w.counter)
    ensures n <= |p| && w.accepted == old(w.accepted) + p[..n]
    ensures ok ==> n == |p| && w.ready && (!lazily ==> w.pending == 0)
  {
    var status;
    if lazily {
      n, status := w.LazyWrite(p);
    } else {
      n, status := w.Write(p);
    }
    ok := status == Done;
  }

  method RunFlush(w: Writer) returns (ok: bool)
    requires w.Quiescent()
    modifies w, w.generator, w.buf, w.counter, w.sink
    ensures w.Quiescent() && w.buf == old(w.buf) && w.counter == old(w.counter)
    ensures w.accepted == old(w.accepted) && (w.ready ==> w.pending == 0)
  {
    ok := w.Flush();
  }

  method RunCall(w: Writer, call: Call) returns (n: nat, ok: bool)
    requires w.Quiescent()
    modifies w, w.generator, w.buf, w.counter, w.sink
    ensures w.Quiescent()
    ensures w.buf == old(w.buf) || fresh(w.buf)
    ensures w.counter == old(w.counter) || fresh(w.counter)
    ensures n <= |call.Offered()| && w.accepted == old(w.accepted) + call.Offered()[..n]
    ensures ok ==> n == |call.Offered()|
    ensures ok && (call.CallWrite? || call.CallReadFrom? || (call.CallFlush? && w.ready)) ==> w.Unsent() == []
  {
    match call
    case CallLazyWrite(p) =>
      n, ok := RunWrite(w, p, true);
    case CallWrite(p) =>
      n, ok := RunWrite(w, p, false);
    case CallReadFrom(data, patience, faults) =>
      n, ok := RunReadFrom(w, data, patience, faults);
    case CallFlush =>
      ok := RunFlush(w);
      n := 0;
  }

  /** Any run of calls. While every call succeeds, what has been accepted is everything offered. */
  method RunCalls(w: Writer, calls: seq<Call>) returns (allOk: bool)
    requires w.Quiescent() && w.accepted == []
    modifies w, w.generator, w.buf, w.counter, w.sink
    ensures w.Quiescent()
    ensures allOk ==> w.accepted == AllOffered(calls)
  {
    allOk := true;
    for i := 0 to |calls|
      invariant w.Quiescent()
      invariant w.buf == old(w.buf) || fresh(w.buf)
      invariant w.counter == old(w.counter) || fresh(w.counter)
      invariant allOk ==> w.accepted == AllOffered(calls[..i])
    {
      var n, ok := RunCall(w, calls[i]);
      allOk := allOk && ok;
      assert calls[..i + 1][..i] == calls[..i];
      assert ok ==> calls[i].Offered()[..n] == calls[i].Offered();
    }
    assert calls[..|calls|] == calls;
  }

  /** At any point between calls, while no write has failed and the nonces last, what the receiver
      can decode followed by what is still buffered is exactly what was accepted, in order. */
  lemma SentThenBufferedIsAccepted(w: Writer)
    requires w.Valid() && !w.sink.Failed()
    requires 2 * w.log.Count() <= Nonce.Period(w.cipher.nonceSize)
    ensures DecodeStream(w.cipher, w.sink.out).0 + w.Unsent() == w.accepted
    ensures DecodeStream(w.cipher, w.sink.out).1 == EndOfStream
  {
    if w.ready {
      w.log.AsChunks(w.cipher, w.salt);
      FramesRoundTrip(w.cipher, w.salt, w.log.Chunks());
    }
  }

  /** Once a chunk was sent, the stream begins with the salt that the generator gave, and with no other
      bytes: one write a chunk, the frames under that salt. */
  lemma SaltIsTheGenerators(w: Writer)
    requires w.Valid() && !w.sink.Failed() && w.log.Then?
    ensures w.saltAt < |w.generator.answers| && w.generator.answers[w.saltAt].Some?
    ensures var salt := w.generator.answers[w.saltAt].value;
            && |salt| == w.cipher.saltSize && salt <= w.sink.out
            && w.sink.out == w.cipher.Frames(salt, 0, w.log.Chunks())
            && w.sink.calls == w.log.Writes(w.cipher, salt)
  {
    w.log.AsChunks(w.cipher, w.salt);
    Nonce.ZeroValue(w.cipher.nonceSize);
  }

  /** A fresh reader on the bytes the writer sent will hand out exactly that. */
  lemma ReaderRecoversWriter(w: Writer, rc: ReadConverter)
    requires w.Valid() && !w.sink.Failed()
    requires 2 * w.log.Count() <= Nonce.Period(w.cipher.nonceSize)
    requires rc.Valid() && !rc.cr.ready && rc.cr.cipher == w.cipher
    requires rc.cr.reader.rest == w.sink.out
    ensures rc.Coming().0 + w.Unsent() == w.accepted && rc.Coming().1 == EndOfStream
  {
    SentThenBufferedIsAccepted(w);
    assert rc.cr.payload[..][rc.from..rc.to] == [];
    PrependNothing(DecodeStream(w.cipher, w.sink.out));
  }

  /** Reads of any sizes, one after the other, hand out the next bytes of what is coming; an error comes
      only when all of it has been handed out. */
  method ReadAll(rc: ReadConverter, sizes: seq<nat>) returns (got: seq<byte>, err: Option<ReadError>)
    requires rc.Valid()
    modifies rc, rc.cr`ready, rc.cr`salt, rc.cr`counter, rc.cr`sizeBuf, rc.cr`leased, rc.cr`opens,
             rc.cr.counter, rc.cr.sizeBuf, rc.cr.payload, rc.cr.reader
    ensures rc.Valid()
    ensures err.None? ==> old(rc.Coming()) == Prepend(got, rc.Coming())
    ensures rc.cr.reader.met >= old(rc.cr.reader.met) + B(err == Some(ReadFailure))
    ensures err.Some? && err.value != ReadFailure ==> old(rc.Coming()) == (got, err.value)
  {
    got, err := [], None;
    PrependNothing(rc.Coming());
    for i := 0 to |sizes|
      invariant err.None? && rc.Valid() && old(rc.Coming()) == Prepend(got, rc.Coming())
      invariant rc.cr.reader.met >= old(rc.cr.reader.met)
      invariant rc.cr.counter == old(rc.cr.counter) || fresh(rc.cr.counter)
      invariant rc.cr.sizeBuf == old(rc.cr.sizeBuf) || fresh(rc.cr.sizeBuf)
    {
      var b := new byte[sizes[i]];
      ghost var coming := rc.Coming();
      var n;
      n, err := rc.Read(b);
      if err.Some? {
        assert got + [] == got;
        assert err.value != ReadFailure ==> coming == ([], err.value);
        return;
      }
      PrependTwice(got, b[..n], rc.Coming());
      got := got + b[..n];
    }
  }

  /** Every chunk carries at least one byte, so the nonces last for as many bytes as chunks. */
  lemma {:induction false} ChunksAreNotEmpty(log: Log)
    requires log.Good()
    ensures log.Count() <= |log.Plain()|
  {
    if log.Start? {
    } else {
      ChunksAreNotEmpty(log.before);
    }
  }

  /** With a nonce of 12 bytes, as all supported ciphers have, 2^95 bytes are safe. */
  lemma NoncesLast(w: Writer)
    requires w.Valid() && w.cipher.nonceSize == 12
    requires |w.accepted| <= 0x8000_0000_0000_0000_0000_0000
    ensures 2 * w.log.Count() <= Nonce.Period(w.cipher.nonceSize)
  {
    if w.ready {
      ChunksAreNotEmpty(w.log);
    }
    PeriodOf12();
  }

  lemma PeriodOf12()
    ensures Nonce.Period(12) == 0x1_0000_0000_0000_0000_0000_0000
  {
    assert Nonce.Period(3) == 0x100_0000;
    assert Nonce.Period(6) == 0x1_0000_0000_0000;
    assert Nonce.Period(9) == 0x100_0000_0000_0000_0000;
  }
}
