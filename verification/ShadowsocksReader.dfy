/** The decrypting reader: chunks are opened in place in a pooled buffer and handed out in pieces of
    any size, until the stream ends or an error ends it. */
module ShadowsocksReader {
  import opened Bytes
  import opened Streams
  import opened ShadowsocksFormat
  import Nonce

  const MAX_TAG_SIZE := 16

  /** What the rest of a stream decodes to, before and after the salt has been read. */
  ghost function DecodeFrom(c: Cipher, ready: bool, salt: seq<byte>, k: nat, wire: seq<byte>): (seq<byte>, ReadError) {
    if ready then Decode(c, salt, k, wire) else DecodeStream(c, wire)
  }

  /** What one ReadChunk makes of the rest of a stream. */
  ghost function NextChunk(c: Cipher, ready: bool, salt: seq<byte>, k: nat, wire: seq<byte>): ChunkResult {
    if ready then DecodeChunk(c, salt, k, wire)
    else if wire == [] then ChunkError(EndOfStream)
    else if |wire| < c.saltSize then ChunkError(Truncated)
    else DecodeChunk(c, wire[..c.saltSize], 0, wire[c.saltSize..])
  }

  lemma DecodeFromNextChunk(c: Cipher, ready: bool, salt: seq<byte>, k: nat, wire: seq<byte>)
    ensures var n := NextChunk(c, ready, salt, k, wire); var d := DecodeFrom(c, ready, salt, k, wire);
            && (n.ChunkError? ==> d == ([], n.error))
            && (n.Chunk? && ready ==> d == Prepend(n.payload, Decode(c, salt, k + 2, n.rest)))
            && (n.Chunk? && !ready ==> d == Prepend(n.payload, Decode(c, wire[..c.saltSize], 2, n.rest)))
  {}

  datatype Opened = Opened(size: nat) | Failed(error: ReadError)

  class ChunkReader {
    const cipher: Cipher
    const reader: Source
    // Whether the salt has been read and the AEAD made; `salt` stands for the AEAD.
    var ready: bool
    var salt: seq<byte>
    var counter: array<byte>
    var sizeBuf: array<byte>
    // The pooled payload buffer, and whether it is leased at the moment.
    const payload: array<byte>
    var leased: bool
    // The number of blocks opened, or tried, so far.
    ghost var opens: nat

    ghost predicate Valid()
      reads this, counter, sizeBuf
    {
      && cipher.Sound() && cipher.overhead <= MAX_TAG_SIZE
      && payload.Length == MAX_PAYLOAD + MAX_TAG_SIZE
      && counter != sizeBuf && counter != payload && sizeBuf != payload
      && (ready ==>
            && sizeBuf.Length == 2 + cipher.overhead
            && counter[..] == Nonce.Nth(cipher.nonceSize, opens))
      && (leased ==> ready)
    }

    constructor (cipher: Cipher, reader: Source)
      requires cipher.Sound() && cipher.overhead <= MAX_TAG_SIZE
      ensures Valid() && !ready && !leased && this.cipher == cipher && this.reader == reader
      ensures fresh(counter) && fresh(sizeBuf) && fresh(payload)
    {
      this.cipher := cipher;
      this.reader := reader;
      ready, salt, leased, opens := false, [], false, 0;
      counter := new byte[0];
      sizeBuf := new byte[0];
      payload := new byte[MAX_PAYLOAD + MAX_TAG_SIZE];
    }

    method Init() returns (err: Option<ReadError>)
      requires Valid()
      modifies this`ready, this`salt, this`counter, this`sizeBuf, this`opens, reader
      ensures Valid() && ready == err.None?
      ensures old(ready) ==> unchanged(this) && unchanged(reader)
      ensures counter == old(counter) || fresh(counter)
      ensures sizeBuf == old(sizeBuf) || fresh(sizeBuf)
      ensures !old(ready) && ready ==>
                && opens == 0 && |salt| == cipher.saltSize && old(reader.rest) == salt + reader.rest
      ensures reader.met >= old(reader.met) + B(err == Some(ReadFailure))
      ensures err.Some? && err.value != ReadFailure ==>
                err.value == if old(reader.rest) == [] then EndOfStream else Truncated
      ensures err.Some? && err.value != ReadFailure ==> |old(reader.rest)| < cipher.saltSize
    {
      if !ready {
        var data, status := reader.ReadFull(cipher.saltSize);
        if status != Full {
          return Some(match status
                      case FullEof => EndOfStream
                      case UnexpectedEof => Truncated
                      case _ => ReadFailure);
        }
        salt := data;
        counter := new byte[cipher.nonceSize](i => 0);
        sizeBuf := new byte[2 + cipher.overhead];
        ready, opens := true, 0;
        assert counter[..] == Nonce.Nth(cipher.nonceSize, 0);
      }
      return None;
    }

    /** `readMessage`: fills buf[..len] and opens it in place. The counter moves on whenever the block
        arrived, whether or not it opened. */
    method ReadMessage(buf: array<byte>, len: nat) returns (err: Option<ReadError>)
      requires Valid() && ready && len <= buf.Length && buf != counter
      modifies buf, counter, this`opens, reader
      ensures Valid()
      ensures err.None? ==>
                && Leaves(old(reader.rest), len, reader.rest) && opens == old(opens) + 1
                && var text := cipher.OpenNth(salt, old(opens), old(reader.rest)[..len]);
                   text.Some? && |text.value| + cipher.overhead == len && buf[..|text.value|] == text.value
      ensures reader.met >= old(reader.met) + B(err == Some(ReadFailure))
      ensures err.Some? ==>
                match err.value
                case EndOfStream => old(reader.rest) == [] && len > 0
                case Truncated => 0 < |old(reader.rest)| < len
                case Forged => len <= |old(reader.rest)|
                               && cipher.OpenNth(salt, old(opens), old(reader.rest)[..len]).None?
                case ReadFailure => true
    {
      var data, status := reader.ReadFull(len);
      if status != Full {
        return Some(match status
                    case FullEof => EndOfStream
                    case UnexpectedEof => Truncated
                    case _ => ReadFailure);
      }
      LeavesTheRest(data, reader.rest);
      var text := cipher.open(salt, counter[..], data);
      Nonce.Increment(counter);
      opens := opens + 1;
      if text.None? {
        return Some(Forged);
      }
      forall i | 0 <= i < |text.value| {
        buf[i] := text.value[i];
      }
      return None;
    }

    /** The payload block, behind a size block that opened to `sizeText`. */
    method ReadPayloadBlock(size: nat, ghost wire: seq<byte>, ghost sizeText: seq<byte>) returns (r: Opened)
      requires Valid() && ready && !leased && opens > 0 && |sizeText| == 2 && size == Uint16(sizeText) % 0x4000
      requires Leaves(wire, 2 + cipher.overhead, reader.rest)
      requires cipher.OpenNth(salt, opens - 1, wire[..2 + cipher.overhead]) == Some(sizeText)
      modifies this`leased, this`opens, counter, payload, reader
      ensures Valid() && leased == r.Opened?
      ensures r.Opened? ==>
                && r.size == size && opens == old(opens) + 1
                && DecodeChunk(cipher, salt, old(opens) - 1, wire) == Chunk(payload[..r.size], reader.rest)
      ensures reader.met >= old(reader.met) + B(r == Failed(ReadFailure))
      ensures r.Failed? && r.error != ReadFailure ==> DecodeChunk(cipher, salt, old(opens) - 1, wire) == ChunkError(r.error)
    {
      leased := true;
      var sizeWithTag := size + cipher.overhead;
      assert sizeWithTag <= payload.Length;
      ghost var mid := reader.rest;
      var err := ReadMessage(payload, sizeWithTag);
      if err.Some? {
        leased := false;
        SecondBlockFails(cipher, salt, old(opens) - 1, wire, mid, sizeText);
        return Failed(if err.value == EndOfStream then Truncated else err.value);
      }
      BothBlocksOpen(cipher, salt, old(opens) - 1, wire, mid, reader.rest, sizeText, payload[..size]);
      return Opened(size);
    }

    /** ReadChunk once the salt is there: the size block, then the payload block. */
    method ReadBlocks() returns (r: Opened)
      requires Valid() && ready && !leased
      modifies this`leased, this`opens, counter, sizeBuf, payload, reader
      ensures Valid() && leased == r.Opened?
      ensures r.Opened? ==>
                && r.size <= MAX_PAYLOAD && opens == old(opens) + 2
                && DecodeChunk(cipher, salt, old(opens), old(reader.rest)) == Chunk(payload[..r.size], reader.rest)
      ensures reader.met >= old(reader.met) + B(r == Failed(ReadFailure))
      ensures r.Failed? && r.error != ReadFailure ==>
                DecodeChunk(cipher, salt, old(opens), old(reader.rest)) == ChunkError(r.error)
    {
      ghost var wire := reader.rest;
      var sizeLen := 2 + cipher.overhead;
      var err := ReadMessage(sizeBuf, sizeLen);
      if err.Some? {
        return Failed(err.value);
      }
      var size := Uint16(sizeBuf[..2]) % 0x4000;
      r := ReadPayloadBlock(size, wire, sizeBuf[..2]);
    }

    /** The caller has finished with the previous chunk. */
    method ReadChunk() returns (r: Opened)
      requires Valid()
      modifies this`ready, this`salt, this`counter, this`sizeBuf, this`leased, this`opens,
               counter, sizeBuf, payload, reader
      ensures Valid() && leased == r.Opened?
      ensures counter == old(counter) || fresh(counter)
      ensures sizeBuf == old(sizeBuf) || fresh(sizeBuf)
      ensures r.Opened? ==>
                && ready && r.size <= MAX_PAYLOAD
                && NextChunk(cipher, old(ready), old(salt), old(opens), old(reader.rest))
                   == Chunk(payload[..r.size], reader.rest)
                && opens == (if old(ready) then old(opens) else 0) + 2
                && (if old(ready) then salt == old(salt)
                    else |old(reader.rest)| >= cipher.saltSize && salt == old(reader.rest)[..cipher.saltSize])
      ensures reader.met >= old(reader.met) + B(r == Failed(ReadFailure))
      ensures r.Failed? && r.error != ReadFailure ==>
                NextChunk(cipher, old(ready), old(salt), old(opens), old(reader.rest)) == ChunkError(r.error)
    {
      var err := Init();
      if err.Some? {
        return Failed(err.value);
      }
      leased := false;
      ghost var wire := reader.rest;
      assert !old(ready) ==>
          old(reader.rest)[..cipher.saltSize] == salt && old(reader.rest)[cipher.saltSize..] == wire;
      r := ReadBlocks();
    }
  }

  lemma SecondBlockFails(c: Cipher, salt: seq<byte>, k: nat, wire: seq<byte>, mid: seq<byte>, size: seq<byte>)
    requires Leaves(wire, 2 + c.overhead, mid) && |size| == 2
    requires c.OpenNth(salt, k, wire[..2 + c.overhead]) == Some(size)
    ensures var len := Uint16(size) % 0x4000 + c.overhead;
            && (|mid| < len ==> DecodeChunk(c, salt, k, wire) == ChunkError(Truncated))
            && (|mid| >= len && c.OpenNth(salt, k + 1, mid[..len]).None? ==>
                  DecodeChunk(c, salt, k, wire) == ChunkError(Forged))
  {
    assert wire[2 + c.overhead..] == mid;
  }

  lemma BothBlocksOpen(c: Cipher, salt: seq<byte>, k: nat, wire: seq<byte>, mid: seq<byte>, rest: seq<byte>,
                       size: seq<byte>, payload: seq<byte>)
    requires Leaves(wire, 2 + c.overhead, mid) && |size| == 2
    requires c.OpenNth(salt, k, wire[..2 + c.overhead]) == Some(size)
    requires Leaves(mid, Uint16(size) % 0x4000 + c.overhead, rest)
    requires c.OpenNth(salt, k + 1, mid[..Uint16(size) % 0x4000 + c.overhead]) == Some(payload)
    ensures DecodeChunk(c, salt, k, wire) == Chunk(payload, rest)
  {
    assert wire[2 + c.overhead..] == mid;
    assert mid[Uint16(size) % 0x4000 + c.overhead..] == rest;
  }

  /** `readConverter`: turns chunks into reads of any size. The leftover is a slice of the payload
      buffer, which therefore stays leased while there is any. */
  class ReadConverter {
    const cr: ChunkReader
    var from: nat
    var to: nat
    // An error has been returned; what a later call finds is not described.
    ghost var broken: bool

    ghost predicate Valid()
      reads this, cr, cr.counter, cr.sizeBuf
    {
      && cr.Valid() && from <= to <= MAX_PAYLOAD
      && (from < to ==> cr.leased && cr.ready)
    }

    /** Everything this reader will still deliver, and the error that comes after it. */
    ghost function Coming(): (seq<byte>, ReadError)
      requires Valid()
      reads this, cr, cr.counter, cr.sizeBuf, cr.payload, cr.reader
    {
      Prepend(cr.payload[..][from..to], DecodeFrom(cr.cipher, cr.ready, cr.salt, cr.opens, cr.reader.rest))
    }

    constructor (cr: ChunkReader)
      requires cr.Valid() && !cr.ready
      ensures Valid() && this.cr == cr && !broken
      ensures Coming() == DecodeStream(cr.cipher, cr.reader.rest)
    {
      this.cr := cr;
      from, to, broken := 0, 0, false;
      new;
      PrependNothing(DecodeFrom(cr.cipher, cr.ready, cr.salt, cr.opens, cr.reader.rest));
    }

    /** `ensureLeftover`: an error is returned only if there is nothing left to hand out. */
    method EnsureLeftover() returns (err: Option<ReadError>)
      requires Valid()
      modifies this, cr`ready, cr`salt, cr`counter, cr`sizeBuf, cr`leased, cr`opens,
               cr.counter, cr.sizeBuf, cr.payload, cr.reader
      ensures Valid() && broken == (old(broken) || err.Some?)
      ensures cr.counter == old(cr.counter) || fresh(cr.counter)
      ensures cr.sizeBuf == old(cr.sizeBuf) || fresh(cr.sizeBuf)
      ensures err.None? ==> Coming() == old(Coming())
      ensures cr.reader.met >= old(cr.reader.met) + B(err == Some(ReadFailure))
      ensures err.Some? && err.value != ReadFailure ==> old(Coming()) == ([], err.value)
      ensures old(from < to) ==> err.None? && to - from == old(to - from) && unchanged(cr.reader)
      ensures err.None? && old(from == to) ==> |cr.reader.rest| < |old(cr.reader.rest)|
    {
      if from < to {
        return None;
      }
      assert cr.payload[..][from..to] == [] == cr.payload[..][0..0];
      from, to := 0, 0;
      PrependNothing(DecodeFrom(cr.cipher, cr.ready, cr.salt, cr.opens, cr.reader.rest));
      err := Refill();
    }

    method Refill() returns (err: Option<ReadError>)
      requires Valid() && from == to == 0
      modifies this`to, this`broken, cr`ready, cr`salt, cr`counter, cr`sizeBuf, cr`leased, cr`opens,
               cr.counter, cr.sizeBuf, cr.payload, cr.reader
      ensures Valid() && broken == (old(broken) || err.Some?)
      ensures cr.counter == old(cr.counter) || fresh(cr.counter)
      ensures cr.sizeBuf == old(cr.sizeBuf) || fresh(cr.sizeBuf)
      ensures var before := old(DecodeFrom(cr.cipher, cr.ready, cr.salt, cr.opens, cr.reader.rest));
              && (err.None? ==> Coming() == before)
              && (err.Some? && err.value != ReadFailure ==> before == ([], err.value))
      ensures cr.reader.met >= old(cr.reader.met) + B(err == Some(ReadFailure))
      ensures err.None? ==> |cr.reader.rest| < |old(cr.reader.rest)|
    {
      DecodeFromNextChunk(cr.cipher, cr.ready, cr.salt, cr.opens, cr.reader.rest);
      var r := cr.ReadChunk();
      if r.Failed? {
        broken := true;
        return Some(r.error);
      }
      to := r.size;
      return None;
    }

    /** io.Reader.Read: the next bytes of what is coming, in order. */
    method Read(b: array<byte>) returns (n: nat, err: Option<ReadError>)
      requires Valid() && b != cr.counter && b != cr.sizeBuf && b != cr.payload
      modifies this, b, cr`ready, cr`salt, cr`counter, cr`sizeBuf, cr`leased, cr`opens,
               cr.counter, cr.sizeBuf, cr.payload, cr.reader
      ensures Valid() && n <= b.Length
      ensures broken == (old(broken) || err.Some?)
      ensures cr.counter == old(cr.counter) || fresh(cr.counter)
      ensures cr.sizeBuf == old(cr.sizeBuf) || fresh(cr.sizeBuf)
      ensures err.None? ==> old(Coming()) == Prepend(b[..n], Coming())
      ensures cr.reader.met >= old(cr.reader.met) + B(err == Some(ReadFailure))
      ensures err.Some? ==> n == 0 && (err.value != ReadFailure ==> old(Coming()) == ([], err.value))
      ensures err.None? ==> n == b.Length || from == to
      ensures err.None? && old(from == to) ==> |cr.reader.rest| < |old(cr.reader.rest)|
    {
      err := EnsureLeftover();
      if err.Some? {
        return 0, err;
      }
      n := TakeLeftover(b);
    }

    /** Copies as much of the leftover as fits. */
    method TakeLeftover(b: array<byte>) returns (n: nat)
      requires Valid() && b != cr.counter && b != cr.sizeBuf && b != cr.payload
      modifies this`from, b
      ensures Valid() && n == Min(b.Length, old(to - from)) && from == old(from) + n
      ensures old(Coming()) == Prepend(b[..n], Coming())
    {
      n := Min(b.Length, to - from);
      HandOut(cr.payload[..], from, n, to,
              DecodeFrom(cr.cipher, cr.ready, cr.salt, cr.opens, cr.reader.rest));
      forall i | 0 <= i < n {
        b[i] := cr.payload[from + i];
      }
      assert cr.payload[..] == old(cr.payload[..]);
      assert b[..n] == cr.payload[..][from..from + n];
      from := from + n;
    }

    /** Writes the leftover to w, as much of it as w accepts. */
    method SendLeftover(w: Sink) returns (n: nat, ok: bool, ghost sent: seq<byte>)
      requires Valid()
      modifies this`from, w
      ensures Valid() && n == |sent| && w.out == old(w.out) + sent
      ensures old(Coming()) == Prepend(sent, Coming())
      ensures ok ==> from == to
      ensures w.failures == old(w.failures) + B(!ok)
    {
      var leftover := cr.payload[..][from..to];
      n, ok := w.Write(leftover);
      HandOut(cr.payload[..], from, n, to,
              DecodeFrom(cr.cipher, cr.ready, cr.salt, cr.opens, cr.reader.rest));
      sent := leftover[..n];
      assert sent == cr.payload[..][from..from + n];
      from := from + n;
    }

    /** io.WriterTo.WriteTo: everything that is coming goes to w, until the stream ends. */
    method WriteTo(w: Sink) returns (written: nat, err: Option<ReadError>, sinkFailed: bool, ghost sent: seq<byte>)
      requires Valid()
      modifies this, w, cr`ready, cr`salt, cr`counter, cr`sizeBuf, cr`leased, cr`opens,
               cr.counter, cr.sizeBuf, cr.payload, cr.reader
      ensures Valid() && w.out == old(w.out) + sent && written == |sent|
      ensures w.failures == old(w.failures) + B(sinkFailed)
      ensures cr.reader.met >= old(cr.reader.met) + B(err == Some(ReadFailure))
      ensures err != Some(EndOfStream)
      ensures sinkFailed ==> err.None? && old(Coming()) == Prepend(sent, Coming())
      ensures !sinkFailed && err != Some(ReadFailure) ==>
                old(Coming()) == (sent, if err.None? then EndOfStream else err.value)
    {
      written, sent := 0, [];
      ghost var start, coming := w.out, Coming();
      PrependNothing(coming);
      while true
        invariant Valid() && w.out == start + sent && written == |sent|
        invariant w.failures == old(w.failures) && cr.reader.met >= old(cr.reader.met)
        invariant coming == Prepend(sent, Coming())
        invariant cr.counter == old(cr.counter) || fresh(cr.counter)
        invariant cr.sizeBuf == old(cr.sizeBuf) || fresh(cr.sizeBuf)
        decreases |cr.reader.rest|, to - from
      {
        err := EnsureLeftover();
        if err.Some? {
          assert sent + [] == sent;
          err := if err.value == EndOfStream then None else err;
          return written, err, false, sent;
        }
        ghost var more;
        var n, ok;
        n, ok, more := SendLeftover(w);
        PrependTwice(sent, more, Coming());
        written := written + n;
        sent := sent + more;
        if !ok {
          return written, None, true, sent;
        }
      }
    }
  }

  lemma HandOut(payload: seq<byte>, from: nat, n: nat, to: nat, rest: (seq<byte>, ReadError))
    requires from + n <= to <= |payload|
    ensures Prepend(payload[from..to], rest)
         == Prepend(payload[from..from + n], Prepend(payload[from + n..to], rest))
  {
    assert payload[from..to] == payload[from..from + n] + payload[from + n..to];
    PrependTwice(payload[from..from + n], payload[from + n..to], rest);
  }
}
