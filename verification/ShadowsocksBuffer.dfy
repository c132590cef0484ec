/** The writer's one buffer as a value: salt | size, tag | payload, tag. Where each step writes, and
    what the bytes say afterwards. */
module ShadowsocksBuffer {
  import opened Bytes
  import opened ShadowsocksFormat
  import Nonce

  /** b with the bytes from `at` on replaced by d. */
  function Overwrite(b: seq<byte>, at: nat, d: seq<byte>): (r: seq<byte>)
    requires at + |d| <= |b|
    ensures |r| == |b|
  {
    seq(|b|, i requires 0 <= i < |b| => if at <= i < at + |d| then d[i - at] else b[i])
  }

  lemma OverwriteBefore(b: seq<byte>, at: nat, d: seq<byte>, lo: nat, hi: nat)
    requires lo <= hi <= at && at + |d| <= |b|
    ensures Overwrite(b, at, d)[lo..hi] == b[lo..hi]
  {}

  lemma OverwriteAfter(b: seq<byte>, at: nat, d: seq<byte>, lo: nat, hi: nat)
    requires at + |d| <= lo <= hi <= |b|
    ensures Overwrite(b, at, d)[lo..hi] == b[lo..hi]
  {}

  lemma OverwriteInside(b: seq<byte>, at: nat, d: seq<byte>)
    requires at + |d| <= |b|
    ensures Overwrite(b, at, d)[at..at + |d|] == d
  {}

  lemma OverwriteTwice(b: seq<byte>, at: nat, d: seq<byte>, e: seq<byte>)
    requires at + |e| <= |b| && |d| <= |e|
    ensures Overwrite(Overwrite(b, at, d), at, e) == Overwrite(b, at, e)
  {}

  /** The first n bytes of data are in the buffer from `lo` on. */
  ghost predicate Arrived(b: seq<byte>, lo: nat, data: seq<byte>, n: nat) {
    n <= |data| && lo + |data| <= |b| && forall i :: 0 <= i < n ==> b[lo + i] == data[i]
  }

  lemma ArrivedSurvives(b: seq<byte>, b': seq<byte>, safe: nat, lo: nat, data: seq<byte>, n: nat)
    requires |b| == |b'| && safe <= lo && safe <= |b| && b[safe..] == b'[safe..]
    requires Arrived(b, lo, data, n)
    ensures Arrived(b', lo, data, n)
  {
    forall i | 0 <= i < n
      ensures b'[lo + i] == data[i]
    {
      assert b[lo + i] == b[safe..][lo + i - safe] && b'[lo + i] == b'[safe..][lo + i - safe];
    }
  }

  lemma OneMoreArrived(b: seq<byte>, lo: nat, data: seq<byte>, n: nat)
    requires Arrived(b, lo, data, n) && n < |data|
    ensures Arrived(Overwrite(b, lo + n, [data[n]]), lo, data, n + 1)
  {}

  lemma AllArrived(b: seq<byte>, lo: nat, data: seq<byte>)
    requires Arrived(b, lo, data, |data|)
    ensures b[lo..lo + |data|] == data
  {}

  method CopyInto(a: array<byte>, at: nat, d: seq<byte>)
    requires at + |d| <= a.Length
    modifies a
    ensures a[..] == Overwrite(old(a[..]), at, d)
  {
    forall i | 0 <= i < |d| {
      a[at + i] := d[i];
    }
  }

  function SizeStart(c: Cipher): nat { c.saltSize }

  function PayloadStart(c: Cipher): nat { c.saltSize + 2 + c.overhead }

  function BufferSize(c: Cipher): nat { PayloadStart(c) + MAX_PAYLOAD + c.overhead }

  /** The first byte a concurrent Flush of `pending` bytes leaves alone. */
  function SafeStart(c: Cipher, pending: nat): nat { PayloadStart(c) + pending + c.overhead }

  datatype Memory = Memory(buf: seq<byte>, counter: seq<byte>, pending: nat)

  /** The buffer is laid out for the salt, and the counter stands at the seal that chunk number k
      will use first. */
  ghost predicate Layout(c: Cipher, m: Memory, salt: seq<byte>, k: nat) {
    && |salt| == c.saltSize
    && |m.buf| == BufferSize(c)
    && m.pending <= MAX_PAYLOAD
    && m.buf[..c.saltSize] == salt
    && m.counter == Nonce.Nth(c.nonceSize, 2 * k)
  }

  function Buffered(c: Cipher, m: Memory): seq<byte>
    requires |m.buf| == BufferSize(c) && m.pending <= MAX_PAYLOAD
  {
    m.buf[PayloadStart(c)..PayloadStart(c) + m.pending]
  }

  function Enqueued(c: Cipher, m: Memory, p: seq<byte>): Memory
    requires |m.buf| == BufferSize(c) && m.pending + |p| <= MAX_PAYLOAD
  {
    m.(buf := Overwrite(m.buf, PayloadStart(c) + m.pending, p), pending := m.pending + |p|)
  }

  lemma EnqueuedKeepsLayout(c: Cipher, m: Memory, salt: seq<byte>, k: nat, p: seq<byte>)
    requires Layout(c, m, salt, k) && m.pending + |p| <= MAX_PAYLOAD
    ensures Layout(c, Enqueued(c, m, p), salt, k)
    ensures Buffered(c, Enqueued(c, m, p)) == Buffered(c, m) + p
  {
    var at := PayloadStart(c) + m.pending;
    OverwriteBefore(m.buf, at, p, 0, c.saltSize);
    OverwriteBefore(m.buf, at, p, PayloadStart(c), at);
    OverwriteInside(m.buf, at, p);
    var r := Overwrite(m.buf, at, p);
    assert r[PayloadStart(c)..at + |p|] == r[PayloadStart(c)..at] + r[at..at + |p|];
  }

  /** Bytes arriving beyond the reach of a Flush change nothing a Flush looks at. */
  lemma ArrivalIsOutOfReach(c: Cipher, m: Memory, salt: seq<byte>, k: nat, at: nat, d: seq<byte>)
    requires Layout(c, m, salt, k) && SafeStart(c, m.pending) <= at && at + |d| <= BufferSize(c)
    ensures Layout(c, m.(buf := Overwrite(m.buf, at, d)), salt, k)
    ensures Buffered(c, m.(buf := Overwrite(m.buf, at, d))) == Buffered(c, m)
  {
    OverwriteBefore(m.buf, at, d, 0, c.saltSize);
    OverwriteBefore(m.buf, at, d, PayloadStart(c), PayloadStart(c) + m.pending);
  }

  /** The buffer once both blocks of chunk number k have been sealed in place. */
  function SealedBuffer(c: Cipher, m: Memory, salt: seq<byte>, k: nat): seq<byte>
    requires c.Sound() && |m.buf| == BufferSize(c) && m.pending <= MAX_PAYLOAD
  {
    Overwrite(
      Overwrite(m.buf, SizeStart(c), c.SealNth(salt, 2 * k, BigEndian16(m.pending))),
      PayloadStart(c), c.SealNth(salt, 2 * k + 1, Buffered(c, m)))
  }

  /** The three steps that lead to it: write the size, seal it, seal the payload. */
  lemma SealingSteps(c: Cipher, m: Memory, salt: seq<byte>, k: nat)
    requires c.Sound() && Layout(c, m, salt, k)
    ensures var size := BigEndian16(m.pending);
            var a, p := c.SealNth(salt, 2 * k, size), c.SealNth(salt, 2 * k + 1, Buffered(c, m));
            var b1 := Overwrite(m.buf, SizeStart(c), size);
            var b2 := Overwrite(b1, SizeStart(c), a);
            && b1[SizeStart(c)..SizeStart(c) + 2] == size
            && b2[PayloadStart(c)..PayloadStart(c) + m.pending] == Buffered(c, m)
            && Overwrite(b2, PayloadStart(c), p) == SealedBuffer(c, m, salt, k)
  {
    var size := BigEndian16(m.pending);
    var a := c.SealNth(salt, 2 * k, size);
    OverwriteInside(m.buf, SizeStart(c), size);
    OverwriteTwice(m.buf, SizeStart(c), size, a);
    OverwriteAfter(m.buf, SizeStart(c), a, PayloadStart(c), PayloadStart(c) + m.pending);
  }

  lemma SealedBufferContents(c: Cipher, m: Memory, salt: seq<byte>, k: nat)
    requires c.Sound() && Layout(c, m, salt, k)
    ensures var b := SealedBuffer(c, m, salt, k); var end := SafeStart(c, m.pending);
            && b[..c.saltSize] == salt
            && b[c.saltSize..end] == c.Sealed(salt, k, Buffered(c, m))
            && b[0..end] == salt + c.Sealed(salt, k, Buffered(c, m))
            && b[end..] == m.buf[end..]
  {
    var a := c.SealNth(salt, 2 * k, BigEndian16(m.pending));
    var p := c.SealNth(salt, 2 * k + 1, Buffered(c, m));
    var start, end := PayloadStart(c), SafeStart(c, m.pending);
    var b1 := Overwrite(m.buf, SizeStart(c), a);
    var b := Overwrite(b1, start, p);
    OverwriteInside(m.buf, SizeStart(c), a);
    OverwriteBefore(b1, start, p, c.saltSize, start);
    OverwriteInside(b1, start, p);
    assert b[c.saltSize..end] == b[c.saltSize..start] + b[start..end];
    OverwriteBefore(m.buf, SizeStart(c), a, 0, c.saltSize);
    OverwriteBefore(b1, start, p, 0, c.saltSize);
    assert b[0..end] == b[..c.saltSize] + b[c.saltSize..end];
    OverwriteAfter(m.buf, SizeStart(c), a, end, |b|);
    OverwriteAfter(b1, start, p, end, |b|);
  }

  /** The books: the chunks and the unsent bytes are exactly what was accepted, in order, and,
      unless a write failed, exactly the frames of the chunks are out, each in one write. */
  ghost predicate Balanced(c: Cipher, salt: seq<byte>, log: Log, accepted: seq<byte>,
                           unsent: seq<byte>, failed: bool, calls: seq<seq<byte>>, out: seq<byte>)
  {
    && log.Good()
    && accepted == log.Plain() + unsent
    && (!failed ==> out == log.Wire(c, salt) && calls == log.Writes(c, salt))
  }

  /** Accepting p keeps the layout and the books. */
  lemma AcceptingKeeps(c: Cipher, m: Memory, salt: seq<byte>, log: Log, accepted: seq<byte>,
                       failed: bool, calls: seq<seq<byte>>, out: seq<byte>, p: seq<byte>)
    requires Layout(c, m, salt, log.Count()) && m.pending + |p| <= MAX_PAYLOAD
    requires Balanced(c, salt, log, accepted, Buffered(c, m), failed, calls, out)
    ensures var m' := Enqueued(c, m, p);
            && Layout(c, m', salt, log.Count())
            && Balanced(c, salt, log, accepted + p, Buffered(c, m'), failed, calls, out)
  {
    EnqueuedKeepsLayout(c, m, salt, log.Count(), p);
    Regroup(log.Plain(), Buffered(c, m), p);
  }

  lemma BalancedAfterSending(c: Cipher, salt: seq<byte>, log: Log, accepted: seq<byte>,
                             unsent: seq<byte>, failed: bool, calls: seq<seq<byte>>, out: seq<byte>,
                             failed': bool, calls': seq<seq<byte>>, out': seq<byte>)
    requires Balanced(c, salt, log, accepted, unsent, failed, calls, out) && GoodChunk(unsent)
    requires var frame := c.Frame(salt, log.Count(), unsent);
             !failed' ==> !failed && out' == out + frame && calls' == calls + [frame]
    ensures Balanced(c, salt, Then(log, unsent), accepted, [], failed', calls', out')
  {}

  /** What the writer sends for the next chunk: the salt too when the counter reads zero. */
  lemma SentBytesAreAFrame(c: Cipher, m: Memory, salt: seq<byte>, k: nat, start: nat)
    requires c.Sound() && Layout(c, m, salt, k)
    requires start == if Nonce.Value(m.counter) == 0 then 0 else c.saltSize
    ensures SealedBuffer(c, m, salt, k)[start..SafeStart(c, m.pending)] == c.Frame(salt, k, Buffered(c, m))
  {
    SealedBufferContents(c, m, salt, k);
  }

  lemma SealedBufferKeepsLayout(c: Cipher, m: Memory, salt: seq<byte>, k: nat)
    requires c.Sound() && Layout(c, m, salt, k)
    ensures var m' := Memory(SealedBuffer(c, m, salt, k), Nonce.Nth(c.nonceSize, 2 * (k + 1)), 0);
            && Layout(c, m', salt, k + 1) && Buffered(c, m') == []
            && m'.buf[SafeStart(c, m.pending)..] == m.buf[SafeStart(c, m.pending)..]
  {
    SealedBufferContents(c, m, salt, k);
  }
}
