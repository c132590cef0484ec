/** The Shadowsocks AEAD stream: salt, then per chunk a sealed length and a sealed payload. The
    cipher is any seal/open pair that undoes itself; seals are numbered from zero. */
module ShadowsocksFormat {
  import opened Bytes
  import Nonce

  const MAX_PAYLOAD := 0x3FFF

  /** An AEAD construction: `seal` and `open` take the salt the session key is derived from, the
      nonce and the text. */
  datatype Cipher = Cipher(
    saltSize: nat, nonceSize: nat, overhead: nat,
    seal: (seq<byte>, seq<byte>, seq<byte>) -> seq<byte>,
    open: (seq<byte>, seq<byte>, seq<byte>) -> Option<seq<byte>>)
  {
    ghost predicate Sound() {
      && saltSize > 0 && nonceSize > 0
      && (forall salt, nonce, text ::
            && |seal(salt, nonce, text)| == |text| + overhead
            && open(salt, nonce, seal(salt, nonce, text)) == Some(text))
      && (forall salt, nonce, text ::
            open(salt, nonce, text).Some? ==> |text| == |open(salt, nonce, text).value| + overhead)
    }

    /** The i-th seal of a session. */
    function SealNth(salt: seq<byte>, i: nat, text: seq<byte>): seq<byte> {
      seal(salt, Nonce.Nth(nonceSize, i), text)
    }

    function OpenNth(salt: seq<byte>, i: nat, text: seq<byte>): Option<seq<byte>> {
      open(salt, Nonce.Nth(nonceSize, i), text)
    }

    /** The counter reads zero when chunk number i is about to be sealed. */
    predicate CounterIsZero(i: nat) {
      Nonce.Value(Nonce.Nth(nonceSize, 2 * i)) == 0
    }

    function SaltIfFresh(salt: seq<byte>, i: nat): seq<byte> {
      if CounterIsZero(i) then salt else []
    }

    /** Chunk number i as the writer sends it: the salt whenever the nonce counter reads zero,
        then the sealed big-endian length, then the sealed payload. */
    function Frame(salt: seq<byte>, i: nat, chunk: seq<byte>): seq<byte> {
      SaltIfFresh(salt, i) + Sealed(salt, i, chunk)
    }

    function Sealed(salt: seq<byte>, i: nat, chunk: seq<byte>): seq<byte> {
      SealNth(salt, 2 * i, BigEndian16(|chunk|)) + SealNth(salt, 2 * i + 1, chunk)
    }

    /** Everything the writer sends for chunks i, i+1, ... */
    ghost function Frames(salt: seq<byte>, i: nat, chunks: seq<seq<byte>>): seq<byte>
      decreases |chunks|
    {
      if chunks == [] then [] else Frame(salt, i, chunks[0]) + Frames(salt, i + 1, chunks[1..])
    }

    /** The same without any salt. */
    ghost function Body(salt: seq<byte>, i: nat, chunks: seq<seq<byte>>): seq<byte>
      decreases |chunks|
    {
      if chunks == [] then [] else Sealed(salt, i, chunks[0]) + Body(salt, i + 1, chunks[1..])
    }

    lemma {:induction false} FramesSnoc(salt: seq<byte>, i: nat, chunks: seq<seq<byte>>, x: seq<byte>)
      ensures Frames(salt, i, chunks + [x]) == Frames(salt, i, chunks) + Frame(salt, i + |chunks|, x)
      decreases |chunks|
    {
      if chunks == [] {
        assert [x][1..] == [];
        assert Frames(salt, i, [x]) == Frame(salt, i, x) + Frames(salt, i + 1, []);
      } else {
        assert (chunks + [x])[1..] == chunks[1..] + [x];
        FramesSnoc(salt, i + 1, chunks[1..], x);
      }
    }
  }

  predicate GoodChunk(chunk: seq<byte>) {
    0 < |chunk| <= MAX_PAYLOAD
  }

  /** How many salt bytes the frames i, i+1, ..., i+n-1 carry. */
  ghost function SaltBytes(c: Cipher, salt: seq<byte>, i: nat, n: nat): nat
    decreases n
  {
    if n == 0 then 0 else |c.SaltIfFresh(salt, i)| + SaltBytes(c, salt, i + 1, n - 1)
  }

  lemma CounterIsZeroIffPeriod(c: Cipher, i: nat)
    ensures c.CounterIsZero(i) <==> 2 * i % Nonce.Period(c.nonceSize) == 0
  {
    Nonce.ValueOfNth(c.nonceSize, 2 * i);
  }

  lemma {:induction false} LengthOfFrames(c: Cipher, salt: seq<byte>, i: nat, chunks: seq<seq<byte>>)
    ensures |c.Frames(salt, i, chunks)| == |c.Body(salt, i, chunks)| + SaltBytes(c, salt, i, |chunks|)
    decreases |chunks|
  {
    if chunks == [] {
    } else {
      LengthOfFrames(c, salt, i + 1, chunks[1..]);
      var x := chunks[0];
      assert |c.Frame(salt, i, x)| == |c.SaltIfFresh(salt, i)| + |c.Sealed(salt, i, x)|;
    }
  }

  lemma {:induction false} NoSaltWithinPeriod(c: Cipher, salt: seq<byte>, i: nat, chunks: seq<seq<byte>>)
    requires i > 0 && 2 * (i + |chunks|) <= Nonce.Period(c.nonceSize)
    ensures c.Frames(salt, i, chunks) == c.Body(salt, i, chunks)
    decreases |chunks|
  {
    if chunks == [] {
    } else {
      CounterIsZeroIffPeriod(c, i);
      Nonce.Residue(2 * i, 0, Nonce.Period(c.nonceSize), 2 * i);
      NoSaltWithinPeriod(c, salt, i + 1, chunks[1..]);
    }
  }

  lemma {:induction false} SaltBytesSplit(c: Cipher, salt: seq<byte>, i: nat, m: nat, n: nat)
    ensures SaltBytes(c, salt, i, m + n) == SaltBytes(c, salt, i, m) + SaltBytes(c, salt, i + m, n)
    decreases m
  {
    if m == 0 {
    } else {
      SaltBytesSplit(c, salt, i + 1, m - 1, n);
    }
  }

  lemma FirstFrame(c: Cipher, salt: seq<byte>, chunks: seq<seq<byte>>)
    requires c.CounterIsZero(0) && 0 < |chunks| && 2 * |chunks| <= Nonce.Period(c.nonceSize)
    ensures c.Frames(salt, 0, chunks) == salt + c.Body(salt, 0, chunks)
  {
    NoSaltWithinPeriod(c, salt, 1, chunks[1..]);
  }

  /** The salt opens the stream and never appears again exactly as long as the two nonces each
      chunk takes do not exhaust the counter: at most 2^95 chunks for 12-byte nonces. */
  lemma SaltLeadsOnce(c: Cipher, salt: seq<byte>, chunks: seq<seq<byte>>)
    requires |salt| == c.saltSize && c.saltSize > 0 && c.nonceSize > 0
    ensures c.Frames(salt, 0, chunks) == salt + c.Body(salt, 0, chunks)
       <==> 0 < |chunks| && 2 * |chunks| <= Nonce.Period(c.nonceSize)
  {
    if chunks == [] {
      assert |c.Frames(salt, 0, chunks)| == 0;
    } else if 2 * |chunks| <= Nonce.Period(c.nonceSize) {
      var h := HalfPeriod(c);
      FirstFrame(c, salt, chunks);
    } else {
      SaltReturns(c, salt, chunks);
    }
  }

  lemma SaltBytesAtZero(c: Cipher, salt: seq<byte>, i: nat, n: nat)
    requires n > 0 && c.CounterIsZero(i)
    ensures SaltBytes(c, salt, i, n) >= |salt|
  {}

  lemma SaltReturns(c: Cipher, salt: seq<byte>, chunks: seq<seq<byte>>)
    requires |salt| == c.saltSize && c.saltSize > 0 && c.nonceSize > 0
    requires 2 * |chunks| > Nonce.Period(c.nonceSize)
    ensures |c.Frames(salt, 0, chunks)| > |salt + c.Body(salt, 0, chunks)|
  {
    var n := |chunks|;
    var h := HalfPeriod(c);
    assert SaltBytes(c, salt, 0, n) > |salt| by {
      SaltBytesSplit(c, salt, 0, h, n - h);
      SaltBytesAtZero(c, salt, 0, h);
      SaltBytesAtZero(c, salt, h, n - h);
    }
    LengthOfFrames(c, salt, 0, chunks);
  }

  lemma HalfPeriod(c: Cipher) returns (h: nat)
    requires c.nonceSize > 0
    ensures h > 0 && 2 * h == Nonce.Period(c.nonceSize)
    ensures c.CounterIsZero(0) && c.CounterIsZero(h)
  {
    h := 128 * Nonce.Period(c.nonceSize - 1);
    CounterIsZeroAtHalf(c, 0);
    CounterIsZeroAtHalf(c, h);
  }

  lemma CounterIsZeroAtHalf(c: Cipher, h: nat)
    requires h == 0 || 2 * h == Nonce.Period(c.nonceSize)
    ensures c.CounterIsZero(h)
  {
    CounterIsZeroIffPeriod(c, h);
    Nonce.Residue(2 * h, if h == 0 then 0 else 1, Nonce.Period(c.nonceSize), 0);
  }

  datatype ReadError = EndOfStream | Truncated | Forged | ReadFailure

  datatype ChunkResult = Chunk(payload: seq<byte>, rest: seq<byte>) | ChunkError(error: ReadError)

  /** What a reader whose counter stands at seal number k makes of the bytes still to come: the
      outcome of one ReadChunk, for any bytes whatever. */
  function DecodeChunk(c: Cipher, salt: seq<byte>, k: nat, wire: seq<byte>): (r: ChunkResult)
    ensures r.Chunk? ==> |r.rest| < |wire|
  {
    var sizeLen := 2 + c.overhead;
    if wire == [] then ChunkError(EndOfStream)
    else if |wire| < sizeLen then ChunkError(Truncated)
    else
      var size := c.OpenNth(salt, k, wire[..sizeLen]);
      if size.None? || |size.value| != 2 then ChunkError(Forged)
      else
        var payloadLen := Uint16(size.value) % 0x4000 + c.overhead;
        var tail := wire[sizeLen..];
        if |tail| < payloadLen then ChunkError(Truncated)
        else
          var payload := c.OpenNth(salt, k + 1, tail[..payloadLen]);
          if payload.None? then ChunkError(Forged)
          else Chunk(payload.value, tail[payloadLen..])
  }

  /** All the plaintext a reader gets out of a stream, and the error that ends it. */
  function Decode(c: Cipher, salt: seq<byte>, k: nat, wire: seq<byte>): (seq<byte>, ReadError)
    decreases |wire|
  {
    match DecodeChunk(c, salt, k, wire)
    case ChunkError(e) => ([], e)
    case Chunk(payload, rest) =>
      var (more, e) := Decode(c, salt, k + 2, rest);
      (payload + more, e)
  }

  /** The reader starts by taking the salt off the stream. */
  function DecodeStream(c: Cipher, wire: seq<byte>): (seq<byte>, ReadError) {
    if wire == [] then ([], EndOfStream)
    else if |wire| < c.saltSize then ([], Truncated)
    else Decode(c, wire[..c.saltSize], 0, wire[c.saltSize..])
  }

  /** p comes first. */
  ghost function Prepend(p: seq<byte>, d: (seq<byte>, ReadError)): (seq<byte>, ReadError) {
    (p + d.0, d.1)
  }

  lemma PrependNothing(d: (seq<byte>, ReadError))
    ensures Prepend([], d) == d
  {
    assert [] + d.0 == d.0;
  }

  lemma PrependEnd(p: seq<byte>, e: ReadError)
    ensures Prepend(p, ([], e)) == (p, e)
  {
    assert p + [] == p;
  }

  lemma PrependTwice(p: seq<byte>, q: seq<byte>, d: (seq<byte>, ReadError))
    ensures Prepend(p + q, d) == Prepend(p, Prepend(q, d))
  {
    assert (p + q) + d.0 == p + (q + d.0);
  }

  /** In bytes, for 12-byte nonces: the first chunk brings the salt along, and each chunk is its length in
      two bytes under one nonce and its text under the next. */
  lemma FrameBytes(c: Cipher, salt: seq<byte>, x: seq<byte>)
    requires c.nonceSize == 12 && 0 < |x| <= 16383
    ensures GoodChunk(x)
    ensures c.Frame(salt, 0, x)
         == salt + (c.seal(salt, [0] + [0, 0, 0, 0, 0, 0, 0, 0, 0, 0, 0], [|x| / 256, |x| % 256])
                    + c.seal(salt, [1] + [0, 0, 0, 0, 0, 0, 0, 0, 0, 0, 0], x))
    ensures c.Frame(salt, 1, x)
         == c.seal(salt, [2] + [0, 0, 0, 0, 0, 0, 0, 0, 0, 0, 0], [|x| / 256, |x| % 256])
            + c.seal(salt, [3] + [0, 0, 0, 0, 0, 0, 0, 0, 0, 0, 0], x)
  {
    Nonce.FirstOf12();
  }

  /** A length block counts with its low 14 bits. */
  lemma AnyLengthIsRead(c: Cipher, salt: seq<byte>, k: nat, hi: byte, lo: byte, x: seq<byte>, rest: seq<byte>)
    requires c.Sound() && |x| == (256 * (hi as int) + lo) % 16384
    ensures DecodeChunk(c, salt, k, c.SealNth(salt, k, [hi, lo]) + c.SealNth(salt, k + 1, x) + rest) == Chunk(x, rest)
  {
    var a, b := c.SealNth(salt, k, [hi, lo]), c.SealNth(salt, k + 1, x);
    var wire := a + b + rest;
    assert wire[..|a|] == a && wire[|a|..] == b + rest;
    assert (b + rest)[..|b|] == b && (b + rest)[|b|..] == rest;
    BigEndianBytes(hi, lo);
  }

  lemma DecodeSealed(c: Cipher, salt: seq<byte>, i: nat, chunk: seq<byte>, rest: seq<byte>)
    requires c.Sound() && GoodChunk(chunk)
    ensures DecodeChunk(c, salt, 2 * i, c.Sealed(salt, i, chunk) + rest) == Chunk(chunk, rest)
  {
    var a := c.SealNth(salt, 2 * i, BigEndian16(|chunk|));
    var b := c.SealNth(salt, 2 * i + 1, chunk);
    var wire := c.Sealed(salt, i, chunk) + rest;
    assert wire[..|a|] == a;
    assert wire[|a|..] == b + rest;
    assert (b + rest)[..|b|] == b && (b + rest)[|b|..] == rest;
    Uint16RoundTrip(|chunk|);
  }

  lemma DecodeStep(c: Cipher, salt: seq<byte>, i: nat, chunk: seq<byte>, rest: seq<byte>)
    requires c.Sound() && GoodChunk(chunk)
    ensures Decode(c, salt, 2 * i, c.Sealed(salt, i, chunk) + rest) == Prepend(chunk, Decode(c, salt, 2 * (i + 1), rest))
  {
    DecodeSealed(c, salt, i, chunk, rest);
  }

  /** Behind sealed chunks, whatever follows is read with the counter that comes next. */
  ghost predicate ReadsOn(c: Cipher, salt: seq<byte>, i: nat, chunks: seq<seq<byte>>, tail: seq<byte>) {
    Decode(c, salt, 2 * i, c.Body(salt, i, chunks) + tail)
    == Prepend(Flatten(chunks), Decode(c, salt, 2 * (i + |chunks|), tail))
  }

  lemma NothingBefore(c: Cipher, salt: seq<byte>, i: nat, tail: seq<byte>)
    ensures ReadsOn(c, salt, i, [], tail)
  {
    assert [] + tail == tail;
    PrependNothing(Decode(c, salt, 2 * i, tail));
  }

  lemma OneMoreBefore(c: Cipher, salt: seq<byte>, i: nat, chunks: seq<seq<byte>>, tail: seq<byte>)
    requires c.Sound() && chunks != [] && GoodChunk(chunks[0]) && ReadsOn(c, salt, i + 1, chunks[1..], tail)
    ensures ReadsOn(c, salt, i, chunks, tail)
  {
    var later := c.Body(salt, i + 1, chunks[1..]) + tail;
    assert Decode(c, salt, 2 * i, c.Body(salt, i, chunks) + tail) == Prepend(chunks[0], Decode(c, salt, 2 * (i + 1), later)) by {
      Regroup(c.Sealed(salt, i, chunks[0]), c.Body(salt, i + 1, chunks[1..]), tail);
      DecodeStep(c, salt, i, chunks[0], later);
    }
    PrependTwice(chunks[0], Flatten(chunks[1..]), Decode(c, salt, 2 * (i + |chunks|), tail));
  }

  lemma {:induction false} DecodeAfter(c: Cipher, salt: seq<byte>, i: nat, chunks: seq<seq<byte>>, tail: seq<byte>)
    requires c.Sound() && forall x <- chunks :: GoodChunk(x)
    ensures ReadsOn(c, salt, i, chunks, tail)
    decreases |chunks|
  {
    if chunks == [] {
      NothingBefore(c, salt, i, tail);
    } else {
      DecodeAfter(c, salt, i + 1, chunks[1..], tail);
      OneMoreBefore(c, salt, i, chunks, tail);
    }
  }

  lemma DecodeBody(c: Cipher, salt: seq<byte>, i: nat, chunks: seq<seq<byte>>)
    requires c.Sound() && forall x <- chunks :: GoodChunk(x)
    ensures Decode(c, salt, 2 * i, c.Body(salt, i, chunks)) == (Flatten(chunks), EndOfStream)
  {
    DecodeAfter(c, salt, i, chunks, []);
    assert c.Body(salt, i, chunks) + [] == c.Body(salt, i, chunks);
    PrependEnd(Flatten(chunks), EndOfStream);
  }

  /** A length block that does not open ends the stream as forged, right after the chunks before it. */
  lemma ForgedLength(c: Cipher, salt: seq<byte>, i: nat, chunks: seq<seq<byte>>, block: seq<byte>, rest: seq<byte>)
    requires c.Sound() && forall x <- chunks :: GoodChunk(x)
    requires |block| == 2 + c.overhead && c.OpenNth(salt, 2 * (i + |chunks|), block).None?
    ensures Decode(c, salt, 2 * i, c.Body(salt, i, chunks) + (block + rest)) == (Flatten(chunks), Forged)
  {
    assert (block + rest)[..|block|] == block;
    DecodeAfter(c, salt, i, chunks, block + rest);
    PrependEnd(Flatten(chunks), Forged);
  }

  /** And so does a payload block. */
  lemma ForgedPayload(c: Cipher, salt: seq<byte>, i: nat, chunks: seq<seq<byte>>, hi: byte, lo: byte,
                      block: seq<byte>, rest: seq<byte>)
    requires c.Sound() && forall x <- chunks :: GoodChunk(x)
    requires |block| == (256 * (hi as int) + lo) % 16384 + c.overhead
    requires c.OpenNth(salt, 2 * (i + |chunks|) + 1, block).None?
    ensures Decode(c, salt, 2 * i, c.Body(salt, i, chunks) + (c.SealNth(salt, 2 * (i + |chunks|), [hi, lo]) + (block + rest)))
         == (Flatten(chunks), Forged)
  {
    var a := c.SealNth(salt, 2 * (i + |chunks|), [hi, lo]);
    var wire := a + (block + rest);
    assert wire[..|a|] == a && wire[|a|..] == block + rest && (block + rest)[..|block|] == block;
    BigEndianBytes(hi, lo);
    DecodeAfter(c, salt, i, chunks, wire);
    PrependEnd(Flatten(chunks), Forged);
  }

  /** Reading back what was framed gives the chunks in order and then a clean end of stream. */
  lemma FramesRoundTrip(c: Cipher, salt: seq<byte>, chunks: seq<seq<byte>>)
    requires c.Sound() && |salt| == c.saltSize
    requires forall x <- chunks :: GoodChunk(x)
    requires 2 * |chunks| <= Nonce.Period(c.nonceSize)
    ensures DecodeStream(c, c.Frames(salt, 0, chunks)) == (Flatten(chunks), EndOfStream)
  {
    if chunks != [] {
      SaltLeadsOnce(c, salt, chunks);
      var wire := c.Frames(salt, 0, chunks);
      assert wire[..|salt|] == salt && wire[|salt|..] == c.Body(salt, 0, chunks);
      DecodeBody(c, salt, 0, chunks);
    }
  }

  /** What is short of a sealed chunk is truncated, or is nothing. */
  lemma CutChunk(c: Cipher, salt: seq<byte>, i: nat, chunk: seq<byte>, rest: seq<byte>, n: nat)
    requires c.Sound() && GoodChunk(chunk) && n < |c.Sealed(salt, i, chunk)|
    ensures DecodeChunk(c, salt, 2 * i, (c.Sealed(salt, i, chunk) + rest)[..n])
         == ChunkError(if n == 0 then EndOfStream else Truncated)
  {
    var a := c.SealNth(salt, 2 * i, BigEndian16(|chunk|));
    var wire := (c.Sealed(salt, i, chunk) + rest)[..n];
    if n >= 2 + c.overhead {
      assert wire[..|a|] == a;
      Uint16RoundTrip(|chunk|);
    }
  }

  /** Of the n bytes that are left, exactly the first j chunks are there as a whole. */
  ghost predicate CutAfter(c: Cipher, salt: seq<byte>, i: nat, chunks: seq<seq<byte>>, n: nat, j: nat) {
    && j <= |chunks| && |c.Body(salt, i, chunks[..j])| <= n
    && (j < |chunks| ==> n < |c.Body(salt, i, chunks[..j + 1])|)
  }

  /** They are read, and then a clean end exactly if nothing else is there. */
  ghost function Kept(c: Cipher, salt: seq<byte>, i: nat, chunks: seq<seq<byte>>, n: nat, j: nat): (seq<byte>, ReadError)
    requires j <= |chunks|
  {
    (Flatten(chunks[..j]), if n == |c.Body(salt, i, chunks[..j])| then EndOfStream else Truncated)
  }

  lemma BodyTake(c: Cipher, salt: seq<byte>, i: nat, chunks: seq<seq<byte>>, j: nat)
    requires j < |chunks|
    ensures Flatten(chunks[..j + 1]) == chunks[0] + Flatten(chunks[1..][..j])
    ensures |c.Body(salt, i, chunks[..j + 1])| == |c.Sealed(salt, i, chunks[0])| + |c.Body(salt, i + 1, chunks[1..][..j])|
  {
    assert chunks[..j + 1][1..] == chunks[1..][..j];
  }

  lemma CutLater(c: Cipher, salt: seq<byte>, i: nat, chunks: seq<seq<byte>>, n: nat, j: nat)
    requires chunks != [] && n >= |c.Sealed(salt, i, chunks[0])|
    requires CutAfter(c, salt, i + 1, chunks[1..], n - |c.Sealed(salt, i, chunks[0])|, j)
    ensures CutAfter(c, salt, i, chunks, n, j + 1)
    ensures var d := Kept(c, salt, i + 1, chunks[1..], n - |c.Sealed(salt, i, chunks[0])|, j);
            Kept(c, salt, i, chunks, n, j + 1) == (chunks[0] + d.0, d.1)
  {
    BodyTake(c, salt, i, chunks, j);
    if j + 1 < |chunks| {
      BodyTake(c, salt, i, chunks, j + 1);
    }
  }

  ghost predicate ReadsCut(c: Cipher, salt: seq<byte>, i: nat, chunks: seq<seq<byte>>, n: nat, j: nat) {
    && n <= |c.Body(salt, i, chunks)| && CutAfter(c, salt, i, chunks, n, j)
    && Decode(c, salt, 2 * i, c.Body(salt, i, chunks)[..n]) == Kept(c, salt, i, chunks, n, j)
  }

  lemma CutInFirst(c: Cipher, salt: seq<byte>, i: nat, chunks: seq<seq<byte>>, n: nat)
    requires c.Sound() && chunks != [] && GoodChunk(chunks[0]) && n < |c.Sealed(salt, i, chunks[0])|
    ensures ReadsCut(c, salt, i, chunks, n, 0)
  {
    assert chunks[..0] == [] && chunks[..1] == [chunks[0]] && chunks[..1][1..] == [];
    CutChunk(c, salt, i, chunks[0], c.Body(salt, i + 1, chunks[1..]), n);
  }

  lemma CutInRest(c: Cipher, salt: seq<byte>, i: nat, chunks: seq<seq<byte>>, n: nat, j: nat)
    requires c.Sound() && chunks != [] && GoodChunk(chunks[0]) && n >= |c.Sealed(salt, i, chunks[0])|
    requires ReadsCut(c, salt, i + 1, chunks[1..], n - |c.Sealed(salt, i, chunks[0])|, j)
    ensures ReadsCut(c, salt, i, chunks, n, j + 1)
  {
    var first, rest := c.Sealed(salt, i, chunks[0]), c.Body(salt, i + 1, chunks[1..]);
    CutLater(c, salt, i, chunks, n, j);
    assert Decode(c, salt, 2 * i, c.Body(salt, i, chunks)[..n])
        == Prepend(chunks[0], Decode(c, salt, 2 * (i + 1), rest[..n - |first|])) by {
      assert (first + rest)[..n] == first + rest[..n - |first|];
      DecodeStep(c, salt, i, chunks[0], rest[..n - |first|]);
    }
  }

  /** A stream that is cut anywhere, past the salt, gives the chunks that are there as a whole, and then a
      clean end exactly if it was cut between two chunks. */
  lemma {:induction false} CutBody(c: Cipher, salt: seq<byte>, i: nat, chunks: seq<seq<byte>>, n: nat) returns (j: nat)
    requires c.Sound() && (forall x <- chunks :: GoodChunk(x)) && n <= |c.Body(salt, i, chunks)|
    ensures ReadsCut(c, salt, i, chunks, n, j)
    decreases |chunks|
  {
    if chunks == [] {
      j := 0;
      assert chunks[..0] == [];
    } else if n < |c.Sealed(salt, i, chunks[0])| {
      j := 0;
      CutInFirst(c, salt, i, chunks, n);
    } else {
      j := CutBody(c, salt, i + 1, chunks[1..], n - |c.Sealed(salt, i, chunks[0])|);
      CutInRest(c, salt, i, chunks, n, j);
      j := j + 1;
    }
  }

  /** The chunks a writer has sealed, oldest first. */
  datatype Log = Start | Then(before: Log, chunk: seq<byte>) {
    ghost function Count(): nat {
      if Start? then 0 else before.Count() + 1
    }

    ghost function Chunks(): (s: seq<seq<byte>>)
      ensures |s| == Count()
    {
      if Start? then [] else before.Chunks() + [chunk]
    }

    ghost function Plain(): seq<byte> {
      if Start? then [] else before.Plain() + chunk
    }

    ghost function Wire(c: Cipher, salt: seq<byte>): seq<byte> {
      if Start? then [] else before.Wire(c, salt) + c.Frame(salt, before.Count(), chunk)
    }

    /** The same, one write for every chunk. */
    ghost function Writes(c: Cipher, salt: seq<byte>): seq<seq<byte>> {
      if Start? then [] else before.Writes(c, salt) + [c.Frame(salt, before.Count(), chunk)]
    }

    /** Only full chunks were added to `from`. */
    ghost predicate FullSince(from: Log) {
      this == from || (Then? && |chunk| == MAX_PAYLOAD && before.FullSince(from))
    }

    /** Only full chunks were added to `from`, but for the last one. */
    ghost predicate PackedSince(from: Log) {
      this == from || (Then? && before.FullSince(from))
    }

    ghost predicate Good() {
      Start? || (GoodChunk(chunk) && before.Good())
    }

    lemma {:induction false} AsChunks(c: Cipher, salt: seq<byte>)
      ensures Plain() == Flatten(Chunks()) && Wire(c, salt) == c.Frames(salt, 0, Chunks()) == Flatten(Writes(c, salt))
      ensures Good() ==> forall x <- Chunks() :: GoodChunk(x)
    {
      if Start? {
      } else {
        before.AsChunks(c, salt);
        FlattenSnoc(before.Chunks(), chunk);
        FlattenSnoc(before.Writes(c, salt), c.Frame(salt, before.Count(), chunk));
        c.FramesSnoc(salt, 0, before.Chunks(), chunk);
      }
    }
  }
}
