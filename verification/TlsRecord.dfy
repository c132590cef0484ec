/** TLS record headers, what fragmenting the first handshake record means, and why it preserves the
    handshake (section 5.1 of RFC 8446). */
module TlsRecord {
  import opened Bytes

  const HEADER_LEN := 5
  const MAX_RECORD_PAYLOAD := 0x4000
  const HANDSHAKE: byte := 22

  function PayloadLen(h: seq<byte>): nat
    requires |h| == HEADER_LEN
  {
    Uint16([h[3], h[4]])
  }

  predicate KnownVersion(h: seq<byte>)
    requires |h| == HEADER_LEN
  {
    var version := Uint16([h[1], h[2]]);
    version == 0x0301 || version == 0x0302 || version == 0x0303 || version == 0x0304
  }

  /** `Validate`. */
  predicate ValidHeader(h: seq<byte>)
    requires |h| == HEADER_LEN
  {
    h[0] == HANDSHAKE && KnownVersion(h) && 0 < PayloadLen(h) <= MAX_RECORD_PAYLOAD
  }

  /** In bytes: a handshake record of version 3.1 to 3.4 whose payload has 1 to 16384 bytes. */
  lemma ValidHeaderBytes(h: seq<byte>)
    requires |h| == 5
    ensures ValidHeader(h) <==> h[0] == 22 && h[1] == 3 && 1 <= h[2] <= 4 && 0 < 256 * (h[3] as int) + h[4] <= 16384
    ensures PayloadLen(h) == 256 * (h[3] as int) + h[4]
  {
    assert Uint16([h[1], h[2]]) == 256 * (h[1] as int) + h[2];
  }

  /** The same header for a payload of n bytes. */
  function WithLen(h: seq<byte>, n: nat): (r: seq<byte>)
    requires |h| == HEADER_LEN
    ensures |r| == HEADER_LEN
  {
    [h[0], h[1], h[2]] + BigEndian16(n)
  }

  /** `SetPayloadLen` on the header at `at`: writes the length bytes unless the length is out of
      range. */
  method SetPayloadLen(a: array<byte>, at: nat, n: nat) returns (ok: bool)
    requires at + HEADER_LEN <= a.Length && n < 0x1_0000
    modifies a
    ensures ok <==> 0 < n <= MAX_RECORD_PAYLOAD
    ensures !ok ==> a[..] == old(a[..])
    ensures ok ==> a[at..at + HEADER_LEN] == WithLen(old(a[at..at + HEADER_LEN]), n)
    ensures forall i :: 0 <= i < at + 3 || at + HEADER_LEN <= i < a.Length ==> a[i] == old(a[i])
  {
    if n == 0 || n > MAX_RECORD_PAYLOAD {
      return false;
    }
    a[at + 3], a[at + 4] := n / 256 % 256, n % 256;
    return true;
  }

  lemma WithLenParses(h: seq<byte>, n: nat)
    requires |h| == HEADER_LEN && n < 0x1_0000
    ensures PayloadLen(WithLen(h, n)) == n && Version(WithLen(h, n)) == Version(h)
    ensures ValidHeader(h) && 0 < n <= MAX_RECORD_PAYLOAD ==> ValidHeader(WithLen(h, n))
    ensures WithLen(WithLen(h, n), PayloadLen(h)) == h
  {
    var r := WithLen(h, n);
    assert r[3..5] == BigEndian16(n) && r[1..3] == Version(h);
    Uint16RoundTrip(n);
    BigEndian16OfUint16([h[3], h[4]]);
  }

  /** The outcome of asking where to split: the callback's answer counts only strictly inside. */
  predicate Inside(split: int, len: nat) {
    0 < split < len
  }

  /** Two records in place of the first one: the first s bytes of its payload, then the rest. */
  function Fragmented(h: seq<byte>, s: nat, payload: seq<byte>): seq<byte>
    requires |h| == HEADER_LEN && s <= |payload|
  {
    WithLen(h, s) + payload[..s] + WithLen(h, |payload| - s) + payload[s..]
  }

  function Version(h: seq<byte>): seq<byte>
    requires |h| == HEADER_LEN
  {
    [h[1], h[2]]
  }

  datatype Record = Record(contentType: byte, version: seq<byte>, payload: seq<byte>) {
    ghost predicate WellFormed() {
      |version| == 2 && |payload| < 0x1_0000
    }

    /** The record on the wire. */
    ghost function Bytes(): seq<byte>
      requires WellFormed()
    {
      [contentType, version[0], version[1]] + BigEndian16(|payload|) + payload
    }
  }

  /** The records a receiver finds in a byte stream, and what is left over. */
  datatype Parsed = Leftover(rest: seq<byte>) | Then(record: Record, more: Parsed)

  ghost function Parse(x: seq<byte>): Parsed
    decreases |x|
  {
    if |x| < HEADER_LEN || |x| < HEADER_LEN + PayloadLen(x[..5]) then Leftover(x)
    else
      var len := PayloadLen(x[..5]);
      Then(Record(x[0], [x[1], x[2]], x[5..5 + len]), Parse(x[5 + len..]))
  }

  lemma ParseRecord(r: Record, rest: seq<byte>)
    requires r.WellFormed()
    ensures Parse(r.Bytes() + rest) == Then(r, Parse(rest))
  {
    var x := r.Bytes() + rest;
    assert [x[3], x[4]] == BigEndian16(|r.payload|);
    Uint16RoundTrip(|r.payload|);
    assert x[5..5 + |r.payload|] == r.payload && x[5 + |r.payload|..] == rest;
  }

  lemma ParseTwoRecords(a: Record, b: Record, rest: seq<byte>)
    requires a.WellFormed() && b.WellFormed()
    ensures Parse(a.Bytes() + (b.Bytes() + rest)) == Then(a, Then(b, Parse(rest)))
  {
    ParseRecord(b, rest);
    ParseRecord(a, b.Bytes() + rest);
  }

  lemma WholeAsRecord(h: seq<byte>, payload: seq<byte>)
    requires |h| == HEADER_LEN && ValidHeader(h) && PayloadLen(h) == |payload|
    ensures var r := Record(HANDSHAKE, Version(h), payload);
            r.WellFormed() && h + payload == r.Bytes()
  {
    BigEndian16OfUint16([h[3], h[4]]);
    assert h == [h[0], h[1], h[2]] + [h[3], h[4]];
  }

  lemma FragmentsAsRecords(h: seq<byte>, s: nat, payload: seq<byte>, rest: seq<byte>)
    requires |h| == HEADER_LEN && ValidHeader(h) && PayloadLen(h) == |payload| && Inside(s, |payload|)
    ensures var a := Record(HANDSHAKE, Version(h), payload[..s]);
            var b := Record(HANDSHAKE, Version(h), payload[s..]);
            && a.WellFormed() && b.WellFormed()
            && Fragmented(h, s, payload) + rest == a.Bytes() + (b.Bytes() + rest)
  {}

  /** Fragmenting changes the first record into two non-empty handshake records of legal size, with
      the original type and version, whose payloads together are the original payload. Everything
      after it parses as before. */
  lemma FragmentingPreservesTheHandshake(h: seq<byte>, s: nat, payload: seq<byte>, rest: seq<byte>)
    requires |h| == HEADER_LEN && ValidHeader(h) && PayloadLen(h) == |payload| && Inside(s, |payload|)
    ensures 0 < |payload[..s]| <= MAX_RECORD_PAYLOAD && 0 < |payload[s..]| <= MAX_RECORD_PAYLOAD
    ensures payload[..s] + payload[s..] == payload
    ensures Parse(h + payload + rest) == Then(Record(HANDSHAKE, Version(h), payload), Parse(rest))
    ensures Parse(Fragmented(h, s, payload) + rest)
         == Then(Record(HANDSHAKE, Version(h), payload[..s]),
                 Then(Record(HANDSHAKE, Version(h), payload[s..]), Parse(rest)))
  {
    WholeAsRecord(h, payload);
    ParseRecord(Record(HANDSHAKE, Version(h), payload), rest);
    FragmentsAsRecords(h, s, payload, rest);
    ParseTwoRecords(Record(HANDSHAKE, Version(h), payload[..s]),
                    Record(HANDSHAKE, Version(h), payload[s..]), rest);
  }

  // What a writer that fragments at frag(length) sends for an input, whatever the chunking.

  /** The header asks for a split, and the callback gives a place strictly inside. */
  predicate Splits(frag: int -> int, h: seq<byte>)
    requires |h| == HEADER_LEN
  {
    ValidHeader(h) && Inside(frag(PayloadLen(h)), PayloadLen(h))
  }

  /** After the header h, for the bytes `body` that follow it so far. */
  function EmitBody(frag: int -> int, h: seq<byte>, body: seq<byte>): seq<byte>
    requires |h| == HEADER_LEN
  {
    if !Splits(frag, h) then h + body
    else
      var len := PayloadLen(h);
      var s := frag(len);
      if |body| < s then WithLen(h, s) + body
      else WithLen(h, s) + body[..s] + WithLen(h, len - s) + body[s..]
  }

  function Emit(frag: int -> int, x: seq<byte>): seq<byte> {
    if |x| < HEADER_LEN then [] else EmitBody(frag, x[..5], x[5..])
  }

  /** Nothing more will be inserted: the header does not split, or the first record is full. */
  predicate PastSplit(frag: int -> int, h: seq<byte>, body: seq<byte>)
    requires |h| == HEADER_LEN
  {
    Splits(frag, h) ==> |body| >= frag(PayloadLen(h))
  }

  lemma EmitPastSplit(frag: int -> int, h: seq<byte>, body: seq<byte>, p: seq<byte>)
    requires |h| == HEADER_LEN && PastSplit(frag, h, body)
    ensures PastSplit(frag, h, body + p) && EmitBody(frag, h, body + p) == EmitBody(frag, h, body) + p
  {
    if Splits(frag, h) {
      var s := frag(PayloadLen(h));
      assert (body + p)[..s] == body[..s] && (body + p)[s..] == body[s..] + p;
    }
  }

  lemma EmitBeforeSplit(frag: int -> int, h: seq<byte>, body: seq<byte>)
    requires |h| == HEADER_LEN && Splits(frag, h) && |body| <= frag(PayloadLen(h))
    ensures var s := frag(PayloadLen(h));
            EmitBody(frag, h, body)
            == WithLen(h, s) + body + if |body| < s then [] else WithLen(h, PayloadLen(h) - s)
  {
    if |body| == frag(PayloadLen(h)) {
      assert body[..|body|] == body;
    }
  }

  lemma EmitOfParts(frag: int -> int, h: seq<byte>, body: seq<byte>)
    requires |h| == HEADER_LEN || (|h| < HEADER_LEN && body == [])
    ensures Emit(frag, h + body) == if |h| < HEADER_LEN then [] else EmitBody(frag, h, body)
  {
    if |h| == HEADER_LEN {
      assert (h + body)[..5] == h && (h + body)[5..] == body;
    }
  }

  lemma HeaderDoesNotCommute(x: seq<byte>, h: seq<byte>)
    requires 1 <= |x| <= 4 && |h| == HEADER_LEN && h[0] == HANDSHAKE && KnownVersion(h)
    ensures x + h != h + x
  {
    var a, b, j := x + h, h + x, |x|;
    if x[0] != HANDSHAKE {
      assert a[0] != b[0];
    } else if h[j] != HANDSHAKE {
      assert a[j] != b[j];
    } else {
      assert j > 2;
      assert a[5] != b[5];
    }
  }

  /** A second header that slipped by 1 to 4 bytes never reproduces the intended stream: it would
      have to commute with the bytes it slipped over, and no handshake header does. */
  lemma SlippedHeaderShows(frag: int -> int, h: seq<byte>, body: seq<byte>, m: nat)
    requires |h| == HEADER_LEN && Splits(frag, h)
    requires frag(PayloadLen(h)) < m <= frag(PayloadLen(h)) + 4 && m <= |body|
    ensures var s := frag(PayloadLen(h));
            WithLen(h, s) + body[..m] + WithLen(h, PayloadLen(h) - s) + body[m..] != EmitBody(frag, h, body)
  {
    var len := PayloadLen(h);
    var s := frag(len);
    var h2, x, pre := WithLen(h, len - s), body[s..m], WithLen(h, s) + body[..s];
    var slipped := WithLen(h, s) + body[..m] + h2 + body[m..];
    HeaderDoesNotCommute(x, h2);
    assert slipped[|pre|..|pre| + 5 + |x|] == x + h2;
    assert EmitBody(frag, h, body)[|pre|..|pre| + 5 + |x|] == h2 + x;
  }

  /** The smallest example: a record of two bytes is to be split after the first, and both go out before
      the second header. */
  lemma SlippedExample(b0: byte, b1: byte)
    ensures var h: seq<byte> := [HANDSHAKE, 3, 3, 0, 2];
            var slipped := WithLen(h, 1) + [b0, b1] + WithLen(h, 1);
            && slipped == [22, 3, 3, 0, 1, b0, b1, 22, 3, 3, 0, 1]
            && EmitBody(_ => 1, h, [b0, b1]) == [22, 3, 3, 0, 1, b0, 22, 3, 3, 0, 1, b1]
            && slipped != EmitBody(_ => 1, h, [b0, b1])
  {
    var h: seq<byte> := [HANDSHAKE, 3, 3, 0, 2];
    assert PayloadLen(h) == 2 && Splits(_ => 1, h);
    assert WithLen(h, 1) == [22, 3, 3, 0, 1];
    assert [b0, b1][..1] == [b0] && [b0, b1][1..] == [b1];
    assert [22, 3, 3, 0, 1, b0, b1, 22, 3, 3, 0, 1][7] != [22, 3, 3, 0, 1, b0, 22, 3, 3, 0, 1, b1][7];
  }

  // What a writer that buffers the whole first record sends: the callback sees the content.

  /** The whole first record is there. */
  predicate Complete(h: seq<byte>, body: seq<byte>)
    requires |h| == HEADER_LEN
  {
    |body| >= PayloadLen(h)
  }

  /** The first record, split or not. */
  function FirstRecord(frag: seq<byte> -> int, h: seq<byte>, content: seq<byte>): seq<byte>
    requires |h| == HEADER_LEN
  {
    if Inside(frag(content), |content|) then Fragmented(h, frag(content), content) else h + content
  }

  function HelloEmitBody(frag: seq<byte> -> int, h: seq<byte>, body: seq<byte>): seq<byte>
    requires |h| == HEADER_LEN
  {
    if !ValidHeader(h) then h + body
    else if !Complete(h, body) then []
    else FirstRecord(frag, h, body[..PayloadLen(h)]) + body[PayloadLen(h)..]
  }

  function HelloEmit(frag: seq<byte> -> int, x: seq<byte>): seq<byte> {
    if |x| < HEADER_LEN then [] else HelloEmitBody(frag, x[..5], x[5..])
  }

  lemma HelloEmitOfParts(frag: seq<byte> -> int, h: seq<byte>, body: seq<byte>)
    requires |h| == HEADER_LEN
    ensures HelloEmit(frag, h + body) == HelloEmitBody(frag, h, body)
  {
    assert (h + body)[..5] == h && (h + body)[5..] == body;
  }

  lemma CutThenAppend(body: seq<byte>, p: seq<byte>, n: nat)
    requires n <= |body|
    ensures (body + p)[..n] == body[..n] && (body + p)[n..] == body[n..] + p
  {}

  /** Once the first record is complete or rejected, the input goes through as it comes. */
  lemma HelloEmitPastRecord(frag: seq<byte> -> int, h: seq<byte>, body: seq<byte>, p: seq<byte>)
    requires |h| == HEADER_LEN && (ValidHeader(h) ==> Complete(h, body))
    ensures HelloEmitBody(frag, h, body + p) == HelloEmitBody(frag, h, body) + p
  {
    if ValidHeader(h) {
      var len := PayloadLen(h);
      CutThenAppend(body, p, len);
      Regroup(FirstRecord(frag, h, body[..len]), body[len..], p);
    } else {
      Regroup(h, body, p);
    }
  }

  /** The fast form refines the simple one: for a callback that looks only at the length, both
      fragmenters have sent the same bytes once the first record is complete or rejected, and before
      that the buffering one has sent less of the same. */
  lemma StreamingRefinesBuffering(frag: int -> int, callback: seq<byte> -> int, x: seq<byte>)
    requires forall content: seq<byte> :: callback(content) == frag(|content|)
    ensures HelloEmit(callback, x) <= Emit(frag, x)
    ensures |x| < HEADER_LEN || !ValidHeader(x[..5]) || Complete(x[..5], x[5..])
            ==> HelloEmit(callback, x) == Emit(frag, x)
  {
    if |x| >= HEADER_LEN && ValidHeader(x[..5]) && Complete(x[..5], x[5..]) {
      CompleteRecordsAgree(frag, callback, x[..5], x[5..]);
    }
  }

  lemma CompleteRecordsAgree(frag: int -> int, callback: seq<byte> -> int, h: seq<byte>, body: seq<byte>)
    requires |h| == HEADER_LEN && ValidHeader(h) && Complete(h, body)
    requires callback(body[..PayloadLen(h)]) == frag(PayloadLen(h))
    ensures HelloEmitBody(callback, h, body) == EmitBody(frag, h, body)
  {
    var len := PayloadLen(h);
    var s := frag(len);
    if Inside(s, len) {
      assert body[..len][..s] == body[..s];
      assert body[..len][s..] + body[len..] == body[s..];
    } else {
      assert body[..len] + body[len..] == body;
    }
  }

  /** What the streaming fragmenter sends for a complete record that it splits is the fragmented
      record and then the rest, so it means the same handshake. */
  lemma EmitIsFragmented(frag: int -> int, h: seq<byte>, payload: seq<byte>, rest: seq<byte>)
    requires |h| == HEADER_LEN && Splits(frag, h) && PayloadLen(h) == |payload|
    ensures Emit(frag, h + payload + rest) == Fragmented(h, frag(|payload|), payload) + rest
  {
    assert h + payload + rest == h + (payload + rest);
    EmitOfParts(frag, h, payload + rest);
    var s := frag(|payload|);
    CutThenAppend(payload, rest, s);
    var front := WithLen(h, s) + payload[..s] + WithLen(h, |payload| - s);
    assert EmitBody(frag, h, payload + rest) == front + (payload[s..] + rest);
    Regroup(front, payload[s..], rest);
  }

  /** In q there are two non-empty handshake records in place of the first record of p, with the same
      type, version and joint payload, and after them exactly what follows in p. */
  ghost predicate SplitInTwo(p: Parsed, q: Parsed) {
    && p.Then? && q.Then? && q.more.Then? && q.more.more == p.more
    && q.record.payload + q.more.record.payload == p.record.payload
    && q.record.contentType == q.more.record.contentType == p.record.contentType == HANDSHAKE
    && q.record.version == q.more.record.version == p.record.version
    && 0 < |q.record.payload| <= MAX_RECORD_PAYLOAD
    && 0 < |q.more.record.payload| <= MAX_RECORD_PAYLOAD
  }

  /** A receiver of the streaming fragmenter's output sees the handshake split in two. */
  lemma EmitPreservesTheHandshake(frag: int -> int, h: seq<byte>, payload: seq<byte>, rest: seq<byte>)
    requires |h| == HEADER_LEN && Splits(frag, h) && PayloadLen(h) == |payload|
    ensures SplitInTwo(Parse(h + payload + rest), Parse(Emit(frag, h + payload + rest)))
  {
    EmitIsFragmented(frag, h, payload, rest);
    FragmentingPreservesTheHandshake(h, frag(|payload|), payload, rest);
  }

  lemma FragmentedBytes(a: byte, b: byte, c: byte, d: byte, e: byte, s: nat, payload: seq<byte>)
    requires 0 < s < |payload| <= 16384
    ensures Fragmented([a, b, c, d, e], s, payload)
         == [a, b, c, s / 256, s % 256] + payload[..s]
            + [a, b, c, (|payload| - s) / 256, (|payload| - s) % 256] + payload[s..]
  {}

  /** In bytes: split after s bytes of its payload, a handshake record becomes two with the same type and
      version and the lengths s and n - s, and what follows stays. Any other input stays as it is. */
  lemma EmittedBytes(frag: int -> int, a: byte, b: byte, c: byte, d: byte, e: byte, payload: seq<byte>, rest: seq<byte>)
    requires |payload| == 256 * (d as int) + e
    ensures var n := |payload|; var s := frag(n);
            Emit(frag, [a, b, c, d, e] + payload + rest)
            == if a == 22 && b == 3 && 1 <= c <= 4 && n <= 16384 && 0 < s < n then
                 [a, b, c, s / 256, s % 256] + payload[..s] + [a, b, c, (n - s) / 256, (n - s) % 256] + payload[s..] + rest
               else [a, b, c, d, e] + payload + rest
  {
    var h := [a, b, c, d, e];
    ValidHeaderBytes(h);
    assert h + payload + rest == h + (payload + rest);
    EmitOfParts(frag, h, payload + rest);
    if Splits(frag, h) {
      EmitIsFragmented(frag, h, payload, rest);
      FragmentedBytes(a, b, c, d, e, frag(|payload|), payload);
    }
  }

  lemma HelloEmitOfRecord(frag: seq<byte> -> int, h: seq<byte>, payload: seq<byte>, rest: seq<byte>)
    requires |h| == HEADER_LEN && ValidHeader(h) && PayloadLen(h) == |payload|
    ensures HelloEmit(frag, h + payload + rest) == FirstRecord(frag, h, payload) + rest
  {
    assert h + payload + rest == h + (payload + rest);
    HelloEmitOfParts(frag, h, payload + rest);
    LeavesTheRest(payload, rest);
    assert (payload + rest)[|payload|..] == rest;
  }

  /** The same in bytes for the buffering fragmenter, whose callback sees the payload. */
  lemma HelloEmittedBytes(frag: seq<byte> -> int, a: byte, b: byte, c: byte, d: byte, e: byte,
                          payload: seq<byte>, rest: seq<byte>)
    requires |payload| == 256 * (d as int) + e
    ensures var n := |payload|; var s := frag(payload);
            HelloEmit(frag, [a, b, c, d, e] + payload + rest)
            == if a == 22 && b == 3 && 1 <= c <= 4 && n <= 16384 && 0 < s < n then
                 [a, b, c, s / 256, s % 256] + payload[..s] + [a, b, c, (n - s) / 256, (n - s) % 256] + payload[s..] + rest
               else [a, b, c, d, e] + payload + rest
  {
    var h := [a, b, c, d, e];
    ValidHeaderBytes(h);
    if ValidHeader(h) {
      HelloEmitOfRecord(frag, h, payload, rest);
      if Inside(frag(payload), |payload|) {
        FragmentedBytes(a, b, c, d, e, frag(payload), payload);
      }
    } else {
      assert h + payload + rest == h + (payload + rest);
      HelloEmitOfParts(frag, h, payload + rest);
    }
  }

  /** And so does a receiver of the buffering fragmenter's output. */
  lemma HelloEmitPreservesTheHandshake(frag: seq<byte> -> int, h: seq<byte>, payload: seq<byte>, rest: seq<byte>)
    requires |h| == HEADER_LEN && ValidHeader(h) && PayloadLen(h) == |payload| && Inside(frag(payload), |payload|)
    ensures SplitInTwo(Parse(h + payload + rest), Parse(HelloEmit(frag, h + payload + rest)))
  {
    HelloEmitOfRecord(frag, h, payload, rest);
    FragmentingPreservesTheHandshake(h, frag(payload), payload, rest);
  }

  /** There is nothing to split: no input, no acceptable header, or a complete record that the
      callback leaves whole. */
  predicate LeftAlone(frag: seq<byte> -> int, x: seq<byte>) {
    x == [] || (|x| >= HEADER_LEN && (ValidHeader(x[..5]) ==>
      var len := PayloadLen(x[..5]);
      Complete(x[..5], x[5..]) && !Inside(frag(x[5..][..len]), len)))
  }

  /** The buffering fragmenter owes its input unchanged exactly when there is nothing to split. */
  lemma UnsplitExactlyWhen(frag: seq<byte> -> int, x: seq<byte>)
    ensures HelloEmit(frag, x) == x <==> LeftAlone(frag, x)
  {
    if |x| >= HEADER_LEN {
      assert x[..5] + x[5..] == x;
      UnsplitBody(frag, x[..5], x[5..]);
    }
  }

  lemma UnsplitBody(frag: seq<byte> -> int, h: seq<byte>, body: seq<byte>)
    requires |h| == HEADER_LEN
    ensures HelloEmitBody(frag, h, body) == h + body
       <==> !ValidHeader(h)
            || (Complete(h, body) && !Inside(frag(body[..PayloadLen(h)]), PayloadLen(h)))
  {
    if ValidHeader(h) && Complete(h, body) {
      var len := PayloadLen(h);
      if Inside(frag(body[..len]), len) {
        assert |HelloEmitBody(frag, h, body)| == |h + body| + HEADER_LEN;
      } else {
        Regroup(h, body[..len], body[len..]);
        assert body[..len] + body[len..] == body;
      }
    }
  }
}
