/** The DNS tunnel: how many bytes fit into a query name, how a packet becomes the labels of one, and
    how packets are read back from an answer. */
module DnsTunnel {
  import opened Bytes

  type Label = seq<byte>

  const MAX_LABEL := 63
  const MAX_NAME := 255
  const CLIENT_ID_LEN := 8
  const NUM_PADDING := 3
  const NUM_PADDING_FOR_POLL := 8
  // Prefixes from here on say how much padding follows, smaller ones the length of a packet.
  const PADDING_PREFIX := 224

  // Names (section 2.3.4 of RFC 1035).

  /** The bytes of the labels on the wire: each has a length byte before it. */
  function WireLen(labels: seq<Label>): nat {
    if labels == [] then 0 else WireLen(labels[..|labels| - 1]) + |labels[|labels| - 1]| + 1
  }

  lemma {:induction false} WireLenAppend(a: seq<Label>, b: seq<Label>)
    ensures WireLen(a + b) == WireLen(a) + WireLen(b)
  {
    if b == [] {
      assert a + b == a;
    } else {
      assert (a + b)[..|a + b| - 1] == a + b[..|b| - 1];
      WireLenAppend(a, b[..|b| - 1]);
    }
  }

  ghost predicate LegalLabels(labels: seq<Label>) {
    forall i :: 0 <= i < |labels| ==> 1 <= |labels[i]| <= MAX_LABEL
  }

  /** What a DNS name must be: legal labels, and with the final zero byte at most 255 bytes. */
  ghost predicate LegalName(labels: seq<Label>) {
    LegalLabels(labels) && WireLen(labels) + 1 <= MAX_NAME
  }

  /** In numbers: labels of 1 to 63 bytes, each with a length byte, and a final zero, 255 bytes in all. */
  lemma NameLimits(labels: seq<Label>)
    ensures LegalName(labels)
       <==> (forall i :: 0 <= i < |labels| ==> 1 <= |labels[i]| <= 63) && |Flatten(labels)| + |labels| + 1 <= 255
  {
    WireLenIs(labels);
  }

  lemma {:induction false} WireLenIs(labels: seq<Label>)
    ensures WireLen(labels) == |Flatten(labels)| + |labels|
  {
    if labels == [] {
    } else {
      var init, last := labels[..|labels| - 1], labels[|labels| - 1];
      assert labels == init + [last];
      FlattenSnoc(init, last);
      WireLenIs(init);
    }
  }

  // Capacity.

  /** Go's integer division. */
  function Quo(a: int, b: int): int
    requires b > 0
  {
    if a >= 0 then a / b else -(-a / b)
  }

  /** What is left of a name for encoded labels. */
  function Room(domain: seq<Label>): int {
    MAX_NAME - 1 - WireLen(domain)
  }

  /** Unpadded base32: 8 characters for every 5 bytes, rounded up. */
  function EncodedLen(n: nat): (r: nat)
    ensures 8 * n <= 5 * r < 8 * n + 5
  {
    (8 * n + 4) / 5
  }

  /** The wire bytes of n characters in labels of at most 63. */
  function LabelledLen(n: nat): nat {
    n + (n + MAX_LABEL - 1) / MAX_LABEL
  }

  /** n bytes, encoded and labelled, fit into a name under the domain. */
  predicate Fits(domain: seq<Label>, n: nat) {
    LabelledLen(EncodedLen(n)) <= Room(domain)
  }

  /** `dnsNameCapacity`: it is exact. n bytes fit into a name under the domain if and only if n is at
      most the capacity. */
  method DnsNameCapacity(domain: seq<Label>) returns (capacity: int)
    ensures Room(domain) >= 0 ==> forall n: nat :: Fits(domain, n) <==> n <= capacity
    ensures Room(domain) < 0 ==> capacity <= 0
  {
    capacity := 255;
    capacity := capacity - 1;
    var i := 0;
    while i < |domain|
      invariant i <= |domain| && capacity == MAX_NAME - 1 - WireLen(domain[..i])
    {
      assert domain[..i + 1][..i] == domain[..i];
      capacity := capacity - (|domain[i]| + 1);
      i := i + 1;
    }
    assert domain[..i] == domain;
    ghost var room := capacity;
    capacity := Quo(capacity * 63, 64);
    capacity := Quo(capacity * 5, 8);
    if room >= 0 {
      forall n: nat
        ensures Fits(domain, n) <==> n <= capacity
      {
        CapacityIsExact(room, n);
      }
    }
  }

  lemma CharactersFit(room: nat, e: nat)
    ensures LabelledLen(e) <= room <==> e <= room * 63 / 64
  {}

  lemma BytesFit(chars: nat, n: nat)
    ensures EncodedLen(n) <= chars <==> n <= chars * 5 / 8
  {}

  lemma CapacityIsExact(room: nat, n: nat)
    ensures LabelledLen(EncodedLen(n)) <= room <==> n <= room * 63 / 64 * 5 / 8
  {
    CharactersFit(room, EncodedLen(n));
    BytesFit(room * 63 / 64, n);
  }

  // Sending.

  /** Non-empty pieces of at most n bytes, all but the last of exactly n. */
  ghost predicate Pieces(parts: seq<seq<byte>>, n: nat) {
    forall i :: 0 <= i < |parts| ==> 1 <= |parts[i]| <= n && (i < |parts| - 1 ==> |parts[i]| == n)
  }

  lemma PiecesAddUp(parts: seq<seq<byte>>, n: nat)
    requires Pieces(parts, n)
    ensures WireLen(parts) == |Flatten(parts)| + |parts|
    ensures |Flatten(parts)| <= |parts| * n && (parts != [] ==> |Flatten(parts)| > (|parts| - 1) * n)
  {
    if parts != [] {
      var init, last := parts[..|parts| - 1], parts[|parts| - 1];
      assert parts == init + [last];
      FlattenSnoc(init, last);
      FullPieces(init, n);
      OneMore(|init|, n);
    }
  }

  lemma OneMore(k: nat, n: nat)
    ensures (k + 1) * n == k * n + n
  {}

  lemma {:induction false} FullPieces(parts: seq<seq<byte>>, n: nat)
    requires forall i :: 0 <= i < |parts| ==> |parts[i]| == n
    ensures WireLen(parts) == |Flatten(parts)| + |parts| && |Flatten(parts)| == |parts| * n
  {
    if parts == [] {
    } else {
      var init, last := parts[..|parts| - 1], parts[|parts| - 1];
      assert parts == init + [last];
      FlattenSnoc(init, last);
      FullPieces(init, n);
      OneMore(|init|, n);
    }
  }

  /** `chunks`. */
  method Chunks(p: seq<byte>, n: nat) returns (result: seq<seq<byte>>)
    requires n > 0
    ensures Flatten(result) == p && Pieces(result, n)
  {
    result := [];
    var left := p;
    while |left| > 0
      invariant Flatten(result) + left == p
      invariant Pieces(result, n)
      invariant left == [] || forall i :: 0 <= i < |result| ==> |result[i]| == n
      decreases |left|
    {
      var sz := |left|;
      if sz > n {
        sz := n;
      }
      ChunkMoves(result, left, sz);
      result := result + [left[..sz]];
      left := left[sz..];
    }
    assert Flatten(result) + [] == Flatten(result);
  }

  lemma ChunkMoves(result: seq<seq<byte>>, left: seq<byte>, sz: nat)
    requires sz <= |left|
    ensures Flatten(result + [left[..sz]]) + left[sz..] == Flatten(result) + left
  {
    FlattenSnoc(result, left[..sz]);
    assert left == left[..sz] + left[sz..];
  }

  /** Labels of at most 63 bytes have exactly the length that the capacity reckons with. */
  lemma LabelsHaveTheReckonedLength(labels: seq<Label>)
    requires Pieces(labels, MAX_LABEL)
    ensures WireLen(labels) == LabelledLen(|Flatten(labels)|) && LegalLabels(labels)
  {
    PiecesAddUp(labels, MAX_LABEL);
  }

  /** bytes.ToLower on ASCII. */
  function Lower(text: seq<byte>): (r: seq<byte>)
    ensures |r| == |text|
    ensures forall i :: 0 <= i < |text| ==> r[i] == if 65 <= text[i] <= 90 then text[i] + 32 else text[i]
  {
    seq(|text|, i requires 0 <= i < |text| => LowerCode(text[i]))
  }

  /** The bytes a query carries: the client, padding after its prefix, and the packet after its length,
      unless it is empty. */
  function Decoded(clientID: seq<byte>, padding: seq<byte>, p: seq<byte>): seq<byte>
    requires |padding| < 256 - PADDING_PREFIX && |p| < PADDING_PREFIX
  {
    clientID + [PADDING_PREFIX + |padding|] + padding + if p == [] then [] else [|p|] + p
  }

  /** `dns.NewName`. */
  method NewName(labels: seq<Label>) returns (ok: bool)
    ensures ok <==> LegalName(labels)
  {
    var i := 0;
    ok := true;
    var len := 0;
    while i < |labels|
      invariant i <= |labels| && len == WireLen(labels[..i])
      invariant ok <==> LegalLabels(labels[..i])
    {
      assert labels[..i + 1][..i] == labels[..i];
      assert labels[..i + 1][i] == labels[i];
      ok := ok && 1 <= |labels[i]| <= MAX_LABEL;
      len := len + |labels[i]| + 1;
      i := i + 1;
    }
    assert labels[..i] == labels;
    ok := ok && len + 1 <= MAX_NAME;
  }

  /** The random padding: three bytes, or eight for an empty poll. */
  method Padding(p: seq<byte>, random: nat -> byte) returns (padding: seq<byte>)
    ensures padding == seq(if p == [] then NUM_PADDING_FOR_POLL else NUM_PADDING, random)
  {
    var n := NUM_PADDING;
    if |p| == 0 {
      n := NUM_PADDING_FOR_POLL;
    }
    padding := seq<byte>(n, random);
  }

  /** The name-building part of `send`, with base32 and the random padding as parameters: the labels are
      the lower-case base32 text and then the domain; it fails exactly when the packet is 224 bytes or
      more, or the bytes do not fit. */
  method BuildName(clientID: seq<byte>, domain: seq<Label>, p: seq<byte>,
                   base32: seq<byte> -> seq<byte>, random: nat -> byte)
    returns (name: Option<seq<Label>>, ghost decoded: seq<byte>, ghost text: seq<Label>)
    requires |clientID| == CLIENT_ID_LEN && LegalLabels(domain)
    requires forall d: seq<byte> :: |base32(d)| == EncodedLen(|d|)
    ensures name.Some? <==> |p| < PADDING_PREFIX && Fits(domain, DecodedLen(|p|))
    ensures name.Some? ==> LegalName(name.value) && name.value == text + domain
    ensures name.Some? ==> Flatten(text) == Lower(base32(decoded)) && Unpacks(clientID, decoded, p)
    ensures name.Some? ==>
      decoded == if p == [] then clientID + [224 + 8] + seq(8, random)
                 else clientID + [224 + 3] + seq(3, random) + ([|p|] + p)
  {
    decoded, text := [], [];
    if |p| >= PADDING_PREFIX {
      return None, decoded, text;
    }
    var padding := Padding(p, random);
    var buf := clientID;
    buf := buf + [PADDING_PREFIX + |padding|] + padding;
    if |p| > 0 {
      buf := buf + [|p|] + p;
    }
    decoded := buf;
    assert decoded == Decoded(clientID, padding, p);
    UnpacksDecoded(clientID, padding, p);
    var encoded := Lower(base32(buf));
    var labels := Chunks(encoded, MAX_LABEL);
    text := labels;
    LabelsHaveTheReckonedLength(labels);
    labels := labels + domain;
    WireLenAppend(text, domain);
    var ok := NewName(labels);
    name := if ok then Some(labels) else None;
  }

  /** Client, one prefix byte with padding, and one length byte with the packet. */
  function DecodedLen(n: nat): nat {
    if n == 0 then CLIENT_ID_LEN + 1 + NUM_PADDING_FOR_POLL else CLIENT_ID_LEN + 1 + NUM_PADDING + 1 + n
  }

  /** What a server finds behind the client: packets, with padding skipped. */
  function Scan(body: seq<byte>): seq<seq<byte>> {
    if body == [] then []
    else if body[0] >= PADDING_PREFIX then
      if 1 + body[0] - PADDING_PREFIX > |body| then [] else Scan(body[1 + body[0] - PADDING_PREFIX..])
    else if 1 + body[0] > |body| then []
    else [body[1..1 + body[0]]] + Scan(body[1 + body[0]..])
  }

  /** The bytes name the client and carry the packet alone, or nothing for a poll. */
  ghost predicate Unpacks(clientID: seq<byte>, decoded: seq<byte>, p: seq<byte>) {
    && |decoded| == DecodedLen(|p|) && decoded[..CLIENT_ID_LEN] == clientID
    && Scan(decoded[CLIENT_ID_LEN..]) == if p == [] then [] else [p]
  }

  lemma UnpacksDecoded(clientID: seq<byte>, padding: seq<byte>, p: seq<byte>)
    requires |clientID| == CLIENT_ID_LEN && |p| < PADDING_PREFIX
    requires |padding| == if p == [] then NUM_PADDING_FOR_POLL else NUM_PADDING
    ensures Unpacks(clientID, Decoded(clientID, padding, p), p)
  {
    var decoded := Decoded(clientID, padding, p);
    var tail := if p == [] then [] else [|p|] + p;
    assert decoded[..CLIENT_ID_LEN] == clientID;
    var body := decoded[CLIENT_ID_LEN..];
    assert body == [PADDING_PREFIX + |padding|] + padding + tail;
    assert body[1 + |padding|..] == tail;
    if p != [] {
      assert tail[1..1 + |p|] == p && tail[1 + |p|..] == [];
      assert Scan(tail) == [p] + Scan([]);
    }
  }

  /** `dialSession`'s MTU, if it is accepted: every packet up to it, and every empty poll, fits into a
      name under the domain and is shorter than 224 bytes; and no longer packet fits. */
  method SessionMtu(domain: seq<Label>) returns (mtu: Option<nat>)
    ensures mtu.Some? ==>
      && mtu.value >= 80 && mtu.value < PADDING_PREFIX && Fits(domain, DecodedLen(0))
      && forall n: nat :: 0 < n ==> (Fits(domain, DecodedLen(n)) <==> n <= mtu.value)
    ensures mtu.None? <==> !Fits(domain, DecodedLen(80))
  {
    var capacity := DnsNameCapacity(domain);
    var m := capacity - 8 - 1 - NUM_PADDING - 1;
    if Room(domain) >= 0 {
      assert Fits(domain, DecodedLen(80)) <==> DecodedLen(80) <= capacity;
      assert Fits(domain, DecodedLen(0)) <==> DecodedLen(0) <= capacity;
      assert Fits(domain, DecodedLen(PADDING_PREFIX)) <==> DecodedLen(PADDING_PREFIX) <= capacity;
    }
    if m < 80 {
      return None;
    }
    return Some(m);
  }

  // Receiving.

  /** A packet with its length before it, as the server sends it in an answer. */
  function Frame(p: seq<byte>): seq<byte> { BigEndian16(|p|) + p }

  ghost predicate Framable(packets: seq<seq<byte>>) {
    forall i :: 0 <= i < |packets| ==> |packets[i]| < 0x1_0000
  }

  ghost function Frames(packets: seq<seq<byte>>): seq<byte> {
    if packets == [] then [] else Frame(packets[0]) + Frames(packets[1..])
  }

  /** No whole packet is there: the length or the bytes it announces are missing. */
  predicate Truncated(payload: seq<byte>) {
    |payload| < 2 || |payload| < 2 + Uint16(payload[..2])
  }

  /** The packets of a payload. */
  function Decode(payload: seq<byte>): seq<seq<byte>> {
    if Truncated(payload) then []
    else
      var end := 2 + Uint16(payload[..2]);
      [payload[2..end]] + Decode(payload[end..])
  }

  lemma DecodeFrame(p: seq<byte>, more: seq<byte>)
    requires |p| < 0x1_0000
    ensures Decode(Frame(p) + more) == [p] + Decode(more)
  {
    var payload := Frame(p) + more;
    Uint16RoundTrip(|p|);
    assert payload[..2] == BigEndian16(|p|);
    assert payload[2..2 + |p|] == p && payload[2 + |p|..] == more;
  }

  /** In bytes: the length comes first, in two bytes, the more significant one first. */
  lemma DecodeBytes(hi: byte, lo: byte, p: seq<byte>, more: seq<byte>)
    requires |p| == 256 * (hi as int) + lo
    ensures Decode([hi, lo] + p + more) == [p] + Decode(more)
  {
    BigEndianBytes(hi, lo);
    DecodeFrame(p, more);
  }

  /** What the server frames is what the client reads; a truncated packet at the end is dropped and
      harms no packet before it. */
  lemma {:induction false} DecodeFrames(packets: seq<seq<byte>>, cut: seq<byte>)
    requires Framable(packets) && Truncated(cut)
    ensures Decode(Frames(packets) + cut) == packets
  {
    if packets == [] {
      assert Frames(packets) + cut == cut;
    } else {
      var p, more := packets[0], packets[1..];
      DecodeFrames(more, cut);
      DecodeFrame(p, Frames(more) + cut);
      Regroup(Frame(p), Frames(more), cut);
    }
  }

  /** And nothing is lost: every payload is the frames of what is read from it, and a truncated rest. */
  lemma {:induction false} EveryPayloadIsFrames(payload: seq<byte>) returns (cut: seq<byte>)
    ensures Framable(Decode(payload)) && Truncated(cut) && payload == Frames(Decode(payload)) + cut
  {
    cut := payload;
    if Truncated(payload) {
    } else {
      var end := 2 + Uint16(payload[..2]);
      var p, rest := payload[2..end], payload[end..];
      cut := EveryPayloadIsFrames(rest);
      BigEndian16OfUint16(payload[..2]);
      assert payload == Frame(p) + rest;
      assert Decode(payload)[1..] == Decode(rest);
      assert Frame(p) + (Frames(Decode(rest)) + cut) == Frame(p) + Frames(Decode(rest)) + cut;
    }
  }

  /** bytes.Reader. */
  class Reader {
    const data: seq<byte>
    var at: nat

    ghost predicate Valid()
      reads this
    {
      at <= |data|
    }

    constructor (data: seq<byte>)
      ensures Valid() && this.data == data && at == 0
    {
      this.data := data;
      at := 0;
    }

    /** io.ReadFull with a buffer of n bytes: what is left, if there is less. */
    method ReadFull(n: nat) returns (got: seq<byte>, ok: bool)
      requires Valid()
      modifies this
      ensures Valid() && ok == (n <= |data| - old(at))
      ensures at == old(at) + |got| && got == data[old(at)..at] && (ok ==> |got| == n)
    {
      ok := n <= |data| - at;
      var end := if ok then at + n else |data|;
      got := data[at..end];
      at := end;
    }
  }

  /** `nextPacket`. */
  method NextPacket(r: Reader) returns (p: Option<seq<byte>>)
    requires r.Valid()
    modifies r
    ensures r.Valid() && r.at >= old(r.at)
    ensures p.None? <==> Truncated(r.data[old(r.at)..])
    ensures p.Some? ==>
      (r.at > old(r.at) && Decode(r.data[old(r.at)..]) == [p.value] + Decode(r.data[r.at..]))
  {
    ghost var left := r.data[r.at..];
    var head, ok := r.ReadFull(2);
    if !ok {
      return None;
    }
    assert head == left[..2];
    var body;
    body, ok := r.ReadFull(Uint16(head));
    if !ok {
      return None;
    }
    assert body == left[2..2 + Uint16(head)] && left[2 + Uint16(head)..] == r.data[r.at..];
    p := Some(body);
  }

  /** The decode loop of `recvLoop`: every whole packet is queued, in order, and a poll is asked for if
      and only if there was one. */
  method QueuePackets(payload: seq<byte>) returns (queued: seq<seq<byte>>, any: bool)
    ensures queued == Decode(payload) && (any <==> !Truncated(payload))
  {
    var r := new Reader(payload);
    queued, any := [], false;
    assert payload[0..] == payload;
    while true
      invariant r.Valid() && r.data == payload && Decode(payload) == queued + Decode(payload[r.at..])
      invariant any <==> r.at > 0
      invariant r.at > 0 ==> !Truncated(payload)
      decreases |payload| - r.at
    {
      ghost var at := r.at;
      var p := NextPacket(r);
      if p.None? {
        assert Decode(payload[at..]) == [];
        return;
      }
      any := true;
      queued := queued + [p.value];
    }
  }
}
