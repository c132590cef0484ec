/** The streaming fragmenter: it splits the first handshake record in two without buffering it,
    through Write and through ReadFrom, in chunks of any size. */
module RecordLenWriter {
  import opened Bytes
  import opened Streams
  import opened TlsRecord

  const MTU := 0x4000

  /** `writeN`. */
  method WriteN(dst: Sink, p: seq<byte>, limit: int) returns (n: nat, ok: bool)
    modifies dst
    ensures n <= |p| && dst.out == old(dst.out) + p[..n]
    ensures dst.failures == old(dst.failures) + B(!ok)
    ensures limit <= 0 ==> n == 0 && ok && dst.calls == old(dst.calls)
    ensures limit > 0 ==> n <= limit && |dst.calls| == |old(dst.calls)| + 1 && (ok ==> n == Min(|p|, limit))
  {
    if limit <= 0 {
      return 0, true;
    }
    var q := if |p| > limit then p[..limit] else p;
    n, ok := dst.Write(q);
    assert q[..n] == p[..n];
  }

  /** `writeBoth` and `writeBothN`: at most `limit` bytes of p1 then p2, in a single write. */
  method WriteBothN(dst: Sink, p1: seq<byte>, p2: seq<byte>, limit: nat) returns (n1: nat, n2: nat, ok: bool)
    modifies dst
    ensures n1 <= |p1| && n2 <= |p2| && n1 + n2 <= limit && (n2 > 0 ==> n1 == |p1|)
    ensures dst.out == old(dst.out) + p1[..n1] + p2[..n2]
    ensures dst.failures == old(dst.failures) + B(!ok)
    ensures ok ==> n1 + n2 == Min(|p1| + |p2|, limit)
    ensures if limit > 0 && |p1| + |p2| > 0 then dst.calls == old(dst.calls) + [p1[..n1] + p2[..n2]]
            else |dst.calls| <= |old(dst.calls)| + 1
  {
    if limit <= |p1| {
      n1, ok := dst.Write(p1[..limit]);
      n2 := 0;
      assert p1[..limit][..n1] == p1[..n1] == p1[..n1] + p2[..n2];
    } else {
      var q2 := if |p1| + |p2| > limit then p2[..limit - |p1|] else p2;
      if |p1| + |q2| == 0 {
        return 0, 0, true;
      }
      var n;
      n, ok := dst.Write(p1 + q2);
      n1, n2 := Min(n, |p1|), if n <= |p1| then 0 else n - |p1|;
      assert (p1 + q2)[..n] == p1[..n1] + p2[..n2];
    }
  }

  /** The payload p, all of it or the first record's part and more, goes out in two writes: a fragment of the
      record with the header h each. */
  ghost predicate TwoWrites(frag: int -> int, before: seq<seq<byte>>, after: seq<seq<byte>>, h: seq<byte>, p: seq<byte>)
    requires |h| == HEADER_LEN
  {
    var n := PayloadLen(h);
    var s := frag(n);
    0 < s <= |p| && s < n && after == before + [WithLen(h, s) + p[..s], WithLen(h, n - s) + p[s..]]
  }

  /** Sending hn more bytes of a header h, and p only once the header is out, leaves less owed. */
  lemma OwedShrinks(out: seq<byte>, h: seq<byte>, hn: nat, p: seq<byte>, target: seq<byte>)
    requires hn <= |h| && (p != [] ==> hn == |h|) && out + h == target
    ensures out + h[..hn] + p + h[hn..] == target + p
  {
    assert h[..hn] + h[hn..] == h;
    if p == [] {
      assert out + h[..hn] + p + h[hn..] == out + (h[..hn] + h[hn..]);
    } else {
      assert h[hn..] == [] && h[..hn] == h;
    }
  }

  lemma OwedRest(h: seq<byte>, r: nat, hn: nat)
    requires r + hn <= |h|
    ensures h[r..][hn..] == h[r + hn..]
  {}

  lemma NothingOwed(out: seq<byte>, h: seq<byte>)
    ensures out + h[|h|..] == out
  {}

  class RecordLenFragWriter {
    const base: Sink
    const frag: int -> int
    // Nothing is left to be split, so data goes straight to the base writer.
    var done: bool
    // The 5 header bytes; `hdr` is raw[..][hdrFrom..], and `tlsHdr`, once set, is all of it.
    const raw: array<byte>
    var hdrFrom: nat
    var hdrTo: nat
    var tlsHdr: bool
    var r1Size: int
    var r1Written: int
    var r2Size: int
    // What callers have been told was accepted: the first 5 bytes, and what followed.
    ghost var header: seq<byte>
    ghost var body: seq<byte>

    ghost function Accepted(): seq<byte>
      reads this
    {
      header + body
    }

    // The three phases, each for a given output so far.

    /** Still collecting the header. */
    ghost predicate CollectingAt(out: seq<byte>)
      reads this, raw
    {
      && !done && !tlsHdr && raw.Length == HEADER_LEN
      && hdrFrom == 0 && hdrTo < HEADER_LEN && r1Size == r1Written == 0
      && header == raw[..hdrTo] && body == [] && out == []
    }

    /** In the first record: its header is in `raw`. */
    ghost predicate Splitting()
      reads this, raw
    {
      && !done && tlsHdr && raw.Length == HEADER_LEN
      && hdrFrom == 0 && hdrTo == HEADER_LEN
      && |header| == HEADER_LEN && Splits(frag, header)
      && r1Size == frag(PayloadLen(header)) + HEADER_LEN
      && r2Size == PayloadLen(header) - frag(PayloadLen(header)) + HEADER_LEN
      && raw[..] == WithLen(header, r1Size - HEADER_LEN)
    }

    /** r1Written bytes of the first record are out. */
    ghost predicate FirstRecordAt(out: seq<byte>)
      requires Splitting()
      reads this, raw
    {
      && 0 <= r1Written
      && |body| == (if r1Written < HEADER_LEN then 0 else r1Written - HEADER_LEN)
      && out + raw[..][Min(r1Written, HEADER_LEN)..] == raw[..] + body
    }

    /** Past the split: what is left of the header goes out next, then everything as it comes. */
    ghost predicate PassingAt(out: seq<byte>)
      reads this, raw
    {
      && done && tlsHdr && raw.Length == HEADER_LEN && hdrFrom <= hdrTo == HEADER_LEN
      && |header| == HEADER_LEN && PastSplit(frag, header, body)
      && out + raw[..][hdrFrom..] == EmitBody(frag, header, body)
    }

    ghost predicate ValidAt(out: seq<byte>)
      reads this, raw
    {
      CollectingAt(out) || (Splitting() && FirstRecordAt(out) && r1Written < r1Size) || PassingAt(out)
    }

    ghost predicate Collecting()
      reads this, raw, base
    {
      CollectingAt(base.out)
    }

    ghost predicate FirstRecordOut()
      requires Splitting()
      reads this, raw, base
    {
      FirstRecordAt(base.out)
    }

    ghost predicate Passing()
      reads this, raw, base
    {
      PassingAt(base.out)
    }

    ghost predicate Valid()
      reads this, raw, base
    {
      ValidAt(base.out)
    }

    /** Header bytes that are due but have not been accepted by the base writer, if it has put out
        `out` so far. */
    ghost function OwedAt(out: seq<byte>): seq<byte>
      requires ValidAt(out)
      reads this, raw
    {
      if !tlsHdr then [] else if done then raw[..][hdrFrom..] else raw[..][Min(r1Written, HEADER_LEN)..]
    }

    ghost function Owed(): seq<byte>
      requires Valid()
      reads this, raw, base
    {
      OwedAt(base.out)
    }

    constructor (base: Sink, frag: int -> int)
      requires base.out == []
      ensures Valid() && this.base == base && this.frag == frag && Accepted() == [] && fresh(raw)
    {
      this.base := base;
      this.frag := frag;
      raw := new byte[HEADER_LEN];
      done, tlsHdr, hdrFrom, hdrTo := false, false, 0, 0;
      r1Size, r1Written, r2Size := 0, 0, 0;
      header, body := [], [];
    }

    /** What is out, and the header bytes still owed, are a fixed function of the input alone. */
    lemma OutIsAFunctionOfTheInput()
      requires Valid()
      ensures base.out + Owed() == Emit(frag, Accepted())
    {
      OutAtIsAFunctionOfTheInput(base.out);
    }

    lemma OutAtIsAFunctionOfTheInput(out: seq<byte>)
      requires ValidAt(out)
      ensures out + OwedAt(out) == Emit(frag, Accepted())
    {
      EmitOfParts(frag, header, body);
      if Splitting() {
        EmitBeforeSplit(frag, header, body);
      }
    }

    /** If bytes were lost on their way out, what is out is a prefix of what is owed, and the writer's
        state is not valid any more. */
    lemma LostShows(lost: seq<byte>)
      requires ValidAt(base.out + lost)
      ensures base.out <= Emit(frag, Accepted()) && (Valid() <==> lost == [])
    {
      OutAtIsAFunctionOfTheInput(base.out + lost);
      assert base.out <= base.out + lost <= Emit(frag, Accepted());
      assert base.out + [] == base.out;
      if Valid() {
        OutAtIsAFunctionOfTheInput(base.out);
        assert |base.out| + |Owed()| == |base.out + lost| + |Owed()|;
      }
    }

    lemma OutMatches()
      requires |header| == HEADER_LEN
      ensures Valid() && Owed() == [] ==> base.out == Emit(frag, Accepted())
      ensures base.out != EmitBody(frag, header, body) ==> base.out != Emit(frag, Accepted())
    {
      EmitOfParts(frag, header, body);
      if Valid() {
        OutIsAFunctionOfTheInput();
        assert base.out + [] == base.out;
      }
    }

    method FillHeader(p: seq<byte>) returns (n: nat)
      requires Collecting()
      modifies this`hdrTo, this`header, raw
      ensures n == Min(|p|, HEADER_LEN - old(hdrTo)) && hdrTo == old(hdrTo) + n
      ensures header == old(header) + p[..n] == raw[..hdrTo]
    {
      n := Min(|p|, HEADER_LEN - hdrTo);
      forall i | 0 <= i < n {
        raw[hdrTo + i] := p[i];
      }
      hdrTo := hdrTo + n;
      header := header + p[..n];
      assert raw[..hdrTo] == header;
    }

    /** `updateSplitRecordLens`. */
    method UpdateSplitRecordLens() returns (ok: bool)
      requires raw.Length == HEADER_LEN
      modifies this`r1Size, this`r2Size
      ensures ok <==> Inside(frag(PayloadLen(raw[..])), PayloadLen(raw[..]))
      ensures ok ==> && r1Size == frag(PayloadLen(raw[..])) + HEADER_LEN
                     && r2Size == PayloadLen(raw[..]) - frag(PayloadLen(raw[..])) + HEADER_LEN
      ensures !ok ==> r1Size == old(r1Size)
    {
      var total := PayloadLen(raw[..]);
      var split := frag(total);
      if split <= 0 || split >= total {
        return false;
      }
      r1Size := split + HEADER_LEN;
      r2Size := total - split + HEADER_LEN;
      return true;
    }

    /** The 5 bytes are there: decide, and turn them into the first record's header. */
    method ParseHeader()
      requires !done && !tlsHdr && raw.Length == HEADER_LEN && hdrFrom == 0 && hdrTo == HEADER_LEN
      requires header == raw[..] && body == [] && base.out == [] && r1Written == 0
      modifies this`tlsHdr, this`done, this`r1Size, this`r2Size, raw
      ensures tlsHdr && if Splits(frag, header) then Splitting() && FirstRecordOut() && r1Written < r1Size else Passing()
      ensures done <==> !Splits(frag, header)
    {
      tlsHdr := true;
      if !ValidHeader(raw[..]) {
        done := true;
      } else {
        var ok := UpdateSplitRecordLens();
        if !ok {
          done := true;
        } else {
          var _ := SetPayloadLen(raw, 0, r1Size - HEADER_LEN);
          assert raw[..] == raw[0..HEADER_LEN];
        }
      }
    }

    /** The part of Write that sends the first record. A resumption inside the header is given the
        whole of r1Size as its limit, whatever is out already. */
    method WriteFirst(p: seq<byte>) returns (m: nat, ok: bool)
      requires Splitting() && FirstRecordOut() && r1Written < r1Size
      modifies this`r1Written, this`body, base
      ensures Splitting() && FirstRecordOut()
      ensures m <= |p| && body == old(body) + p[..m]
      ensures var limit := if old(r1Written) < HEADER_LEN then r1Size - HEADER_LEN + old(r1Written)
                           else r1Size - old(r1Written);
              m <= limit && (ok ==> m == Min(|p|, limit) && r1Written >= HEADER_LEN)
      ensures base.failures == old(base.failures) + B(!ok) && |base.calls| == |old(base.calls)| + 1
      ensures ok && old(r1Written) == 0 ==> base.calls == old(base.calls) + [raw[..] + p[..m]]
    {
      if r1Written < HEADER_LEN {
        var hn;
        ghost var out, h := base.out, raw[..];
        hn, m, ok := WriteBothN(base, raw[..][r1Written..], p, r1Size);
        OwedShrinks(out, h[r1Written..], hn, p[..m], h + body);
        OwedRest(h, r1Written, hn);
        assert r1Written == 0 && hn == HEADER_LEN ==> h[r1Written..][..hn] == h;
        ghost var at := r1Written + hn;
        r1Written := r1Written + hn + m;
        assert h[at..] == h[Min(r1Written, HEADER_LEN)..];
      } else {
        NothingOwed(base.out, raw[..]);
        m, ok := WriteN(base, p, r1Size - r1Written);
        NothingOwed(base.out, raw[..]);
        r1Written := r1Written + m;
      }
      body := body + p[..m];
    }

    /** The second header is up, and exactly the first record, or up to 4 bytes more, is out. */
    ghost predicate FirstOutAt(out: seq<byte>)
      reads this, raw
    {
      && |header| == HEADER_LEN && Splits(frag, header)
      && r1Size == frag(PayloadLen(header)) + HEADER_LEN
      && |body| == r1Written - HEADER_LEN && r1Size <= r1Written <= r1Size + 4
      && out == WithLen(header, frag(PayloadLen(header))) + body
      && raw[..] == WithLen(header, PayloadLen(header) - frag(PayloadLen(header)))
    }

    /** The first record is out: `raw` becomes the second record's header. */
    method BeginSecond(ghost out: seq<byte>)
      requires Splitting() && FirstRecordAt(out) && r1Size <= r1Written <= r1Size + 4
      modifies this`done, raw
      ensures done && FirstOutAt(out) && (r1Written == r1Size ==> PassingAt(out))
    {
      NothingOwed(out, raw[..]);
      if r1Written == r1Size {
        EmitBeforeSplit(frag, header, body);
      }
      var _ := SetPayloadLen(raw, 0, r2Size - HEADER_LEN);
      assert raw[..] == raw[0..HEADER_LEN];
      done := true;
    }

    /** What is left of the header, together with p, in one write. */
    method FlushHeader(p: seq<byte>, ghost target: seq<byte>) returns (n: nat, ok: bool)
      requires raw.Length == HEADER_LEN && hdrFrom <= hdrTo == HEADER_LEN
      requires base.out + raw[..][hdrFrom..] == target
      modifies this`hdrFrom, base
      ensures hdrFrom <= hdrTo && n <= |p|
      ensures base.out + raw[..][hdrFrom..] == target + p[..n]
      ensures ok ==> hdrFrom == hdrTo && n == Min(|p|, MTU - (HEADER_LEN - old(hdrFrom)))
      ensures base.failures == old(base.failures) + B(!ok) && |base.calls| <= |old(base.calls)| + 1
      ensures ok && old(hdrFrom) == 0 ==> base.calls == old(base.calls) + [raw[..] + p[..n]]
    {
      ghost var out, h := base.out, raw[..][hdrFrom..];
      var hn;
      hn, n, ok := WriteBothN(base, raw[..][hdrFrom..], p, MTU);
      OwedShrinks(out, h, hn, p[..n], target);
      OwedRest(raw[..], hdrFrom, hn);
      assert hdrFrom == 0 && hn == HEADER_LEN ==> h[..hn] == raw[..];
      hdrFrom := hdrFrom + hn;
    }

    /** The end of Write: the header together with p, then the rest of p as it is. */
    method Forward(p: seq<byte>, ghost target: seq<byte>) returns (n: nat, ok: bool)
      requires raw.Length == HEADER_LEN && hdrFrom <= hdrTo == HEADER_LEN
      requires base.out + raw[..][hdrFrom..] == target
      modifies this`hdrFrom, this`body, base
      ensures hdrFrom <= hdrTo && n <= |p| && body == old(body) + p[..n]
      ensures base.out + raw[..][hdrFrom..] == target + p[..n]
      ensures ok ==> n == |p| && hdrFrom == hdrTo
      ensures base.failures == old(base.failures) + B(!ok) && |base.calls| <= |old(base.calls)| + 2
      ensures old(hdrFrom) == HEADER_LEN ==> base.calls == old(base.calls) + [p[..n]]
      ensures ok && old(hdrFrom) == 0 && |p| + HEADER_LEN <= MTU ==> base.calls == old(base.calls) + [raw[..] + p]
    {
      n := 0;
      var rest := p;
      LeavesNothingTaken(target, p);
      if hdrFrom < hdrTo {
        n, ok := FlushHeader(p, target);
        rest := p[n..];
        assert n == |p| ==> p[..n] == p;
        if !ok || |rest| == 0 {
          body := body + p[..n];
          return n, ok;
        }
      }
      NothingOwed(base.out, raw[..]);
      var m;
      m, ok := base.Write(rest);
      NothingOwed(base.out, raw[..]);
      PassedOn(target, p, n, m);
      body := body + p[..n + m];
      n := n + m;
    }

    /** Resuming a Write of n bytes is safe: the base writer did not stop strictly inside the first
        record's header, or n bytes cannot run past the end of that record. */
    ghost predicate Resumes(n: nat)
      reads this, raw
    {
      Splitting() && 0 < r1Written < HEADER_LEN ==> n <= r1Size - HEADER_LEN
    }

    /** Write once the first record is out, or is not to be split. */
    method WritePassing(p: seq<byte>) returns (n: nat, ok: bool)
      requires Passing()
      modifies this`hdrFrom, this`body, base
      ensures Passing() && n <= |p| && body == old(body) + p[..n]
      ensures ok ==> n == |p| && hdrFrom == hdrTo
      ensures base.failures == old(base.failures) + B(!ok) && |base.calls| <= |old(base.calls)| + 2
      ensures old(hdrFrom) == HEADER_LEN ==> base.calls == old(base.calls) + [p[..n]]
    {
      ghost var before := body;
      n, ok := Forward(p, EmitBody(frag, header, body));
      EmitPastSplit(frag, header, before, p[..n]);
    }

    /** Write once the header has been parsed. */
    method WriteBody(p: seq<byte>) returns (n: nat, ok: bool)
      requires Valid() && !Collecting()
      modifies this`done, this`r1Written, this`hdrFrom, this`body, raw, base
      ensures n <= |p| && header == old(header) && body == old(body) + p[..n]
      ensures ok ==> n == |p|
      ensures r1Written <= r1Size || old(Resumes(|p|)) ==> Valid()
      ensures ok && Valid() ==> Owed() == []
      ensures ok && !old(Resumes(|p|)) ==> base.out != EmitBody(frag, header, body)
      ensures base.failures == old(base.failures) + B(!ok) && |base.calls| <= |old(base.calls)| + (if old(done) then 2 else 3)
      ensures old(done && hdrFrom == HEADER_LEN) ==> base.calls == old(base.calls) + [p[..n]]
      ensures ok && !old(done) && old(r1Written) == 0 && old(r1Size) - HEADER_LEN <= |p| <= MTU + old(r1Size) - 2 * HEADER_LEN ==>
                TwoWrites(frag, old(base.calls), base.calls, header, p)
    {
      if done {
        n, ok := WritePassing(p);
        NothingOwed(base.out, raw[..]);
        return;
      }
      n, ok := WriteFirst(p);
      if r1Written < r1Size {
        return;
      }
      ghost var before := old(body);
      NothingOwed(base.out, raw[..]);
      BeginSecond(base.out);
      if ok {
        var k;
        k, ok := WriteSecond(p[n..]);
        PassedOn(before, p, n, k);
        n := n + k;
      }
    }

    /** The rest of a Write after the first record went out in it. */
    method WriteSecond(p: seq<byte>) returns (n: nat, ok: bool)
      requires done && tlsHdr && raw.Length == HEADER_LEN && hdrFrom == 0 && hdrTo == HEADER_LEN
      requires FirstOutAt(base.out)
      modifies this`hdrFrom, this`body, base
      ensures n <= |p| && body == old(body) + p[..n]
      ensures ok ==> n == |p| && hdrFrom == hdrTo
      ensures r1Written == r1Size ==> Passing()
      ensures ok && r1Written > r1Size ==> base.out != EmitBody(frag, header, body)
      ensures base.failures == old(base.failures) + B(!ok) && |base.calls| <= |old(base.calls)| + 2
      ensures ok && |p| + HEADER_LEN <= MTU ==> base.calls == old(base.calls) + [raw[..] + p]
    {
      ghost var sent, target := body, base.out + raw[..];
      n, ok := Forward(p, target);
      if r1Written == r1Size {
        EmitPastSplit(frag, header, sent, p[..n]);
      } else if ok {
        NothingOwed(base.out, raw[..]);
        LeavesTheRest(sent, p);
        SlippedHeaderShows(frag, header, body, |sent|);
      }
    }

    /** The same in terms of the whole input. */
    method WriteParsed(p: seq<byte>) returns (n: nat, ok: bool)
      requires Valid() && !Collecting()
      modifies this`done, this`r1Written, this`hdrFrom, this`body, raw, base
      ensures n <= |p| && Accepted() == old(Accepted()) + p[..n] && header == old(header) && body == old(body) + p[..n]
      ensures ok ==> n == |p|
      ensures r1Written <= r1Size || old(Resumes(|p|)) ==> Valid()
      ensures ok ==> (base.out == Emit(frag, Accepted()) <==> old(Resumes(|p|)))
      ensures base.failures == old(base.failures) + B(!ok) && |base.calls| <= |old(base.calls)| + 3
      ensures old(done && hdrFrom == HEADER_LEN) ==> base.calls == old(base.calls) + [p[..n]]
      ensures ok && !old(done) && old(r1Written) == 0 && old(r1Size) - HEADER_LEN <= |p| <= MTU + old(r1Size) - 2 * HEADER_LEN ==>
                TwoWrites(frag, old(base.calls), base.calls, header, p)
    {
      ghost var before := body;
      n, ok := WriteBody(p);
      assert header + (before + p[..n]) == header + before + p[..n];
      OutMatches();
    }

    /** The first record is to be split, its first fragment is there, and all there is behind that fits into
        one write with the second header. */
    ghost predicate Whole()
      reads this
    {
      && |header| == HEADER_LEN && Splits(frag, header)
      && frag(PayloadLen(header)) <= |body| <= 16384 + frag(PayloadLen(header)) - 5
    }

    /** The header part of a Write: with the fifth byte it is parsed. */
    method CollectHeader(p: seq<byte>) returns (filled: nat, more: bool)
      requires Collecting()
      modifies this`done, this`tlsHdr, this`hdrTo, this`r1Size, this`r2Size, this`header, raw
      ensures filled <= |p| && header == old(header) + p[..filled] && body == []
      ensures more ==> Collecting() && filled == |p| && |header| < HEADER_LEN
      ensures !more ==> Valid() && !Collecting() && |header| == HEADER_LEN && r1Written == 0
      ensures !more && Splits(frag, header) ==> !done && r1Size == frag(PayloadLen(header)) + HEADER_LEN
    {
      filled := FillHeader(p);
      more := hdrTo < HEADER_LEN;
      if !more {
        assert raw[..] == raw[..hdrTo];
        ParseHeader();
      }
    }

    /** A Write while the header is still being collected. */
    method WriteCollecting(p: seq<byte>) returns (n: nat, ok: bool)
      requires Collecting()
      modifies this`done, this`tlsHdr, this`hdrFrom, this`hdrTo, this`r1Size, this`r1Written, this`r2Size,
               this`header, this`body, raw, base
      ensures Valid() && n <= |p| && Accepted() == old(Accepted()) + p[..n]
      ensures ok ==> n == |p| && base.out == Emit(frag, Accepted())
      ensures base.failures == old(base.failures) + B(!ok) && |base.calls| <= |old(base.calls)| + 3
      ensures ok && Whole() ==> TwoWrites(frag, old(base.calls), base.calls, header, body)
    {
      ghost var before := Accepted();
      var filled, more := CollectHeader(p);
      assert header + [] == before + p[..filled];
      if more {
        return filled, true;
      }
      n, ok := WriteParsed(p[filled..]);
      assert ok ==> p[filled..][..n] == p[filled..] == body;
      PassedOn(before, p, filled, n);
      n := filled + n;
    }

    /** io.Writer.Write. After a call that succeeds, the base writer has exactly what the input calls
        for if and only if the call resumed safely; a call that fails can be resumed, with what it
        did not accept, unless it ran past the end of the first record. A record that comes at once, its
        header at most begun before, goes out in two writes, one for each fragment, unless the second is too
        long; later calls are one write each. */
    method Write(p: seq<byte>) returns (n: nat, ok: bool)
      requires Valid()
      modifies this`done, this`tlsHdr, this`hdrFrom, this`hdrTo, this`r1Size, this`r1Written, this`r2Size,
               this`header, this`body, raw, base
      ensures n <= |p| && Accepted() == old(Accepted()) + p[..n]
      ensures ok ==> n == |p|
      ensures r1Written <= r1Size || old(Resumes(|p|)) ==> Valid()
      ensures ok ==> (base.out == Emit(frag, Accepted()) <==> old(Resumes(|p|)))
      ensures base.failures == old(base.failures) + B(!ok) && |base.calls| <= |old(base.calls)| + 3
      ensures ok && old(Collecting()) && Whole() ==> TwoWrites(frag, old(base.calls), base.calls, header, body)
      ensures old(done && hdrFrom == hdrTo) ==> base.calls == old(base.calls) + [p[..n]]
    {
      if done || tlsHdr {
        n, ok := WriteParsed(p);
      } else {
        n, ok := WriteCollecting(p);
      }
    }

    // ---- The same writer over a base writer that implements io.ReaderFrom ----

    /** The number of header bytes that may still have to be copied out. */
    ghost function HeaderLeft(): int
      reads this
    {
      if !tlsHdr then 2 * HEADER_LEN
      else if !done then 2 * HEADER_LEN - Min(r1Written, HEADER_LEN)
      else HEADER_LEN - hdrFrom
    }

    /** Reads the rest of the header. Anything short of 5 bytes reads as the end of the stream, even
        when r failed. */
    method ReadHeader(r: Source) returns (splitting: bool, got: seq<byte>)
      requires Collecting()
      modifies this`done, this`tlsHdr, this`hdrTo, this`r1Size, this`r2Size, this`header, raw, r
      ensures old(r.rest) == got + r.rest && Accepted() == old(Accepted()) + got
      ensures if splitting then Splitting() && FirstRecordOut() && r1Written == 0 < r1Size && r.Budget() < old(r.Budget())
              else Passing() || Collecting()
      ensures r.Budget() <= old(r.Budget()) && HeaderLeft() <= old(HeaderLeft())
      ensures r.met == old(r.met) + Struck(old(r.Next()), |old(r.rest)|, HEADER_LEN - old(|header|))
    {
      ghost var before := header;
      var data, status := r.ReadFull(HEADER_LEN - hdrTo);
      got := data;
      var n := FillHeader(data);
      assert before + data + [] == before + [] + data;
      assert data[..n] == data;
      if hdrTo < HEADER_LEN {
        return false, got;
      }
      assert raw[..] == raw[..hdrTo];
      ParseHeader();
      splitting := !done;
    }

    /** Copies header bytes of the first record. */
    method CopyFirstHeader(max: nat) returns (data: seq<byte>)
      requires Splitting() && FirstRecordOut() && r1Written < HEADER_LEN && r1Size > HEADER_LEN
      modifies this`r1Written
      ensures Splitting() && FirstRecordAt(base.out + data)
      ensures |data| == Min(max, HEADER_LEN - old(r1Written)) && r1Written == old(r1Written) + |data|
    {
      ghost var h := raw[..][r1Written..];
      var n := Min(max, HEADER_LEN - r1Written);
      data := raw[..][r1Written..][..n];
      OwedShrinks(base.out, h, n, [], raw[..] + body);
      assert base.out + data + [] == base.out + data;
      OwedRest(raw[..], r1Written, n);
      r1Written := r1Written + n;
    }

    /** Reads payload bytes of the first record, never beyond it. */
    method ReadFirstPayload(r: Source, max: nat, ghost out: seq<byte>) returns (data: seq<byte>, status: ReadStatus)
      requires Splitting() && FirstRecordAt(out) && HEADER_LEN <= r1Written < r1Size && max > 0
      modifies this`done, this`r1Written, this`body, raw, r
      ensures ValidAt(out + data) && |data| <= max && header == old(header)
      ensures old(r.rest) == data + r.rest && body == old(body) + data
      ensures done || (Splitting() && r1Written >= HEADER_LEN)
      ensures status == Eof ==> r.Ended()
      ensures status == ReadOk || data != [] ==> r.Budget() < old(r.Budget())
      ensures r.Budget() <= old(r.Budget()) && HeaderLeft() <= old(HeaderLeft())
      ensures r.met == old(r.met) + B(status == ReadFailed) && (status == ReadFailed ==> r.met <= |r.Faults()|)
    {
      data, status := r.Read(Min(max, r1Size - r1Written));
      NothingOwed(out, raw[..]);
      NothingOwed(out + data, raw[..]);
      r1Written := r1Written + |data|;
      body := body + data;
      if r1Written == r1Size {
        BeginSecond(out + data);
      }
    }

    /** Something was read, or some header was copied. */
    twostate predicate Progress(r: Source)
      reads this, r
    {
      r.Budget() < old(r.Budget()) || (r.Budget() == old(r.Budget()) && HeaderLeft() < old(HeaderLeft()))
    }

    /** The header bytes that are not out yet, then payload bytes of the first record. */
    method SplittingRead(r: Source, max: nat) returns (data: seq<byte>, status: ReadStatus, got: seq<byte>)
      requires Splitting() && FirstRecordOut() && r1Written < r1Size && max > 0
      modifies this`done, this`r1Written, this`body, raw, r
      ensures ValidAt(base.out + data) && tlsHdr && |data| <= max
      ensures old(r.rest) == got + r.rest && Accepted() == old(Accepted()) + got
      ensures status == Eof ==> r.Ended() && (done || r1Written >= HEADER_LEN)
      ensures status == ReadOk || data != [] ==> Progress(r)
      ensures r.Budget() <= old(r.Budget()) && HeaderLeft() <= old(HeaderLeft())
      ensures r.met == old(r.met) + B(status == ReadFailed) && (status == ReadFailed ==> r.met <= |r.Faults()|)
    {
      data, got := [], [];
      assert base.out + [] == base.out && Accepted() + [] == Accepted();
      if r1Written < HEADER_LEN {
        data := CopyFirstHeader(max);
        if |data| == max {
          return data, ReadOk, got;
        }
      }
      var copied := data;
      var more;
      more, status := ReadFirstPayload(r, max - |data|, base.out + data);
      data, got := copied + more, more;
      Regroup(base.out, copied, got);
      Regroup(header, old(body), got);
    }

    /** How many failures of r go unnoticed: one, if it strikes before the last byte of the header or comes
        with it. */
    ghost function Unnoticed(r: Source): nat
      reads this, r
    {
      if done || tlsHdr || |header| > HEADER_LEN then 0 else Struck(r.Next(), |r.rest|, HEADER_LEN - |header|)
    }

    /** `fixedLenFirstRecordReader.Read` for a buffer of `max` bytes. */
    method FirstRecordRead(r: Source, max: nat) returns (data: seq<byte>, status: ReadStatus, got: seq<byte>)
      requires Valid() && max > 0
      modifies this`done, this`tlsHdr, this`hdrTo, this`r1Size, this`r1Written, this`r2Size,
               this`header, this`body, raw, r
      ensures ValidAt(base.out + data) && |data| <= max
      ensures old(r.rest) == got + r.rest && Accepted() == old(Accepted()) + got
      ensures status == Eof ==> done || !tlsHdr || (r.Ended() && r1Written >= HEADER_LEN)
      ensures status != Eof ==> tlsHdr
      ensures status == ReadOk || data != [] ==> Progress(r)
      ensures r.Budget() <= old(r.Budget()) && HeaderLeft() <= old(HeaderLeft())
      ensures r.met == old(r.met) + B(status == ReadFailed) + old(Unnoticed(r)) && (status == ReadFailed ==> r.met <= |r.Faults()|)
    {
      assert base.out + [] == base.out && Accepted() + [] == Accepted();
      if done {
        return [], Eof, [];
      }
      if tlsHdr {
        data, status, got := SplittingRead(r, max);
        return;
      }
      var splitting, first := ReadHeader(r);
      if !splitting {
        return [], Eof, first;
      }
      var more;
      data, status, more := SplittingRead(r, max);
      got := first + more;
      Regroup(first, more, r.rest);
      Regroup(old(Accepted()), first, more);
    }

    /** Copies what is left of the second header. */
    method CopySecondHeader(max: nat) returns (data: seq<byte>)
      requires Passing()
      modifies this`hdrFrom
      ensures PassingAt(base.out + data)
      ensures |data| == Min(max, HEADER_LEN - old(hdrFrom)) && hdrFrom == old(hdrFrom) + |data|
    {
      ghost var owed := raw[..][hdrFrom..];
      var n := Min(max, HEADER_LEN - hdrFrom);
      data := raw[..][hdrFrom..][..n];
      OwedShrinks(base.out, owed, n, [], EmitBody(frag, header, body));
      assert EmitBody(frag, header, body) + [] == EmitBody(frag, header, body);
      assert base.out + data + [] == base.out + data;
      OwedRest(raw[..], hdrFrom, n);
      hdrFrom := hdrFrom + n;
    }

    /** Reads input past the split, which goes out as it is. */
    method ReadOn(r: Source, max: nat, ghost out: seq<byte>) returns (data: seq<byte>, status: ReadStatus)
      requires PassingAt(out) && hdrFrom == HEADER_LEN
      modifies this`body, r
      ensures PassingAt(out + data) && |data| <= max
      ensures old(r.rest) == data + r.rest && body == old(body) + data
      ensures status == Eof ==> r.Ended()
      ensures status == ReadOk && max > 0 ==> r.Budget() < old(r.Budget())
      ensures r.Budget() <= old(r.Budget())
      ensures r.met == old(r.met) + B(status == ReadFailed) && (status == ReadFailed ==> r.met <= |r.Faults()|)
    {
      data, status := r.Read(max);
      EmitPastSplit(frag, header, body, data);
      NothingOwed(out, raw[..]);
      NothingOwed(out + data, raw[..]);
      body := body + data;
    }

    /** `fixedLenRemainingRecordReader.Read`: what is left of the second header, then the input. */
    method RemainingRead(r: Source, max: nat) returns (data: seq<byte>, status: ReadStatus, got: seq<byte>)
      requires Valid() && max > 0
      modifies this`hdrFrom, this`body, r
      ensures ValidAt(base.out + data) && |data| <= max
      ensures old(r.rest) == got + r.rest && Accepted() == old(Accepted()) + got
      ensures !done ==> status == Eof && unchanged(this) && unchanged(r) && data == []
      ensures done && status == Eof ==> r.Ended() && hdrFrom == HEADER_LEN
      ensures status == ReadOk ==> Progress(r)
      ensures r.Budget() <= old(r.Budget()) && HeaderLeft() <= old(HeaderLeft())
      ensures r.met == old(r.met) + B(status == ReadFailed) && (status == ReadFailed ==> r.met <= |r.Faults()|)
    {
      data, got := [], [];
      assert base.out + [] == base.out && Accepted() + [] == Accepted();
      if !done {
        return data, Eof, got;
      }
      data := CopySecondHeader(max);
      if hdrFrom < HEADER_LEN {
        return data, ReadOk, got;
      }
      var copied := data;
      var more;
      more, status := ReadOn(r, max - |data|, base.out + data);
      data, got := copied + more, more;
      Regroup(base.out, copied, more);
      Regroup(header, old(body), more);
    }

    /** io.MultiReader over the two readers. */
    method MultiRead(r: Source, max: nat, stage: nat) returns (data: seq<byte>, status: ReadStatus, stage': nat, got: seq<byte>)
      requires Valid() && max > 0 && (stage > 0 ==> done || !tlsHdr || (r.Ended() && r1Written >= HEADER_LEN))
      modifies this`done, this`tlsHdr, this`hdrFrom, this`hdrTo, this`r1Size, this`r1Written, this`r2Size,
               this`header, this`body, raw, r
      ensures ValidAt(base.out + data) && |data| <= max
      ensures old(r.rest) == got + r.rest && Accepted() == old(Accepted()) + got
      ensures stage' > 0 ==> done || !tlsHdr || (r.Ended() && r1Written >= HEADER_LEN)
      ensures status == Eof ==> stage' > 0 && (done ==> r.Ended() && hdrFrom == HEADER_LEN)
      ensures status == ReadFailed || stage' == 0 ==> tlsHdr
      ensures status == ReadOk ==> Progress(r) && tlsHdr
      ensures r.met == old(r.met) + B(status == ReadFailed) + (if stage == 0 then old(Unnoticed(r)) else 0)
      ensures status == ReadFailed ==> r.met <= |r.Faults()|
    {
      stage' := stage;
      if stage == 0 {
        data, status, got := FirstRecordRead(r, max);
        if status != Eof {
          return;
        }
        stage' := 1;
        if data != [] {
          status := ReadOk;
          return;
        }
        assert base.out + [] == base.out;
        var first := got;
        data, status, got := RemainingRead(r, max);
        Regroup(first, got, r.rest);
        Regroup(old(Accepted()), first, got);
        got := first + got;
      } else {
        data, status, got := RemainingRead(r, max);
      }
    }

    lemma NothingLeft()
      requires Valid() && (!done ==> !tlsHdr || r1Written >= HEADER_LEN) && (done ==> hdrFrom == HEADER_LEN)
      ensures base.out == Emit(frag, Accepted())
    {
      NothingOwed(base.out, raw[..]);
      OutIsAFunctionOfTheInput();
      assert base.out + [] == base.out;
    }

    /** The base writer reads once, with a buffer of any size, and puts out what it can. */
    method PassOn(r: Source, stage: nat)
      returns (err: ReadStatus, ok: bool, stage': nat, got: seq<byte>, ghost lost: seq<byte>)
      requires Valid() && (stage > 0 ==> done || !tlsHdr || (r.Ended() && r1Written >= HEADER_LEN))
      modifies this`done, this`tlsHdr, this`hdrFrom, this`hdrTo, this`r1Size, this`r1Written, this`r2Size,
               this`header, this`body, raw, base, r
      ensures ValidAt(base.out + lost) && base.failures == old(base.failures) + B(!ok) && (ok ==> lost == [])
      ensures old(r.rest) == got + r.rest && Accepted() == old(Accepted()) + got
      ensures stage' > 0 ==> done || !tlsHdr || (r.Ended() && r1Written >= HEADER_LEN)
      ensures err == Eof ==> stage' > 0 && (done ==> r.Ended() && hdrFrom == HEADER_LEN)
      ensures err == ReadFailed || stage' == 0 ==> tlsHdr
      ensures err == ReadOk ==> Progress(r) && tlsHdr
      ensures r.met == old(r.met) + B(err == ReadFailed) + (if stage == 0 then old(Unnoticed(r)) else 0)
      ensures err == ReadFailed ==> r.met <= |r.Faults()|
    {
      var max: nat :| max > 0;
      var data;
      data, err, stage', got := MultiRead(r, max, stage);
      ghost var out := base.out;
      var m;
      m, ok := base.Write(data);
      Rejoin(out, data, m);
      lost := data[m..];
    }

    /** The base writer reads the two readers, with buffers of any size, to the end or until one of its
        own writes fails. */
    method ReadSplitting(r: Source) returns (n: nat, status: CopyStatus, ghost got: seq<byte>, ghost lost: seq<byte>)
      requires Valid()
      modifies this`done, this`tlsHdr, this`hdrFrom, this`hdrTo, this`r1Size, this`r1Written, this`r2Size,
               this`header, this`body, raw, base, r
      ensures old(r.rest) == got + r.rest && Accepted() == old(Accepted()) + got
      ensures n == |got|
      ensures ValidAt(base.out + lost) && base.out <= Emit(frag, Accepted()) && (Valid() <==> lost == [])
      ensures base.failures == old(base.failures) + B(status == CopyWriteFailed) && (status != CopyWriteFailed ==> lost == [])
      ensures status == CopyDone ==> base.out == Emit(frag, Accepted())
      ensures status == CopyDone && |Accepted()| >= HEADER_LEN ==> r.Ended()
      ensures status == CopyReadFailed ==> r.met <= |r.Faults()|
      ensures |Accepted()| < HEADER_LEN ==> status != CopyReadFailed
      ensures status != CopyWriteFailed ==> r.met == old(r.met) + B(status == CopyReadFailed) + old(Unnoticed(r))
    {
      n, got, lost := 0, [], [];
      var err, ok, stage := ReadOk, true, 0;
      ghost var all, before, started := r.rest, Accepted(), false;
      while err == ReadOk && ok
        invariant ValidAt(base.out + lost) && base.failures == old(base.failures) + B(!ok) && (ok ==> lost == [])
        invariant all == got + r.rest && n == |got| && Accepted() == before + got
        invariant stage > 0 ==> done || !tlsHdr || (r.Ended() && r1Written >= HEADER_LEN)
        invariant err == Eof ==> stage > 0 && (done ==> r.Ended() && hdrFrom == HEADER_LEN)
        invariant err == ReadFailed ==> tlsHdr && r.met <= |r.Faults()|
        invariant started && err == ReadOk ==> tlsHdr
        invariant !started ==> stage == 0 && err == ReadOk && Unnoticed(r) == old(Unnoticed(r))
        invariant r.met == old(r.met) + B(err == ReadFailed) + (if started then old(Unnoticed(r)) else 0)
        decreases err == ReadOk && ok, r.Budget(), HeaderLeft()
      {
        assert base.out + [] == base.out;
        var more;
        err, ok, stage, more, lost := PassOn(r, stage);
        started := true;
        n := n + |more|;
        Regroup(got, more, r.rest);
        Regroup(before, got, more);
        got := got + more;
      }
      LostShows(lost);
      status := if !ok then CopyWriteFailed else if err == Eof then CopyDone else CopyReadFailed;
      if status == CopyDone {
        NothingLeft();
      }
    }

    /** Once nothing is owed the base writer reads r itself. What it takes and does not put out is lost. */
    method ReadPassing(r: Source) returns (n: nat, status: CopyStatus, ghost got: seq<byte>, ghost lost: seq<byte>)
      requires Passing() && hdrFrom == HEADER_LEN
      modifies this`body, base, r
      ensures PassingAt(base.out + lost) && hdrFrom == HEADER_LEN
      ensures old(r.rest) == got + r.rest && Accepted() == old(Accepted()) + got
      ensures |got| - |lost| <= n <= |got|
      ensures base.failures == old(base.failures) + B(status == CopyWriteFailed) && (status != CopyWriteFailed ==> lost == [])
      ensures status == CopyDone ==> r.Ended()
      ensures status == CopyReadFailed ==> r.met <= |r.Faults()|
      ensures status != CopyWriteFailed ==> r.met == old(r.met) + B(status == CopyReadFailed)
    {
      ghost var sent, parts;
      n, status, sent, lost, parts := CopyFrom(base, r, None);
      got := sent + lost;
      EmitPastSplit(frag, header, body, got);
      NothingOwed(old(base.out), raw[..]);
      NothingOwed(base.out + lost, raw[..]);
      Regroup(old(base.out), sent, lost);
      Regroup(header, body, got);
      body := body + got;
    }

    /** io.ReaderFrom.ReadFrom: the base writer reads r, through the two readers if there is anything left
        to split or owed. Of r's failures exactly the one that strikes before or with the last byte of the
        header goes unreported. What the base writer puts out is always a prefix of what it is owed. What
        it lost is what this writer takes to be out as well, and this writer can go on if and only if that
        is nothing. The count is of what was read from
        r, unless the base writer reads r itself and loses some. */
    method ReadFrom(r: Source) returns (n: nat, status: CopyStatus, ghost got: seq<byte>, ghost lost: seq<byte>)
      requires Valid()
      modifies this`done, this`tlsHdr, this`hdrFrom, this`hdrTo, this`r1Size, this`r1Written, this`r2Size,
               this`header, this`body, raw, base, r
      ensures old(r.rest) == got + r.rest && Accepted() == old(Accepted()) + got
      ensures if old(done && hdrFrom == HEADER_LEN) then |got| - |lost| <= n <= |got| else n == |got|
      ensures ValidAt(base.out + lost) && base.out <= Emit(frag, Accepted()) && (Valid() <==> lost == [])
      ensures base.failures == old(base.failures) + B(status == CopyWriteFailed) && (status != CopyWriteFailed ==> lost == [])
      ensures status == CopyDone ==> base.out == Emit(frag, Accepted())
      ensures status == CopyDone && |Accepted()| >= HEADER_LEN ==> r.Ended()
      ensures status == CopyReadFailed ==> r.met <= |r.Faults()|
      ensures |Accepted()| < HEADER_LEN ==> status != CopyReadFailed
      ensures status != CopyWriteFailed ==> r.met == old(r.met) + B(status == CopyReadFailed) + old(Unnoticed(r))
    {
      if !done || hdrFrom < HEADER_LEN {
        n, status, got, lost := ReadSplitting(r);
      } else {
        n, status, got, lost := ReadPassing(r);
        LostShows(lost);
        if status == CopyDone {
          assert base.out + [] == base.out;
          NothingLeft();
        }
      }
    }
  }

  lemma Rejoin(out: seq<byte>, data: seq<byte>, m: nat)
    requires m <= |data|
    ensures out + data[..m] + data[m..] == out + data && (m == |data| ==> data[m..] == [])
  {
    assert data == data[..m] + data[m..];
  }

  /** The failure that comes with the fifth byte is lost, whatever the header and the callback: the call
      ends as if the source had ended well. */
  method FailureWithTheFifthByte(header: seq<byte>, frag: int -> int) returns (status: CopyStatus, met: nat)
    requires |header| == HEADER_LEN
    ensures status != CopyWriteFailed ==> status == CopyDone && met == 1
  {
    var base := new Sink();
    var w := new RecordLenFragWriter(base, frag);
    var r := new Source(header, 0, [Fault(0, true)]);
    var n;
    ghost var got, lost;
    n, status, got, lost := w.ReadFrom(r);
    met := r.met;
  }

  /** And so is one that comes earlier. */
  method FailureWithinTheHeader(header: seq<byte>, frag: int -> int, at: nat, withByte: bool)
    returns (status: CopyStatus, met: nat)
    requires |header| == HEADER_LEN && 0 < at <= HEADER_LEN
    ensures status != CopyWriteFailed ==> status == CopyDone && met == 1
  {
    var base := new Sink();
    var w := new RecordLenFragWriter(base, frag);
    var r := new Source(header, 0, [Fault(at, withByte)]);
    var n;
    ghost var got, lost;
    n, status, got, lost := w.ReadFrom(r);
    met := r.met;
  }
}
