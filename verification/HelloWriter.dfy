/** The buffering fragmenter: it collects the first handshake record in a buffer with room for one
    more header, shows its content to the callback, and splits it in place. */
module HelloWriter {
  import opened Bytes
  import opened Streams
  import opened TlsRecord

  datatype HelloStatus = NeedMore | FullyReceived | Invalid | Failed | ShortWrite

  /** What a buffer holding `mem` in an array of `cap` bytes looks like: 5 spare bytes once the header
      is accepted. */
  ghost predicate Shape(mem: seq<byte>, cap: nat, invalid: bool) {
    if |mem| < HEADER_LEN then !invalid && cap == HEADER_LEN
    else if invalid then |mem| == HEADER_LEN == cap && !ValidHeader(mem)
    else ValidHeader(mem[..5]) && cap == 2 * HEADER_LEN + PayloadLen(mem[..5]) && |mem| <= cap - HEADER_LEN
  }

  ghost predicate Collected(mem: seq<byte>) {
    |mem| >= HEADER_LEN && ValidHeader(mem[..5]) && |mem| == HEADER_LEN + PayloadLen(mem[..5])
  }

  /** The header is there and is not one to split. */
  ghost predicate Rejected(mem: seq<byte>) {
    |mem| == HEADER_LEN && !ValidHeader(mem)
  }

  lemma ShapeGrows(mem: seq<byte>, cap: nat, p: seq<byte>)
    requires Shape(mem, cap, false) && |mem| >= HEADER_LEN && |mem| + |p| <= cap - HEADER_LEN
    ensures Shape(mem + p, cap, false) && Collected(mem + p) == (|mem| + |p| == cap - HEADER_LEN)
  {
    assert (mem + p)[..5] == mem[..5];
  }

  // What becomes of the failures of a source while the first record is collected.

  /** How many more bytes settle a record of which `mem` is there, header included. */
  function Missing(mem: seq<byte>): nat
    requires |mem| >= HEADER_LEN
  {
    var all := HEADER_LEN + PayloadLen(mem[..5]);
    if all >= |mem| then all - |mem| else 0
  }

  /** The source, which has met some of its failures, fails strictly before the first record is settled,
      at a place where that is noticed: a failure that comes with the last byte of the header is not. */
  predicate GivesUp(faults: seq<Fault>, met: nat, mem: seq<byte>, rest: seq<byte>) {
    if |mem| >= HEADER_LEN then Within(Due(faults, met), |rest|, Missing(mem))
    else
      var n := HEADER_LEN - |mem|;
      || Within(Due(faults, met), |rest|, n)
      || (|rest| >= n && ValidHeader(mem + rest[..n])
          && Within(Due(faults, met + Struck(Due(faults, met), |rest|, n)), |rest| - n, Missing(mem + rest[..n])))
  }

  /** How many failures are forgotten: those that strike before the byte that settles the first record,
      or with it; the first one that is noticed settles it too. */
  function Forgets(faults: seq<Fault>, met: nat, mem: seq<byte>, rest: seq<byte>): nat {
    if |mem| >= HEADER_LEN then Struck(Due(faults, met), |rest|, Missing(mem))
    else
      var n := HEADER_LEN - |mem|;
      var s := Struck(Due(faults, met), |rest|, n);
      s + if Within(Due(faults, met), |rest|, n) || |rest| < n || !ValidHeader(mem + rest[..n]) then 0
          else Struck(Due(faults, met + s), |rest| - n, Missing(mem + rest[..n]))
  }

  /** What waiting for the header settles, and what is left for the payload. */
  lemma FateOfHeader(faults: seq<Fault>, met: nat, mem: seq<byte>, rest: seq<byte>, got: seq<byte>, left: seq<byte>, met': nat)
    requires |mem| < HEADER_LEN && rest == got + left && |mem| + |got| <= HEADER_LEN
    requires met' == met + Struck(Due(faults, met), |rest|, HEADER_LEN - |mem|)
    requires |mem| + |got| < HEADER_LEN && !Within(Due(faults, met), |rest|, HEADER_LEN - |mem|) ==> left == []
    ensures var n := HEADER_LEN - |mem|; var all := mem + got;
            if |all| == HEADER_LEN && ValidHeader(all) && !Within(Due(faults, met), |rest|, n) then
              && GivesUp(faults, met, mem, rest) == Within(Due(faults, met'), |left|, Missing(all))
              && met + Forgets(faults, met, mem, rest) == met' + Struck(Due(faults, met'), |left|, Missing(all))
            else
              && GivesUp(faults, met, mem, rest) == Within(Due(faults, met), |rest|, n)
              && met + Forgets(faults, met, mem, rest) == met'
  {
    if |mem| + |got| == HEADER_LEN {
      assert rest[..|got|] == got;
    }
  }

  /** `clientHelloBuffer`. */
  class HelloBuffer {
    // `data[..len]`, with capacity data.Length.
    var data: array<byte>
    var len: nat
    var invalid: bool
    // What the buffer holds.
    ghost var mem: seq<byte>

    ghost predicate Valid()
      reads this, data
    {
      len <= data.Length && mem == data[..len] && Shape(mem, data.Length, invalid)
    }

    constructor ()
      ensures Valid() && mem == [] && fresh(data)
    {
      data := new byte[HEADER_LEN];
      len, invalid, mem := 0, false, [];
    }

    /** Reading into the free part of the slice. */
    method Extend(p: seq<byte>)
      requires len + |p| <= data.Length && mem == data[..len]
      modifies this`len, this`mem, data
      ensures mem == old(mem) + p && len == old(len) + |p| <= data.Length && mem == data[..len]
    {
      forall i | 0 <= i < |p| {
        data[len + i] := p[i];
      }
      len := len + |p|;
      mem := mem + p;
    }

    /** Moves the header to a buffer with room for the payload and one more header. */
    method Reallocate()
      requires data.Length == len == HEADER_LEN && mem == data[..len] && ValidHeader(mem) && !invalid
      modifies this`data
      ensures Valid() && fresh(data)
    {
      var payload := PayloadLen(data[..]);
      assert data[..] == data[..len];
      var grown := new byte[2 * HEADER_LEN + payload];
      forall i | 0 <= i < HEADER_LEN {
        grown[i] := data[i];
      }
      assert grown[..len] == data[..len];
      data := grown;
      assert mem[..5] == mem;
    }

    /** Waits for the 5 bytes of header, and checks them: NeedMore with 5 bytes means go on. */
    method ReadHeader(r: Source) returns (n: nat, status: HelloStatus, ghost got: seq<byte>)
      requires Valid() && len < HEADER_LEN
      modifies this, data, r
      ensures Valid() && (data == old(data) || fresh(data))
      ensures n == |got| && old(r.rest) == got + r.rest && mem == old(mem) + got
      ensures status == NeedMore || status == Invalid || status == Failed
      ensures status == NeedMore ==> (|mem| < HEADER_LEN && r.rest == []) || (|mem| == HEADER_LEN && !invalid)
      ensures status == Invalid ==> Rejected(mem)
      ensures status == Failed ==> |mem| < HEADER_LEN
      ensures status == Failed <==> Within(old(r.Next()), |old(r.rest)|, HEADER_LEN - |old(mem)|)
      ensures r.met == old(r.met) + Struck(old(r.Next()), |old(r.rest)|, HEADER_LEN - |old(mem)|)
    {
      var data', e := r.ReadFull(HEADER_LEN - len);
      got := data';
      Extend(data');
      n := |data'|;
      if e != FullStatus.Full {
        status := if e == FullFailed then Failed else NeedMore;
        return;
      }
      assert data[..] == data[..len];
      if !ValidHeader(data[..]) {
        invalid := true;
        return n, Invalid, got;
      }
      Reallocate();
      status := NeedMore;
    }

    /** One read of payload bytes. */
    method ReadMore(r: Source) returns (more: seq<byte>, e: ReadStatus)
      requires Valid() && HEADER_LEN <= len < data.Length - HEADER_LEN && !invalid
      modifies this`len, this`mem, data, r
      ensures Valid() && mem == old(mem) + more && len == old(len) + |more| <= data.Length - HEADER_LEN
      ensures old(r.rest) == more + r.rest && !invalid
      ensures Collected(mem) <==> len == data.Length - HEADER_LEN
      ensures e == Eof ==> r.Ended()
      ensures e == ReadOk ==> r.Budget() < old(r.Budget())
      ensures r.met == old(r.met) + B(e == ReadFailed) && Met(old(r.Next()), |old(r.rest)|, |more|, e == ReadFailed)
      ensures e == ReadFailed && |more| > 0 ==> old(r.Next()).value.withByte && old(r.Next()).value.at < |old(r.rest)|
    {
      more, e := r.Read(data.Length - HEADER_LEN - len);
      ShapeGrows(mem, data.Length, more);
      Extend(more);
    }

    /** Waits for the payload, leaving the last 5 bytes of the capacity free. An error that comes
        with the last byte is dropped. */
    method ReadPayload(r: Source) returns (n: nat, status: HelloStatus, ghost got: seq<byte>)
      requires Valid() && len >= HEADER_LEN && !invalid
      modifies this`len, this`mem, data, r
      ensures Valid()
      ensures n == |got| && old(r.rest) == got + r.rest && mem == old(mem) + got
      ensures status == NeedMore || status == FullyReceived || status == Failed
      ensures status == FullyReceived <==> Collected(mem)
      ensures status == NeedMore ==> r.rest == []
      ensures status == Failed <==> Within(old(r.Next()), |old(r.rest)|, Missing(old(mem)))
      ensures r.met == old(r.met) + Struck(old(r.Next()), |old(r.rest)|, Missing(old(mem)))
    {
      n, got := 0, [];
      ghost var f, left, want, before := r.Next(), |r.rest|, Missing(mem), mem;
      CapacityIsExact();
      while len < data.Length - HEADER_LEN
        invariant Valid() && HEADER_LEN <= len && !invalid && n <= want == data.Length - HEADER_LEN - |before|
        invariant n == |got| && old(r.rest) == got + r.rest && mem == before + got
        invariant Collected(mem) <==> len == data.Length - HEADER_LEN
        invariant r.met == old(r.met) && Met(f, left, n, false)
        decreases r.Budget()
      {
        var more, e := ReadMore(r);
        MetTwice(f, left, n, |more|, e == ReadFailed);
        Regroup(before, got, more);
        Regroup(got, more, r.rest);
        n, got := n + |more|, got + more;
        if len == data.Length - HEADER_LEN {
          MetMeansStruck(f, left, n, want, e == ReadFailed);
          return n, FullyReceived, got;
        }
        if e != ReadOk {
          MetMeansStruck(f, left, n, want, e == ReadFailed);
          status := if e == Eof then NeedMore else Failed;
          return;
        }
      }
      MetMeansStruck(f, left, n, want, false);
      status := FullyReceived;
    }

    /** What is missing is what is free, but for the 5 spare bytes. */
    lemma CapacityIsExact()
      requires Valid() && len >= HEADER_LEN && !invalid
      ensures Missing(mem) == data.Length - HEADER_LEN - len && (Collected(mem) <==> len == data.Length - HEADER_LEN)
    {}

    /** Both parts of ReadFrom, one after the other. */
    method ReadBoth(r: Source) returns (n: nat, status: HelloStatus, ghost got: seq<byte>)
      requires Valid() && len < HEADER_LEN
      modifies this, data, r
      ensures Valid() && (data == old(data) || fresh(data))
      ensures n == |got| && old(r.rest) == got + r.rest && mem == old(mem) + got
      ensures status == FullyReceived <==> Collected(mem)
      ensures status == Invalid <==> Rejected(mem)
      ensures status == NeedMore ==> r.rest == []
      ensures status == Failed <==> GivesUp(r.Faults(), old(r.met), old(mem), old(r.rest))
      ensures r.met == old(r.met) + Forgets(r.Faults(), old(r.met), old(mem), old(r.rest))
      ensures status != ShortWrite
    {
      n, status, got := ReadHeader(r);
      FateOfHeader(r.Faults(), old(r.met), old(mem), old(r.rest), got, r.rest, r.met);
      if status != NeedMore || len < HEADER_LEN {
        return;
      }
      ghost var first, header := got, mem;
      var more;
      more, status, got := ReadPayload(r);
      Regroup(first, got, r.rest);
      Regroup(old(mem), first, got);
      n, got := n + more, first + got;
    }

    /** `clientHelloBuffer.ReadFrom`. It never takes a byte past the first record. Of the failures of r it
        reports the one that makes it give up, and forgets what it need not notice. */
    method ReadFrom(r: Source) returns (n: nat, status: HelloStatus, ghost got: seq<byte>)
      requires Valid()
      modifies this, data, r
      ensures Valid() && (data == old(data) || fresh(data))
      ensures n == |got| && old(r.rest) == got + r.rest && mem == old(mem) + got
      ensures status == FullyReceived <==> Collected(mem)
      ensures status == Invalid <==> Rejected(mem)
      ensures status == NeedMore ==> r.rest == []
      ensures !Rejected(old(mem)) ==> (status == Failed <==> GivesUp(r.Faults(), old(r.met), old(mem), old(r.rest)))
      ensures !Rejected(old(mem)) ==> r.met == old(r.met) + Forgets(r.Faults(), old(r.met), old(mem), old(r.rest))
      ensures status != ShortWrite
    {
      if len < HEADER_LEN {
        n, status, got := ReadBoth(r);
      } else if invalid {
        return 0, Invalid, [];
      } else {
        n, status, got := ReadPayload(r);
      }
    }

    /** `clientHelloBuffer.Write`: io.ErrShortWrite is never returned. */
    method Write(p: seq<byte>) returns (n: nat, status: HelloStatus)
      requires Valid()
      modifies this, data
      ensures Valid() && (data == old(data) || fresh(data))
      ensures n <= |p| && mem == old(mem) + p[..n]
      ensures status == FullyReceived <==> Collected(mem)
      ensures status == Invalid <==> Rejected(mem)
      ensures status == NeedMore ==> n == |p|
      ensures status == NeedMore || status == FullyReceived || status == Invalid
    {
      var bufrd := new Source.OfBytes(p);
      ghost var got;
      n, status, got := ReadFrom(bufrd);
      assert p[..n] == got;
      if status == NeedMore && n != |p| {
        status := ShortWrite;
      }
    }
  }

  lemma FourParts(b: seq<byte>, h: seq<byte>, s: nat, payload: seq<byte>)
    requires |h| == HEADER_LEN && s <= |payload| && |b| == 2 * HEADER_LEN + |payload|
    requires b[..5] == WithLen(h, s) && b[5..5 + s] == payload[..s]
    requires b[5 + s..10 + s] == WithLen(h, |payload| - s) && b[10 + s..] == payload[s..]
    ensures b == Fragmented(h, s, payload)
  {
    assert b == b[..5] + b[5..5 + s] + b[5 + s..10 + s] + b[10 + s..];
  }

  lemma RecordParts(b: seq<byte>, h: seq<byte>, s: nat, payload: seq<byte>)
    requires |h| == HEADER_LEN && s <= |payload| && HEADER_LEN + |payload| <= |b|
    requires b[..HEADER_LEN + |payload|] == h + payload
    ensures b[..5] == h && b[5..5 + s] == payload[..s] && b[5 + s..5 + |payload|] == payload[s..]
  {
    assert b[..5] == b[..HEADER_LEN + |payload|][..5];
    assert forall i :: 5 <= i < 5 + |payload| ==> b[i] == b[..HEADER_LEN + |payload|][i];
  }

  /** `copy(payload2, tail)`: source and destination overlap, so the move is all at once. */
  method ShiftTail(a: array<byte>, from: nat, n: nat)
    requires from + n + HEADER_LEN == a.Length
    modifies a
    ensures a[from + HEADER_LEN..] == old(a[from..from + n])
    ensures forall i :: 0 <= i < from ==> a[i] == old(a[i])
  {
    forall i | 0 <= i < n {
      a[from + HEADER_LEN + i] := a[from + i];
    }
  }

  /** `copy(hdr2, hdr1)`. */
  method CopyHeader(a: array<byte>, to: nat)
    requires HEADER_LEN <= to && to + HEADER_LEN <= a.Length
    modifies a
    ensures a[to..to + HEADER_LEN] == old(a[..HEADER_LEN])
    ensures forall i :: 0 <= i < a.Length && !(to <= i < to + HEADER_LEN) ==> a[i] == old(a[i])
  {
    forall i | 0 <= i < HEADER_LEN {
      a[to + i] := a[i];
    }
  }

  /** The in-place split of `splitHelloBufToRecord`: the record fills all but the last 5 bytes of the
      array, and its two fragments fill the array. */
  method SplitInPlace(a: array<byte>, s: nat, ghost h: seq<byte>, ghost payload: seq<byte>)
    requires |h| == HEADER_LEN && 0 < s < |payload| <= MAX_RECORD_PAYLOAD
    requires a.Length == 2 * HEADER_LEN + |payload| && a[..HEADER_LEN + |payload|] == h + payload
    modifies a
    ensures a[..] == Fragmented(h, s, payload)
  {
    var n := a.Length - 2 * HEADER_LEN - s;
    RecordParts(a[..], h, s, payload);
    assert a[5 + s..5 + s + n] == a[..][5 + s..5 + s + n];
    var ok := SetPayloadLen(a, 0, s);
    assert a[5 + s..5 + s + n] == payload[s..];
    ShiftTail(a, HEADER_LEN + s, n);
    assert a[..5] == WithLen(h, s) && a[10 + s..] == payload[s..];
    CopyHeader(a, HEADER_LEN + s);
    assert a[10 + s..] == payload[s..];
    ok := SetPayloadLen(a, HEADER_LEN + s, n);
    assert a[10 + s..] == payload[s..];
    FourParts(a[..], h, s, payload);
  }

  /** The first record is complete, or its header is not one to split. */
  predicate Settled(x: seq<byte>) {
    |x| >= HEADER_LEN && (ValidHeader(x[..5]) ==> Complete(x[..5], x[5..]))
  }

  lemma SettledIsSent(frag: seq<byte> -> int, x: seq<byte>)
    requires Settled(x)
    ensures HelloEmit(frag, x) != []
  {}

  /** The first record, and nothing else, is in x: it is not in less. */
  lemma ExactlyOne(x: seq<byte>, rest: seq<byte>)
    requires (Collected(x) || Rejected(x)) && (Collected(x + rest) || Rejected(x + rest))
    ensures rest == []
  {
    assert (x + rest)[..5] == x[..5];
  }

  lemma SettledGrows(frag: seq<byte> -> int, x: seq<byte>, p: seq<byte>)
    requires Settled(x)
    ensures Settled(x + p) && HelloEmit(frag, x + p) == HelloEmit(frag, x) + p
  {
    assert (x + p)[..5] == x[..5] && (x + p)[5..] == x[5..] + p;
    HelloEmitPastRecord(frag, x[..5], x[5..], p);
  }

  lemma CollectedIsSettled(frag: seq<byte> -> int, x: seq<byte>)
    requires Collected(x)
    ensures Settled(x) && HelloEmit(frag, x) == FirstRecord(frag, x[..5], x[5..])
  {
    assert x[5..][..PayloadLen(x[..5])] == x[5..];
    assert x[5..][PayloadLen(x[..5])..] == [];
  }

  lemma RejectedIsSettled(frag: seq<byte> -> int, x: seq<byte>)
    requires Rejected(x)
    ensures Settled(x) && HelloEmit(frag, x) == x
  {
    assert x[..5] == x && x + x[5..] == x;
  }

  lemma StillWaiting(frag: seq<byte> -> int, x: seq<byte>, cap: nat, invalid: bool)
    requires Shape(x, cap, invalid) && !Collected(x) && !Rejected(x)
    ensures HelloEmit(frag, x) == []
  {}

  lemma NotSettled(x: seq<byte>, cap: nat, invalid: bool)
    requires Shape(x, cap, invalid) && !Collected(x) && !Rejected(x)
    ensures !Settled(x)
  {}

  lemma StillOwed(out: seq<byte>, record: seq<byte>, from: nat, n: nat, to: nat)
    requires from + n <= to <= |record|
    ensures out + record[from..to][..n] + record[from + n..to] == out + record[from..to]
  {
    assert record[from..to] == record[from..to][..n] + record[from + n..to];
  }

  /** Once the first record is settled, it stays so, and whatever comes behind it is more than the record. */
  lemma EndOfFirst(frag: seq<byte> -> int, x: seq<byte>, p: seq<byte>, m: nat)
    requires m <= |p|
    ensures Settled(x) ==> Settled(x + p[..m])
    ensures m == |p| && (Collected(x) || Rejected(x)) && (Collected(x + p[..m]) || Rejected(x + p[..m])) ==>
              p == [] && x + p[..m] == x
  {
    if Settled(x) {
      SettledGrows(frag, x, p[..m]);
    }
    if m == |p| && (Collected(x) || Rejected(x)) && (Collected(x + p[..m]) || Rejected(x + p[..m])) {
      ExactlyOne(x, p[..m]);
    }
  }

  /** `clientHelloFragWriter`. */
  class HelloFragWriter {
    const base: Sink
    const frag: seq<byte> -> int
    // Nothing is left to split or to flush.
    var done: bool
    const helloBuf: HelloBuffer
    // A bytes.Buffer over record[recFrom..recTo], or null.
    var record: array?<byte>
    var recFrom: nat
    var recTo: nat
    // What callers have been told was accepted.
    ghost var accepted: seq<byte>
    // A source failed before the first record was settled: splitting was given up.
    ghost var gaveUp: bool

    /** What the base writer should get in the end for what was accepted. */
    ghost function Expected(): seq<byte>
      reads this
    {
      if gaveUp then accepted else HelloEmit(frag, accepted)
    }

    /** Still collecting the first record. */
    ghost predicate Collecting()
      reads this, helloBuf, helloBuf.data, base
    {
      && !done && record == null && !gaveUp && base.out == []
      && helloBuf.Valid() && accepted == helloBuf.mem
    }

    ghost predicate Waiting()
      reads this, helloBuf, helloBuf.data, base
    {
      Collecting() && !Collected(accepted) && !Rejected(accepted)
    }

    /** The record is split, or is not to be; record[recFrom..recTo] has not been accepted yet. */
    ghost predicate Flushing()
      reads this, helloBuf, helloBuf.data, base
    {
      && !done && record == helloBuf.data && recFrom <= recTo <= helloBuf.data.Length
      && (gaveUp || Settled(accepted))
      && base.out + helloBuf.data[recFrom..recTo] == Expected()
    }

    /** Everything goes through, with `out` put out so far. */
    ghost predicate PassingAt(out: seq<byte>)
      reads this
    {
      done && (gaveUp || Settled(accepted)) && out == Expected()
    }

    ghost predicate Passing()
      reads this, base
    {
      PassingAt(base.out)
    }

    ghost predicate Valid()
      reads this, helloBuf, helloBuf.data, base
    {
      Waiting() || Flushing() || Passing()
    }

    constructor (base: Sink, frag: seq<byte> -> int)
      requires base.out == []
      ensures Valid() && this.base == base && this.frag == frag && accepted == [] && !gaveUp
      ensures fresh(helloBuf) && fresh(helloBuf.data)
    {
      this.base := base;
      this.frag := frag;
      helloBuf := new HelloBuffer();
      done, record, recFrom, recTo, accepted, gaveUp := false, null, 0, 0, [], false;
    }

    /** `copyHelloBufToRecord`. */
    method CopyHelloBufToRecord()
      requires Collecting()
      modifies this`record, this`recFrom, this`recTo
      ensures record == helloBuf.data && recFrom == 0 && recTo == |accepted| <= helloBuf.data.Length
      ensures helloBuf.data[recFrom..recTo] == accepted
    {
      record := helloBuf.data;
      recFrom, recTo := 0, helloBuf.len;
    }

    /** `splitHelloBufToRecord`. */
    method SplitHelloBufToRecord()
      requires Collecting() && Collected(accepted)
      modifies this`record, this`recFrom, this`recTo, helloBuf.data
      ensures Flushing()
    {
      var data := helloBuf.data;
      ghost var h, payload := accepted[..5], accepted[5..];
      CollectedIsSettled(frag, accepted);
      assert accepted == h + payload;
      assert data[HEADER_LEN..helloBuf.len] == payload;
      var headLen := frag(data[HEADER_LEN..helloBuf.len]);
      if headLen <= 0 || headLen >= helloBuf.len - HEADER_LEN {
        CopyHelloBufToRecord();
        return;
      }
      SplitInPlace(data, headLen, h, payload);
      record := data;
      recFrom, recTo := 0, data.Length;
      assert data[0..data.Length] == data[..];
    }

    /** `flushRecord`: one write of all that is left of the record. */
    method FlushRecord() returns (ok: bool)
      requires Flushing()
      modifies this`done, this`record, this`recFrom, base
      ensures Flushing() || Passing()
      ensures ok ==> Passing()
      ensures base.failures == old(base.failures) + B(!ok)
      ensures |base.calls| == |old(base.calls)| + B(old(recFrom < recTo))
      ensures ok && old(recFrom < recTo) ==> base.calls == old(base.calls) + [old(record[recFrom..recTo])]
    {
      ok := true;
      var n, left := 0, record[recFrom..recTo];
      if recFrom < recTo {
        n, ok := base.Write(left);
        assert n == |left| ==> left[..n] == left;
        StillOwed(old(base.out), record[..], recFrom, n, recTo);
      }
      recFrom := recFrom + n;
      if recFrom == recTo {
        record, done := null, true;
      }
    }

    /** The hello buffer has taken what it wants: `got` was accepted, and the record is settled. */
    method EndCollecting(status: HelloStatus)
      requires Collecting() && (status == FullyReceived <==> Collected(accepted)) && (status == Invalid <==> Rejected(accepted))
      requires status == FullyReceived || status == Invalid || status == Failed
      modifies this`record, this`recFrom, this`recTo, this`gaveUp, helloBuf.data
      ensures Flushing() && gaveUp == (status == Failed)
    {
      if status == FullyReceived {
        SplitHelloBufToRecord();
      } else {
        CopyHelloBufToRecord();
        if status == Invalid {
          RejectedIsSettled(frag, accepted);
        }
        gaveUp := status == Failed;
      }
    }

    /** Input that comes after the record has been flushed. */
    method WriteOn(p: seq<byte>) returns (n: nat, ok: bool)
      requires Passing()
      modifies this`accepted, base
      ensures Passing() && n <= |p| && accepted == old(accepted) + p[..n]
      ensures ok ==> n == |p|
      ensures base.failures == old(base.failures) + B(!ok)
      ensures base.calls == old(base.calls) + if |p| > 0 then [p[..n]] else []
    {
      n, ok := 0, true;
      if |p| > 0 {
        n, ok := base.Write(p);
      }
      if !gaveUp {
        SettledGrows(frag, accepted, p[..n]);
      }
      accepted := accepted + p[..n];
    }

    /** Passing input to the hello buffer until the first record is settled. */
    method CollectWrite(p: seq<byte>) returns (n: nat, more: bool)
      requires Waiting()
      modifies this`record, this`recFrom, this`recTo, this`accepted, this`gaveUp, helloBuf, helloBuf.data
      ensures !gaveUp && (helloBuf.data == old(helloBuf.data) || fresh(helloBuf.data))
      ensures n <= |p| && accepted == old(accepted) + p[..n]
      ensures if more then Waiting() && n == |p| else Flushing() && (Collected(accepted) || Rejected(accepted))
    {
      var status;
      n, status := helloBuf.Write(p);
      accepted := accepted + p[..n];
      more := status == NeedMore;
      if !more {
        EndCollecting(status);
      }
    }

    /** The part of Write up to the flushing of the first record. */
    method WriteFirst(p: seq<byte>) returns (n: nat, ok: bool, ready: bool)
      requires Valid()
      modifies this`done, this`record, this`recFrom, this`recTo, this`accepted, this`gaveUp,
               helloBuf, helloBuf.data, base
      ensures Valid() && gaveUp == old(gaveUp) && (helloBuf.data == old(helloBuf.data) || fresh(helloBuf.data))
      ensures n <= |p| && accepted == old(accepted) + p[..n]
      ensures base.failures == old(base.failures) + B(!ok)
      ensures ready ==> ok && Passing()
      ensures ok && !ready ==> n == |p| && base.out == HelloEmit(frag, accepted) && !gaveUp
      ensures |base.calls| <= |old(base.calls)| + B(!old(done)) && (ok && !ready ==> base.calls == old(base.calls) && Waiting())
      ensures ready && old(Waiting()) ==>
                base.calls == old(base.calls) + [HelloEmit(frag, accepted)] && (Collected(accepted) || Rejected(accepted))
    {
      n, ok, ready := 0, true, true;
      if !done {
        if record == null {
          var more;
          n, more := CollectWrite(p);
          if more {
            StillWaiting(frag, accepted, helloBuf.data.Length, helloBuf.invalid);
            return n, true, false;
          }
          SettledIsSent(frag, accepted);
          assert base.out + record[recFrom..recTo] == record[recFrom..recTo];
        }
        ok := FlushRecord();
        ready := ok;
      }
    }

    /** io.Writer.Write. Errors come from the base writer only, and what was not accepted can be
        written again. After a call that succeeds, the base writer has what the buffering fragmenter
        owes, unless splitting was given up on an input that should have been split. */
    method Write(p: seq<byte>) returns (n: nat, ok: bool)
      requires Valid()
      modifies this`done, this`record, this`recFrom, this`recTo, this`accepted, this`gaveUp,
               helloBuf, helloBuf.data, base
      ensures Valid() && gaveUp == old(gaveUp) && (helloBuf.data == old(helloBuf.data) || fresh(helloBuf.data))
      ensures n <= |p| && accepted == old(accepted) + p[..n]
      ensures ok ==> n == |p|
      ensures base.failures == old(base.failures) + B(!ok)
      ensures ok ==> (base.out == HelloEmit(frag, accepted) <==> !gaveUp || LeftAlone(frag, accepted))
      ensures |base.calls| <= |old(base.calls)| + 1 + B(!old(done))
      ensures ok && old(Waiting()) && (Collected(accepted) || Rejected(accepted)) ==>
                base.calls == old(base.calls) + [HelloEmit(frag, accepted)]
      ensures ok && old(Waiting()) && !Settled(accepted) ==> base.calls == old(base.calls)
    {
      ghost var before := accepted;
      var ready;
      n, ok, ready := WriteFirst(p);
      if !ready {
        return;
      }
      ghost var first := accepted;
      var m;
      m, ok := WriteOn(p[n..]);
      EndOfFirst(frag, first, p[n..], m);
      PassedOn(before, p, n, m);
      n := n + m;
      UnsplitExactlyWhen(frag, accepted);
    }

    method CollectRead(r: Source) returns (n: nat, more: bool, ghost got: seq<byte>)
      requires Waiting()
      modifies this`record, this`recFrom, this`recTo, this`accepted, this`gaveUp, helloBuf, helloBuf.data, r
      ensures helloBuf.data == old(helloBuf.data) || fresh(helloBuf.data)
      ensures n == |got| && old(r.rest) == got + r.rest && accepted == old(accepted) + got
      ensures gaveUp == GivesUp(r.Faults(), old(r.met), old(accepted), old(r.rest))
      ensures r.met == old(r.met) + Forgets(r.Faults(), old(r.met), old(accepted), old(r.rest))
      ensures if more then Waiting() && r.rest == [] else Flushing()
    {
      var status;
      n, status, got := helloBuf.ReadFrom(r);
      accepted := accepted + got;
      more := status == NeedMore;
      if !more {
        EndCollecting(status);
      }
    }

    /** The base writer reads the rest of r itself. What it takes and does not put out is lost: the writer
        goes on as if it were out. */
    method ReadOn(r: Source) returns (n: nat, status: CopyStatus, ghost got: seq<byte>, ghost lost: seq<byte>)
      requires Passing()
      modifies this`accepted, base, r
      ensures PassingAt(base.out + lost)
      ensures old(r.rest) == got + r.rest && accepted == old(accepted) + got
      ensures |got| - |lost| <= n <= |got|
      ensures base.failures == old(base.failures) + B(status == CopyWriteFailed) && (status != CopyWriteFailed ==> lost == [])
      ensures status == CopyDone ==> r.rest == []
      ensures status != CopyWriteFailed ==> r.met == old(r.met) + B(status == CopyReadFailed)
      ensures status == CopyReadFailed ==> r.met <= |r.Faults()|
    {
      ghost var sent, parts;
      n, status, sent, lost, parts := CopyFrom(base, r, None);
      got := sent + lost;
      if !gaveUp {
        SettledGrows(frag, accepted, got);
      }
      Regroup(old(base.out), sent, lost);
      accepted := accepted + got;
    }

    /** io.ReaderFrom.ReadFrom. Splitting is given up exactly if r fails before the first record is
        settled at a place where that is noticed, and exactly the failures up to the byte that settles it
        are forgotten: any later one is reported. What the base writer puts out is always a prefix of what
        it is owed. What it lost is what this writer takes to be out as well, and this writer can go on if
        and only if that is nothing. */
    method ReadFrom(r: Source) returns (n: nat, status: CopyStatus, ghost got: seq<byte>, ghost lost: seq<byte>)
      requires Valid()
      modifies this`done, this`record, this`recFrom, this`recTo, this`accepted, this`gaveUp,
               helloBuf, helloBuf.data, base, r
      ensures helloBuf.data == old(helloBuf.data) || fresh(helloBuf.data)
      ensures old(r.rest) == got + r.rest && accepted == old(accepted) + got && |got| - |lost| <= n <= |got|
      ensures base.out <= Expected() && (Valid() <==> lost == []) && (lost == [] || PassingAt(base.out + lost))
      ensures base.failures == old(base.failures) + B(status == CopyWriteFailed) && (status != CopyWriteFailed ==> lost == [])
      ensures gaveUp <==> old(gaveUp) || old(Waiting() && GivesUp(r.Faults(), r.met, accepted, r.rest))
      ensures status != CopyWriteFailed ==>
        r.met == old(r.met) + B(status == CopyReadFailed)
                 + old(if Waiting() then Forgets(r.Faults(), r.met, accepted, r.rest) else 0)
      ensures status == CopyReadFailed ==> r.met <= |r.Faults()|
      ensures status == CopyDone ==>
        r.rest == [] && (base.out == HelloEmit(frag, accepted) <==> !gaveUp || LeftAlone(frag, accepted))
    {
      var ready;
      n, status, ready, got := ReadFirst(r);
      lost := [];
      if !ready {
        NothingSentYet();
        return;
      }
      ghost var first := got;
      var m;
      m, status, got, lost := ReadOn(r);
      Regroup(first, got, r.rest);
      Regroup(old(accepted), first, got);
      n, got := n + m, first + got;
      PassingLost(lost);
      UnsplitExactlyWhen(frag, accepted);
    }

    /** The part of ReadFrom up to the flushing of the first record. */
    method ReadFirst(r: Source) returns (n: nat, status: CopyStatus, ready: bool, ghost got: seq<byte>)
      requires Valid()
      modifies this`done, this`record, this`recFrom, this`recTo, this`accepted, this`gaveUp,
               helloBuf, helloBuf.data, base, r
      ensures helloBuf.data == old(helloBuf.data) || fresh(helloBuf.data)
      ensures n == |got| && old(r.rest) == got + r.rest && accepted == old(accepted) + got
      ensures Valid() && base.out <= Expected() && (ready ==> Passing() && status == CopyDone)
      ensures base.failures == old(base.failures) + B(status == CopyWriteFailed)
      ensures gaveUp <==> old(gaveUp) || old(Waiting() && GivesUp(r.Faults(), r.met, accepted, r.rest))
      ensures r.met == old(r.met) + old(if Waiting() then Forgets(r.Faults(), r.met, accepted, r.rest) else 0)
      ensures status != CopyReadFailed
      ensures status == CopyDone && !ready ==> Waiting() && r.rest == []
    {
      n, status, ready, got := 0, CopyDone, true, [];
      if !done {
        if record == null {
          var more;
          n, more, got := CollectRead(r);
          if more {
            return n, CopyDone, false, got;
          }
        }
        var ok := FlushRecord();
        OwedIsMore();
        if !ok {
          return n, CopyWriteFailed, false, got;
        }
      }
      assert base.out <= base.out;
    }

    /** What is out is a prefix of what is owed. */
    lemma OwedIsMore()
      requires Valid()
      ensures base.out <= Expected()
    {
      if Waiting() {
        assert base.out == [];
      } else if Flushing() {
        assert base.out <= base.out + helloBuf.data[recFrom..recTo];
      }
    }

    lemma NothingSentYet()
      ensures Waiting() ==> base.out == HelloEmit(frag, accepted) && !gaveUp
    {
      if Waiting() {
        StillWaiting(frag, accepted, helloBuf.data.Length, helloBuf.invalid);
      }
    }

    lemma PassingLost(lost: seq<byte>)
      requires PassingAt(base.out + lost)
      ensures base.out <= Expected() && (Valid() <==> lost == [])
    {
      assert base.out + [] == base.out;
      if lost != [] {
        assert |base.out| < |Expected()|;
      }
    }
  }

  /** A failure that comes with the last byte of the payload is lost although the record is split; one
      that comes before it is lost too, and splitting is given up. */
  method FailureWithinTheRecord(withLast: bool) returns (status: CopyStatus, met: nat, ghost gaveUp: bool)
    ensures status != CopyWriteFailed ==> status == CopyDone && met == 1
    ensures gaveUp == !withLast
  {
    var base := new Sink();
    var w := new HelloFragWriter(base, _ => 1);
    var hello: seq<byte> := [HANDSHAKE, 3, 3, 0, 2, 7, 8];
    var r := new Source(hello, 0, [Fault(if withLast then 0 else 1, true)]);
    HelloExample(r.faults, hello, withLast);
    var n;
    ghost var got, lost;
    n, status, got, lost := w.ReadFrom(r);
    met, gaveUp := r.met, w.gaveUp;
  }

  lemma HelloExample(faults: seq<Fault>, hello: seq<byte>, withLast: bool)
    requires hello == [HANDSHAKE, 3, 3, 0, 2, 7, 8] && faults == [Fault(if withLast then 0 else 1, true)]
    ensures GivesUp(faults, 0, [], hello) == !withLast && Forgets(faults, 0, [], hello) == 1
  {
    assert [] + hello[..5] == [HANDSHAKE, 3, 3, 0, 2] == ([] + hello[..5])[..5];
  }
}
