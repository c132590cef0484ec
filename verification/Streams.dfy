/** The two ends a transport writer sits between: an io.Reader and an io.Writer, with every
    chunking, delay and failure the Go interfaces allow. */
module Streams {
  import opened Bytes

  datatype ReadStatus = ReadOk | Eof | ReadFailed

  datatype FullStatus = Full | FullEof | UnexpectedEof | FullFailed

  datatype CopyStatus = CopyDone | CopyReadFailed | CopyWriteFailed

  /** A failure of a reader, due when `at` bytes are still to come: together with the byte that gets
      there, or alone at the read after it. */
  datatype Fault = Fault(at: nat, withByte: bool)

  /** The failure that comes after `met` others. */
  function Due(faults: seq<Fault>, met: nat): Option<Fault> {
    if met < |faults| then Some(faults[met]) else None
  }

  /** With `left` bytes to come, the failure strikes before n more are in. */
  predicate Within(f: Option<Fault>, left: nat, n: nat) {
    f.Some? && if f.value.at >= left then n > 0 else left - f.value.at < n
  }

  /** With `left` bytes to come, the failure comes together with the n-th of them. */
  predicate With(f: Option<Fault>, left: nat, n: nat) {
    f.Some? && f.value.withByte && f.value.at < left && left - f.value.at == n
  }

  /** How many failures waiting for n of `left` bytes meets. */
  function Struck(f: Option<Fault>, left: nat, n: nat): nat {
    B(Within(f, left, n) || With(f, left, n))
  }

  /** Reading n of `left` bytes met the failure, or did not. */
  predicate Met(f: Option<Fault>, left: nat, n: nat, struck: bool) {
    if struck then f.Some? && n == if f.value.at >= left then 0 else left - f.value.at
    else f.Some? ==>
      if f.value.at >= left then n == 0 else n < left - f.value.at || (n == left - f.value.at && !f.value.withByte)
  }

  lemma MetTwice(f: Option<Fault>, left: nat, m: nat, n: nat, struck: bool)
    requires m <= left && Met(f, left, m, false) && Met(f, left - m, n, struck)
    ensures Met(f, left, m + n, struck)
  {}

  /** Waiting for `want` bytes ended after n, at the failure or not. */
  lemma MetMeansStruck(f: Option<Fault>, left: nat, n: nat, want: nat, struck: bool)
    requires Met(f, left, n, struck) && n <= want && (!struck ==> n == want || f == None)
    requires struck && n == want ==> f.value.withByte && f.value.at < left
    ensures B(struck) == Struck(f, left, want) && (Within(f, left, want) <==> struck && n < want)
  {}

  /** An io.Reader that will deliver `rest` in chunks of any size, may return (0, nil) `patience`
      times, and, unless it is reliable, meets the failures it has coming, in order. */
  class Source {
    var rest: seq<byte>
    var patience: nat
    // The failures it has in store, and how many of them it has met.
    const faults: seq<Fault>
    var met: nat
    const reliable: bool
    // Whether it always gives as much as is asked for: a bytes.Reader.
    const eager: bool

    constructor (data: seq<byte>, patience: nat, faults: seq<Fault>)
      ensures rest == data && this.patience == patience && this.faults == faults && met == 0
      ensures reliable == (faults == []) && !eager
    {
      rest := data;
      this.patience := patience;
      this.faults := faults;
      met := 0;
      reliable := faults == [];
      eager := false;
    }

    /** bytes.NewReader. */
    constructor OfBytes(data: seq<byte>)
      ensures rest == data && patience == 0 && faults == [] && met == 0 && reliable && eager
    {
      rest, patience, faults, met, reliable, eager := data, 0, [], 0, true, true;
    }

    /** All its failures. */
    ghost function Faults(): seq<Fault> {
      if reliable then [] else faults
    }

    /** The next one. */
    ghost function Next(): Option<Fault>
      reads this
    {
      Due(Faults(), met)
    }

    /** Nothing more will come, not even a failure. */
    ghost predicate Ended()
      reads this
    {
      rest == [] && Next() == None
    }

    /** What is left of the stream, and how often it may still stall. */
    ghost function Budget(): nat
      reads this
    {
      |rest| + patience
    }

    /** io.Reader.Read with a buffer of `max` bytes. */
    method Read(max: nat) returns (data: seq<byte>, status: ReadStatus)
      modifies this
      ensures |data| <= max && old(rest) == data + rest && patience <= old(patience)
      ensures status == Eof ==> Ended()
      ensures reliable ==> status != ReadFailed
      ensures eager && reliable ==> |data| == Min(max, |old(rest)|)
      ensures status == ReadOk && max > 0 ==> Budget() < old(Budget())
      ensures met == old(met) + B(status == ReadFailed) && Met(old(Next()), |old(rest)|, |data|, status == ReadFailed)
      ensures status == ReadFailed && |data| > 0 ==> old(Next()).value.withByte && old(Next()).value.at < |old(rest)|
    {
      var failing := !reliable && met < |faults|;
      var due := failing && faults[met].at >= |rest|;
      var limit := if due then 0 else if failing then |rest| - faults[met].at else |rest|;
      var choice := *;
      if !eager && patience > 0 && choice {
        patience := patience - 1;
        return [], ReadOk;
      }
      choice := *;
      if max == 0 && choice {
        return [], ReadOk;
      }
      if due {
        met := met + 1;
        return [], ReadFailed;
      }
      if rest == [] {
        return [], Eof;
      }
      if max == 0 {
        return [], ReadOk;
      }
      var n: nat :| 0 < n <= max && n <= limit && (eager ==> n == Min(max, limit));
      data, rest := rest[..n], rest[n..];
      choice := *;
      if failing && n == limit && faults[met].withByte {
        met := met + 1;
        status := ReadFailed;
      } else {
        status := if rest == [] && !failing && choice then Eof else ReadOk;
      }
    }

    /** io.ReadFull: reads until `want` bytes have arrived, the source ends or a read fails. A failure
        that comes with the last byte that is wanted is dropped. */
    method ReadFull(want: nat) returns (data: seq<byte>, status: FullStatus)
      modifies this
      ensures |data| <= want && old(rest) == data + rest && patience <= old(patience)
      ensures status == Full <==> |data| == want
      ensures status.FullEof? ==> |data| == 0
      ensures status.UnexpectedEof? ==> |data| > 0
      ensures status.FullEof? || status.UnexpectedEof? ==> rest == []
      ensures reliable ==> status != FullFailed
      ensures reliable && status != Full ==> data == old(rest)
      ensures status == FullFailed <==> Within(old(Next()), |old(rest)|, want)
      ensures met == old(met) + Struck(old(Next()), |old(rest)|, want)
      ensures reliable ==> met == old(met)
    {
      data := [];
      var err := ReadOk;
      ghost var f, left := Next(), |rest|;
      while |data| < want && err == ReadOk
        invariant |data| <= want && old(rest) == data + rest && patience <= old(patience)
        invariant err == Eof ==> Ended()
        invariant reliable ==> err != ReadFailed
        invariant met == old(met) + B(err == ReadFailed) && Met(f, left, |data|, err == ReadFailed)
        invariant err == ReadFailed && |data| == want ==> f.value.withByte && f.value.at < left
        decreases err == ReadOk, Budget()
      {
        ghost var m := |data|;
        var more;
        more, err := Read(want - |data|);
        MetTwice(f, left, m, |more|, err == ReadFailed);
        data := data + more;
      }
      MetMeansStruck(f, left, |data|, want, err == ReadFailed);
      if |data| == want {
        status := Full;
      } else if err == Eof {
        status := if |data| == 0 then FullEof else UnexpectedEof;
      } else {
        status := FullFailed;
      }
    }
  }

  /** An io.Writer. `calls` lists what each Write call accepted; a call that accepts less than it
      was given reports an error, as io.Writer demands, and a call may also fail after accepting
      everything. `failures` counts the calls that have reported an error. */
  class Sink {
    ghost var calls: seq<seq<byte>>
    ghost var out: seq<byte>
    ghost var failures: nat

    constructor ()
      ensures calls == [] && out == [] && failures == 0
    {
      calls, out, failures := [], [], 0;
    }

    ghost predicate Failed()
      reads this
    {
      failures > 0
    }

    method Write(p: seq<byte>) returns (n: nat, ok: bool)
      modifies this
      ensures n <= |p| && out == old(out) + p[..n] && calls == old(calls) + [p[..n]]
      ensures ok ==> n == |p|
      ensures failures == old(failures) + B(!ok)
    {
      n :| 0 <= n <= |p|;
      ok := *;
      if n < |p| {
        ok := false;
      }
      calls := calls + [p[..n]];
      out := out + p[..n];
      failures := failures + B(!ok);
    }
  }

  /** io.ReaderFrom.ReadFrom of a base writer, through an io.LimitReader if there is a limit: it takes
      bytes off r in chunks of any size and passes them on, until r ends or fails, or one of its own
      writes does. Then bytes it has taken may be lost, and it may count any of them. */
  method CopyFrom(dst: Sink, r: Source, limit: Option<nat>)
    returns (n: nat, status: CopyStatus, ghost sent: seq<byte>, ghost lost: seq<byte>, ghost parts: seq<seq<byte>>)
    modifies dst, r
    ensures old(r.rest) == sent + lost + r.rest && |sent| <= n <= |sent| + |lost|
    ensures dst.out == old(dst.out) + sent
    ensures dst.calls == old(dst.calls) + parts && Flatten(parts) == sent
    ensures limit.Some? ==> |sent| + |lost| <= limit.value
    ensures status != CopyWriteFailed ==> lost == []
    ensures dst.failures == old(dst.failures) + B(status == CopyWriteFailed)
    ensures status == CopyDone && (limit.Some? ==> n < limit.value) ==> r.Ended()
    ensures status != CopyWriteFailed ==> r.met == old(r.met) + B(status == CopyReadFailed)
    ensures status == CopyReadFailed ==> r.met <= |r.Faults()|
    ensures r.reliable ==> status != CopyReadFailed
  {
    n, sent, lost, parts := 0, [], [], [];
    var err := ReadOk;
    while err == ReadOk && (limit.Some? ==> n < limit.value)
      invariant old(r.rest) == sent + r.rest && n == |sent| && (limit.Some? ==> n <= limit.value)
      invariant dst.out == old(dst.out) + sent && dst.failures == old(dst.failures)
      invariant dst.calls == old(dst.calls) + parts && Flatten(parts) == sent
      invariant err == Eof ==> r.Ended()
      invariant r.met == old(r.met) + B(err == ReadFailed) && (err == ReadFailed ==> r.met <= |r.Faults()|)
      invariant r.reliable ==> err != ReadFailed
      decreases err == ReadOk, r.Budget()
    {
      var max: nat :| max > 0 && (limit.Some? ==> max <= limit.value - n);
      var data;
      data, err := r.Read(max);
      var m, ok := dst.Write(data);
      Passed(sent, data, m, r.rest);
      FlattenSnoc(parts, data[..m]);
      Regroup(old(dst.out), sent, data[..m]);
      sent, parts, lost := sent + data[..m], parts + [data[..m]], data[m..];
      n := n + m;
      if !ok {
        var more: nat :| more <= |data| - m;
        n := n + more;
        return n, CopyWriteFailed, sent, lost, parts;
      }
      assert sent + [] == sent;
    }
    lost := [];
    status := if err == ReadFailed then CopyReadFailed else CopyDone;
  }

  lemma Passed(sent: seq<byte>, data: seq<byte>, m: nat, rest: seq<byte>)
    requires m <= |data|
    ensures sent + (data + rest) == (sent + data[..m]) + data[m..] + rest
    ensures m == |data| ==> data[m..] == []
  {
    assert data == data[..m] + data[m..];
  }
}
