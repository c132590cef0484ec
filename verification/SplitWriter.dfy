/** The stream splitter: a writer that never lets one call of the base writer carry bytes from both
    sides of a split point, and the iterators that say where those points are. */
module SplitWriter {
  import opened Bytes
  import opened Streams

  // Split points.

  /** The i-th answer of an iterator that gives `lengths` and then zeros. */
  function At(lengths: seq<int>, i: nat): int {
    if i < |lengths| then lengths[i] else 0
  }

  function Sum(lengths: nat -> nat, k: nat): nat {
    if k == 0 then 0 else Sum(lengths, k - 1) + lengths(k - 1)
  }

  /** A zero ends the splitting: it and what would come after it are no split points. */
  ghost predicate Positive(lengths: nat -> nat, k: nat) {
    forall j: nat :: j < k ==> lengths(j) > 0
  }

  /** The k-th split point is k lengths into the stream. */
  ghost predicate SplitPoint(lengths: nat -> nat, k: nat, at: nat) {
    k > 0 && Positive(lengths, k) && at == Sum(lengths, k)
  }

  /** No split point lies strictly between the two positions. */
  ghost predicate InOneSegment(lengths: nat -> nat, from: nat, to: nat) {
    forall k: nat, at: nat :: SplitPoint(lengths, k, at) ==> at <= from || to <= at
  }

  lemma {:induction false} SumGrows(lengths: nat -> nat, j: nat, k: nat)
    requires j <= k
    ensures Sum(lengths, j) <= Sum(lengths, k)
  {
    if j == k {
    } else {
      SumGrows(lengths, j, k - 1);
    }
  }

  /** Between two neighbouring split points there is none. */
  lemma WithinSegment(lengths: nat -> nat, asked: nat, from: nat, to: nat)
    requires asked > 0 && Sum(lengths, asked - 1) <= from && to <= Sum(lengths, asked)
    ensures InOneSegment(lengths, from, to)
  {
    forall k: nat, at: nat | SplitPoint(lengths, k, at)
      ensures at <= from || to <= at
    {
      if k < asked {
        SumGrows(lengths, k, asked - 1);
      } else {
        SumGrows(lengths, asked, k);
      }
    }
  }

  /** After the last split point there is none. */
  lemma AfterTheLast(lengths: nat -> nat, asked: nat, from: nat, to: nat)
    requires asked > 0 && Sum(lengths, asked - 1) <= from && lengths(asked - 1) == 0
    ensures InOneSegment(lengths, from, to)
  {
    forall k: nat, at: nat | SplitPoint(lengths, k, at)
      ensures at <= from
    {
      assert k < asked;
      SumGrows(lengths, k, asked - 1);
    }
  }

  /** What a single call of the base writer accepted never has bytes from both sides of a point. */
  ghost predicate NoneCrosses(lengths: nat -> nat, calls: seq<seq<byte>>) {
    forall c :: 0 <= c < |calls| ==>
      InOneSegment(lengths, |Flatten(calls[..c])|, |Flatten(calls[..c])| + |calls[c]|)
  }

  lemma OneMoreCall(lengths: nat -> nat, calls: seq<seq<byte>>, p: seq<byte>)
    requires NoneCrosses(lengths, calls) && InOneSegment(lengths, |Flatten(calls)|, |Flatten(calls)| + |p|)
    ensures NoneCrosses(lengths, calls + [p]) && Flatten(calls + [p]) == Flatten(calls) + p
  {
    FlattenSnoc(calls, p);
    forall c | 0 <= c < |calls + [p]|
      ensures InOneSegment(lengths, |Flatten((calls + [p])[..c])|, |Flatten((calls + [p])[..c])| + |(calls + [p])[c]|)
    {
      if c < |calls| {
        assert (calls + [p])[..c] == calls[..c];
      } else {
        assert (calls + [p])[..c] == calls;
      }
    }
  }

  ghost predicate CallEndsAt(calls: seq<seq<byte>>, at: nat) {
    exists c :: 0 <= c <= |calls| && |Flatten(calls[..c])| == at
  }

  /** So every split point that the stream has reached lies between two calls. */
  lemma {:induction false} EverySplitPointIsCut(lengths: nat -> nat, calls: seq<seq<byte>>, k: nat, at: nat)
    requires NoneCrosses(lengths, calls) && SplitPoint(lengths, k, at) && at <= |Flatten(calls)|
    ensures CallEndsAt(calls, at)
  {
    assert calls[..|calls|] == calls;
    if at == |Flatten(calls)| {
    } else {
      var init, last := calls[..|calls| - 1], calls[|calls| - 1];
      assert calls == init + [last];
      FlattenSnoc(init, last);
      assert InOneSegment(lengths, |Flatten(init)|, |Flatten(init)| + |last|);
      forall c | 0 <= c < |init|
        ensures InOneSegment(lengths, |Flatten(init[..c])|, |Flatten(init[..c])| + |init[c]|)
      {
        assert init[..c] == calls[..c];
      }
      EverySplitPointIsCut(lengths, init, k, at);
      var c :| 0 <= c <= |init| && |Flatten(init[..c])| == at;
      assert calls[..c] == init[..c];
    }
  }

  // Iterators.

  /** `NewFixedSplitIterator`. */
  class FixedSplitIterator {
    var n: int
    ghost const answers: seq<int>
    ghost var asked: nat

    ghost predicate Valid()
      reads this
    {
      |answers| == 1 && n == At(answers, asked)
    }

    constructor (n: int)
      ensures Valid() && answers == [n] && asked == 0
    {
      this.n := n;
      answers, asked := [n], 0;
    }

    method Next() returns (r: int)
      requires Valid()
      modifies this
      ensures Valid() && asked == old(asked) + 1 && r == At(answers, old(asked))
    {
      r := n;
      n := 0;
      asked := asked + 1;
    }
  }

  datatype RepeatedSplit = RepeatedSplit(count: int, bytes: int)

  function Repeat(n: nat, count: nat): (r: seq<nat>)
    ensures |r| == count
  {
    seq(count, _ => n)
  }

  /** What the pairs mean: `count` segments of `bytes` each; a pair without a positive count and a
      positive length means nothing. */
  function Expansion(splits: seq<RepeatedSplit>): seq<nat> {
    if splits == [] then []
    else
      var first := splits[0];
      (if first.count > 0 && first.bytes > 0 then Repeat(first.bytes, first.count) else []) + Expansion(splits[1..])
  }

  lemma {:induction false} ExpansionAppend(a: seq<RepeatedSplit>, b: seq<RepeatedSplit>)
    ensures Expansion(a + b) == Expansion(a) + Expansion(b)
  {
    if a == [] {
      assert a + b == b;
    } else {
      assert (a + b)[1..] == a[1..] + b;
      ExpansionAppend(a[1..], b);
    }
  }

  /** For example: three segments of two bytes and one of five. Pairs without a positive count and length
      add nothing. */
  lemma ExpansionExample(bytes: int, count: int)
    requires bytes <= 0 && count <= 0
    ensures Expansion([RepeatedSplit(3, 2), RepeatedSplit(count, 7), RepeatedSplit(4, bytes), RepeatedSplit(1, 5)])
         == [2, 2, 2, 5]
  {
    var splits := [RepeatedSplit(3, 2), RepeatedSplit(count, 7), RepeatedSplit(4, bytes), RepeatedSplit(1, 5)];
    assert splits[1..] == [RepeatedSplit(count, 7), RepeatedSplit(4, bytes), RepeatedSplit(1, 5)];
    assert splits[1..][1..] == [RepeatedSplit(4, bytes), RepeatedSplit(1, 5)];
    assert splits[1..][1..][1..] == [RepeatedSplit(1, 5)];
    assert Expansion([RepeatedSplit(1, 5)]) == Repeat(5, 1) + Expansion([]) == [5];
    assert Expansion(splits[1..]) == [5];
    assert Repeat(2, 3) == [2, 2, 2];
  }

  lemma {:induction false} ExpansionIsPositive(splits: seq<RepeatedSplit>)
    ensures forall i :: 0 <= i < |Expansion(splits)| ==> Expansion(splits)[i] > 0
  {
    if splits == [] {
    } else {
      ExpansionIsPositive(splits[1..]);
    }
  }

  ghost predicate Clean(splits: seq<RepeatedSplit>) {
    forall i :: 0 <= i < |splits| ==> splits[i].count > 0 && splits[i].bytes > 0
  }

  lemma LastOfPair(splits: seq<RepeatedSplit>)
    requires Clean(splits) && splits != [] && splits[0].count == 1
    ensures Expansion(splits) == [splits[0].bytes] + Expansion(splits[1..])
  {
    assert Repeat(splits[0].bytes, 1) == [splits[0].bytes];
  }

  lemma OneOfPair(splits: seq<RepeatedSplit>, fewer: RepeatedSplit)
    requires Clean(splits) && splits != [] && splits[0].count > 1
    requires fewer == RepeatedSplit(splits[0].count - 1, splits[0].bytes)
    ensures Expansion(splits) == [fewer.bytes] + Expansion(splits[0 := fewer])
  {
    assert splits[0 := fewer][1..] == splits[1..];
    var head, tail := Repeat(fewer.bytes, fewer.count), Expansion(splits[1..]);
    assert Repeat(fewer.bytes, splits[0].count) == [fewer.bytes] + head;
    assert [fewer.bytes] + head + tail == [fewer.bytes] + (head + tail);
  }

  /** Using one segment of the first pair up. */
  lemma ExpansionStep(splits: seq<RepeatedSplit>)
    requires Clean(splits) && splits != []
    ensures var first := splits[0]; var fewer := RepeatedSplit(first.count - 1, first.bytes);
            && Expansion(splits) == [first.bytes] + Expansion(if first.count == 1 then splits[1..] else splits[0 := fewer])
            && Clean(if first.count == 1 then splits[1..] else splits[0 := fewer])
  {
    if splits[0].count == 1 {
      LastOfPair(splits);
    } else {
      OneOfPair(splits, RepeatedSplit(splits[0].count - 1, splits[0].bytes));
    }
  }

  /** The i-th pair, unless it means nothing. */
  function Kept(splits: seq<RepeatedSplit>, i: nat): seq<RepeatedSplit>
    requires i < |splits|
  {
    if splits[i].count > 0 && splits[i].bytes > 0 then [splits[i]] else []
  }

  lemma ExpansionKeeps(clean: seq<RepeatedSplit>, splits: seq<RepeatedSplit>, i: nat)
    requires i < |splits| && Expansion(clean) == Expansion(splits[..i])
    ensures Expansion(clean + Kept(splits, i)) == Expansion(splits[..i + 1])
  {
    ExpansionAppend(clean, Kept(splits, i));
    ExpansionAppend(splits[..i], [splits[i]]);
    assert splits[..i + 1] == splits[..i] + [splits[i]] && [splits[i]][1..] == [];
  }

  /** The pairs that mean nothing are dropped before the first call. */
  method RemoveNoOps(splits: seq<RepeatedSplit>) returns (clean: seq<RepeatedSplit>)
    ensures Clean(clean) && Expansion(clean) == Expansion(splits)
  {
    clean := [];
    for i := 0 to |splits|
      invariant Clean(clean) && Expansion(clean) == Expansion(splits[..i])
    {
      ExpansionKeeps(clean, splits, i);
      if splits[i].count > 0 && splits[i].bytes > 0 {
        clean := clean + [splits[i]];
      } else {
        assert clean + [] == clean;
      }
    }
    assert splits[..|splits|] == splits;
  }

  /** `NewRepeatedSplitIterator`. */
  class RepeatedSplitIterator {
    var cleanSplits: seq<RepeatedSplit>
    ghost const answers: seq<nat>
    ghost var given: seq<nat>
    ghost var asked: nat

    ghost predicate Valid()
      reads this
    {
      && Clean(cleanSplits) && answers == given + Expansion(cleanSplits)
      && (if |given| < |answers| then asked == |given| else asked >= |answers|)
    }

    constructor (splits: seq<RepeatedSplit>)
      ensures Valid() && answers == Expansion(splits) && asked == 0
    {
      var clean := RemoveNoOps(splits);
      cleanSplits := clean;
      answers, given, asked := Expansion(splits), [], 0;
    }

    /** The i-th call answers with the i-th length of the expansion, and with zero after the last. */
    method Next() returns (r: nat)
      requires Valid()
      modifies this
      ensures Valid() && asked == old(asked) + 1 && r == At(answers, old(asked))
    {
      asked := asked + 1;
      if |cleanSplits| == 0 {
        return 0;
      }
      ExpansionStep(cleanSplits);
      var next := cleanSplits[0].bytes;
      given := given + [next];
      cleanSplits := cleanSplits[0 := RepeatedSplit(cleanSplits[0].count - 1, next)];
      if cleanSplits[0].count == 0 {
        cleanSplits := cleanSplits[1..];
      }
      r := next;
    }
  }

  // Where an iterator's answers put the split points of a writer.

  function Total(lengths: seq<nat>): nat {
    if lengths == [] then 0 else Total(lengths[..|lengths| - 1]) + lengths[|lengths| - 1]
  }

  /** The iterator gives `answers` and then zeros. */
  ghost predicate AnsweredBy(lengths: nat -> nat, answers: seq<nat>) {
    forall i: nat :: lengths(i) == At(answers, i)
  }

  lemma {:induction false} SumIsTotal(lengths: nat -> nat, answers: seq<nat>, k: nat)
    requires AnsweredBy(lengths, answers) && k <= |answers|
    ensures Sum(lengths, k) == Total(answers[..k])
  {
    if k == 0 {
      assert answers[..0] == [];
    } else {
      assert answers[..k][..k - 1] == answers[..k - 1];
      SumIsTotal(lengths, answers, k - 1);
    }
  }

  lemma PositiveAnswers(lengths: nat -> nat, answers: seq<nat>, k: nat, at: nat)
    requires AnsweredBy(lengths, answers) && forall i :: 0 <= i < |answers| ==> answers[i] > 0
    ensures SplitPoint(lengths, k, at) <==> 0 < k <= |answers| && at == Total(answers[..k])
  {
    if k <= |answers| {
      SumIsTotal(lengths, answers, k);
    } else {
      assert lengths(|answers|) == 0;
    }
  }

  /** A writer over a repeated iterator has exactly the split points that the pairs describe: after the
      first length of their expansion, after the first two, and so on to the last. */
  lemma RepeatedSplitPoints(lengths: nat -> nat, splits: seq<RepeatedSplit>, k: nat, at: nat)
    requires AnsweredBy(lengths, Expansion(splits))
    ensures SplitPoint(lengths, k, at) <==> 0 < k <= |Expansion(splits)| && at == Total(Expansion(splits)[..k])
  {
    ExpansionIsPositive(splits);
    PositiveAnswers(lengths, Expansion(splits), k, at);
  }

  /** A writer over a fixed iterator has one split point, or none for a length of zero. */
  lemma FixedSplitPoint(lengths: nat -> nat, n: nat, k: nat, at: nat)
    requires AnsweredBy(lengths, [n])
    ensures SplitPoint(lengths, k, at) <==> k == 1 && n > 0 && at == n
  {
    if n > 0 {
      PositiveAnswers(lengths, [n], k, at);
      assert [n][..1] == [n] && [n][..0] == [];
      assert Total([n]) == Total([n][..0]) + n;
    } else {
      assert lengths(0) == 0;
    }
  }

  // The writer.

  /** Where the writer stands, with `done` bytes out: the iterator was asked for `asked` lengths, and
      `next` bytes are left until the next split point, or there is none. */
  ghost predicate Standing(lengths: nat -> nat, asked: nat, next: nat, done: nat) {
    && asked > 0 && Positive(lengths, asked - 1) && Sum(lengths, asked - 1) <= done
    && if next == 0 then lengths(asked - 1) == 0 else done + next == Sum(lengths, asked)
  }

  /** What fits before the next split point crosses none. */
  lemma FitsInSegment(lengths: nat -> nat, asked: nat, next: nat, done: nat, n: nat)
    requires Standing(lengths, asked, next, done) && (next > 0 ==> n <= next)
    ensures InOneSegment(lengths, done, done + n)
  {
    if next == 0 {
      AfterTheLast(lengths, asked, done, done + n);
    } else {
      WithinSegment(lengths, asked, done, done + n);
    }
  }

  /** No split point lies behind what is out. */
  ghost predicate NoneAhead(lengths: nat -> nat, out: nat) {
    forall k: nat, at: nat :: SplitPoint(lengths, k, at) ==> at <= out
  }

  /** The next split point is the one that the writer counts down to. */
  lemma WhatIsAhead(lengths: nat -> nat, asked: nat, next: nat, done: nat, out: nat)
    requires Standing(lengths, asked, next, done) && out >= done && (next > 0 ==> out < done + next)
    ensures NoneAhead(lengths, out) <==> next == 0
  {
    if next == 0 {
      forall k: nat, at: nat | SplitPoint(lengths, k, at)
        ensures at <= out
      {
        SumGrows(lengths, k, asked - 1);
      }
    } else {
      assert SplitPoint(lengths, asked, Sum(lengths, asked));
    }
  }

  /** The iterator was asked once for the first length, and once more at every split point that is out. */
  lemma AskedCountsPoints(lengths: nat -> nat, asked: nat, next: nat, done: nat, k: nat, at: nat)
    requires Standing(lengths, asked, next, done) && SplitPoint(lengths, k, at)
    ensures at <= done <==> k < asked
  {
    if k < asked {
      SumGrows(lengths, k, asked - 1);
    } else {
      SumGrows(lengths, asked, k);
      assert lengths(asked - 1) > 0;
    }
  }

  /** `splitWriter`, with an iterator that answers its i-th call with lengths(i). */
  class SplitWriter {
    const base: Sink
    const lengths: nat -> nat
    // How often the iterator was called.
    var asked: nat
    var nextSplitBytes: nat

    ghost predicate Valid()
      reads this, base
    {
      && Standing(lengths, asked, nextSplitBytes, |base.out|)
      && base.out == Flatten(base.calls) && NoneCrosses(lengths, base.calls)
    }

    constructor (base: Sink, lengths: nat -> nat)
      requires base.calls == [] && base.out == []
      ensures Valid() && this.base == base && this.lengths == lengths
    {
      this.base := base;
      this.lengths := lengths;
      asked, nextSplitBytes := 1, lengths(0);
    }

    /** n more bytes after `done` count as out, at most up to the next split point. */
    method Advance(n: nat, ghost done: nat)
      requires Standing(lengths, asked, nextSplitBytes, done)
      requires nextSplitBytes > 0 ==> n <= nextSplitBytes
      modifies this`asked, this`nextSplitBytes
      ensures Standing(lengths, asked, nextSplitBytes, done + n)
      ensures old(nextSplitBytes) == 0 ==> nextSplitBytes == 0 && asked == old(asked)
      ensures old(nextSplitBytes) > 0 && nextSplitBytes == 0 ==> Sum(lengths, asked - 1) == done + n
      ensures asked == old(asked) + B(old(nextSplitBytes) > 0 && n == old(nextSplitBytes))
    {
      if nextSplitBytes == 0 {
        return;
      }
      nextSplitBytes := nextSplitBytes - n;
      if nextSplitBytes > 0 {
        return;
      }
      nextSplitBytes := lengths(asked);
      asked := asked + 1;
    }

    /** One call of the base writer with bytes that fit before the next split point. */
    method WriteSegment(p: seq<byte>) returns (n: nat, ok: bool)
      requires Valid() && (nextSplitBytes > 0 ==> |p| <= nextSplitBytes)
      modifies this`asked, this`nextSplitBytes, base
      ensures Valid() && n <= |p| && base.out == old(base.out) + p[..n]
      ensures base.failures == old(base.failures) + B(!ok) && (ok ==> n == |p|)
      ensures base.calls == old(base.calls) + [p[..n]]
      ensures asked == old(asked) + B(old(nextSplitBytes) > 0 && n == old(nextSplitBytes))
    {
      ghost var calls, done := base.calls, |base.out|;
      n, ok := base.Write(p);
      FitsInSegment(lengths, asked, nextSplitBytes, done, n);
      OneMoreCall(lengths, calls, p[..n]);
      Advance(n, done);
    }

    /** io.Writer.Write. Every call of the base writer stays within one segment, and the base writer
        gets the data in order, up to where a call failed. It is called no more than it takes: once for
        every split point that is reached, and once more, and with nothing only if there is nothing. */
    method Write(data: seq<byte>) returns (written: nat, ok: bool)
      requires Valid()
      modifies this`asked, this`nextSplitBytes, base
      ensures Valid() && written <= |data| && base.out == old(base.out) + data[..written]
      ensures base.failures == old(base.failures) + B(!ok) && (ok ==> written == |data|)
      ensures |old(base.calls)| < |base.calls| <= |old(base.calls)| + (asked - old(asked)) + 1
      ensures ok && data != [] ==> forall k :: |old(base.calls)| <= k < |base.calls| ==> base.calls[k] != []
    {
      written := 0;
      var left := data;
      while 0 < nextSplitBytes < |left|
        invariant Valid() && written <= |data| && left == data[written..]
        invariant base.out == old(base.out) + data[..written] && base.failures == old(base.failures)
        invariant |base.calls| == |old(base.calls)| + (asked - old(asked)) && asked >= old(asked)
        invariant data != [] ==> left != []
        invariant forall k :: |old(base.calls)| <= k < |base.calls| ==> base.calls[k] != []
        decreases |left|
      {
        var n, m := 0, nextSplitBytes;
        n, ok := WriteSegment(left[..m]);
        SentMore(old(base.out), data, written, m, n);
        written := written + n;
        if !ok {
          return;
        }
        left := left[n..];
      }
      var n;
      n, ok := WriteSegment(left);
      PassedOn(old(base.out), data, written, n);
      written := written + n;
    }

    /** What holds of the base writer whatever the counts say. */
    ghost predicate NothingCrossed()
      reads this, base
    {
      base.out == Flatten(base.calls) && NoneCrosses(lengths, base.calls)
    }

    /** `rf.ReadFrom`, through an io.LimitReader if there is a limit. No call of the base writer crosses a
        split point. If a write of its own fails, the count it returns may be of more than it has put
        out; this writer then stands right exactly if the count is of what is out, or if no split point
        lies behind that. */
    method CopySegment(source: Source, limit: Option<nat>)
      returns (n: nat, status: CopyStatus, ghost sent: seq<byte>, ghost lost: seq<byte>)
      requires Valid() && (nextSplitBytes > 0 ==> limit.Some? && limit.value <= nextSplitBytes)
      modifies this`asked, this`nextSplitBytes, base, source
      ensures old(source.rest) == sent + lost + source.rest && |sent| <= n <= |sent| + |lost|
      ensures limit.Some? ==> n <= limit.value
      ensures base.out == old(base.out) + sent && NothingCrossed()
      ensures Valid() <==> n == |sent| || NoneAhead(lengths, |base.out|)
      ensures base.failures == old(base.failures) + B(status == CopyWriteFailed) && (status != CopyWriteFailed ==> lost == [])
      ensures status == CopyDone && (limit.Some? ==> n < limit.value) ==> source.rest == []
      ensures status != CopyWriteFailed ==> source.met == old(source.met) + B(status == CopyReadFailed)
      ensures status == CopyReadFailed ==> source.met <= |source.Faults()|
    {
      ghost var calls, done, next := base.calls, |base.out|, nextSplitBytes;
      ghost var parts;
      n, status, sent, lost, parts := CopyFrom(base, source, limit);
      assert NothingCrossed() by {
        FitsInSegment(lengths, asked, nextSplitBytes, done, |sent|);
        MoreCalls(lengths, calls, parts);
      }
      Advance(n, done);
      Miscounted(lengths, old(asked), next, done, asked, nextSplitBytes, n, |sent|);
    }

    /** io.ReaderFrom.ReadFrom: segment by segment while there are split points, then the rest. The base
        writer gets the source's bytes in order, and no call of it crosses a split point, even if its
        own writes fail. Afterwards this writer stands right exactly if the count is of what is out, or
        if no split point lies behind that. */
    method ReadFrom(source: Source)
      returns (written: nat, status: CopyStatus, ghost sent: seq<byte>, ghost lost: seq<byte>)
      requires Valid()
      modifies this`asked, this`nextSplitBytes, base, source
      ensures old(source.rest) == sent + lost + source.rest && |sent| <= written <= |sent| + |lost|
      ensures base.out == old(base.out) + sent && NothingCrossed()
      ensures Valid() <==> written == |sent| || NoneAhead(lengths, |base.out|)
      ensures base.failures == old(base.failures) + B(status == CopyWriteFailed) && (status != CopyWriteFailed ==> lost == [])
      ensures status == CopyDone ==> source.rest == []
      ensures status != CopyWriteFailed ==> source.met == old(source.met) + B(status == CopyReadFailed)
      ensures status == CopyReadFailed ==> source.met <= |source.Faults()|
    {
      written, sent, lost := 0, [], [];
      ghost var got;
      while nextSplitBytes > 0
        invariant Valid() && old(source.rest) == sent + source.rest && written == |sent|
        invariant base.out == old(base.out) + sent && base.failures == old(base.failures)
        invariant source.met == old(source.met)
        decreases |source.rest|
      {
        var expectedBytes := nextSplitBytes;
        var n;
        n, status, got, lost := CopySegment(source, Some(expectedBytes));
        Append(old(base.out), sent, got, lost, source.rest);
        written, sent := written + n, sent + got;
        if status != CopyDone || n < expectedBytes {
          return;
        }
        assert sent + [] == sent;
      }
      var n;
      n, status, got, lost := CopySegment(source, None);
      Append(old(base.out), sent, got, lost, source.rest);
      written, sent := written + n, sent + got;
    }
  }

  lemma Append(out: seq<byte>, sent: seq<byte>, got: seq<byte>, lost: seq<byte>, rest: seq<byte>)
    ensures sent + (got + lost + rest) == sent + got + lost + rest && out + sent + got == out + (sent + got)
  {}

  /** A writer that counts n bytes after `done` as out stands right for the m that are out exactly if the
      count is right, or if no split point lies behind what is out. */
  lemma Miscounted(lengths: nat -> nat, asked: nat, next: nat, done: nat, asked': nat, next': nat, n: nat, m: nat)
    requires Standing(lengths, asked, next, done) && m <= n && (next > 0 ==> n <= next)
    requires Standing(lengths, asked', next', done + n)
    requires if next > 0 then next' == 0 ==> Sum(lengths, asked' - 1) == done + n else next' == 0 && asked' == asked
    ensures Standing(lengths, asked', next', done + m) <==> n == m || NoneAhead(lengths, done + m)
  {
    if n != m {
      WhatIsAhead(lengths, asked, next, done, done + m);
    }
  }

  /** A writer that has counted up to a split point, while less is out, goes on with a whole segment. That
      call crosses the split point exactly if the segment is longer than what is missing. */
  lemma SlippedCrosses(lengths: nat -> nat, asked: nat, next: nat, counted: nat, out: nat)
    requires Standing(lengths, asked, next, counted) && next > 0
    requires asked > 1 && Sum(lengths, asked - 2) <= out < counted == Sum(lengths, asked - 1)
    ensures InOneSegment(lengths, out, out + next) <==> out + next <= counted
  {
    if out + next <= counted {
      WithinSegment(lengths, asked - 1, out, out + next);
    } else {
      assert SplitPoint(lengths, asked - 1, counted);
    }
  }

  /** With segments of three bytes: after a first one that was counted in full while one byte is out, the
      next call carries the two that are missing and one more, over the split point. */
  lemma SlippedExample(lengths: nat -> nat)
    requires forall i: nat :: lengths(i) == 3
    ensures Standing(lengths, 2, 3, 3) && !Standing(lengths, 2, 3, 1) && !InOneSegment(lengths, 1, 1 + 3)
  {
    assert Sum(lengths, 1) == 3 && Sum(lengths, 2) == 6;
    SlippedCrosses(lengths, 2, 3, 3, 1);
  }

  /** Calls that together stay within one segment cross no point. */
  lemma {:induction false} MoreCalls(lengths: nat -> nat, calls: seq<seq<byte>>, parts: seq<seq<byte>>)
    requires NoneCrosses(lengths, calls)
    requires InOneSegment(lengths, |Flatten(calls)|, |Flatten(calls)| + |Flatten(parts)|)
    ensures NoneCrosses(lengths, calls + parts) && Flatten(calls + parts) == Flatten(calls) + Flatten(parts)
  {
    if parts == [] {
      assert calls + parts == calls;
    } else {
      var init, last := parts[..|parts| - 1], parts[|parts| - 1];
      assert parts == init + [last] && calls + parts == calls + init + [last];
      FlattenSnoc(init, last);
      FlattenAppend(calls, parts);
      FlattenAppend(calls, init);
      Narrower(lengths, |Flatten(calls)|, |Flatten(calls)| + |Flatten(parts)|,
               |Flatten(calls)|, |Flatten(calls)| + |Flatten(init)|);
      Narrower(lengths, |Flatten(calls)|, |Flatten(calls)| + |Flatten(parts)|,
               |Flatten(calls)| + |Flatten(init)|, |Flatten(calls)| + |Flatten(parts)|);
      MoreCalls(lengths, calls, init);
      OneMoreCall(lengths, calls + init, last);
    }
  }

  lemma Narrower(lengths: nat -> nat, from: nat, to: nat, from': nat, to': nat)
    requires InOneSegment(lengths, from, to) && from <= from' <= to' <= to
    ensures InOneSegment(lengths, from', to')
  {}

  lemma SentMore(out: seq<byte>, data: seq<byte>, written: nat, m: nat, n: nat)
    requires written + m <= |data| && n <= m
    ensures out + data[..written] + data[written..][..m][..n] == out + data[..written + n]
    ensures data[written..][n..] == data[written + n..]
  {
    assert data[..written + n] == data[..written] + data[written..][..m][..n];
  }
}
