/** Resolving through several functions at once: one goroutine each, one result channel, and an
    atomic counter that decides who closes the channel. */
module ParallelResolve {
  import opened Bytes
  import Counting

  /** A goroutine before its send, before its decrement, before the close that falls to it, and done. */
  datatype Pc = Resolving | Sent | MustClose | Done

  datatype State = State(pending: int, buffered: nat, received: nat, closings: nat, pcs: seq<Pc>)

  /** The channel has room for `n` results; with nobody to close it, it is closed at once. */
  function Init(n: nat): State {
    State(n, 0, 0, if n == 0 then 1 else 0, seq(n, _ => Resolving))
  }

  ghost predicate Send(s: State, i: nat, s': State) {
    && i < |s.pcs| && s.pcs[i] == Resolving && s.buffered < |s.pcs| && s.closings == 0
    && s' == s.(buffered := s.buffered + 1, pcs := s.pcs[i := Sent])
  }

  ghost predicate Decrement(s: State, i: nat, s': State) {
    && i < |s.pcs| && s.pcs[i] == Sent
    && s' == s.(pending := s.pending - 1, pcs := s.pcs[i := if s.pending == 1 then MustClose else Done])
  }

  ghost predicate Close(s: State, i: nat, s': State) {
    && i < |s.pcs| && s.pcs[i] == MustClose
    && s' == s.(closings := s.closings + 1, pcs := s.pcs[i := Done])
  }

  /** The dial loop reads a result, or does so no more. */
  ghost predicate Receive(s: State, s': State) {
    s.buffered > 0 && s' == s.(buffered := s.buffered - 1, received := s.received + 1)
  }

  ghost predicate Next(s: State, s': State) {
    Receive(s, s') || exists i: nat :: Send(s, i, s') || Decrement(s, i, s') || Close(s, i, s')
  }

  ghost predicate Run(n: nat, run: seq<State>) {
    |run| > 0 && run[0] == Init(n) && forall k :: 0 <= k < |run| - 1 ==> Next(run[k], run[k + 1])
  }

  datatype Role = Unsent | Undecremented | Closer

  function Weight(k: Role, pc: Pc): nat {
    match k
    case Unsent => B(pc == Resolving)
    case Undecremented => B(pc == Resolving || pc == Sent)
    case Closer => B(pc == MustClose)
  }

  function By(k: Role): Pc -> nat {
    pc => Weight(k, pc)
  }

  function Count(k: Role, pcs: seq<Pc>): nat {
    Counting.Total(By(k), pcs)
  }

  lemma CountMove(k: Role, pcs: seq<Pc>, i: nat, pc: Pc)
    requires i < |pcs|
    ensures Count(k, pcs[i := pc]) == Count(k, pcs) - Weight(k, pcs[i]) + Weight(k, pc)
    ensures Count(k, pcs) >= Weight(k, pcs[i])
  {
    Counting.Move(By(k), pcs, i, pc);
  }

  lemma CountFresh(n: nat)
    ensures var pcs := seq(n, _ => Resolving);
            Count(Unsent, pcs) == Count(Undecremented, pcs) == n && Count(Closer, pcs) == 0
  {
    var pcs := seq(n, _ => Resolving);
    Counting.Ones(By(Unsent), pcs);
    Counting.Ones(By(Undecremented), pcs);
    Counting.Zero(By(Closer), pcs);
  }

  lemma CountBounds(pcs: seq<Pc>)
    ensures Count(Unsent, pcs) <= Count(Undecremented, pcs) <= |pcs|
  {
    Counting.Below(By(Unsent), pcs, By(Undecremented), pcs);
    Counting.Below(By(Undecremented), pcs, _ => 1, pcs);
    Counting.Ones(_ => 1, pcs);
  }

  ghost predicate Inv(n: nat, s: State) {
    && |s.pcs| == n && s.pending == Count(Undecremented, s.pcs)
    && s.buffered + s.received + Count(Unsent, s.pcs) == n
    && s.closings + Count(Closer, s.pcs) == (if s.pending == 0 then 1 else 0)
  }

  lemma StepKeepsInv(n: nat, s: State, s': State)
    requires Next(s, s') && Inv(n, s)
    ensures Inv(n, s')
  {
    if !Receive(s, s') {
      var i: nat :| Send(s, i, s') || Decrement(s, i, s') || Close(s, i, s');
      CountMove(Unsent, s.pcs, i, s'.pcs[i]);
      CountMove(Undecremented, s.pcs, i, s'.pcs[i]);
      CountMove(Closer, s.pcs, i, s'.pcs[i]);
    }
  }

  lemma {:induction false} RunKeepsInv(n: nat, run: seq<State>)
    requires Run(n, run)
    ensures Inv(n, run[|run| - 1])
  {
    if |run| == 1 {
      CountFresh(n);
    } else {
      var before := run[..|run| - 1];
      assert Run(n, before) by {
        forall k | 0 <= k < |before| - 1
          ensures Next(before[k], before[k + 1])
        {
          assert Next(run[k], run[k + 1]);
        }
      }
      RunKeepsInv(n, before);
      StepKeepsInv(n, run[|run| - 2], run[|run| - 1]);
    }
  }

  ghost predicate CanMove(s: State, i: nat) {
    exists s' :: Send(s, i, s') || Decrement(s, i, s') || Close(s, i, s')
  }

  lemma UnfinishedCanMove(s: State, i: nat)
    requires i < |s.pcs| && s.pcs[i] != Done && (s.pcs[i] == Resolving ==> s.buffered < |s.pcs| && s.closings == 0)
    ensures CanMove(s, i)
  {
    match s.pcs[i]
    case Resolving =>
      assert Send(s, i, s.(buffered := s.buffered + 1, pcs := s.pcs[i := Sent]));
    case Sent =>
      assert Decrement(s, i, s.(pending := s.pending - 1, pcs := s.pcs[i := if s.pending == 1 then MustClose else Done]));
    case MustClose =>
      assert Close(s, i, s.(closings := s.closings + 1, pcs := s.pcs[i := Done]));
  }

  /** In every interleaving, whoever reads or does not: a goroutine that wants to send finds room in a
      channel that is not closed, none is ever stuck, and the channel is closed at most once, after every
      result is in. */
  lemma SendsNeverBlock(n: nat, run: seq<State>)
    requires Run(n, run)
    ensures var s := run[|run| - 1];
            && |s.pcs| == n
            && (forall i :: 0 <= i < n && s.pcs[i] == Resolving ==> s.buffered < n && s.closings == 0)
            && (forall i :: 0 <= i < n && s.pcs[i] != Done ==> CanMove(s, i))
            && (s.buffered > 0 ==> Receive(s, s.(buffered := s.buffered - 1, received := s.received + 1)))
            && s.closings <= 1
            && (s.closings == 1 ==> s.buffered + s.received == n)
            && ((forall i :: 0 <= i < n ==> s.pcs[i] == Done) ==> s.closings == 1)
  {
    RunKeepsInv(n, run);
    var s := run[|run| - 1];
    CountBounds(s.pcs);
    forall i | 0 <= i < n && s.pcs[i] == Resolving
      ensures s.buffered < n && s.closings == 0
    {
      CountMove(Unsent, s.pcs, i, Resolving);
    }
    forall i | 0 <= i < n && s.pcs[i] != Done
      ensures CanMove(s, i)
    {
      UnfinishedCanMove(s, i);
    }
    if forall i :: 0 <= i < n ==> s.pcs[i] == Done {
      Counting.Zero(By(Undecremented), s.pcs);
      Counting.Zero(By(Closer), s.pcs);
    }
  }

  /** The first k goroutines are done, and their results were read. */
  function Read(n: nat, k: nat): State
    requires k <= n
  {
    State(n - k, 0, k, if k == n then 1 else 0, seq(n, i => if i < k then Done else Resolving))
  }

  lemma OneMoreRead(n: nat, k: nat) returns (more: seq<State>)
    requires k < n
    ensures more != [] && Next(Read(n, k), more[0]) && more[|more| - 1] == Read(n, k + 1)
    ensures forall i :: 0 <= i < |more| - 1 ==> Next(more[i], more[i + 1])
  {
    var a := Read(n, k);
    var b := a.(buffered := 1, pcs := a.pcs[k := Sent]);
    assert Send(a, k, b);
    var c := b.(buffered := 0, received := k + 1);
    assert Receive(b, c);
    var d := c.(pending := n - k - 1, pcs := c.pcs[k := if n - k == 1 then MustClose else Done]);
    assert Decrement(c, k, d);
    if n - k == 1 {
      var e := d.(closings := 1, pcs := d.pcs[k := Done]);
      assert Close(d, k, e);
      assert e.pcs == Read(n, k + 1).pcs;
      more := [b, c, d, e];
    } else {
      assert d.pcs == Read(n, k + 1).pcs;
      more := [b, c, d];
    }
  }

  /** There is a run in which all results are read, every goroutine is done, and the channel is closed. */
  lemma {:induction false} AllAreRead(n: nat, k: nat) returns (run: seq<State>)
    requires k <= n
    ensures Run(n, run) && run[|run| - 1] == Read(n, k)
  {
    if k == 0 {
      run := [Init(n)];
      assert Init(n).pcs == Read(n, 0).pcs;
    } else {
      var before := AllAreRead(n, k - 1);
      var more := OneMoreRead(n, k - 1);
      run := before + more;
      forall i | 0 <= i < |run| - 1
        ensures Next(run[i], run[i + 1])
      {
        if i < |before| - 1 {
          assert Next(before[i], before[i + 1]);
        } else if i > |before| - 1 {
          assert Next(more[i - |before|], more[i - |before| + 1]);
        }
      }
    }
  }
}
