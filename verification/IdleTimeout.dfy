/** The idle timeout of a packet association: senders, closers and the timer's callback, with every
    region under the mutex as one step at one time, and the clock moving between steps. */
module IdleTimeout {
  import opened Bytes
  import Counting

  /** SendPacket, Close and checkTimeout, before and after their critical section. */
  datatype Pc =
    | SendStart
    | Sending
    | CloseStart
    | CheckStart
    | ClosingInner
    | Sent
    | Closed
    | Rejected
    | Checked

  /** How the association was closed, and when. */
  datatype Ending = Ending(at: nat, idle: bool)

  datatype Shared = Shared(
    now: nat,
    closed: bool,
    // the inner sender is not nil
    inner: bool,
    lastActivity: nat,
    // when the timer goes off, if it is set
    timer: Option<nat>,
    // when sends were accepted, how the association ended, and calls of the inner Close
    accepted: seq<nat>,
    ending: Option<Ending>,
    innerCloses: nat,
    // packets passed on to the inner sender
    innerSends: nat)
  {
    /** The first phase of closing: the second is to close the inner sender outside the lock. */
    function Close(idle: bool): Shared {
      this.(closed := true, inner := false, timer := None, ending := Some(Ending(now, idle)))
    }
  }

  datatype State = State(shared: Shared, threads: seq<Pc>)

  /** The timer is set `lag` after the association's last activity is initialized. */
  function Init(timeout: nat, created: nat, lag: nat): State {
    State(Shared(created + lag, false, true, created, Some(created + lag + timeout), [], None, 0, 0), [])
  }

  ghost predicate Move(timeout: nat, a: Shared, pc: Pc, b: Shared, pc': Pc) {
    match pc
    case SendStart =>
      if a.closed then b == a && pc' == Rejected
      else b == a.(lastActivity := a.now, accepted := a.accepted + [a.now]) && pc' == Sending
    case Sending => b == a.(innerSends := a.innerSends + 1) && pc' == Sent
    case CloseStart =>
      if a.closed then b == a && pc' == Rejected else b == a.Close(false) && pc' == ClosingInner
    case CheckStart =>
      if a.closed then b == a && pc' == Checked
      else
        var elapsed := a.now - a.lastActivity;
        if elapsed >= timeout then b == a.Close(true) && pc' == ClosingInner
        else b == a.(timer := Some(a.now + (timeout - elapsed))) && pc' == Checked
    case ClosingInner => b == a.(innerCloses := a.innerCloses + 1) && pc' == Closed
    case _ => false
  }

  ghost predicate Step(timeout: nat, s: State, t: nat, s': State) {
    && t < |s.threads| && |s'.threads| == |s.threads|
    && Move(timeout, s.shared, s.threads[t], s'.shared, s'.threads[t])
    && s'.threads == s.threads[t := s'.threads[t]]
  }

  /** A caller arrives. */
  ghost predicate Call(s: State, s': State) {
    s' == s.(threads := s.threads + [SendStart]) || s' == s.(threads := s.threads + [CloseStart])
  }

  /** The timer goes off, and its callback starts. */
  ghost predicate Fire(s: State, s': State) {
    && s.shared.timer.Some? && s.shared.now >= s.shared.timer.value
    && s' == State(s.shared.(timer := None), s.threads + [CheckStart])
  }

  ghost predicate Tick(s: State, s': State) {
    s'.shared.now >= s.shared.now && s' == s.(shared := s.shared.(now := s'.shared.now))
  }

  ghost predicate Next(timeout: nat, s: State, s': State) {
    Call(s, s') || Fire(s, s') || Tick(s, s') || exists t: nat :: Step(timeout, s, t, s')
  }

  ghost predicate Run(timeout: nat, created: nat, lag: nat, run: seq<State>) {
    && |run| > 0 && run[0] == Init(timeout, created, lag)
    && forall i :: 0 <= i < |run| - 1 ==> Next(timeout, run[i], run[i + 1])
  }

  function Is(pc: Pc): Pc -> nat {
    other => B(other == pc)
  }

  function Count(pc: Pc, threads: seq<Pc>): nat {
    Counting.Total(Is(pc), threads)
  }

  /** While the association is open, either the callback is on its way or the timer is set in time. */
  ghost predicate Watched(timeout: nat, lag: nat, s: State) {
    && (!s.shared.closed ==>
          && Count(CheckStart, s.threads) + (if s.shared.timer.Some? then 1 else 0) == 1
          && (s.shared.timer.Some? ==> s.shared.timer.value <= s.shared.lastActivity + timeout + lag))
    && (s.shared.closed ==> s.shared.timer.None?)
  }

  /** The inner sender is closed once, by the thread that closed the association. */
  ghost predicate ClosedOnce(s: State) {
    && s.shared.innerCloses + Count(ClosingInner, s.threads) == (if s.shared.closed then 1 else 0)
    && s.shared.inner == !s.shared.closed && s.shared.ending.Some? == s.shared.closed
    && s.shared.innerSends + Count(Sending, s.threads) == |s.shared.accepted|
  }

  /** lastActivity is the latest of the creation and the accepted sends, and an idle close came at
      least a timeout later. */
  ghost predicate Idle(timeout: nat, created: nat, s: State) {
    && created <= s.shared.lastActivity <= s.shared.now
    && (forall k :: 0 <= k < |s.shared.accepted| ==> s.shared.accepted[k] <= s.shared.lastActivity)
    && (s.shared.lastActivity == created || s.shared.lastActivity in s.shared.accepted)
    && (s.shared.ending.Some? && s.shared.ending.value.idle ==> s.shared.lastActivity + timeout <= s.shared.ending.value.at)
  }

  ghost predicate Inv(timeout: nat, created: nat, lag: nat, s: State) {
    Watched(timeout, lag, s) && ClosedOnce(s) && Idle(timeout, created, s)
  }

  lemma StepKeepsInv(timeout: nat, created: nat, lag: nat, s: State, t: nat, s': State)
    requires Step(timeout, s, t, s') && Inv(timeout, created, lag, s)
    ensures Inv(timeout, created, lag, s')
  {
    Counting.Move(Is(CheckStart), s.threads, t, s'.threads[t]);
    Counting.Move(Is(ClosingInner), s.threads, t, s'.threads[t]);
    Counting.Move(Is(Sending), s.threads, t, s'.threads[t]);
  }

  lemma NextKeepsInv(timeout: nat, created: nat, lag: nat, s: State, s': State)
    requires Next(timeout, s, s') && Inv(timeout, created, lag, s)
    ensures Inv(timeout, created, lag, s')
  {
    if Call(s, s') || Fire(s, s') {
      var pc := s'.threads[|s.threads|];
      Counting.Start(Is(CheckStart), s.threads, pc);
      Counting.Start(Is(ClosingInner), s.threads, pc);
      Counting.Start(Is(Sending), s.threads, pc);
    } else if !Tick(s, s') {
      var t: nat :| Step(timeout, s, t, s');
      StepKeepsInv(timeout, created, lag, s, t, s');
    }
  }

  lemma {:induction false} RunKeepsInv(timeout: nat, created: nat, lag: nat, run: seq<State>)
    requires Run(timeout, created, lag, run)
    ensures Inv(timeout, created, lag, run[|run| - 1])
  {
    if |run| == 1 {
    } else {
      var before := run[..|run| - 1];
      assert Run(timeout, created, lag, before) by {
        forall i | 0 <= i < |before| - 1
          ensures Next(timeout, before[i], before[i + 1])
        {
          assert Next(timeout, run[i], run[i + 1]);
        }
      }
      RunKeepsInv(timeout, created, lag, before);
      NextKeepsInv(timeout, created, lag, run[|run| - 2], run[|run| - 1]);
    }
  }

  /** In every interleaving, an idle close came at least a timeout after the creation and after every
      send that was ever accepted. */
  lemma IdleCloseIsIdle(timeout: nat, created: nat, lag: nat, run: seq<State>)
    requires Run(timeout, created, lag, run)
    requires run[|run| - 1].shared.ending.Some? && run[|run| - 1].shared.ending.value.idle
    ensures var a := run[|run| - 1].shared;
            && created + timeout <= a.ending.value.at
            && forall k :: 0 <= k < |a.accepted| ==> a.accepted[k] + timeout <= a.ending.value.at
  {
    RunKeepsInv(timeout, created, lag, run);
  }

  /** The last accepted send was at `last`, or the creation if there was none. */
  ghost predicate LastUse(created: nat, a: Shared, last: nat) {
    (last == created || last in a.accepted) && created <= last && forall k :: 0 <= k < |a.accepted| ==> a.accepted[k] <= last
  }

  ghost predicate WatchedSince(timeout: nat, lag: nat, s: State, last: nat) {
    if s.shared.timer.Some? then s.shared.timer.value <= last + timeout + lag else Count(CheckStart, s.threads) == 1
  }

  ghost predicate InTime(timeout: nat, created: nat, lag: nat, s: State) {
    exists last: nat :: LastUse(created, s.shared, last) && WatchedSince(timeout, lag, s, last)
  }

  /** In every interleaving, an open association is being watched: its callback is on its way, or its
      timer goes off no later than a timeout after the last accepted send (or the creation, plus the lag
      with which the timer was first set). */
  lemma OpenMeansWatched(timeout: nat, created: nat, lag: nat, run: seq<State>)
    requires Run(timeout, created, lag, run) && !run[|run| - 1].shared.closed
    ensures InTime(timeout, created, lag, run[|run| - 1])
  {
    RunKeepsInv(timeout, created, lag, run);
    var s := run[|run| - 1];
    assert LastUse(created, s.shared, s.shared.lastActivity) && WatchedSince(timeout, lag, s, s.shared.lastActivity);
  }

  /** In every interleaving, once an open association is overdue its timer may go off, and whenever the
      callback is there, its step closes the association as idle. */
  lemma OverdueCloses(timeout: nat, created: nat, lag: nat, run: seq<State>, last: nat, t: nat, s': State)
    requires Run(timeout, created, lag, run) && !run[|run| - 1].shared.closed
    requires LastUse(created, run[|run| - 1].shared, last) && last + timeout + lag <= run[|run| - 1].shared.now
    ensures var a := run[|run| - 1].shared; a.timer.Some? ==> a.timer.value <= a.now
    ensures Step(timeout, run[|run| - 1], t, s') && run[|run| - 1].threads[t] == CheckStart ==>
              s'.shared.ending == Some(Ending(run[|run| - 1].shared.now, true)) && s'.threads[t] == ClosingInner
  {
    RunKeepsInv(timeout, created, lag, run);
    assert run[|run| - 1].shared.lastActivity == last;
  }

  /** And without anybody else's doing it is: the timer goes off, unless the callback is there already, and
      the callback closes the association as idle. */
  lemma OverdueCanClose(timeout: nat, created: nat, lag: nat, run: seq<State>, last: nat)
    returns (fired: State, t: nat, closed: State)
    requires Run(timeout, created, lag, run) && !run[|run| - 1].shared.closed
    requires LastUse(created, run[|run| - 1].shared, last) && last + timeout + lag <= run[|run| - 1].shared.now
    ensures fired == run[|run| - 1] || Fire(run[|run| - 1], fired)
    ensures Step(timeout, fired, t, closed) && closed.shared.ending == Some(Ending(run[|run| - 1].shared.now, true))
  {
    RunKeepsInv(timeout, created, lag, run);
    fired := run[|run| - 1];
    assert fired.shared.lastActivity == last;
    if fired.shared.timer.Some? {
      t := |fired.threads|;
      fired := State(fired.shared.(timer := None), fired.threads + [CheckStart]);
    } else {
      t := Counting.Some(Is(CheckStart), fired.threads);
    }
    closed := State(fired.shared.Close(true), fired.threads[t := ClosingInner]);
  }

  /** In every interleaving the callback closes an open association if and only if a timeout has passed
      since the last accepted send, or the creation; otherwise it sets the timer to that moment. */
  lemma CallbackIsExact(timeout: nat, created: nat, lag: nat, run: seq<State>, last: nat, t: nat, s': State)
    requires Run(timeout, created, lag, run) && !run[|run| - 1].shared.closed
    requires LastUse(created, run[|run| - 1].shared, last)
    requires Step(timeout, run[|run| - 1], t, s') && run[|run| - 1].threads[t] == CheckStart
    ensures var now := run[|run| - 1].shared.now;
            if last + timeout <= now then s'.shared.closed && s'.shared.ending == Some(Ending(now, true))
            else !s'.shared.closed && s'.shared.timer == Some(last + timeout) && s'.threads[t] == Checked
  {
    RunKeepsInv(timeout, created, lag, run);
    assert run[|run| - 1].shared.lastActivity == last;
  }

  /** A send is accepted if and only if the association is open, and then counts from that moment on; a
      call of Close closes it if and only if it is open. */
  lemma OpenAccepts(timeout: nat, s: State, t: nat, s': State)
    requires Step(timeout, s, t, s')
    ensures s.threads[t] == SendStart ==>
              if s.shared.closed then s'.threads[t] == Rejected && s'.shared == s.shared
              else s'.threads[t] == Sending && s'.shared.accepted == s.shared.accepted + [s.shared.now]
                   && s'.shared.lastActivity == s.shared.now && !s'.shared.closed && s'.shared.inner == s.shared.inner
    ensures s.threads[t] == CloseStart ==>
              if s.shared.closed then s'.threads[t] == Rejected && s'.shared == s.shared
              else s'.threads[t] == ClosingInner && s'.shared.closed && s'.shared.ending == Some(Ending(s.shared.now, false))
  {}

  /** In every interleaving, every accepted send is passed on to the inner sender once, or is about to be. */
  lemma AcceptedIsPassedOn(timeout: nat, created: nat, lag: nat, run: seq<State>)
    requires Run(timeout, created, lag, run)
    ensures var s := run[|run| - 1]; s.shared.innerSends + Count(Sending, s.threads) == |s.shared.accepted|
  {
    RunKeepsInv(timeout, created, lag, run);
  }

  /** In every interleaving of Close and the callback the inner sender is closed exactly once, by a
      thread that is doing so or has done so, and never while the association is open. */
  lemma InnerIsClosedOnce(timeout: nat, created: nat, lag: nat, run: seq<State>)
    requires Run(timeout, created, lag, run)
    ensures var s := run[|run| - 1];
            s.shared.innerCloses + Count(ClosingInner, s.threads) == (if s.shared.closed then 1 else 0)
  {
    RunKeepsInv(timeout, created, lag, run);
  }

  /** A send that starts when the association is closed is rejected, whatever happens later, and
      nothing is accepted any more. */
  lemma {:induction false} LaterSendsAreRejected(timeout: nat, run: seq<State>, t: nat, n: nat)
    requires n < |run| && run[0].shared.closed && t < |run[0].threads| && run[0].threads[t] == SendStart
    requires forall i :: 0 <= i < |run| - 1 ==> Next(timeout, run[i], run[i + 1])
    ensures run[n].shared.closed && run[n].shared.accepted == run[0].shared.accepted
    ensures t < |run[n].threads| && (run[n].threads[t] == SendStart || run[n].threads[t] == Rejected)
  {
    if n == 0 {
    } else {
      LaterSendsAreRejected(timeout, run, t, n - 1);
      assert Next(timeout, run[n - 1], run[n - 1 + 1]);
    }
  }

  /** A caller that is left alone: its call takes two steps. */
  lemma CallRuns(timeout: nat, created: nat, lag: nat, pc: Pc) returns (run: seq<State>)
    requires pc == SendStart || pc == CloseStart
    ensures Run(timeout, created, lag, run)
    ensures var s := run[|run| - 1];
            if pc == SendStart then s.threads == [Sent] && s.shared.accepted == [created + lag] && s.shared.innerSends == 1
            else s.threads == [Closed] && s.shared.innerCloses == 1 && s.shared.ending == Some(Ending(created + lag, false))
  {
    var a := Init(timeout, created, lag);
    assert [] + [pc] == [pc];
    var b := a.(threads := [pc]);
    assert Call(a, b);
    var now, mid, end := a.shared.now, if pc == SendStart then Sending else ClosingInner, if pc == SendStart then Sent else Closed;
    var c := if pc == SendStart then State(a.shared.(lastActivity := now, accepted := a.shared.accepted + [now]), [mid])
             else State(a.shared.Close(false), [mid]);
    assert Step(timeout, b, 0, c);
    var d := if pc == SendStart then State(c.shared.(innerSends := 1), [end]) else State(c.shared.(innerCloses := 1), [end]);
    assert Step(timeout, c, 0, d);
    run := [a, b, c, d];
  }
}
