/** A staggered race of tests: the select loop, the test goroutines, the expiry of waits and the
    caller's cancellation interleave in any way. */
module StaggeredRace {
  import opened Bytes
  import Counting

  /** A test goroutine: testing, its result sent, and after it has ended its wait. */
  datatype Stage = Testing | Sent(err: bool) | Finished(err: bool)

  datatype Test = Test(stage: Stage, expired: bool)

  /** waitCh: nil, the closed channel of the beginning, or the wait of a test. */
  datatype Wait = Nil | Ready | Until(test: nat)

  datatype Result = Result(test: nat, err: bool)

  datatype Outcome = Running | Won(test: nat) | Cancelled | AllFailed

  datatype State = State(
    outcome: Outcome,
    cancelled: bool,
    next: nat,
    toTest: int,
    wait: Wait,
    tests: seq<Test>,
    // what was sent to resultChan, in order, and how much of it was received
    results: seq<Result>,
    received: nat)

  function Init(n: nat): State {
    State(Running, false, 0, n, Ready, [], [], 0)
  }

  /** A wait ends when its test has finished, its time is up or the search is cancelled. */
  ghost predicate WaitOver(s: State) {
    match s.wait
    case Nil => false
    case Ready => true
    case Until(i) => i < |s.tests| && (s.tests[i].stage.Finished? || s.tests[i].expired || s.cancelled)
  }

  /** Ready to start another test: the entry at `next`. */
  ghost predicate StartStep(n: nat, s: State, s': State) {
    && s.outcome == Running && s.toTest > 0 && WaitOver(s)
    && s' == s.(next := s.next + 1,
                wait := if s.next + 1 == n then Nil else Until(s.next),
                tests := s.tests + [Test(Testing, false)])
  }

  ghost predicate ReceiveStep(s: State, s': State) {
    && s.outcome == Running && s.toTest > 0 && s.received < |s.results|
    && var result := s.results[s.received];
       s' == s.(toTest := s.toTest - 1, received := s.received + 1,
                outcome := if result.err then Running else Won(result.test))
  }

  ghost predicate CancelStep(s: State, s': State) {
    s.outcome == Running && s.toTest > 0 && s.cancelled && s' == s.(outcome := Cancelled)
  }

  ghost predicate GiveUpStep(s: State, s': State) {
    s.outcome == Running && s.toTest <= 0 && s' == s.(outcome := AllFailed)
  }

  /** A test ends, and its result goes into the buffered channel. */
  ghost predicate SendStep(s: State, i: nat, s': State) {
    && i < |s.tests| && s.tests[i].stage == Testing
    && exists err :: s' == s.(tests := s.tests[i := s.tests[i].(stage := Sent(err))], results := s.results + [Result(i, err)])
  }

  /** The deferred testDone. */
  ghost predicate FinishStep(s: State, i: nat, s': State) {
    && i < |s.tests| && s.tests[i].stage.Sent?
    && s' == s.(tests := s.tests[i := s.tests[i].(stage := Finished(s.tests[i].stage.err))])
  }

  ghost predicate ExpireStep(s: State, i: nat, s': State) {
    i < |s.tests| && !s.tests[i].expired && s' == s.(tests := s.tests[i := s.tests[i].(expired := true)])
  }

  ghost predicate CallerCancels(s: State, s': State) {
    !s.cancelled && s' == s.(cancelled := true)
  }

  ghost predicate Step(n: nat, s: State, i: nat, s': State) {
    || StartStep(n, s, s') || ReceiveStep(s, s') || CancelStep(s, s') || GiveUpStep(s, s')
    || SendStep(s, i, s') || FinishStep(s, i, s') || ExpireStep(s, i, s') || CallerCancels(s, s')
  }

  ghost predicate Next(n: nat, s: State, s': State) {
    exists i: nat :: Step(n, s, i, s')
  }

  ghost predicate Run(n: nat, run: seq<State>) {
    |run| > 0 && run[0] == Init(n) && forall k :: 0 <= k < |run| - 1 ==> Next(n, run[k], run[k + 1])
  }

  function Untold(): Test -> nat {
    (test: Test) => B(test.stage.Testing?)
  }

  /** How many tests have not sent their result. */
  function Unsent(tests: seq<Test>): nat {
    Counting.Total(Untold(), tests)
  }

  /** Entries are started in order, and the loop waits for the latest test while there are more. */
  ghost predicate InOrder(n: nat, s: State) {
    && |s.tests| == s.next <= n
    && s.wait == (if s.next == 0 then Ready else if s.next == n then Nil else Until(s.next - 1))
  }

  /** Every test that ended has sent its result, once. */
  ghost predicate Accounts(n: nat, s: State) {
    && |s.results| + Unsent(s.tests) == |s.tests|
    && s.received <= |s.results| && s.toTest == n - s.received
    && (forall k :: 0 <= k < |s.results| ==> Told(s, s.results[k]))
    && (forall i :: 0 <= i < |s.tests| && !s.tests[i].stage.Testing? ==> Result(i, s.tests[i].stage.err) in s.results)
  }

  ghost predicate Told(s: State, result: Result) {
    && result.test < |s.tests| && !s.tests[result.test].stage.Testing?
    && s.tests[result.test].stage.err == result.err
  }

  /** Only errors were received, unless the loop returned the result it received last. */
  ghost predicate Received(s: State) {
    && (s.outcome == Running || s.outcome == AllFailed ==> forall k :: 0 <= k < s.received <= |s.results| ==> s.results[k].err)
    && (s.outcome == AllFailed ==> s.toTest <= 0)
    && (s.outcome == Cancelled ==> s.toTest > 0)
    && (s.outcome.Won? ==> 0 < s.received <= |s.results| && s.results[s.received - 1] == Result(s.outcome.test, false)
                           && forall k :: 0 <= k < s.received - 1 ==> s.results[k].err)
  }

  ghost predicate Inv(n: nat, s: State) {
    InOrder(n, s) && Accounts(n, s) && Received(s)
  }

  lemma StartKeeps(n: nat, s: State, s': State)
    requires StartStep(n, s, s') && Inv(n, s)
    ensures Inv(n, s')
  {
    Counting.Start(Untold(), s.tests, Test(Testing, false));
  }

  lemma SendKeeps(n: nat, s: State, i: nat, s': State)
    requires SendStep(s, i, s') && Inv(n, s)
    ensures Inv(n, s')
  {
    Counting.Move(Untold(), s.tests, i, s'.tests[i]);
    forall j | 0 <= j < |s'.tests| && !s'.tests[j].stage.Testing?
      ensures Result(j, s'.tests[j].stage.err) in s'.results
    {
      assert j == i || Result(j, s.tests[j].stage.err) in s.results;
      assert s'.results[|s.results|] == Result(i, s'.tests[i].stage.err);
    }
  }

  lemma QuietKeeps(n: nat, s: State, i: nat, s': State)
    requires (FinishStep(s, i, s') || ExpireStep(s, i, s')) && Inv(n, s)
    ensures Inv(n, s')
  {
    Counting.Move(Untold(), s.tests, i, s'.tests[i]);
    forall j | 0 <= j < |s'.tests| && !s'.tests[j].stage.Testing?
      ensures Result(j, s'.tests[j].stage.err) in s'.results
    {
      assert Result(j, s.tests[j].stage.err) in s.results;
    }
  }

  lemma StepKeepsInv(n: nat, s: State, i: nat, s': State)
    requires Step(n, s, i, s') && Inv(n, s)
    ensures Inv(n, s')
  {
    if StartStep(n, s, s') {
      StartKeeps(n, s, s');
    } else if SendStep(s, i, s') {
      SendKeeps(n, s, i, s');
    } else if FinishStep(s, i, s') || ExpireStep(s, i, s') {
      QuietKeeps(n, s, i, s');
    }
  }

  lemma NextKeepsInv(n: nat, s: State, s': State)
    requires Next(n, s, s') && Inv(n, s)
    ensures Inv(n, s')
  {
    var i: nat :| Step(n, s, i, s');
    StepKeepsInv(n, s, i, s');
  }

  lemma {:induction false} RunKeepsInv(n: nat, run: seq<State>)
    requires Run(n, run)
    ensures Inv(n, run[|run| - 1])
  {
    if |run| == 1 {
    } else {
      var before := run[..|run| - 1];
      assert Run(n, before) by {
        forall k | 0 <= k < |before| - 1
          ensures Next(n, before[k], before[k + 1])
        {
          assert Next(n, run[k], run[k + 1]);
        }
      }
      RunKeepsInv(n, before);
      assert Next(n, run[|run| - 2], run[|run| - 1]);
      NextKeepsInv(n, run[|run| - 2], run[|run| - 1]);
    }
  }

  /** In every interleaving, tests are started in the order of the entries, each once and never past
      the last, and each but the first only after the previous one finished, its wait expired or the
      search was cancelled. */
  lemma TestsStartInOrder(n: nat, run: seq<State>, s': State)
    requires Run(n, run) && StartStep(n, run[|run| - 1], s')
    ensures var s := run[|run| - 1];
            && s.next == |s.tests| < n && s'.tests == s.tests + [Test(Testing, false)]
            && (s.next > 0 ==> var previous := s.tests[s.next - 1];
                               previous.stage.Finished? || previous.expired || s.cancelled)
  {
    RunKeepsInv(n, run);
  }

  /** A test that ends finds room in the channel, whether or not anybody still reads it. */
  lemma SendsNeverBlock(n: nat, run: seq<State>, i: nat)
    requires Run(n, run) && i < |run[|run| - 1].tests| && run[|run| - 1].tests[i].stage.Testing?
    ensures var s := run[|run| - 1]; |s.results| - s.received < n
  {
    RunKeepsInv(n, run);
    Counting.Move(Untold(), run[|run| - 1].tests, i, run[|run| - 1].tests[i]);
  }

  /** The result that is returned is the first one received without an error, and of a test that ended without
      one; a cancellation comes only while a result is outstanding; while the race is on all results received were errors; and "all tests failed" means that the test
      of every entry ended with an error. */
  lemma OutcomeIsRight(n: nat, run: seq<State>)
    requires Run(n, run)
    ensures var s := run[|run| - 1];
            && (s.outcome.Won? ==> 0 < s.received <= |s.results|
                                   && s.results[s.received - 1] == Result(s.outcome.test, false)
                                   && (forall k :: 0 <= k < s.received - 1 ==> s.results[k].err)
                                   && Told(s, Result(s.outcome.test, false)))
            && (s.outcome == Running ==> forall k :: 0 <= k < s.received <= |s.results| ==> s.results[k].err)
            && (s.outcome == AllFailed ==>
                  |s.tests| == n && forall i :: 0 <= i < n ==> !s.tests[i].stage.Testing? && s.tests[i].stage.err)
            && (s.outcome == Cancelled ==> s.received < n)
  {
    RunKeepsInv(n, run);
    var s := run[|run| - 1];
    if s.outcome == AllFailed {
      forall i | 0 <= i < |s.tests|
        ensures !s.tests[i].stage.Testing? && s.tests[i].stage.err
      {
        Counting.Move(Untold(), s.tests, i, s.tests[i]);
        assert Result(i, s.tests[i].stage.err) in s.results;
      }
    }
  }

  /** The caller cancelled somewhere in the run. */
  ghost predicate CancelledIn(run: seq<State>) {
    exists k :: 0 <= k < |run| - 1 && CallerCancels(run[k], run[k + 1])
  }

  /** The search is cancelled, and ends so, only if the caller cancelled it. */
  lemma {:induction false} CancelledByTheCaller(n: nat, run: seq<State>)
    requires Run(n, run) && (run[|run| - 1].cancelled || run[|run| - 1].outcome == Cancelled)
    ensures CancelledIn(run)
  {
    if |run| == 1 {
    } else {
      var before, s, s' := run[..|run| - 1], run[|run| - 2], run[|run| - 1];
      assert Run(n, before) by {
        forall k | 0 <= k < |before| - 1
          ensures Next(n, before[k], before[k + 1])
        {
          assert Next(n, run[k], run[k + 1]);
        }
      }
      assert Next(n, s, run[|run| - 2 + 1]);
      if CallerCancels(s, s') {
        assert CallerCancels(run[|run| - 2], run[|run| - 2 + 1]);
      } else {
        CancelledByTheCaller(n, before);
        var k :| 0 <= k < |before| - 1 && CallerCancels(before[k], before[k + 1]);
        assert CallerCancels(run[k], run[k + 1]);
      }
    }
  }

  /** The race after the first k tests have failed, one after the other. */
  function Failed(n: nat, k: nat): State {
    State(Running, false, k, n - k, if k == 0 then Ready else if k == n then Nil else Until(k - 1),
          seq(k, _ => Test(Finished(true), false)), seq(k, i requires 0 <= i < k => Result(i, true)), k)
  }

  /** Test k is started. */
  lemma Started(n: nat, k: nat) returns (s: State)
    requires k < n
    ensures Next(n, Failed(n, k), s)
    ensures s == Failed(n, k).(next := k + 1, wait := Failed(n, k + 1).wait, tests := Failed(n, k).tests + [Test(Testing, false)])
  {
    s := Failed(n, k).(next := k + 1, wait := Failed(n, k + 1).wait, tests := Failed(n, k).tests + [Test(Testing, false)]);
    assert StartStep(n, Failed(n, k), s);
    assert Step(n, Failed(n, k), 0, s);
  }

  /** It ends, with an error or not. */
  lemma Ended(n: nat, k: nat, s: State, err: bool) returns (s': State)
    requires k < n && k < |s.tests| && s.tests[k].stage.Testing?
    ensures Next(n, s, s')
    ensures s' == s.(tests := s.tests[k := s.tests[k].(stage := Sent(err))], results := s.results + [Result(k, err)])
  {
    s' := s.(tests := s.tests[k := s.tests[k].(stage := Sent(err))], results := s.results + [Result(k, err)]);
    assert SendStep(s, k, s');
    assert Step(n, s, k, s');
  }

  lemma TestFails(n: nat, k: nat) returns (run: seq<State>)
    requires k < n
    ensures |run| == 5 && run[0] == Failed(n, k) && run[4] == Failed(n, k + 1)
    ensures forall i :: 0 <= i < 4 ==> Next(n, run[i], run[i + 1])
  {
    var a := Failed(n, k);
    var b := Started(n, k);
    var c := Ended(n, k, b, true);
    var d := c.(tests := c.tests[k := Test(Finished(true), false)]);
    assert FinishStep(c, k, d);
    assert Step(n, c, k, d);
    var e := Failed(n, k + 1);
    assert e.tests == d.tests && e.results == d.results;
    assert ReceiveStep(d, e);
    assert Step(n, d, 0, e);
    run := [a, b, c, d, e];
  }

  lemma Extended(n: nat, run: seq<State>, more: seq<State>)
    requires Run(n, run) && more != [] && more[0] == run[|run| - 1]
    requires forall i :: 0 <= i < |more| - 1 ==> Next(n, more[i], more[i + 1])
    ensures Run(n, run + more[1..])
  {
    var all := run + more[1..];
    forall i | 0 <= i < |all| - 1
      ensures Next(n, all[i], all[i + 1])
    {
      if i < |run| - 1 {
        assert Next(n, run[i], run[i + 1]);
      } else {
        var j := i - (|run| - 1);
        assert Next(n, more[j], more[j + 1]);
      }
    }
  }

  lemma {:induction false} FailedIsReached(n: nat, k: nat) returns (run: seq<State>)
    requires k <= n
    ensures Run(n, run) && run[|run| - 1] == Failed(n, k)
  {
    if k == 0 {
      run := [Failed(n, 0)];
    } else {
      run := FailedIsReached(n, k - 1);
      var more := TestFails(n, k - 1);
      Extended(n, run, more);
      run := run + more[1..];
    }
  }

  /** Whatever the entry, there is a race that it wins after all before it have failed. */
  lemma AnyTestCanWin(n: nat, k: nat) returns (run: seq<State>)
    requires k < n
    ensures Run(n, run) && run[|run| - 1].outcome == Won(k)
    ensures k < |run[|run| - 1].tests| && run[|run| - 1].tests[..k] == seq(k, _ => Test(Finished(true), false))
  {
    run := FailedIsReached(n, k);
    var b := Started(n, k);
    var c := Ended(n, k, b, false);
    var d := c.(toTest := c.toTest - 1, received := c.received + 1, outcome := Won(k));
    assert ReceiveStep(c, d);
    assert Step(n, c, 0, d);
    Extended(n, run, [Failed(n, k), b, c, d]);
    run := run + [Failed(n, k), b, c, d][1..];
  }

  /** And there is one in which all tests fail, and the race gives up. */
  lemma AllTestsCanFail(n: nat) returns (run: seq<State>)
    ensures Run(n, run) && run[|run| - 1].outcome == AllFailed
  {
    run := FailedIsReached(n, n);
    var d := Failed(n, n).(outcome := AllFailed);
    assert GiveUpStep(Failed(n, n), d);
    assert Step(n, Failed(n, n), 0, d);
    Extended(n, run, [Failed(n, n), d]);
    run := run + [Failed(n, n), d][1..];
  }

  function Steps(): Test -> nat {
    (test: Test) => (match test.stage case Testing => 2 case Sent(_) => 1 case Finished(_) => 0) + B(!test.expired)
  }

  function StepsLeft(tests: seq<Test>): nat {
    Counting.Total(Steps(), tests)
  }

  function Work(n: nat, s: State): int {
    4 * (n - s.next) + s.toTest + StepsLeft(s.tests) + B(!s.cancelled) + 2 * B(s.outcome == Running)
  }

  /** Every step leaves less to do. */
  lemma EveryStepIsProgress(n: nat, run: seq<State>, i: nat, s': State)
    requires Run(n, run) && Step(n, run[|run| - 1], i, s')
    ensures 0 <= Work(n, s') < Work(n, run[|run| - 1])
  {
    RunKeepsInv(n, run);
    var s := run[|run| - 1];
    StepKeepsInv(n, s, i, s');
    if StartStep(n, s, s') {
      Counting.Start(Steps(), s.tests, Test(Testing, false));
    } else if SendStep(s, i, s') || FinishStep(s, i, s') || ExpireStep(s, i, s') {
      Counting.Move(Steps(), s.tests, i, s'.tests[i]);
    }
  }

  /** A step of the loop itself. */
  ghost predicate LoopCanMove(n: nat, s: State) {
    exists s' :: StartStep(n, s, s') || ReceiveStep(s, s') || CancelStep(s, s') || GiveUpStep(s, s')
  }

  /** The test goroutine has a step of its own. */
  ghost predicate TestCanMove(s: State, i: nat) {
    exists s' :: SendStep(s, i, s') || FinishStep(s, i, s')
  }

  lemma UnfinishedCanMove(s: State, i: nat)
    requires i < |s.tests| && !s.tests[i].stage.Finished?
    ensures TestCanMove(s, i)
  {
    if s.tests[i].stage.Testing? {
      var s' := s.(tests := s.tests[i := s.tests[i].(stage := Sent(true))], results := s.results + [Result(i, true)]);
      assert SendStep(s, i, s');
    } else {
      var s' := s.(tests := s.tests[i := s.tests[i].(stage := Finished(s.tests[i].stage.err))]);
      assert FinishStep(s, i, s');
    }
  }

  /** While the race is on, the loop of itself can take a step, unless it waits for a test goroutine
      that still has one: one of the tests when all are started, and the latest one until its time is
      up otherwise. It never waits for the caller, and for nothing once the caller has cancelled. */
  lemma TheRaceNeverHangs(n: nat, run: seq<State>)
    requires Run(n, run) && run[|run| - 1].outcome == Running
    ensures var s := run[|run| - 1];
            || LoopCanMove(n, s)
            || (!s.cancelled && s.next == n && exists i: nat :: i < n && TestCanMove(s, i))
            || (!s.cancelled && 0 < s.next < n && TestCanMove(s, s.next - 1) && !s.tests[s.next - 1].expired)
  {
    RunKeepsInv(n, run);
    var s := run[|run| - 1];
    if s.toTest <= 0 {
      assert GiveUpStep(s, s.(outcome := AllFailed));
    } else if s.cancelled {
      assert CancelStep(s, s.(outcome := Cancelled));
    } else if s.received < |s.results| {
      var result := s.results[s.received];
      assert ReceiveStep(s, s.(toTest := s.toTest - 1, received := s.received + 1,
                               outcome := if result.err then Running else Won(result.test)));
    } else if WaitOver(s) {
      assert StartStep(n, s, s.(next := s.next + 1, wait := if s.next + 1 == n then Nil else Until(s.next),
                                tests := s.tests + [Test(Testing, false)]));
    } else {
      var i := s.next - 1;
      if s.next == n {
        i := Counting.Some(Untold(), s.tests);
      }
      UnfinishedCanMove(s, i);
    }
  }
}
